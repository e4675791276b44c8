/** A packet as a sequence of pieces, raw bytes and names, written with one string table:
    every piece is found again in the finished packet. */
module DnsPieces {
  import opened Bytes
  import opened DnsNames
  import opened Common
  import opened DnsNameWriter
  import opened DnsNameRoundTrip

  datatype Piece = Raw(s: bytes) | Named(name: Name)

  function RawWritten(b: bytes, pos: nat, s: bytes, t: Ring): (r: Option<Progress>)
    requires pos <= |b| && RingOk(t)
    ensures r.Some? ==> |r.value.b| == |b| && pos <= r.value.pos <= |b| && RingOk(r.value.table)
  {
    if |b| - pos < |s| then None else Some(Progress(Spliced(b, pos, s), pos + |s|, t))
  }

  function PieceWritten(b: bytes, pos: nat, piece: Piece, t: Ring): (r: Option<Progress>)
    requires pos <= |b| && RingOk(t)
    ensures r.Some? ==> |r.value.b| == |b| && pos <= r.value.pos <= |b| && RingOk(r.value.table)
  {
    match piece
    case Raw(s) => RawWritten(b, pos, s, t)
    case Named(name) => Written(b, pos, name, t)
  }

  function PiecesWritten(b: bytes, pos: nat, pieces: seq<Piece>, t: Ring): (r: Option<Progress>)
    requires pos <= |b| && RingOk(t)
    ensures r.Some? ==> |r.value.b| == |b| && pos <= r.value.pos <= |b| && RingOk(r.value.table)
    decreases |pieces|
  {
    if pieces == [] then Some(Progress(b, pos, t)) else
      var w := PieceWritten(b, pos, pieces[0], t);
      if w.None? then None else PiecesWritten(w.value.b, w.value.pos, pieces[1..], w.value.table)
  }

  lemma {:induction false} PiecesAppend(b: bytes, pos: nat, x: seq<Piece>, y: seq<Piece>, t: Ring)
    requires pos <= |b| && RingOk(t)
    ensures PiecesWritten(b, pos, x + y, t)
         == match PiecesWritten(b, pos, x, t)
            case None => None
            case Some(w) => PiecesWritten(w.b, w.pos, y, w.table)
    decreases |x|
  {
    hide PieceWritten, RingOk;
    if x == [] {
      assert x + y == y;
    } else {
      assert (x + y)[1..] == x[1..] + y;
      var w := PieceWritten(b, pos, x[0], t);
      if w.Some? {
        PiecesAppend(w.value.b, w.value.pos, x[1..], y, w.value.table);
      }
    }
  }

  /** Names the encoding is made for: well-formed, at most 64 labels, none of them twice,
      and a member of the family. */
  ghost predicate Usable(name: Name, names: set<Name>)
  {
    name in names && name != [] && WellFormed(name) && Distinct(name) && |name| <= MAX_SUBSTRINGS
  }

  ghost predicate AllUsable(pieces: seq<Piece>, names: set<Name>)
  {
    forall piece | piece in pieces && piece.Named? :: Usable(piece.name, names)
  }

  /** From `pos` to `end` the packet holds the pieces one after the other. */
  ghost predicate PiecesRead(p: bytes, pos: nat, pieces: seq<Piece>, end: nat)
    decreases |pieces|
  {
    if pieces == [] then pos == end else
      match pieces[0]
      case Raw(s) => pos + |s| <= |p| && p[pos..pos + |s|] == s && PiecesRead(p, pos + |s|, pieces[1..], end)
      case Named(name) => Reads(p, pos, name) && PiecesRead(p, EndOf(p, pos, name), pieces[1..], end)
  }

  lemma PieceFrame(b: bytes, pos: nat, piece: Piece, t: Ring)
    requires pos <= |b| && RingOk(t) && PieceWritten(b, pos, piece, t).Some?
    ensures var w := PieceWritten(b, pos, piece, t).value;
            pos <= w.pos && w.b[..pos] == b[..pos] && w.b[w.pos..] == b[w.pos..]
  {
    if piece.Named? {
      hide Written;
      WrittenFrame(b, pos, piece.name, t);
    }
  }

  lemma {:induction false} PiecesFrame(b: bytes, pos: nat, pieces: seq<Piece>, t: Ring)
    requires pos <= |b| && RingOk(t) && PiecesWritten(b, pos, pieces, t).Some?
    ensures var w := PiecesWritten(b, pos, pieces, t).value;
            pos <= w.pos && w.b[..pos] == b[..pos] && w.b[w.pos..] == b[w.pos..]
    decreases |pieces|
  {
    hide PieceWritten, RingOk;
    if pieces != [] {
      PieceFrame(b, pos, pieces[0], t);
      var w1 := PieceWritten(b, pos, pieces[0], t).value;
      PiecesFrame(w1.b, w1.pos, pieces[1..], w1.table);
      var w := PiecesWritten(b, pos, pieces, t).value;
      assert w.b[..pos] == w.b[..w1.pos][..pos] == w1.b[..pos];
      assert w.b[w.pos..] == w1.b[w.pos..] == w1.b[w1.pos..][w.pos - w1.pos..] == b[w.pos..];
    }
  }

  /** The state of writing between two pieces. */
  ghost predicate Consistent(b: bytes, pos: nat, t: Ring, names: set<Name>)
  {
    |b| <= MAX_PACKET && SuffixFree(names) && Known(b, pos, t, {}, []) && Family(b, pos, t, {}, names)
  }

  lemma ConsistentStart(b: bytes, pos: nat, t: Ring, names: set<Name>)
    requires pos <= |b| <= MAX_PACKET && SuffixFree(names) && RingOk(t) && t.count == 0
    ensures Consistent(b, pos, t, names)
  {
  }

  lemma ConsistentFits(b: bytes, pos: nat, t: Ring, names: set<Name>)
    requires Consistent(b, pos, t, names)
    ensures RingOk(t) && pos <= |b| <= MAX_PACKET
  {
  }

  /** One piece: it is found again, and the state stays consistent. */
  lemma PieceReads(b: bytes, pos: nat, piece: Piece, t: Ring, names: set<Name>)
    requires Consistent(b, pos, t, names) && AllUsable([piece], names)
    requires PieceWritten(b, pos, piece, t).Some?
    ensures var w := PieceWritten(b, pos, piece, t).value;
            Consistent(w.b, w.pos, w.table, names) && PiecesRead(w.b[..w.pos], pos, [piece], w.pos)
  {
    hide Known, Family, SuffixFree, Written, Reads, EndOf, SuffixOf;
    ConsistentFits(b, pos, t, names);
    PieceFrame(b, pos, piece, t);
    var w := PieceWritten(b, pos, piece, t).value;
    match piece
    case Raw(s) =>
      KnownExtends(b, pos, t, {}, [], w.b, w.pos, []);
      FamilyExtends(b, pos, t, {}, names, w.b, w.pos);
      assert w.b[..w.pos][pos..w.pos] == s;
    case Named(name) =>
      assert piece in [piece];
      KnownForAny(b, pos, t, name);
      assert SuffixOf(names, name) by { MemberIsSuffix(names, name); }
      WrittenReads(b, pos, name, t, {});
      FamilyWritten(b, pos, name, t, {}, names);
  }

  lemma MemberIsSuffix(names: set<Name>, name: Name)
    requires name in names && name != []
    ensures SuffixOf(names, name)
  {
    assert name[0..] == name;
  }

  /** Without partial entries, the labels left to write do not matter. */
  lemma KnownForAny(b: bytes, pos: nat, t: Ring, ls: Name)
    requires Known(b, pos, t, {}, [])
    ensures Known(b, pos, t, {}, ls)
  {
    hide Entry, LabelAt;
    forall k | 0 <= k < t.count ensures KnownEntry(b, pos, t.offset[k], {}, ls) {
      assert KnownEntry(b, pos, t.offset[k], {}, []);
    }
  }

  lemma {:induction false} PiecesReadExtends(p: bytes, more: bytes, pos: nat, pieces: seq<Piece>, end: nat)
    requires PiecesRead(p, pos, pieces, end)
    ensures PiecesRead(p + more, pos, pieces, end)
    decreases |pieces|
  {
    hide Reads, EndOf;
    if pieces != [] {
      match pieces[0]
      case Raw(s) =>
        assert (p + more)[pos..pos + |s|] == p[pos..pos + |s|];
        PiecesReadExtends(p, more, pos + |s|, pieces[1..], end);
      case Named(name) =>
        ReadsExtends(p, more, pos, name);
        PiecesReadExtends(p, more, EndOf(p, pos, name), pieces[1..], end);
    }
  }

  lemma PiecesReadFirst(p: bytes, pos: nat, piece: Piece, mid: nat, rest: seq<Piece>, end: nat)
    requires PiecesRead(p, pos, [piece], mid) && PiecesRead(p, mid, rest, end)
    ensures PiecesRead(p, pos, [piece] + rest, end)
  {
    hide Reads, EndOf;
    assert [piece][1..] == [];
    assert ([piece] + rest)[1..] == rest;
  }

  /** Any sequence of names and other bytes written into one packet, however often the
      ring of the string table wraps, is found again piece by piece. */
  lemma {:induction false} PacketReadsBack(b: bytes, pos: nat, pieces: seq<Piece>, t: Ring, names: set<Name>)
    requires Consistent(b, pos, t, names) && AllUsable(pieces, names)
    requires PiecesWritten(b, pos, pieces, t).Some?
    ensures var w := PiecesWritten(b, pos, pieces, t).value;
            Consistent(w.b, w.pos, w.table, names) && PiecesRead(w.b[..w.pos], pos, pieces, w.pos)
    decreases |pieces|
  {
    hide Consistent, PieceWritten, RingOk, PiecesRead;
    if pieces == [] {
      EmptyRead(b, pos);
    } else {
      ConsistentFits(b, pos, t, names);
      assert pieces[0] in pieces;
      PieceReads(b, pos, pieces[0], t, names);
      var w1 := PieceWritten(b, pos, pieces[0], t).value;
      ConsistentFits(w1.b, w1.pos, w1.table, names);
      PacketReadsBack(w1.b, w1.pos, pieces[1..], w1.table, names);
      PiecesFrame(w1.b, w1.pos, pieces[1..], w1.table);
      var w := PiecesWritten(b, pos, pieces, t).value;
      assert w.b[..w.pos] == w1.b[..w1.pos] + w.b[w1.pos..w.pos];
      PiecesReadExtends(w1.b[..w1.pos], w.b[w1.pos..w.pos], pos, [pieces[0]], w1.pos);
      PiecesReadFirst(w.b[..w.pos], pos, pieces[0], w1.pos, pieces[1..], w.pos);
      assert pieces == [pieces[0]] + pieces[1..];
    }
  }

  lemma EmptyRead(b: bytes, pos: nat)
    requires pos <= |b|
    ensures PiecesRead(b[..pos], pos, [], pos)
  {
  }

  /** For the reader: at the start of every name, extraction yields the labels with a final
      dot and lands, as skipping does, exactly where the writer stopped. */
  lemma NameReadsBack(b: bytes, pos: nat, name: Name, t: Ring, names: set<Name>, more: bytes, capacity: nat)
    requires Consistent(b, pos, t, names) && Usable(name, names)
    requires Written(b, pos, name, t).Some?
    ensures var w := Written(b, pos, name, t).value;
            var packet := w.b[..w.pos] + more;
            && ExtractFrom(packet, pos, None, [], capacity, 0) == Some(Extracted(Cut(Dotted(name), capacity), w.pos))
            && SkipFrom(packet, pos, 0) == Some(w.pos)
  {
    hide Consistent, Reads, EndOf, Written;
    ConsistentFits(b, pos, t, names);
    var w := Written(b, pos, name, t).value;
    assert PieceWritten(b, pos, Named(name), t) == Some(w);
    PieceReads(b, pos, Named(name), t, names);
    var p := w.b[..w.pos];
    assert [Named(name)][1..] == [];
    assert Reads(p, pos, name) && EndOf(p, pos, name) == w.pos;
    ReadsExtends(p, more, pos, name);
    ExtractReads(p + more, pos, name, None, [], capacity, 0);
    assert [] + Dotted(name) == Dotted(name);
    SkipReads(p + more, pos, name, 0);
  }

  // --- why the family must be suffix-free ---

  /** Labels go into free slots of the table in order. */
  lemma {:induction false} SlotsFill(b: bytes, pos: nat, ls: Name, t: Ring)
    requires pos <= |b| && RingOk(t) && Written(b, pos, ls, t).Some?
    requires t.count + |ls| <= CAPACITY
    ensures var w := Written(b, pos, ls, t).value;
            w.table.count >= t.count && forall k :: 0 <= k < t.count ==> w.table.offset[k] == t.offset[k]
    decreases |ls|
  {
    hide FoundFrom, Spliced;
    if ls != [] && FoundFrom(b, t, ls, 0).None? {
      SlotsFill(Spliced(b, pos, [|ls[0]| % 256] + ls[0]), pos + |ls[0]| + 1, ls[1..], Added(t, pos));
    }
  }

  /** A single name with distinct labels is a suffix-free family. */
  lemma DistinctIsSuffixFree(name: Name)
    requires Distinct(name)
    ensures SuffixFree({name})
  {
    hide Distinct;
    forall a, c | SuffixOf({name}, a) && SuffixOf({name}, c) && a <= c ensures a == c {
      var n, i: nat :| n in {name} && i < |n| && n[i..] == a;
      var m, j: nat :| m in {name} && j < |m| && m[j..] == c;
      SameSuffix(name, i, j);
    }
  }

  lemma SameSuffix(name: Name, i: nat, j: nat)
    requires Distinct(name) && i < |name| && j < |name| && name[i..] <= name[j..]
    ensures i == j
  {
    assert name[i..][0] == name[j..][0];
  }

  function NewRing(): (t: Ring)
    ensures RingOk(t) && t.count == 0
  {
    Ring(seq(CAPACITY, i => 0), 0, 0)
  }

  /** Outside such a family the round trip is false: in a new packet, a name that is cut
      off an earlier one (`a.b` after `a.b.c`) is written as a pointer to the longer name,
      and the longer name is what comes back. */
  lemma PrefixCaptured(b: bytes, long: Name, k: nat)
    requires |b| <= MAX_PACKET && 1 <= k < |long| <= CAPACITY && WellFormed(long) && Distinct(long)
    requires Written(b, 0, long, NewRing()).Some?
    requires var w := Written(b, 0, long, NewRing()).value; Written(w.b, w.pos, long[..k], w.table).Some?
    ensures var w := Written(b, 0, long, NewRing()).value;
            var w2 := Written(w.b, w.pos, long[..k], w.table).value;
            Reads(w2.b[..w2.pos], w.pos, long) && !Reads(w2.b[..w2.pos], w.pos, long[..k])
  {
    hide Reads, EndOf, Entry, NamedAt, LabelAt, SuffixFree, SuffixOf, Resolved, Written;
    var short := long[..k];
    var w := Written(b, 0, long, NewRing()).value;
    DistinctIsSuffixFree(long);
    MemberIsSuffix({long}, long);
    FamilyWritten(b, 0, long, NewRing(), {}, {long});
    WrittenReads(b, 0, long, NewRing(), {});
    EntryOf(w.b[..w.pos], 0, long);
    FirstSlot(b, long);
    FirstSlotFound(w, long, short);
    KnownForAny(w.b, w.pos, w.table, short);
    WrittenReads(w.b, w.pos, short, w.table, {});
    ResolvedUnfolds(w.b, w.pos, short, w.table);
    var w2 := Written(w.b, w.pos, short, w.table).value;
    if Reads(w2.b[..w2.pos], w.pos, short) {
      ReadsUnique(w2.b[..w2.pos], w.pos, short, long);
    }
  }

  lemma FirstSlot(b: bytes, ls: Name)
    requires 1 <= |ls| <= CAPACITY && Written(b, 0, ls, NewRing()).Some?
    ensures var w := Written(b, 0, ls, NewRing()).value; w.table.offset[0] == 0 && w.table.count >= 1
  {
    WrittenUnfolds(b, 0, ls, NewRing());
    SlotsFill(Spliced(b, 0, [|ls[0]| % 256] + ls[0]), |ls[0]| + 1, ls[1..], Added(NewRing(), 0));
  }

  lemma FirstSlotFound(w: Progress, long: Name, short: Name)
    requires RingOk(w.table) && w.pos <= |w.b| && w.table.count >= 1 && w.table.offset[0] == 0
    requires Reads(w.b[..w.pos], 0, long) && WellFormed(short) && short != [] && short <= long
    ensures FoundFrom(w.b, w.table, short, 0) == Some(0)
  {
    hide Reads, GoesOnWith;
    ReadsExtends(w.b[..w.pos], w.b[w.pos..], 0, long);
    PrefixSplit(w.b, w.pos);
    GoesOnIffPrefix(w.b, 0, long, short);
    ReadsInside(w.b[..w.pos], 0, long);
  }

  lemma ReadsInside(p: bytes, pos: nat, ls: Name)
    requires Reads(p, pos, ls)
    ensures pos < |p|
  {
  }
}
