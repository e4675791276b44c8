/** Comparing two names in two packets, through their pointers and without regard to case. */
module DnsNameEqual {
  import opened Bytes
  import opened DnsNames
  import opened Common

  function Lower(c: byte): (l: byte)
  {
    if 65 <= c <= 90 then c + 32 else c
  }

  /** `strncasecmp` over two labels of one length finds no difference: it stops at a NUL in both. */
  predicate SameText(a: bytes, c: bytes)
    requires |a| == |c|
  {
    a == [] || (Lower(a[0]) == Lower(c[0]) && (a[0] == 0 || SameText(a[1..], c[1..])))
  }

  predicate SameLabel(a: bytes, c: bytes)
  {
    |a| == |c| && SameText(a, c)
  }

  predicate SameName(ls: Name, rs: Name)
  {
    |ls| == |rs| && forall i :: 0 <= i < |ls| ==> SameLabel(ls[i], rs[i])
  }

  /** The ends of both names, when the names are equal from `lcur` and `rcur` on. */
  function EqualFrom(l: bytes, lcur: nat, lend: Option<nat>, r: bytes, rcur: nat, rend: Option<nat>, counter: nat)
    : (ends: Option<(nat, nat)>)
    decreases MAX_SUBSTRINGS + 1 - counter
  {
    var lsub, rsub := NextSubstring(l, lcur), NextSubstring(r, rcur);
    if lsub.None? || rsub.None? || counter > MAX_SUBSTRINGS then None
    else
      var ls, rs := lsub.value, rsub.value;
      if !SameLabel(l[ls.offset..ls.offset + ls.length], r[rs.offset..rs.offset + rs.length]) then None
      else
        var lend' := if ls.ref && lend.None? then Some(lcur + 2) else lend;
        var rend' := if rs.ref && rend.None? then Some(rcur + 2) else rend;
        if ls.length == 0 then
          Some((if lend'.Some? then lend'.value else ls.offset + 1, if rend'.Some? then rend'.value else rs.offset + 1))
        else EqualFrom(l, ls.offset + ls.length, lend', r, rs.offset + rs.length, rend', counter + 1)
  }

  method Strncasecmp(lhs: array<byte>, lofs: nat, rhs: array<byte>, rofs: nat, length: nat) returns (same: bool)
    requires lofs + length <= lhs.Length && rofs + length <= rhs.Length
    ensures same <==> SameText(lhs[lofs..lofs + length], rhs[rofs..rofs + length])
  {
    ghost var a, c := lhs[lofs..lofs + length], rhs[rofs..rofs + length];
    assert a[0..] == a && c[0..] == c;
    for i := 0 to length
      invariant SameText(a, c) <==> SameText(a[i..], c[i..])
    {
      assert a[i..][1..] == a[i + 1..] && c[i..][1..] == c[i + 1..];
      if Lower(lhs[lofs + i]) != Lower(rhs[rofs + i]) {
        return false;
      }
      if lhs[lofs + i] == 0 {
        return true;
      }
    }
    return true;
  }

  /** The two labels compared, by length first. */
  method LabelsEqual(lhs: array<byte>, lsize: nat, ls: Substring, rhs: array<byte>, rsize: nat, rs: Substring)
    returns (same: bool)
    requires ls.offset + ls.length <= lsize <= lhs.Length && rs.offset + rs.length <= rsize <= rhs.Length
    ensures same <==> SameLabel(lhs[..lsize][ls.offset..ls.offset + ls.length],
                                rhs[..rsize][rs.offset..rs.offset + rs.length])
    ensures same ==> ls.length == rs.length
  {
    hide SameText;
    if ls.length != rs.length {
      return false;
    }
    assert lhs[..lsize][ls.offset..ls.offset + ls.length] == lhs[ls.offset..ls.offset + ls.length];
    assert rhs[..rsize][rs.offset..rs.offset + rs.length] == rhs[rs.offset..rs.offset + rs.length];
    same := Strncasecmp(lhs, ls.offset, rhs, rs.offset, ls.length);
  }

  method StringEqual(lhs: array<byte>, lsize: nat, lofs: nat, rhs: array<byte>, rsize: nat, rofs: nat)
    returns (ends: Option<(nat, nat)>)
    requires lsize <= lhs.Length && rsize <= rhs.Length
    ensures ends == EqualFrom(lhs[..lsize], lofs, None, rhs[..rsize], rofs, None, 0)
  {
    hide NextSubstring, SameLabel;
    ghost var l, r := lhs[..lsize], rhs[..rsize];
    var lcur: nat, rcur: nat, counter: nat := lofs, rofs, 0;
    var lend: Option<nat>, rend: Option<nat> := None, None;
    while true
      invariant counter <= MAX_SUBSTRINGS + 1
      invariant EqualFrom(l, lcur, lend, r, rcur, rend, counter) == EqualFrom(l, lofs, None, r, rofs, None, 0)
      decreases MAX_SUBSTRINGS + 1 - counter
    {
      var lsub := GetNextSubstring(lhs, lsize, lcur);
      var rsub := GetNextSubstring(rhs, rsize, rcur);
      if lsub.None? || rsub.None? || counter > MAX_SUBSTRINGS {
        return None;
      }
      var ls, rs := lsub.value, rsub.value;
      var same := LabelsEqual(lhs, lsize, ls, rhs, rsize, rs);
      if !same {
        return None;
      }
      lend := if ls.ref && lend.None? then Some(lcur + 2) else lend;
      rend := if rs.ref && rend.None? then Some(rcur + 2) else rend;
      lcur, rcur, counter := ls.offset + ls.length, rs.offset + rs.length, counter + 1;
      if ls.length == 0 {
        return Some((if lend.Some? then lend.value else lcur + 1, if rend.Some? then rend.value else rcur + 1));
      }
    }
  }

  lemma SameNameStep(ls: Name, rs: Name)
    requires ls != [] && rs != []
    ensures SameName(ls, rs) <==> SameLabel(ls[0], rs[0]) && SameName(ls[1..], rs[1..])
  {
    hide SameLabel;
    if SameLabel(ls[0], rs[0]) && SameName(ls[1..], rs[1..]) {
      forall i | 0 <= i < |ls| ensures SameLabel(ls[i], rs[i]) {
        if i > 0 {
          assert ls[i] == ls[1..][i - 1] && rs[i] == rs[1..][i - 1];
        }
      }
    }
  }

  /** However the two names are compressed, the comparison succeeds exactly when they have the same
      labels, and then leaves both offsets behind the names. */
  lemma {:induction false} EqualIff(l: bytes, lcur: nat, lend: Option<nat>, ls: Name,
                                    r: bytes, rcur: nat, rend: Option<nat>, rs: Name, counter: nat)
    requires Reads(l, lcur, ls) && Reads(r, rcur, rs)
    requires counter + |ls| <= MAX_SUBSTRINGS && counter + |rs| <= MAX_SUBSTRINGS
    ensures EqualFrom(l, lcur, lend, r, rcur, rend, counter)
         == if SameName(ls, rs) then
              Some((if lend.Some? then lend.value else EndOf(l, lcur, ls),
                    if rend.Some? then rend.value else EndOf(r, rcur, rs)))
            else None
    decreases |ls|
  {
    hide NextSubstring, SameLabel, SameName;
    var a, c := NextSubstring(l, lcur).value, NextSubstring(r, rcur).value;
    if ls == [] || rs == [] {
      EmptyName(ls, rs);
      DifferentLengths(l[a.offset..a.offset + a.length], r[c.offset..c.offset + c.length]);
    } else {
      SameNameStep(ls, rs);
      var lend' := if a.ref && lend.None? then Some(lcur + 2) else lend;
      var rend' := if c.ref && rend.None? then Some(rcur + 2) else rend;
      assert l[a.offset..a.offset + a.length] == ls[0] && r[c.offset..c.offset + c.length] == rs[0];
      if SameLabel(ls[0], rs[0]) {
        DifferentLengths(ls[0], rs[0]);
        EqualIff(l, a.offset + a.length, lend', ls[1..], r, c.offset + c.length, rend', rs[1..], counter + 1);
      }
    }
  }

  lemma EmptyName(ls: Name, rs: Name)
    requires ls == [] || rs == []
    ensures SameName(ls, rs) <==> ls == rs
  {
  }

  lemma DifferentLengths(a: bytes, c: bytes)
    ensures SameLabel(a, c) ==> |a| == |c|
    ensures a == [] && c == [] ==> SameLabel(a, c)
  {
  }

  /** Labels without NUL are the same exactly when they differ at most in case. */
  lemma {:induction false} SameLabelIff(a: bytes, c: bytes)
    requires 0 !in a
    ensures SameLabel(a, c) <==> |a| == |c| && forall i :: 0 <= i < |a| ==> Lower(a[i]) == Lower(c[i])
    decreases |a|
  {
    if |a| == |c| && a != [] {
      SameLabelIff(a[1..], c[1..]);
      assert a[0] in a;
      if forall i :: 0 <= i < |a[1..]| ==> Lower(a[1..][i]) == Lower(c[1..][i]) {
        forall i | 1 <= i < |a| ensures Lower(a[i]) == Lower(c[i]) {
          assert a[i] == a[1..][i - 1] && c[i] == c[1..][i - 1];
        }
      }
      if forall i :: 0 <= i < |a| ==> Lower(a[i]) == Lower(c[i]) {
        forall i | 0 <= i < |a[1..]| ensures Lower(a[1..][i]) == Lower(c[1..][i]) {
        }
      }
    }
  }
}
