/** The sorting of node sets: quicksort with a three-way partition around a median, finished by
    insertion sort, and the removal of adjacent duplicates. */
module XmlSort {

  // --- orders, permutations and sorted ranges ---

  /** A strict total order that agrees with equality. */
  ghost predicate StrictOrder<T(!new)>(pred: (T, T) -> bool)
  {
    && (forall x :: !pred(x, x))
    && (forall x, y :: x != y ==> pred(x, y) || pred(y, x))
    && (forall x, y, z :: pred(x, y) && pred(y, z) ==> pred(x, z))
  }

  lemma Asymmetric<T(!new)>(pred: (T, T) -> bool, x: T, y: T)
    requires StrictOrder(pred) && pred(x, y)
    ensures !pred(y, x) && x != y
  {
    assert !pred(x, x);
  }

  /** Not greater, then not greater. */
  lemma WeaklyTransitive<T(!new)>(pred: (T, T) -> bool, x: T, y: T, z: T)
    requires StrictOrder(pred) && !pred(y, x) && !pred(z, y)
    ensures !pred(z, x)
  {
    if x != y {
      assert pred(x, y);
    }
  }

  /** The elements from `lo` to `hi` are rearranged, the others stay. */
  ghost predicate Permuted<T>(was: seq<T>, now: seq<T>, lo: nat, hi: nat)
  {
    && lo <= hi <= |was| == |now|
    && was[..lo] == now[..lo] && was[hi..] == now[hi..]
    && multiset(was[lo..hi]) == multiset(now[lo..hi])
  }

  predicate SortedRange<T>(pred: (T, T) -> bool, c: seq<T>, lo: nat, hi: nat)
    requires lo <= hi <= |c|
  {
    forall i, j :: lo <= i < j < hi ==> !pred(c[j], c[i])
  }

  /** Nothing from `mid` on is smaller than anything before it. */
  predicate Split<T>(pred: (T, T) -> bool, c: seq<T>, lo: nat, mid: nat, hi: nat)
    requires lo <= mid <= hi <= |c|
  {
    forall i, j :: lo <= i < mid <= j < hi ==> !pred(c[j], c[i])
  }

  lemma PermutedTwice<T>(a: seq<T>, b: seq<T>, c: seq<T>, lo: nat, hi: nat)
    requires Permuted(a, b, lo, hi) && Permuted(b, c, lo, hi)
    ensures Permuted(a, c, lo, hi)
  {
  }

  /** A rearrangement of a part is one of the whole. */
  lemma PermutedWithin<T>(was: seq<T>, now: seq<T>, lo: nat, from: nat, upto: nat, hi: nat)
    requires lo <= from <= upto <= hi <= |was| && Permuted(was, now, from, upto)
    ensures Permuted(was, now, lo, hi)
  {
    assert was[lo..hi] == was[lo..from] + was[from..upto] + was[upto..hi];
    assert now[lo..hi] == now[lo..from] + now[from..upto] + now[upto..hi];
    assert was[lo..from] == was[..from][lo..] && now[lo..from] == now[..from][lo..];
    assert was[upto..hi] == was[upto..][..hi - upto] && now[upto..hi] == now[upto..][..hi - upto];
    assert was[..lo] == was[..from][..lo] && now[..lo] == now[..from][..lo];
    assert was[hi..] == was[upto..][hi - upto..] && now[hi..] == now[upto..][hi - upto..];
  }

  /** Every element of a rearranged range was in it before, and the others are where they were. */
  lemma PermutedFrom<T>(was: seq<T>, now: seq<T>, lo: nat, hi: nat, k: nat) returns (i: nat)
    requires Permuted(was, now, lo, hi) && k < |now|
    ensures i < |was| && was[i] == now[k]
    ensures if lo <= k < hi then lo <= i < hi else i == k
  {
    if lo <= k < hi {
      assert now[k] == now[lo..hi][k - lo];
      assert now[k] in multiset(now[lo..hi]);
      assert now[k] in was[lo..hi];
      var j :| 0 <= j < hi - lo && was[lo..hi][j] == now[k];
      i := lo + j;
    } else if k < lo {
      i := k;
      assert now[k] == now[..lo][k] && was[k] == was[..lo][k];
    } else {
      i := k;
      assert now[k] == now[hi..][k - hi] && was[k] == was[hi..][k - hi];
    }
  }

  /** Rearranging one side of a split, or a part of one, leaves it a split. */
  lemma SplitStays<T>(pred: (T, T) -> bool, was: seq<T>, now: seq<T>, lo: nat, mid: nat, hi: nat, from: nat, upto: nat)
    requires lo <= mid <= hi <= |was| && Permuted(was, now, from, upto)
    requires lo <= from <= upto <= mid || mid <= from <= upto <= hi
    requires Split(pred, was, lo, mid, hi)
    ensures Split(pred, now, lo, mid, hi)
  {
    forall i, j | lo <= i < mid <= j < hi ensures !pred(now[j], now[i]) {
      var x := PermutedFrom(was, now, from, upto, i);
      var y := PermutedFrom(was, now, from, upto, j);
      assert lo <= x < mid <= y < hi;
    }
  }

  /** A range that a rearrangement does not touch stays sorted. */
  lemma SortedStays<T>(pred: (T, T) -> bool, was: seq<T>, now: seq<T>, lo: nat, hi: nat, from: nat, upto: nat)
    requires lo <= hi <= |was| && Permuted(was, now, from, upto) && (hi <= from || upto <= lo)
    requires SortedRange(pred, was, lo, hi)
    ensures SortedRange(pred, now, lo, hi)
  {
    forall i, j | lo <= i < j < hi ensures !pred(now[j], now[i]) {
      var x := PermutedFrom(was, now, from, upto, i);
      var y := PermutedFrom(was, now, from, upto, j);
    }
  }

  lemma SortedJoins<T>(pred: (T, T) -> bool, c: seq<T>, lo: nat, mid: nat, hi: nat)
    requires lo <= mid <= hi <= |c|
    requires SortedRange(pred, c, lo, mid) && SortedRange(pred, c, mid, hi) && Split(pred, c, lo, mid, hi)
    ensures SortedRange(pred, c, lo, hi)
  {
  }

  // --- swaps ---

  function Swapped<T>(c: seq<T>, i: nat, j: nat): (d: seq<T>)
    requires i < |c| && j < |c|
    ensures |d| == |c|
  {
    c[i := c[j]][j := c[i]]
  }

  method Swap<T>(a: array<T>, i: nat, j: nat)
    requires i < a.Length && j < a.Length
    modifies a
    ensures a[..] == Swapped(old(a[..]), i, j)
  {
    a[i], a[j] := a[j], a[i];
  }

  lemma SwapPermutes<T>(c: seq<T>, i: nat, j: nat, lo: nat, hi: nat)
    requires lo <= i < hi <= |c| && lo <= j < hi
    ensures Permuted(c, Swapped(c, i, j), lo, hi)
  {
    var d := Swapped(c, i, j);
    var s := c[lo..hi];
    assert d[lo..hi] == s[i - lo := s[j - lo]][j - lo := s[i - lo]];
  }

  /** Two elements of a range change places. */
  method SwapWithin<T>(a: array<T>, i: nat, j: nat, ghost lo: nat, ghost hi: nat)
    requires lo <= i < hi <= a.Length && lo <= j < hi
    modifies a
    ensures a[..] == Swapped(old(a[..]), i, j) && Permuted(old(a[..]), a[..], lo, hi)
  {
    hide Permuted, Swapped;
    SwapPermutes(a[..], i, j, lo, hi);
    Swap(a, i, j);
  }

  // --- insertion sort ---

  method CopyBackwards<T>(a: array<T>, begin: nat, end: nat, target: nat)
    requires begin <= end <= target <= a.Length
    modifies a
    ensures a[..] == old(a[..target - (end - begin)] + a[begin..end] + a[target..])
  {
    var e, t := end, target;
    while e != begin
      invariant begin <= e <= end && t - e == target - end
      invariant forall k :: 0 <= k < t || target <= k < a.Length ==> a[k] == old(a[k])
      invariant forall k :: t <= k < target ==> a[k] == old(a[k - (target - end)])
      decreases e
    {
      e, t := e - 1, t - 1;
      a[t] := a[e];
    }
  }

  /** Element `it` taken out and put in at `k`. */
  function Inserted<T>(c: seq<T>, k: nat, it: nat): (d: seq<T>)
    requires k <= it < |c|
    ensures |d| == |c|
  {
    c[..k] + [c[it]] + c[k..it] + c[it + 1..]
  }

  lemma InsertedPermutes<T>(c: seq<T>, k: nat, it: nat, lo: nat, hi: nat)
    requires lo <= k <= it < hi <= |c|
    ensures Permuted(c, Inserted(c, k, it), lo, hi)
  {
    var d := Inserted(c, k, it);
    assert c[k..it + 1] == c[k..it] + [c[it]];
    assert d[k..it + 1] == [c[it]] + c[k..it];
    assert c[..k] == d[..k] && c[it + 1..] == d[it + 1..];
    PermutedWithin(c, d, lo, k, it + 1, hi);
  }

  lemma InsertedSorted<T(!new)>(pred: (T, T) -> bool, c: seq<T>, lo: nat, k: nat, it: nat)
    requires StrictOrder(pred) && lo <= k <= it < |c| && SortedRange(pred, c, lo, it)
    requires k > lo ==> !pred(c[it], c[k - 1])
    requires k < it ==> pred(c[it], c[k])
    ensures SortedRange(pred, Inserted(c, k, it), lo, it + 1)
  {
    hide StrictOrder;
    var d := Inserted(c, k, it);
    forall i | lo <= i < k ensures !pred(c[it], c[i]) {
      if i < k - 1 {
        WeaklyTransitive(pred, c[i], c[k - 1], c[it]);
      }
    }
    forall i | k <= i < it ensures !pred(c[i], c[it]) {
      Asymmetric(pred, c[it], c[k]);
      if i > k {
        WeaklyTransitive(pred, c[it], c[k], c[i]);
      }
    }
    forall i, j | lo <= i < j < it + 1 ensures !pred(d[j], d[i]) {
      assert d[i] == if i < k then c[i] else if i == k then c[it] else c[i - 1];
      assert d[j] == if j < k then c[j] else if j == k then c[it] else c[j - 1];
    }
  }

  /** The element at `it` smaller than all before it. */
  method MoveToFront<T>(a: array<T>, begin: nat, it: nat)
    requires begin < it < a.Length
    modifies a
    ensures a[..] == Inserted(old(a[..]), begin, it)
  {
    var val := a[it];
    CopyBackwards(a, begin, it, it + 1);
    a[begin] := val;
  }

  /** Moves the hole backwards to where the element belongs. */
  method MoveHole<T>(a: array<T>, begin: nat, it: nat, pred: (T, T) -> bool) returns (hole: nat)
    requires begin < it < a.Length && !pred(a[it], a[begin])
    modifies a
    ensures begin < hole <= it && a[..] == Inserted(old(a[..]), hole, it)
    ensures !pred(old(a[it]), old(a[hole - 1])) && (hole < it ==> pred(old(a[it]), old(a[hole])))
  {
    var val := a[it];
    hole := it;
    while pred(val, a[hole - 1])
      invariant begin < hole <= it
      invariant forall k :: 0 <= k < a.Length && !(hole < k <= it) ==> a[k] == old(a[k])
      invariant forall k :: hole < k <= it ==> a[k] == old(a[k - 1])
      invariant hole < it ==> pred(val, old(a[hole]))
      decreases hole
    {
      a[hole] := a[hole - 1];
      hole := hole - 1;
    }
    a[hole] := val;
  }

  /** One round: the element at `it` joins the sorted elements before it. */
  method InsertOne<T(!new)>(a: array<T>, begin: nat, it: nat, pred: (T, T) -> bool)
    requires begin < it < a.Length && StrictOrder(pred) && SortedRange(pred, a[..], begin, it)
    modifies a
    ensures Permuted(old(a[..]), a[..], begin, it + 1) && SortedRange(pred, a[..], begin, it + 1)
  {
    hide StrictOrder, Permuted, Inserted, SortedRange;
    ghost var c := a[..];
    var hole := begin;
    if pred(a[it], a[begin]) {
      MoveToFront(a, begin, it);
    } else {
      hole := MoveHole(a, begin, it, pred);
    }
    InsertedSorted(pred, c, begin, hole, it);
    InsertedPermutes(c, hole, it, begin, it + 1);
  }

  method InsertionSort<T(!new)>(a: array<T>, begin: nat, end: nat, pred: (T, T) -> bool)
    requires begin < end <= a.Length && StrictOrder(pred)
    modifies a
    ensures Permuted(old(a[..]), a[..], begin, end) && SortedRange(pred, a[..], begin, end)
  {
    hide StrictOrder;
    var it := begin + 1;
    while it != end
      invariant begin < it <= end
      invariant Permuted(old(a[..]), a[..], begin, end) && SortedRange(pred, a[..], begin, it)
      decreases end - it
    {
      ghost var c := a[..];
      InsertOne(a, begin, it, pred);
      PermutedWithin(c, a[..], begin, begin, it + 1, end);
      PermutedTwice(old(a[..]), c, a[..], begin, end);
      it := it + 1;
    }
  }

  // --- partition ---

  /** The state of a partition around `p`: what is before `ltend` and from `gtbeg` on is still to be
      looked at, and between them lie smaller, equal and greater elements. */
  ghost predicate Parts<T(!new)>(pred: (T, T) -> bool, c: seq<T>, p: T, begin: nat, ltend: nat, eqbeg: nat,
                                 eqend: nat, gtbeg: nat, end: nat)
  {
    && begin <= ltend <= eqbeg < eqend <= gtbeg <= end <= |c|
    && (forall k :: ltend <= k < eqbeg ==> pred(c[k], p))
    && (forall k :: eqbeg <= k < eqend ==> c[k] == p)
    && (forall k :: eqend <= k < gtbeg ==> pred(p, c[k]))
  }

  lemma PartsBounds<T(!new)>(pred: (T, T) -> bool, c: seq<T>, p: T, begin: nat, ltend: nat, eqbeg: nat,
                             eqend: nat, gtbeg: nat, end: nat)
    requires Parts(pred, c, p, begin, ltend, eqbeg, eqend, gtbeg, end)
    ensures begin <= ltend <= eqbeg < eqend <= gtbeg <= end <= |c| && c[eqbeg] == p
  {
  }

  /** The next element on the right is greater, or equal and swapped to the equal ones. */
  lemma PartsRight<T(!new)>(pred: (T, T) -> bool, c: seq<T>, p: T, begin: nat, ltend: nat, eqbeg: nat,
                            eqend: nat, gtbeg: nat, end: nat)
    requires Parts(pred, c, p, begin, ltend, eqbeg, eqend, gtbeg, end) && gtbeg < end
    ensures pred(p, c[gtbeg]) ==> Parts(pred, c, p, begin, ltend, eqbeg, eqend, gtbeg + 1, end)
    ensures c[gtbeg] == p ==>
              && Parts(pred, Swapped(c, gtbeg, eqend), p, begin, ltend, eqbeg, eqend + 1, gtbeg + 1, end)
              && Swapped(c, gtbeg, eqend)[..ltend] == c[..ltend]
  {
  }

  lemma PartsLeft<T(!new)>(pred: (T, T) -> bool, c: seq<T>, p: T, begin: nat, ltend: nat, eqbeg: nat,
                           eqend: nat, gtbeg: nat, end: nat)
    requires Parts(pred, c, p, begin, ltend, eqbeg, eqend, gtbeg, end) && begin < ltend
    ensures pred(c[ltend - 1], p) ==> Parts(pred, c, p, begin, ltend - 1, eqbeg, eqend, gtbeg, end)
    ensures c[ltend - 1] == p ==>
              && Parts(pred, Swapped(c, ltend - 1, eqbeg - 1), p, begin, ltend - 1, eqbeg - 1, eqend, gtbeg, end)
              && Swapped(c, ltend - 1, eqbeg - 1)[gtbeg..] == c[gtbeg..]
  {
  }

  /** The equal elements move one place down, over a greater one left of them. */
  lemma PartsDown<T(!new)>(pred: (T, T) -> bool, c: seq<T>, p: T, begin: nat, ltend: nat, eqbeg: nat,
                           eqend: nat, end: nat)
    requires Parts(pred, c, p, begin, ltend, eqbeg, eqend, end, end) && begin < ltend && pred(p, c[ltend - 1])
    ensures var d := if ltend != eqbeg then Swapped(c, ltend - 1, eqbeg - 1) else c;
      Parts(pred, Swapped(d, eqbeg - 1, eqend - 1), p, begin, ltend - 1, eqbeg - 1, eqend - 1, end, end)
  {
    var d := if ltend != eqbeg then Swapped(c, ltend - 1, eqbeg - 1) else c;
    assert d[eqbeg - 1] == c[ltend - 1];
    var e := Swapped(d, eqbeg - 1, eqend - 1);
    assert e[eqend - 1] == c[ltend - 1] && e[eqbeg - 1] == p;
  }

  /** The equal elements move one place up, over a smaller one right of them. */
  lemma PartsUp<T(!new)>(pred: (T, T) -> bool, c: seq<T>, p: T, begin: nat, eqbeg: nat, eqend: nat, gtbeg: nat,
                         end: nat)
    requires Parts(pred, c, p, begin, begin, eqbeg, eqend, gtbeg, end) && gtbeg < end && pred(c[gtbeg], p)
    ensures var d := if eqend != gtbeg then Swapped(c, eqbeg, eqend) else c;
      Parts(pred, Swapped(d, gtbeg, eqbeg), p, begin, begin, eqbeg + 1, eqend + 1, gtbeg + 1, end)
  {
    var d := if eqend != gtbeg then Swapped(c, eqbeg, eqend) else c;
    assert d[gtbeg] == c[gtbeg];
    var e := Swapped(d, gtbeg, eqbeg);
    assert e[eqbeg] == c[gtbeg] && e[gtbeg] == d[eqbeg];
  }

  /** A smaller element on the right and a greater one on the left change places. */
  lemma PartsAcross<T(!new)>(pred: (T, T) -> bool, c: seq<T>, p: T, begin: nat, ltend: nat, eqbeg: nat,
                             eqend: nat, gtbeg: nat, end: nat)
    requires Parts(pred, c, p, begin, ltend, eqbeg, eqend, gtbeg, end) && begin < ltend && gtbeg < end
    requires pred(p, c[ltend - 1]) && pred(c[gtbeg], p)
    ensures Parts(pred, Swapped(c, gtbeg, ltend - 1), p, begin, ltend - 1, eqbeg, eqend, gtbeg + 1, end)
  {
  }

  lemma Total<T(!new)>(pred: (T, T) -> bool, x: T, y: T)
    requires StrictOrder(pred)
    ensures x == y || pred(x, y) || pred(y, x)
  {
  }

  lemma PermutedSelf<T>(c: seq<T>, lo: nat, hi: nat)
    requires lo <= hi <= |c|
    ensures Permuted(c, c, lo, hi)
  {
  }

  /** Takes the elements from `gtbeg` on into the greater and equal ones, up to a smaller one. */
  method ScanRight<T(==, !new)>(a: array<T>, ghost p: T, ghost begin: nat, ghost ltend: nat, eqbeg: nat, eqend0: nat,
                                gtbeg0: nat, end: nat, pred: (T, T) -> bool)
    returns (eqend: nat, gtbeg: nat)
    requires StrictOrder(pred) && Parts(pred, a[..], p, begin, ltend, eqbeg, eqend0, gtbeg0, end)
    modifies a
    ensures gtbeg0 <= gtbeg <= end <= a.Length && Parts(pred, a[..], p, begin, ltend, eqbeg, eqend, gtbeg, end)
    ensures Permuted(old(a[..]), a[..], begin, end) && ltend <= a.Length && a[..ltend] == old(a[..ltend])
    ensures gtbeg < end ==> pred(a[gtbeg], p)
  {
    hide Permuted, Parts, Swapped, StrictOrder;
    eqend, gtbeg := eqend0, gtbeg0;
    PartsBounds(pred, a[..], p, begin, ltend, eqbeg, eqend, gtbeg, end);
    PermutedSelf(a[..], begin, end);
    while gtbeg != end
      invariant gtbeg0 <= gtbeg && Parts(pred, a[..], p, begin, ltend, eqbeg, eqend, gtbeg, end)
      invariant begin <= ltend <= eqbeg < eqend <= gtbeg <= end
      invariant Permuted(old(a[..]), a[..], begin, end) && a[..ltend] == old(a[..ltend])
      decreases end - gtbeg
    {
      ghost var c := a[..];
      PartsBounds(pred, c, p, begin, ltend, eqbeg, eqend, gtbeg, end);
      PartsRight(pred, c, p, begin, ltend, eqbeg, eqend, gtbeg, end);
      Total(pred, p, c[gtbeg]);
      if !pred(a[eqbeg], a[gtbeg]) {
        if a[gtbeg] == a[eqbeg] {
          SwapWithin(a, gtbeg, eqend, begin, end);
          PermutedTwice(old(a[..]), c, a[..], begin, end);
          assert a[..ltend] == a[..][..ltend];
          eqend := eqend + 1;
        } else {
          break;
        }
      }
      gtbeg := gtbeg + 1;
    }
  }

  /** Takes the elements before `ltend` into the smaller and equal ones, down to a greater one. */
  method ScanLeft<T(==, !new)>(a: array<T>, ghost p: T, begin: nat, ltend0: nat, eqbeg0: nat, ghost eqend: nat,
                               ghost gtbeg: nat, ghost end: nat, pred: (T, T) -> bool)
    returns (ltend: nat, eqbeg: nat)
    requires StrictOrder(pred) && Parts(pred, a[..], p, begin, ltend0, eqbeg0, eqend, gtbeg, end)
    modifies a
    ensures begin <= ltend <= ltend0 <= a.Length && Parts(pred, a[..], p, begin, ltend, eqbeg, eqend, gtbeg, end)
    ensures Permuted(old(a[..]), a[..], begin, end) && gtbeg <= a.Length && a[gtbeg..] == old(a[gtbeg..])
    ensures ltend > begin ==> pred(p, a[ltend - 1])
  {
    hide Permuted, Parts, Swapped, StrictOrder;
    ltend, eqbeg := ltend0, eqbeg0;
    PartsBounds(pred, a[..], p, begin, ltend, eqbeg, eqend, gtbeg, end);
    PermutedSelf(a[..], begin, end);
    while ltend != begin
      invariant ltend <= ltend0 && Parts(pred, a[..], p, begin, ltend, eqbeg, eqend, gtbeg, end)
      invariant begin <= ltend <= eqbeg < eqend <= gtbeg <= end
      invariant Permuted(old(a[..]), a[..], begin, end) && a[gtbeg..] == old(a[gtbeg..])
      decreases ltend
    {
      ghost var c := a[..];
      PartsBounds(pred, c, p, begin, ltend, eqbeg, eqend, gtbeg, end);
      PartsLeft(pred, c, p, begin, ltend, eqbeg, eqend, gtbeg, end);
      Total(pred, p, c[ltend - 1]);
      if !pred(a[ltend - 1], a[eqbeg]) {
        if a[eqbeg] == a[ltend - 1] {
          eqbeg := eqbeg - 1;
          SwapWithin(a, ltend - 1, eqbeg, begin, end);
          PermutedTwice(old(a[..]), c, a[..], begin, end);
          assert a[gtbeg..] == a[..][gtbeg..];
        } else {
          break;
        }
      }
      ltend := ltend - 1;
    }
  }

  /** Moves the equal elements one place down, over a greater one left of them. */
  method RoomOnRight<T(!new)>(a: array<T>, ghost p: T, ghost begin: nat, ltend0: nat, eqbeg0: nat, eqend0: nat,
                              ghost end: nat, ghost pred: (T, T) -> bool)
    returns (ltend: nat, eqbeg: nat, eqend: nat)
    requires begin < ltend0 <= a.Length && pred(p, a[ltend0 - 1])
    requires Parts(pred, a[..], p, begin, ltend0, eqbeg0, eqend0, end, end)
    modifies a
    ensures ltend == ltend0 - 1 && Parts(pred, a[..], p, begin, ltend, eqbeg, eqend, end, end)
    ensures Permuted(old(a[..]), a[..], begin, end)
  {
    hide Permuted, Parts, Swapped;
    PartsBounds(pred, a[..], p, begin, ltend0, eqbeg0, eqend0, end, end);
    PartsDown(pred, a[..], p, begin, ltend0, eqbeg0, eqend0, end);
    ltend, eqbeg, eqend := ltend0 - 1, eqbeg0 - 1, eqend0;
    PermutedSelf(a[..], begin, end);
    if ltend != eqbeg {
      SwapWithin(a, ltend, eqbeg, begin, end);
    }
    ghost var c := a[..];
    eqend := eqend - 1;
    SwapWithin(a, eqbeg, eqend, begin, end);
    PermutedTwice(old(a[..]), c, a[..], begin, end);
  }

  /** Moves the equal elements one place up, over a smaller one right of them. */
  method RoomOnLeft<T(!new)>(a: array<T>, ghost p: T, ghost begin: nat, eqbeg0: nat, eqend0: nat, gtbeg0: nat,
                             ghost end: nat, ghost pred: (T, T) -> bool)
    returns (eqbeg: nat, eqend: nat, gtbeg: nat)
    requires gtbeg0 < end <= a.Length && pred(a[gtbeg0], p)
    requires Parts(pred, a[..], p, begin, begin, eqbeg0, eqend0, gtbeg0, end)
    modifies a
    ensures gtbeg == gtbeg0 + 1 && Parts(pred, a[..], p, begin, begin, eqbeg, eqend, gtbeg, end)
    ensures Permuted(old(a[..]), a[..], begin, end)
  {
    hide Permuted, Parts, Swapped;
    PartsBounds(pred, a[..], p, begin, begin, eqbeg0, eqend0, gtbeg0, end);
    PartsUp(pred, a[..], p, begin, eqbeg0, eqend0, gtbeg0, end);
    PermutedSelf(a[..], begin, end);
    if eqend0 != gtbeg0 {
      SwapWithin(a, eqbeg0, eqend0, begin, end);
    }
    ghost var c := a[..];
    eqend := eqend0 + 1;
    SwapWithin(a, gtbeg0, eqbeg0, begin, end);
    PermutedTwice(old(a[..]), c, a[..], begin, end);
    gtbeg, eqbeg := gtbeg0 + 1, eqbeg0 + 1;
  }

  /** The elements around `middle` that equal it. */
  method EqualRange<T(==, !new)>(a: array<T>, begin: nat, middle: nat, end: nat, ghost pred: (T, T) -> bool)
    returns (eqbeg: nat, eqend: nat)
    requires begin <= middle < end <= a.Length
    ensures Parts(pred, a[..], a[middle], begin, eqbeg, eqbeg, eqend, eqend, end)
  {
    eqbeg, eqend := middle, middle + 1;
    while eqbeg != begin && a[eqbeg - 1] == a[eqbeg]
      invariant begin <= eqbeg <= middle && forall k :: eqbeg <= k <= middle ==> a[k] == a[middle]
      decreases eqbeg
    {
      eqbeg := eqbeg - 1;
    }
    while eqend != end && a[eqend] == a[eqbeg]
      invariant middle < eqend <= end && forall k :: eqbeg <= k < eqend ==> a[k] == a[middle]
      decreases end - eqend
    {
      eqend := eqend + 1;
    }
  }

  /** Splits a range into elements smaller than, equal to and greater than the one at `middle`. */
  method Partition<T(==, !new)>(a: array<T>, begin: nat, middle: nat, end: nat, pred: (T, T) -> bool)
    returns (eqbeg: nat, eqend: nat)
    requires begin <= middle < end <= a.Length && StrictOrder(pred)
    modifies a
    ensures Permuted(old(a[..]), a[..], begin, end)
    ensures Parts(pred, a[..], old(a[middle]), begin, begin, eqbeg, eqend, end, end)
  {
    hide Permuted, Parts, Swapped, StrictOrder;
    ghost var p := a[middle];
    PermutedSelf(a[..], begin, end);
    eqbeg, eqend := EqualRange(a, begin, middle, end, pred);
    var ltend, gtbeg := eqbeg, eqend;
    PartsBounds(pred, a[..], p, begin, ltend, eqbeg, eqend, gtbeg, end);
    while true
      invariant begin <= ltend <= eqbeg < eqend <= gtbeg <= end
      invariant Parts(pred, a[..], p, begin, ltend, eqbeg, eqend, gtbeg, end)
      invariant Permuted(old(a[..]), a[..], begin, end)
      decreases ltend - begin + (end - gtbeg)
    {
      ghost var c := a[..];
      eqend, gtbeg := ScanRight(a, p, begin, ltend, eqbeg, eqend, gtbeg, end, pred);
      PermutedTwice(old(a[..]), c, a[..], begin, end);
      c := a[..];
      ltend, eqbeg := ScanLeft(a, p, begin, ltend, eqbeg, eqend, gtbeg, end, pred);
      PermutedTwice(old(a[..]), c, a[..], begin, end);
      if gtbeg == end && ltend == begin {
        return;
      }
      assert gtbeg < end ==> a[gtbeg] == a[gtbeg..][0] == c[gtbeg..][0];
      PartsBounds(pred, a[..], p, begin, ltend, eqbeg, eqend, gtbeg, end);
      c := a[..];
      if gtbeg == end {
        ltend, eqbeg, eqend := RoomOnRight(a, p, begin, ltend, eqbeg, eqend, end, pred);
      } else if ltend == begin {
        eqbeg, eqend, gtbeg := RoomOnLeft(a, p, begin, eqbeg, eqend, gtbeg, end, pred);
      } else {
        PartsAcross(pred, c, p, begin, ltend, eqbeg, eqend, gtbeg, end);
        ltend := ltend - 1;
        SwapWithin(a, gtbeg, ltend, begin, end);
        gtbeg := gtbeg + 1;
      }
      PartsBounds(pred, a[..], p, begin, ltend, eqbeg, eqend, gtbeg, end);
      PermutedTwice(old(a[..]), c, a[..], begin, end);
    }
  }

  // --- quicksort ---

  /** Puts two elements in order. */
  method Order<T(!new)>(a: array<T>, i: nat, j: nat, ghost begin: nat, ghost end: nat, pred: (T, T) -> bool)
    requires StrictOrder(pred) && begin <= i < j < end <= a.Length
    modifies a
    ensures Permuted(old(a[..]), a[..], begin, end) && !pred(a[j], a[i])
    ensures a[..] == if pred(old(a[j]), old(a[i])) then Swapped(old(a[..]), j, i) else old(a[..])
  {
    hide Permuted, StrictOrder;
    if pred(a[j], a[i]) {
      Asymmetric(pred, a[j], a[i]);
      SwapWithin(a, j, i, begin, end);
    } else {
      PermutedSelf(a[..], begin, end);
    }
  }

  /** Orders three elements among themselves. */
  method Median3<T(!new)>(a: array<T>, first: nat, middle: nat, last: nat, ghost begin: nat, ghost end: nat,
                          pred: (T, T) -> bool)
    requires StrictOrder(pred) && begin <= first < middle < last < end <= a.Length
    modifies a
    ensures Permuted(old(a[..]), a[..], begin, end)
    ensures !pred(a[middle], a[first]) && !pred(a[last], a[middle])
  {
    hide Permuted, StrictOrder;
    Order(a, first, middle, begin, end, pred);
    ghost var c := a[..];
    if !pred(a[last], a[middle]) {
      WeaklyTransitive(pred, a[first], a[middle], a[last]);
    }
    Order(a, middle, last, begin, end, pred);
    PermutedTwice(old(a[..]), c, a[..], begin, end);
    c := a[..];
    assert !pred(c[last], c[first]) && !pred(c[last], c[middle]);
    Order(a, first, middle, begin, end, pred);
    PermutedTwice(old(a[..]), c, a[..], begin, end);
  }

  /** Brings a likely median to `middle`: of three elements, or of three such medians. */
  method Median<T(!new)>(a: array<T>, first: nat, middle: nat, last: nat, pred: (T, T) -> bool)
    requires StrictOrder(pred)
    requires first <= last < a.Length && middle == first + (last - first + 1) / 2 && first + 2 <= last
    modifies a
    ensures Permuted(old(a[..]), a[..], first, last + 1)
    ensures var step := if last - first <= 40 then 0 else (last - first + 1) / 8;
      && first + step < middle < last - step
      && !pred(a[middle], a[first + step]) && !pred(a[last - step], a[middle])
  {
    hide Permuted, StrictOrder;
    if last - first <= 40 {
      Median3(a, first, middle, last, first, last + 1, pred);
    } else {
      var step := (last - first + 1) / 8;
      MedianOfMedians(a, first, middle, last, step, pred);
    }
  }

  method MedianOfMedians<T(!new)>(a: array<T>, first: nat, middle: nat, last: nat, step: nat, pred: (T, T) -> bool)
    requires StrictOrder(pred) && 0 < step && last < a.Length
    requires first + 2 * step < middle - step && middle + step < last - 2 * step
    modifies a
    ensures Permuted(old(a[..]), a[..], first, last + 1)
    ensures !pred(a[middle], a[first + step]) && !pred(a[last - step], a[middle])
  {
    hide Permuted, StrictOrder;
    PermutedSelf(a[..], first, last + 1);
    ghost var was := a[..];
    OrderNext(a, first, first + step, first + 2 * step, first, last + 1, was, pred);
    OrderNext(a, middle - step, middle, middle + step, first, last + 1, was, pred);
    OrderNext(a, last - 2 * step, last - step, last, first, last + 1, was, pred);
    OrderNext(a, first + step, middle, last - step, first, last + 1, was, pred);
  }

  /** Orders three more elements of a range that has been permuted. */
  method OrderNext<T(!new)>(a: array<T>, first: nat, middle: nat, last: nat, ghost begin: nat, ghost end: nat,
                            ghost was: seq<T>, pred: (T, T) -> bool)
    requires StrictOrder(pred) && begin <= first < middle < last < end <= a.Length
    requires |was| == a.Length && Permuted(was, a[..], begin, end)
    modifies a
    ensures Permuted(was, a[..], begin, end)
    ensures !pred(a[middle], a[first]) && !pred(a[last], a[middle])
  {
    hide Permuted, StrictOrder;
    ghost var c := a[..];
    Median3(a, first, middle, last, begin, end, pred);
    PermutedTwice(was, c, a[..], begin, end);
  }

  /** A finished partition is sorted between its outer parts, which it splits. */
  lemma PartsSplit<T(!new)>(pred: (T, T) -> bool, c: seq<T>, p: T, begin: nat, eqbeg: nat, eqend: nat, end: nat)
    requires StrictOrder(pred) && Parts(pred, c, p, begin, begin, eqbeg, eqend, end, end)
    ensures Split(pred, c, begin, eqbeg, end) && Split(pred, c, begin, eqend, end) && SortedRange(pred, c, eqbeg, eqend)
  {
    forall i, j | begin <= i < eqend && eqbeg <= j < end && (i < eqbeg || j >= eqend) ensures !pred(c[j], c[i]) {
      WeaklyTransitive(pred, c[i], p, c[j]);
    }
  }

  /** How far a sort from `lo` to `hi` has come when only the part from `begin` to `end` is left. */
  ghost predicate Sorting<T(!new)>(pred: (T, T) -> bool, was: seq<T>, c: seq<T>, lo: nat, begin: nat, end: nat, hi: nat)
  {
    && lo <= begin <= end <= hi <= |c|
    && Permuted(was, c, lo, hi)
    && SortedRange(pred, c, lo, begin) && SortedRange(pred, c, end, hi)
    && Split(pred, c, lo, begin, hi) && Split(pred, c, lo, end, hi)
  }

  lemma SortingStarts<T(!new)>(pred: (T, T) -> bool, c: seq<T>, lo: nat, hi: nat)
    requires lo <= hi <= |c|
    ensures Sorting(pred, c, c, lo, lo, hi, hi)
  {
  }

  /** Rearranging what is left keeps everything else. */
  lemma SortingPermuted<T(!new)>(pred: (T, T) -> bool, was: seq<T>, c: seq<T>, d: seq<T>, lo: nat, begin: nat, end: nat,
                                 hi: nat)
    requires Sorting(pred, was, c, lo, begin, end, hi) && Permuted(c, d, begin, end)
    ensures Sorting(pred, was, d, lo, begin, end, hi)
  {
    hide Permuted, SortedRange, Split;
    PermutedWithin(c, d, lo, begin, end, hi);
    PermutedTwice(was, c, d, lo, hi);
    SortedStays(pred, c, d, lo, begin, begin, end);
    SortedStays(pred, c, d, end, hi, begin, end);
    SplitStays(pred, c, d, lo, begin, hi, begin, end);
    SplitStays(pred, c, d, lo, end, hi, begin, end);
  }

  lemma SplitWider<T>(pred: (T, T) -> bool, c: seq<T>, lo: nat, begin: nat, mid: nat, end: nat, hi: nat)
    requires lo <= begin <= mid <= end <= hi <= |c|
    requires Split(pred, c, begin, mid, end) && Split(pred, c, lo, begin, hi) && Split(pred, c, lo, end, hi)
    ensures Split(pred, c, lo, mid, hi)
  {
    forall i, j | lo <= i < mid <= j < hi ensures !pred(c[j], c[i]) {
    }
  }

  lemma SplitNarrower<T>(pred: (T, T) -> bool, c: seq<T>, lo: nat, begin: nat, mid: nat, end: nat, hi: nat)
    requires lo <= begin <= mid <= end <= hi <= |c| && Split(pred, c, lo, mid, hi)
    ensures Split(pred, c, begin, mid, end)
  {
  }

  /** The greater part has been sorted: the smaller part is left. */
  lemma SortingUpper<T(!new)>(pred: (T, T) -> bool, was: seq<T>, c: seq<T>, d: seq<T>, p: T, lo: nat, begin: nat,
                              eqbeg: nat, eqend: nat, end: nat, hi: nat)
    requires StrictOrder(pred) && Sorting(pred, was, c, lo, begin, end, hi)
    requires Parts(pred, c, p, begin, begin, eqbeg, eqend, end, end)
    requires Permuted(c, d, eqend, end) && SortedRange(pred, d, eqend, end)
    ensures Sorting(pred, was, d, lo, begin, eqbeg, hi)
  {
    hide StrictOrder, Parts, Permuted, SortedRange, Split;
    PartsBounds(pred, c, p, begin, begin, eqbeg, eqend, end, end);
    PartsSplit(pred, c, p, begin, eqbeg, eqend, end);
    PermutedWithin(c, d, begin, eqend, end, end);
    SortingPermuted(pred, was, c, d, lo, begin, end, hi);
    SplitStays(pred, c, d, begin, eqbeg, end, eqend, end);
    SplitStays(pred, c, d, begin, eqend, end, eqend, end);
    SortedStays(pred, c, d, eqbeg, eqend, eqend, end);
    SplitWider(pred, d, lo, begin, eqbeg, end, hi);
    SplitNarrower(pred, d, begin, eqbeg, eqend, end, end);
    SortedJoins(pred, d, eqbeg, eqend, end);
    SplitNarrower(pred, d, lo, eqbeg, end, hi, hi);
    SortedJoins(pred, d, eqbeg, end, hi);
  }

  /** The smaller part has been sorted: the greater part is left. */
  lemma SortingLower<T(!new)>(pred: (T, T) -> bool, was: seq<T>, c: seq<T>, d: seq<T>, p: T, lo: nat, begin: nat,
                              eqbeg: nat, eqend: nat, end: nat, hi: nat)
    requires StrictOrder(pred) && Sorting(pred, was, c, lo, begin, end, hi)
    requires Parts(pred, c, p, begin, begin, eqbeg, eqend, end, end)
    requires Permuted(c, d, begin, eqbeg) && SortedRange(pred, d, begin, eqbeg)
    ensures Sorting(pred, was, d, lo, eqend, end, hi)
  {
    hide StrictOrder, Parts, Permuted, SortedRange, Split;
    PartsBounds(pred, c, p, begin, begin, eqbeg, eqend, end, end);
    PartsSplit(pred, c, p, begin, eqbeg, eqend, end);
    PermutedWithin(c, d, begin, begin, eqbeg, end);
    SortingPermuted(pred, was, c, d, lo, begin, end, hi);
    SplitStays(pred, c, d, begin, eqbeg, end, begin, eqbeg);
    SplitStays(pred, c, d, begin, eqend, end, begin, eqbeg);
    SortedStays(pred, c, d, eqbeg, eqend, begin, eqbeg);
    SplitWider(pred, d, lo, begin, eqend, end, hi);
    SplitNarrower(pred, d, begin, begin, eqbeg, eqend, end);
    SortedJoins(pred, d, begin, eqbeg, eqend);
    SplitNarrower(pred, d, lo, lo, begin, eqend, hi);
    SortedJoins(pred, d, lo, begin, eqend);
  }

  lemma SortingEnds<T(!new)>(pred: (T, T) -> bool, was: seq<T>, c: seq<T>, lo: nat, begin: nat, end: nat, hi: nat)
    requires Sorting(pred, was, c, lo, begin, end, hi) && SortedRange(pred, c, begin, end)
    ensures Permuted(was, c, lo, hi) && SortedRange(pred, c, lo, hi)
  {
    hide Permuted, SortedRange, Split;
    SplitNarrower(pred, c, lo, lo, begin, end, hi);
    SortedJoins(pred, c, lo, begin, end);
    SortedJoins(pred, c, lo, end, hi);
  }

  method Sort<T(==, !new)>(a: array<T>, begin0: nat, end0: nat, pred: (T, T) -> bool)
    requires begin0 <= end0 <= a.Length && StrictOrder(pred)
    modifies a
    ensures Permuted(old(a[..]), a[..], begin0, end0) && SortedRange(pred, a[..], begin0, end0)
    decreases end0 - begin0
  {
    hide StrictOrder, Parts, Permuted, SortedRange, Sorting;
    var begin, end := begin0, end0;
    SortingStarts(pred, a[..], begin, end);
    while end - begin > 32
      invariant begin0 <= begin <= end <= end0
      invariant Sorting(pred, old(a[..]), a[..], begin0, begin, end, end0)
      decreases end - begin
    {
      var middle := begin + (end - begin) / 2;
      ghost var c := a[..];
      Median(a, begin, middle, end - 1, pred);
      SortingPermuted(pred, old(a[..]), c, a[..], begin0, begin, end, end0);
      c := a[..];
      ghost var p := a[middle];
      var eqbeg, eqend := Partition(a, begin, middle, end, pred);
      SortingPermuted(pred, old(a[..]), c, a[..], begin0, begin, end, end0);
      c := a[..];
      PartsBounds(pred, c, p, begin, begin, eqbeg, eqend, end, end);
      if eqbeg - begin > end - eqend {
        Sort(a, eqend, end, pred);
        SortingUpper(pred, old(a[..]), c, a[..], p, begin0, begin, eqbeg, eqend, end, end0);
        end := eqbeg;
      } else {
        Sort(a, begin, eqbeg, pred);
        SortingLower(pred, old(a[..]), c, a[..], p, begin0, begin, eqbeg, eqend, end, end0);
        begin := eqend;
      }
    }
    SortRest(a, begin0, begin, end, end0, pred, old(a[..]));
  }

  /** The small chunk that is left goes to insertion sort. */
  method SortRest<T(!new)>(a: array<T>, ghost lo: nat, begin: nat, end: nat, ghost hi: nat, pred: (T, T) -> bool,
                           ghost was: seq<T>)
    requires StrictOrder(pred) && Sorting(pred, was, a[..], lo, begin, end, hi)
    modifies a
    ensures lo <= hi <= a.Length && Permuted(was, a[..], lo, hi) && SortedRange(pred, a[..], lo, hi)
  {
    ghost var c := a[..];
    if begin != end {
      InsertionSort(a, begin, end, pred);
      SortingPermuted(pred, was, c, a[..], lo, begin, end, hi);
    }
    SortingEnds(pred, was, a[..], lo, begin, end, hi);
  }

  // --- unique ---

  /** Runs of equal elements cut down to one. */
  function Deduplicated<T(==)>(s: seq<T>): (d: seq<T>)
  {
    if |s| <= 1 then s
    else if s[0] == s[1] then Deduplicated(s[1..])
    else [s[0]] + Deduplicated(s[1..])
  }

  lemma {:induction false} DeduplicatedAppend<T>(s: seq<T>, x: T)
    ensures s == [] ==> Deduplicated(s + [x]) == [x]
    ensures s != [] ==> Deduplicated(s) != [] && Deduplicated(s)[|Deduplicated(s)| - 1] == s[|s| - 1]
    ensures s != [] ==> Deduplicated(s + [x]) == if s[|s| - 1] == x then Deduplicated(s) else Deduplicated(s) + [x]
  {
    if |s| > 1 {
      DeduplicatedAppend(s[1..], x);
      assert (s + [x])[1..] == s[1..] + [x];
    } else if |s| == 1 {
      assert (s + [x])[1..] == [x];
    }
  }

  /** Writes the next element behind the last one, unless it equals that one. */
  method MergeNext<T(==)>(a: array<T>, ghost begin0: nat, write0: nat, begin: nat, ghost s: seq<T>) returns (write: nat)
    requires begin0 <= write0 < begin < a.Length && s != [] && a[begin0..write0 + 1] == Deduplicated(s)
    modifies a
    ensures write0 <= write <= begin && a[begin0..write + 1] == Deduplicated(s + [old(a[begin])])
    ensures forall k :: 0 <= k < begin0 || begin < k < a.Length ==> a[k] == old(a[k])
  {
    hide Deduplicated;
    ghost var d := a[begin0..write0 + 1];
    DeduplicatedAppend(s, a[begin]);
    assert a[write0] == d[write0 - begin0];
    write := write0;
    if a[begin] != a[write] {
      write := write + 1;
      a[write] := a[begin];
      assert a[begin0..write + 1] == d + [a[write]];
    }
  }

  /** Cuts runs of equal elements in place; returns the new end. */
  method Unique<T(==)>(a: array<T>, begin0: nat, end: nat) returns (r: nat)
    requires begin0 <= end <= a.Length
    modifies a
    ensures begin0 <= r <= end && a[begin0..r] == Deduplicated(old(a[begin0..end]))
    ensures a[..begin0] == old(a[..begin0]) && a[end..] == old(a[end..])
  {
    hide Deduplicated;
    var begin := SkipHead(a, begin0, end);
    if begin == end {
      DeduplicatedNothing<T>();
      assert a[begin0..end] == [];
      return begin;
    }
    var write := begin;
    begin := begin + 1;
    while begin != end
      invariant begin0 <= write < begin <= end
      invariant a[begin0..write + 1] == Deduplicated(old(a[begin0..begin]))
      invariant forall k :: 0 <= k < begin0 || begin <= k < a.Length ==> a[k] == old(a[k])
      decreases end - begin
    {
      assert old(a[begin0..begin + 1]) == old(a[begin0..begin]) + [old(a[begin])];
      write := MergeNext(a, begin0, write, begin, old(a[begin0..begin]));
      begin := begin + 1;
    }
    return write + 1;
  }

  lemma DeduplicatedNothing<T>()
    ensures Deduplicated<T>([]) == []
  {
  }

  /** Skips the elements that differ from their neighbours; the last one stays to be written after. */
  method SkipHead<T(==)>(a: array<T>, begin0: nat, end: nat) returns (begin: nat)
    requires begin0 <= end <= a.Length
    ensures if begin0 == end then begin == end else begin0 <= begin < end
    ensures begin < end ==> Deduplicated(a[begin0..begin + 1]) == a[begin0..begin + 1]
  {
    hide Deduplicated;
    begin := begin0;
    if begin < end {
      assert a[begin..begin + 1] == [] + [a[begin]];
      DeduplicatedAppend([], a[begin]);
    }
    while begin + 1 < end && a[begin] != a[begin + 1]
      invariant if begin0 == end then begin == end else begin0 <= begin < end
      invariant begin < end ==> Deduplicated(a[begin0..begin + 1]) == a[begin0..begin + 1]
      decreases end - begin
    {
      assert a[begin0..begin + 2] == a[begin0..begin + 1] + [a[begin + 1]];
      DeduplicatedAppend(a[begin0..begin + 1], a[begin + 1]);
      begin := begin + 1;
    }
  }

  /** In a sorted sequence every element is kept exactly once. */
  lemma {:induction false} DeduplicatedOnce<T(!new)>(pred: (T, T) -> bool, s: seq<T>)
    requires StrictOrder(pred) && SortedRange(pred, s, 0, |s|)
    ensures forall x :: multiset(Deduplicated(s))[x] == if x in s then 1 else 0
    ensures forall i, j :: 0 <= i < j < |Deduplicated(s)| ==> pred(Deduplicated(s)[i], Deduplicated(s)[j])
    decreases |s|
  {
    if |s| <= 1 {
      assert s == [] || s == [s[0]];
    } else {
      hide StrictOrder;
      var rest := s[1..];
      assert s == [s[0]] + rest;
      DeduplicatedOnce(pred, rest);
      if s[0] != s[1] {
        FirstOnly(pred, s);
        FirstKept(pred, s[0], rest, Deduplicated(rest));
      } else {
        assert rest[0] == s[0];
      }
    }
  }

  /** An element smaller than all others, in front of the others without repetitions. */
  lemma FirstKept<T(!new)>(pred: (T, T) -> bool, first: T, rest: seq<T>, d: seq<T>)
    requires first !in rest && forall x :: x in rest ==> pred(first, x)
    requires forall x :: multiset(d)[x] == if x in rest then 1 else 0
    requires forall i, j :: 0 <= i < j < |d| ==> pred(d[i], d[j])
    ensures forall x :: multiset([first] + d)[x] == if x in [first] + rest then 1 else 0
    ensures forall i, j :: 0 <= i < j < |[first] + d| ==> pred(([first] + d)[i], ([first] + d)[j])
  {
    forall j | 0 <= j < |d| ensures pred(first, d[j]) {
      assert d[j] in multiset(d);
      assert d[j] in rest;
    }
  }

  /** An element smaller than its neighbour is smaller than all that follow. */
  lemma FirstOnly<T(!new)>(pred: (T, T) -> bool, s: seq<T>)
    requires StrictOrder(pred) && SortedRange(pred, s, 0, |s|) && |s| > 1 && s[0] != s[1]
    ensures s[0] !in s[1..] && forall x :: x in s[1..] ==> pred(s[0], x)
  {
    forall x | x in s[1..] ensures pred(s[0], x) && x != s[0] {
      var k :| 0 <= k < |s[1..]| && s[1..][k] == x;
      assert x == s[k + 1] && !pred(s[1], s[0]);
      assert pred(s[0], s[1]);
      if k > 0 {
        assert !pred(s[k + 1], s[1]);
        assert s[1] == x || pred(s[1], x);
      }
      assert !pred(x, x);
    }
  }

  /** Sorting and then removing duplicates: each element of the range once, in order. */
  method SortUnique<T(==, !new)>(a: array<T>, begin: nat, end: nat, pred: (T, T) -> bool) returns (r: nat)
    requires begin <= end <= a.Length && StrictOrder(pred)
    modifies a
    ensures begin <= r <= end
    ensures forall x :: x in a[begin..r] <==> x in old(a[begin..end])
    ensures forall i, j :: begin <= i < j < r ==> pred(a[i], a[j])
    ensures a[..begin] == old(a[..begin]) && a[end..] == old(a[end..])
  {
    hide StrictOrder, Deduplicated;
    ghost var was := a[..];
    Sort(a, begin, end, pred);
    ghost var s := a[begin..end];
    assert s == a[..][begin..end];
    assert multiset(was[begin..end]) == multiset(s) && was[begin..end] == old(a[begin..end]);
    DeduplicatedOnce(pred, s);
    assert a[..begin] == a[..][..begin] && a[end..] == a[..][end..];
    r := Unique(a, begin, end);
    SameElements(old(a[begin..end]), s, a[begin..r]);
    forall i, j | begin <= i < j < r ensures pred(a[i], a[j]) {
      assert a[i] == a[begin..r][i - begin] && a[j] == a[begin..r][j - begin];
    }
  }

  lemma SameElements<T>(was: seq<T>, s: seq<T>, d: seq<T>)
    requires multiset(was) == multiset(s) && forall x :: multiset(d)[x] == if x in s then 1 else 0
    ensures forall x :: x in d <==> x in was
  {
    forall x ensures x in d <==> x in was {
      assert x in was <==> x in multiset(was);
      assert x in d <==> x in multiset(d);
    }
  }
}
