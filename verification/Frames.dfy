/**
 * The pandas operations the callbacks apply to their local frames: boolean-mask
 * filtering, a stable sort (sort_values(..., inplace=True)) and positional
 * access to the last rows. A sort order is given by `before(x, y)`: x must be
 * placed strictly before y. The sort is specified as a stable insertion sort
 * (Insert/Sort) and carried out in place on an array by SortInPlace.
 */
module Frames {

  // ----- filtering -----

  /** The rows of s that satisfy p, in their original order (df[mask]). */
  function Filter<T>(s: seq<T>, p: T -> bool): (r: seq<T>)
    ensures |r| <= |s|
  {
    if s == [] then []
    else Filter(s[..|s| - 1], p) + (if p(s[|s| - 1]) then [s[|s| - 1]] else [])
  }

  /** A row is kept exactly when it is in s and satisfies p. */
  lemma {:induction false} FilterMember<T>(s: seq<T>, p: T -> bool, y: T)
    ensures y in Filter(s, p) <==> y in s && p(y)
  {
    if s != [] {
      FilterMember(s[..|s| - 1], p, y);
      assert s == s[..|s| - 1] + [s[|s| - 1]];
    }
  }

  lemma {:induction false} FilterAppend<T>(a: seq<T>, b: seq<T>, p: T -> bool)
    ensures Filter(a + b, p) == Filter(a, p) + Filter(b, p)
  {
    if b != [] {
      var b' := b[..|b| - 1];
      assert (a + b)[..|a + b| - 1] == a + b';
      FilterAppend(a, b', p);
    } else {
      assert a + b == a;
    }
  }

  /** Filtering by p and then by q is filtering by any mask that is p and q. */
  lemma {:induction false} FilterThenFilter<T>(s: seq<T>, p: T -> bool, q: T -> bool, both: T -> bool)
    requires forall x :: both(x) == (p(x) && q(x))
    ensures Filter(Filter(s, p), q) == Filter(s, both)
  {
    if s != [] {
      var s' := s[..|s| - 1];
      var x := s[|s| - 1];
      FilterThenFilter(s', p, q, both);
      FilterAppend(Filter(s', p), if p(x) then [x] else [], q);
    }
  }

  /** Two masks that agree on every row select the same rows. */
  lemma {:induction false} FilterSameMask<T>(s: seq<T>, p: T -> bool, q: T -> bool)
    requires forall x :: p(x) == q(x)
    ensures Filter(s, p) == Filter(s, q)
  {
    if s != [] {
      FilterSameMask(s[..|s| - 1], p, q);
    }
  }

  // ----- the stable sort, as a function -----

  /** before is a strict weak order: asymmetric, and "not before" is transitive. */
  ghost predicate StrictWeakOrder<T(!new)>(before: (T, T) -> bool) {
    && (forall x, y :: before(x, y) ==> !before(y, x))
    && (forall x, y, z :: !before(x, y) && !before(y, z) ==> !before(x, z))
  }

  /** No row of s must go strictly before a row to its left. */
  ghost predicate SortedBy<T>(s: seq<T>, before: (T, T) -> bool) {
    forall i, j :: 0 <= i < j < |s| ==> !before(s[j], s[i])
  }

  /** Insert x into s scanning from the right: x lands after every row it does not go strictly before. */
  function Insert<T>(s: seq<T>, x: T, before: (T, T) -> bool): (r: seq<T>)
    ensures |r| == |s| + 1
  {
    if s == [] || !before(x, s[|s| - 1]) then s + [x]
    else
      assert s == s[..|s| - 1] + [s[|s| - 1]];
      Insert(s[..|s| - 1], x, before) + [s[|s| - 1]]
  }

  /** Where Insert puts x. */
  function InsertPos<T>(s: seq<T>, x: T, before: (T, T) -> bool): (p: nat)
    ensures p <= |s|
    ensures forall k :: p <= k < |s| ==> before(x, s[k])
    ensures p == 0 || !before(x, s[p - 1])
  {
    if s == [] || !before(x, s[|s| - 1]) then |s| else InsertPos(s[..|s| - 1], x, before)
  }

  /** The stable sort: rows that tie keep their relative order. */
  function Sort<T>(s: seq<T>, before: (T, T) -> bool): (r: seq<T>)
    ensures |r| == |s|
  {
    if s == [] then []
    else
      assert s == s[..|s| - 1] + [s[|s| - 1]];
      Insert(Sort(s[..|s| - 1], before), s[|s| - 1], before)
  }

  lemma {:induction false} InsertIsPermutation<T>(s: seq<T>, x: T, before: (T, T) -> bool)
    ensures multiset(Insert(s, x, before)) == multiset(s) + multiset{x}
  {
    if s != [] && before(x, s[|s| - 1]) {
      InsertIsPermutation(s[..|s| - 1], x, before);
      assert s == s[..|s| - 1] + [s[|s| - 1]];
    }
  }

  /** The sort only reorders: the sorted rows are a permutation of the input rows. */
  lemma {:induction false} SortIsPermutation<T>(s: seq<T>, before: (T, T) -> bool)
    ensures multiset(Sort(s, before)) == multiset(s)
  {
    if s != [] {
      SortIsPermutation(s[..|s| - 1], before);
      InsertIsPermutation(Sort(s[..|s| - 1], before), s[|s| - 1], before);
      assert s == s[..|s| - 1] + [s[|s| - 1]];
    }
  }

  /** Insert splits s at any point whose right part goes strictly after x and whose left neighbour does not. */
  lemma {:induction false} InsertSplit<T>(s: seq<T>, x: T, j: nat, before: (T, T) -> bool)
    requires j <= |s|
    requires forall k :: j <= k < |s| ==> before(x, s[k])
    requires j == 0 || !before(x, s[j - 1])
    ensures Insert(s, x, before) == s[..j] + [x] + s[j..]
  {
    if j < |s| {
      var s' := s[..|s| - 1];
      var last := s[|s| - 1];
      assert before(x, last);
      assert Insert(s, x, before) == Insert(s', x, before) + [last];
      InsertSplit(s', x, j, before);
      calc {
        Insert(s, x, before);
        s'[..j] + [x] + s'[j..] + [last];
        { assert s'[..j] == s[..j]; assert s'[j..] + [last] == s[j..]; }
        s[..j] + [x] + s[j..];
      }
    } else if s != [] {
      assert s[..j] == s && s[j..] == [];
    }
  }

  lemma InsertAt<T>(s: seq<T>, x: T, before: (T, T) -> bool)
    ensures Insert(s, x, before) == s[..InsertPos(s, x, before)] + [x] + s[InsertPos(s, x, before)..]
  {
    InsertSplit(s, x, InsertPos(s, x, before), before);
  }

  /** In a sorted s, x goes strictly before no row left of its insertion point. */
  lemma NotBeforeLeftPart<T(!new)>(s: seq<T>, x: T, before: (T, T) -> bool)
    requires StrictWeakOrder(before) && SortedBy(s, before)
    ensures forall k :: 0 <= k < InsertPos(s, x, before) ==> !before(x, s[k])
  {
    var p := InsertPos(s, x, before);
    forall k | 0 <= k < p ensures !before(x, s[k]) {
      if k < p - 1 {
        assert !before(s[p - 1], s[k]);
      }
    }
  }

  lemma InsertSorted<T(!new)>(s: seq<T>, x: T, before: (T, T) -> bool)
    requires StrictWeakOrder(before) && SortedBy(s, before)
    ensures SortedBy(Insert(s, x, before), before)
  {
    var p := InsertPos(s, x, before);
    InsertAt(s, x, before);
    NotBeforeLeftPart(s, x, before);
    var r := Insert(s, x, before);
    assert forall i :: 0 <= i < |r| ==> r[i] == if i < p then s[i] else if i == p then x else s[i - 1];
    forall i, j | 0 <= i < j < |r| ensures !before(r[j], r[i]) {
      if j == p {
        assert !before(x, s[i]);
      } else if i == p {
        assert before(x, s[j - 1]);
      }
    }
  }

  /** The sort's result is ordered. */
  lemma {:induction false} SortIsSorted<T(!new)>(s: seq<T>, before: (T, T) -> bool)
    requires StrictWeakOrder(before)
    ensures SortedBy(Sort(s, before), before)
  {
    if s != [] {
      SortIsSorted(s[..|s| - 1], before);
      InsertSorted(Sort(s[..|s| - 1], before), s[|s| - 1], before);
    }
  }

  /** Sorting rows that are already in order changes nothing. */
  lemma {:induction false} SortOfSorted<T>(s: seq<T>, before: (T, T) -> bool)
    requires SortedBy(s, before)
    ensures Sort(s, before) == s
  {
    if s != [] {
      var s' := s[..|s| - 1];
      assert SortedBy(s', before);
      SortOfSorted(s', before);
      assert s' + [s[|s| - 1]] == s;
    }
  }

  /** Filtering a frame split at j is filtering the two parts. */
  lemma FilterSplitAt<T>(t: seq<T>, j: nat, x: T, p: T -> bool)
    requires j <= |t|
    ensures Filter(t, p) == Filter(t[..j], p) + Filter(t[j..], p)
    ensures Filter(t[..j] + [x] + t[j..], p) == Filter(t[..j], p) + Filter([x], p) + Filter(t[j..], p)
    ensures Filter([x], p) == if p(x) then [x] else []
  {
    assert t == t[..j] + t[j..];
    FilterAppend(t[..j], t[j..], p);
    FilterAppend(t[..j] + [x], t[j..], p);
    FilterAppend(t[..j], [x], p);
    assert [x][..0] == [];
  }

  /** Inserting x into the filtered rows puts it where it stood in the unfiltered ones. */
  lemma FilterInsertKept<T(!new)>(t: seq<T>, x: T, p: T -> bool, before: (T, T) -> bool)
    requires StrictWeakOrder(before) && SortedBy(t, before)
    ensures var j := InsertPos(t, x, before);
      Insert(Filter(t[..j], p) + Filter(t[j..], p), x, before) == Filter(t[..j], p) + [x] + Filter(t[j..], p)
  {
    var j := InsertPos(t, x, before);
    var left := Filter(t[..j], p);
    var right := Filter(t[j..], p);
    forall k | 0 <= k < |right| ensures before(x, right[k]) {
      assert right[k] in right;
      FilterMember(t[j..], p, right[k]);
    }
    if left != [] {
      NotBeforeLeftPart(t, x, before);
      assert left[|left| - 1] in left;
      FilterMember(t[..j], p, left[|left| - 1]);
    }
    InsertSplit(left + right, x, |left|, before);
    assert (left + right)[..|left|] == left;
    assert (left + right)[|left|..] == right;
  }

  /** Filtering after an insertion is inserting into the filtered rows, when those rows are sorted. */
  lemma FilterInsert<T(!new)>(t: seq<T>, x: T, p: T -> bool, before: (T, T) -> bool)
    requires StrictWeakOrder(before) && SortedBy(t, before)
    ensures Filter(Insert(t, x, before), p) == if p(x) then Insert(Filter(t, p), x, before) else Filter(t, p)
  {
    var j := InsertPos(t, x, before);
    InsertAt(t, x, before);
    FilterSplitAt(t, j, x, p);
    if p(x) {
      FilterInsertKept(t, x, p, before);
    } else {
      assert Filter(t[..j], p) + [] + Filter(t[j..], p) == Filter(t, p);
    }
  }

  /** Stability: filtering the sorted rows is sorting the filtered rows. */
  lemma {:induction false} FilterSort<T(!new)>(s: seq<T>, p: T -> bool, before: (T, T) -> bool)
    requires StrictWeakOrder(before)
    ensures Filter(Sort(s, before), p) == Sort(Filter(s, p), before)
  {
    if s != [] {
      var s' := s[..|s| - 1];
      var x := s[|s| - 1];
      var t := Sort(s', before);
      var f := Filter(s', p);
      assert Sort(s, before) == Insert(t, x, before);
      assert Filter(s, p) == f + if p(x) then [x] else [];
      FilterSort(s', p, before);
      SortIsSorted(s', before);
      FilterInsert(t, x, p, before);
      if p(x) {
        assert Sort(f + [x], before) == Insert(Sort(f, before), x, before) by {
          assert (f + [x])[..|f|] == f;
        }
        assert Filter(Sort(s, before), p) == Insert(Sort(f, before), x, before);
      } else {
        assert Filter(s, p) == f;
        assert Filter(Sort(s, before), p) == Sort(f, before);
      }
    }
  }

  // ----- the last rows after the sort (tail(1), tail(2).head(1)) -----

  /** The index of the row that ends up last: a row nothing goes strictly after, the rightmost of those. */
  function LastMaxIndex<T>(s: seq<T>, before: (T, T) -> bool): (i: nat)
    requires 0 < |s|
    ensures i < |s|
  {
    if |s| == 1 then 0
    else
      var i := LastMaxIndex(s[..|s| - 1], before);
      if !before(s[|s| - 1], s[i]) then |s| - 1 else i
  }

  /** The last row of the sorted rows is s[LastMaxIndex(s)]. */
  lemma {:induction false} LastOfSort<T>(s: seq<T>, before: (T, T) -> bool)
    requires 0 < |s|
    ensures Sort(s, before)[|s| - 1] == s[LastMaxIndex(s, before)]
  {
    if |s| > 1 {
      var s' := s[..|s| - 1];
      LastOfSort(s', before);
    }
  }

  /** s[LastMaxIndex(s)] goes strictly before no row of s, and every row right of it goes strictly before it. */
  lemma {:induction false} LastMaxIndexIsLatest<T(!new)>(s: seq<T>, before: (T, T) -> bool)
    requires 0 < |s| && StrictWeakOrder(before)
    ensures forall k :: 0 <= k < |s| ==> !before(s[LastMaxIndex(s, before)], s[k])
    ensures forall k :: LastMaxIndex(s, before) < k < |s| ==> before(s[k], s[LastMaxIndex(s, before)])
  {
    if |s| > 1 {
      var s' := s[..|s| - 1];
      LastMaxIndexIsLatest(s', before);
      var i' := LastMaxIndex(s', before);
      if !before(s[|s| - 1], s[i']) {
        forall k | 0 <= k < |s| ensures !before(s[|s| - 1], s[k]) {
          if k < |s| - 1 {
            assert !before(s'[i'], s'[k]);
          }
        }
      }
    }
  }

  /** s without its i-th row. */
  function RemoveAt<T>(s: seq<T>, i: nat): (r: seq<T>)
    requires i < |s|
    ensures |r| == |s| - 1
  {
    s[..i] + s[i + 1..]
  }

  /** Removing the element at i keeps the elements before i in place and moves those after it down by one. */
  lemma RemoveAtIndices<T>(s: seq<T>, i: nat)
    requires i < |s|
    ensures forall k :: 0 <= k < i ==> RemoveAt(s, i)[k] == s[k]
    ensures forall k :: i < k < |s| ==> RemoveAt(s, i)[k - 1] == s[k]
  {
  }

  /** Sorting rows with one more at the end inserts it into the sorted rows. */
  lemma SortSnoc<T>(s: seq<T>, x: T, before: (T, T) -> bool)
    ensures Sort(s + [x], before) == Insert(Sort(s, before), x, before)
  {
    assert (s + [x])[..|s|] == s;
  }

  /** A row that goes strictly before the last row is inserted to its left. */
  lemma InsertBeforeLast<T>(t: seq<T>, x: T, before: (T, T) -> bool)
    requires t != [] && before(x, t[|t| - 1])
    ensures Insert(t, x, before) == Insert(t[..|t| - 1], x, before) + [t[|t| - 1]]
  {
  }

  /** Removing the appended row gives the rows back. */
  lemma RemoveLast<T>(s: seq<T>, x: T)
    ensures RemoveAt(s + [x], |s|) == s
  {
    assert (s + [x])[..|s|] == s;
    assert (s + [x])[|s| + 1..] == [];
  }

  /** Removing a row before the end commutes with appending a row. */
  lemma RemoveAtSnoc<T>(s: seq<T>, x: T, i: nat)
    requires i < |s|
    ensures RemoveAt(s + [x], i) == RemoveAt(s, i) + [x]
  {
    assert (s + [x])[..i] == s[..i];
    assert (s + [x])[i + 1..] == s[i + 1..] + [x];
  }

  /** The last row of s + [x] is x when x goes strictly before no row of s's latest. */
  lemma LastMaxIndexSnoc<T>(s: seq<T>, x: T, before: (T, T) -> bool)
    requires 0 < |s|
    ensures LastMaxIndex(s + [x], before)
      == if !before(x, s[LastMaxIndex(s, before)]) then |s| else LastMaxIndex(s, before)
  {
    assert (s + [x])[..|s|] == s;
  }

  /** SortWithoutLast when the new row x is the one the sort puts last. */
  lemma WithoutLastIsNew<T>(s: seq<T>, x: T, before: (T, T) -> bool)
    requires 0 < |s| && !before(x, s[LastMaxIndex(s, before)])
    ensures Sort(s + [x], before)[..|s|] == Sort(RemoveAt(s + [x], LastMaxIndex(s + [x], before)), before)
  {
    var t := Sort(s, before);
    LastOfSort(s, before);
    LastMaxIndexSnoc(s, x, before);
    calc {
      Sort(s + [x], before)[..|s|];
    == { SortSnoc(s, x, before); }
      Insert(t, x, before)[..|s|];
    == { assert Insert(t, x, before) == t + [x]; }
      (t + [x])[..|s|];
      t;
    == { RemoveLast(s, x); }
      Sort(RemoveAt(s + [x], |s|), before);
    }
  }

  /** SortWithoutLast when the latest row of s stays last after adding x. */
  lemma WithoutLastIsOld<T>(s: seq<T>, x: T, before: (T, T) -> bool)
    requires 0 < |s| && before(x, s[LastMaxIndex(s, before)])
    requires Sort(s, before)[..|s| - 1] == Sort(RemoveAt(s, LastMaxIndex(s, before)), before)
    ensures Sort(s + [x], before)[..|s|] == Sort(RemoveAt(s + [x], LastMaxIndex(s + [x], before)), before)
  {
    var i := LastMaxIndex(s, before);
    var t := Sort(s, before);
    var rest := RemoveAt(s, i);
    LastOfSort(s, before);
    LastMaxIndexSnoc(s, x, before);
    calc {
      Sort(s + [x], before)[..|s|];
    == { SortSnoc(s, x, before); }
      Insert(t, x, before)[..|s|];
    == { InsertBeforeLast(t, x, before); }
      (Insert(t[..|s| - 1], x, before) + [t[|s| - 1]])[..|s|];
      Insert(t[..|s| - 1], x, before);
      Insert(Sort(rest, before), x, before);
    == { SortSnoc(rest, x, before); }
      Sort(rest + [x], before);
    == { RemoveAtSnoc(s, x, i); }
      Sort(RemoveAt(s + [x], i), before);
    }
  }

  /** Dropping the last sorted row leaves the sort of the other rows: the second-to-last is the latest of the rest. */
  lemma {:induction false} SortWithoutLast<T>(s: seq<T>, before: (T, T) -> bool)
    requires 0 < |s|
    ensures Sort(s, before)[..|s| - 1] == Sort(RemoveAt(s, LastMaxIndex(s, before)), before)
  {
    if |s| == 1 {
      assert RemoveAt(s, 0) == [];
    } else {
      var s' := s[..|s| - 1];
      assert s == s' + [s[|s| - 1]];
      if !before(s[|s| - 1], s'[LastMaxIndex(s', before)]) {
        WithoutLastIsNew(s', s[|s| - 1], before);
      } else {
        SortWithoutLast(s', before);
        WithoutLastIsOld(s', s[|s| - 1], before);
      }
    }
  }

  // ----- the sort, in place -----

  /** One step of the insertion sort: moves a[i] left past the rows it goes strictly before. */
  method InsertLast<T>(a: array<T>, i: nat, before: (T, T) -> bool)
    requires i < a.Length
    modifies a
    ensures a[..] == Insert(old(a[..i]), old(a[i]), before) + old(a[i + 1..])
  {
    ghost var sorted := a[..i];
    ghost var tail := a[i + 1..];
    var x := a[i];
    var j := i;
    while 0 < j && before(x, a[j - 1])
      invariant 0 <= j <= i
      invariant a[..j] == sorted[..j]
      invariant a[j + 1..i + 1] == sorted[j..]
      invariant a[i + 1..] == tail
      invariant forall k :: j <= k < i ==> before(x, sorted[k])
    {
      a[j] := a[j - 1];
      j := j - 1;
    }
    ghost var shifted := a[..];
    a[j] := x;
    assert a[..] == shifted[j := x];
    PlaceAt(shifted, sorted, tail, x, j);
    InsertSplit(sorted, x, j, before);
  }

  /** Writing x into the gap at j of the shifted rows gives the sorted prefix with x inserted at j, then the tail. */
  lemma PlaceAt<T>(shifted: seq<T>, sorted: seq<T>, tail: seq<T>, x: T, j: nat)
    requires j <= |sorted| && |shifted| == |sorted| + 1 + |tail|
    requires shifted[..j] == sorted[..j] && shifted[j + 1..|sorted| + 1] == sorted[j..]
    requires shifted[|sorted| + 1..] == tail
    ensures shifted[j := x] == sorted[..j] + [x] + sorted[j..] + tail
  {
    var b := shifted[j := x];
    var c := sorted[..j] + [x] + sorted[j..] + tail;
    forall k | 0 <= k < |b| ensures b[k] == c[k] {
      if k < j {
        assert b[k] == shifted[..j][k];
      } else if j < k <= |sorted| {
        assert b[k] == shifted[j + 1..|sorted| + 1][k - j - 1];
      } else if |sorted| < k {
        assert b[k] == shifted[|sorted| + 1..][k - |sorted| - 1];
      }
    }
  }

  /** The rows of the array before and after one insertion step, as sequences. */
  lemma SortStep<T>(s: seq<T>, i: nat, cur: seq<T>, before: (T, T) -> bool)
    requires i < |s| && cur == Sort(s[..i], before) + s[i..]
    ensures cur[..i] == Sort(s[..i], before) && cur[i] == s[i] && cur[i + 1..] == s[i + 1..]
    ensures Insert(cur[..i], cur[i], before) + cur[i + 1..] == Sort(s[..i + 1], before) + s[i + 1..]
  {
    assert s[..i + 1] == s[..i] + [s[i]];
    SortSnoc(s[..i], s[i], before);
  }

  /** sort_values(..., inplace=True): a stable insertion sort of the array. */
  method SortInPlace<T>(a: array<T>, before: (T, T) -> bool)
    modifies a
    ensures a[..] == Sort(old(a[..]), before)
  {
    ghost var s := a[..];
    var i := 0;
    assert s[..0] == [] && s[0..] == s;
    while i < a.Length
      invariant 0 <= i <= a.Length
      invariant a[..] == Sort(s[..i], before) + s[i..]
    {
      SortStep(s, i, a[..], before);
      InsertLast(a, i, before);
      i := i + 1;
    }
    assert s[..a.Length] == s;
  }

  /** A sorted copy of rows, as the callbacks sort their filtered frame. */
  method SortedCopy<T>(rows: seq<T>, before: (T, T) -> bool) returns (sorted: seq<T>)
    ensures sorted == Sort(rows, before)
  {
    if |rows| == 0 {
      return [];
    }
    var a := new T[|rows|](k requires 0 <= k < |rows| => rows[k]);
    assert a[..] == rows;
    SortInPlace(a, before);
    sorted := a[..];
  }
}
