/** The sort step of the opportunity table: the comparator over one of four
    keys in either direction, and a stable in-place sort of the filtered
    records. */
module Sorting {
  import opened Text
  import opened Opportunities

  datatype SortField = StartDate | EndDate | Duration | StatusKey

  datatype Direction = Asc | Desc

  function CompareNumbers(x: int, y: int, dir: Direction): int {
    if dir == Asc then x - y else y - x
  }

  function CompareWords(x: string, y: string, dir: Direction): int {
    if StrLess(x, y) then (if dir == Asc then -1 else 1)
    else if StrLess(y, x) then (if dir == Asc then 1 else -1)
    else 0
  }

  /** The comparator handed to `sort`: the day numbers for the date keys and
      the duration are subtracted, the status names are compared as strings. */
  function Compare(a: Opportunity, b: Opportunity, field: SortField, dir: Direction): int {
    match field
    case StartDate => CompareNumbers(a.startDate.day, b.startDate.day, dir)
    case EndDate => CompareNumbers(a.endDate.day, b.endDate.day, dir)
    case Duration =>
      CompareNumbers(a.endDate.day - a.startDate.day, b.endDate.day - b.startDate.day, dir)
    case StatusKey => CompareWords(StatusName(a.status), StatusName(b.status), dir)
  }

  /** The position a record sorts at: its day number for the date keys and
      the duration, and for the status key the rank of its status name in
      string order. */
  function Key(o: Opportunity, field: SortField): int {
    match field
    case StartDate => o.startDate.day
    case EndDate => o.endDate.day
    case Duration => o.endDate.day - o.startDate.day
    case StatusKey => StatusRank(o.status)
  }

  /** `a` belongs after `b` in the requested direction. */
  predicate After(a: Opportunity, b: Opportunity, field: SortField, dir: Direction) {
    if dir == Asc then Key(a, field) > Key(b, field) else Key(b, field) > Key(a, field)
  }

  /** The comparator is a consistent three-way comparison on the key: it is
      positive exactly when `a` belongs after `b`, zero exactly on equal
      keys, antisymmetric, and its "not after" relation is transitive;
      descending negates ascending. */
  lemma CompareIsTotalPreorder(a: Opportunity, b: Opportunity, c: Opportunity, field: SortField, dir: Direction)
    ensures Compare(a, b, field, dir) > 0 <==> After(a, b, field, dir)
    ensures Compare(a, b, field, dir) == 0 <==> Key(a, field) == Key(b, field)
    ensures Compare(b, a, field, dir) == -Compare(a, b, field, dir)
    ensures Compare(a, b, field, Desc) == -Compare(a, b, field, Asc)
    ensures Compare(a, b, field, dir) <= 0 && Compare(b, c, field, dir) <= 0 ==> Compare(a, c, field, dir) <= 0
  {
    if field == StatusKey {
      StatusNameOrder(a.status, b.status);
      StatusNameOrder(b.status, a.status);
      StatusNameOrder(b.status, c.status);
      StatusNameOrder(c.status, b.status);
      StatusNameOrder(a.status, c.status);
      StatusNameOrder(c.status, a.status);
    }
  }

  /** A non-empty list is its front followed by its last element. */
  lemma FrontLast<T>(s: seq<T>)
    requires s != []
    ensures s == s[..|s| - 1] + [s[|s| - 1]]
  {
  }

  /** Every earlier record does not belong after any later one. */
  ghost predicate Ordered(r: seq<Opportunity>, field: SortField, dir: Direction) {
    forall i, j :: 0 <= i < j < |r| ==> !After(r[i], r[j], field, dir)
  }

  /** `Ordered` is the order the comparator asks for: no earlier record
      compares after a later one. */
  lemma OrderedByComparator(r: seq<Opportunity>, field: SortField, dir: Direction)
    ensures Ordered(r, field, dir) <==> forall i, j :: 0 <= i < j < |r| ==> Compare(r[i], r[j], field, dir) <= 0
  {
    forall i, j | 0 <= i < j < |r| ensures Compare(r[i], r[j], field, dir) <= 0 <==> !After(r[i], r[j], field, dir) {
      CompareIsTotalPreorder(r[i], r[j], r[j], field, dir);
    }
  }

  /** Places `x` after the last record of `r` that does not belong after it,
      moving it left past each record the comparator puts after it. */
  function Insert(r: seq<Opportunity>, x: Opportunity, field: SortField, dir: Direction): seq<Opportunity>
    decreases |r|
  {
    if r == [] || !After(r[|r| - 1], x, field, dir) then r + [x]
    else Insert(r[..|r| - 1], x, field, dir) + [r[|r| - 1]]
  }

  /** The stable sort of `s`: insertion of each record in list order. */
  function Sorted(s: seq<Opportunity>, field: SortField, dir: Direction): seq<Opportunity>
    decreases |s|
  {
    if s == [] then [] else Insert(Sorted(s[..|s| - 1], field, dir), s[|s| - 1], field, dir)
  }

  /** The records of `s` whose key is `k`, in their order in `s`. */
  function WithKey(s: seq<Opportunity>, field: SortField, k: int): seq<Opportunity>
    decreases |s|
  {
    if s == [] then []
    else WithKey(s[..|s| - 1], field, k) + (if Key(s[|s| - 1], field) == k then [s[|s| - 1]] else [])
  }

  lemma {:induction false} InsertPermutes(r: seq<Opportunity>, x: Opportunity, field: SortField, dir: Direction)
    ensures multiset(Insert(r, x, field, dir)) == multiset(r) + multiset{x}
    decreases |r|
  {
    if r != [] && After(r[|r| - 1], x, field, dir) {
      InsertPermutes(r[..|r| - 1], x, field, dir);
      assert r == r[..|r| - 1] + [r[|r| - 1]];
    }
  }

  /** Appending a record that no record compares after keeps a list ordered. */
  lemma AppendOrdered(q: seq<Opportunity>, y: Opportunity, field: SortField, dir: Direction)
    requires Ordered(q, field, dir)
    requires forall i :: 0 <= i < |q| ==> !After(q[i], y, field, dir)
    ensures Ordered(q + [y], field, dir)
  {
    var t := q + [y];
    forall i, j | 0 <= i < j < |t| ensures !After(t[i], t[j], field, dir) {
      assert t[i] == q[i];
      if j < |q| {
        assert t[j] == q[j];
      }
    }
  }

  lemma {:induction false} InsertOrdered(r: seq<Opportunity>, x: Opportunity, field: SortField, dir: Direction)
    requires Ordered(r, field, dir)
    ensures Ordered(Insert(r, x, field, dir), field, dir)
    decreases |r|
  {
    if r == [] {
    } else if !After(r[|r| - 1], x, field, dir) {
      forall i | 0 <= i < |r| ensures !After(r[i], x, field, dir) {
        assert !After(r[i], r[|r| - 1], field, dir) || i == |r| - 1;
      }
      AppendOrdered(r, x, field, dir);
    } else {
      var p, last := r[..|r| - 1], r[|r| - 1];
      InsertOrdered(p, x, field, dir);
      InsertPermutes(p, x, field, dir);
      var q := Insert(p, x, field, dir);
      forall i | 0 <= i < |q| ensures !After(q[i], last, field, dir) {
        assert q[i] in multiset(q);
        if q[i] != x {
          assert q[i] in multiset(p);
          var k :| 0 <= k < |p| && p[k] == q[i];
          assert r[k] == q[i];
        }
      }
      AppendOrdered(q, last, field, dir);
    }
  }

  lemma WithKeySnoc(s: seq<Opportunity>, y: Opportunity, field: SortField, k: int)
    ensures WithKey(s + [y], field, k) == WithKey(s, field, k) + (if Key(y, field) == k then [y] else [])
  {
    assert (s + [y])[..|s|] == s;
  }

  /** Appending a record whose key differs from `x`'s to both sides keeps
      "`q` is `p` with `x` added" true key by key. */
  lemma WithKeyStep(q: seq<Opportunity>, p: seq<Opportunity>, last: Opportunity, x: Opportunity, field: SortField, k: int)
    requires Key(last, field) != Key(x, field)
    requires WithKey(q, field, k) == WithKey(p, field, k) + (if Key(x, field) == k then [x] else [])
    ensures WithKey(q + [last], field, k) == WithKey(p + [last], field, k) + (if Key(x, field) == k then [x] else [])
  {
    WithKeySnoc(q, last, field, k);
    WithKeySnoc(p, last, field, k);
    var w := WithKey(p, field, k);
    if Key(x, field) == k {
      assert WithKey(q + [last], field, k) == w + [x];
      assert WithKey(p + [last], field, k) == w;
    }
  }

  /** Inserting keeps the relative order of the records of each key, and
      `x` goes after every record whose key equals its own. */
  lemma {:induction false} InsertStable(r: seq<Opportunity>, x: Opportunity, field: SortField, dir: Direction, k: int)
    ensures WithKey(Insert(r, x, field, dir), field, k)
            == WithKey(r, field, k) + (if Key(x, field) == k then [x] else [])
    decreases |r|
  {
    if r == [] || !After(r[|r| - 1], x, field, dir) {
      WithKeySnoc(r, x, field, k);
    } else {
      var p, last := r[..|r| - 1], r[|r| - 1];
      InsertStable(p, x, field, dir, k);
      WithKeyStep(Insert(p, x, field, dir), p, last, x, field, k);
      FrontLast(r);
    }
  }

  lemma {:induction false} SortedPermutes(s: seq<Opportunity>, field: SortField, dir: Direction)
    ensures multiset(Sorted(s, field, dir)) == multiset(s)
    decreases |s|
  {
    if s != [] {
      var p, last := s[..|s| - 1], s[|s| - 1];
      SortedPermutes(p, field, dir);
      InsertPermutes(Sorted(p, field, dir), last, field, dir);
      FrontLast(s);
    }
  }

  lemma {:induction false} SortedOrdered(s: seq<Opportunity>, field: SortField, dir: Direction)
    ensures Ordered(Sorted(s, field, dir), field, dir)
    decreases |s|
  {
    if s != [] {
      SortedOrdered(s[..|s| - 1], field, dir);
      InsertOrdered(Sorted(s[..|s| - 1], field, dir), s[|s| - 1], field, dir);
    }
  }

  lemma {:induction false} SortedStable(s: seq<Opportunity>, field: SortField, dir: Direction, k: int)
    ensures WithKey(Sorted(s, field, dir), field, k) == WithKey(s, field, k)
    decreases |s|
  {
    if s != [] {
      SortedStable(s[..|s| - 1], field, dir, k);
      InsertStable(Sorted(s[..|s| - 1], field, dir), s[|s| - 1], field, dir, k);
    }
  }

  /** `Sorted` is a stable sort: the result is a permutation of the input,
      ordered by the comparator, and for every key value the records with
      that key appear in the order they had in the input. */
  lemma SortedIsStableSort(s: seq<Opportunity>, field: SortField, dir: Direction)
    ensures multiset(Sorted(s, field, dir)) == multiset(s)
    ensures Ordered(Sorted(s, field, dir), field, dir)
    ensures forall k :: WithKey(Sorted(s, field, dir), field, k) == WithKey(s, field, k)
  {
    SortedPermutes(s, field, dir);
    SortedOrdered(s, field, dir);
    forall k ensures WithKey(Sorted(s, field, dir), field, k) == WithKey(s, field, k) {
      SortedStable(s, field, dir, k);
    }
  }

  lemma {:induction false} WithKeyMembers(s: seq<Opportunity>, field: SortField, k: int, y: Opportunity)
    requires y in WithKey(s, field, k)
    ensures y in s && Key(y, field) == k
    decreases |s|
  {
    var p := s[..|s| - 1];
    if y in WithKey(p, field, k) {
      WithKeyMembers(p, field, k, y);
    }
  }

  /** In an ordered list no record compares after the last one. */
  lemma NotAfterLast(r: seq<Opportunity>, y: Opportunity, field: SortField, dir: Direction)
    requires Ordered(r, field, dir) && y in r
    ensures !After(y, r[|r| - 1], field, dir)
  {
    var j :| 0 <= j < |r| && r[j] == y;
  }

  /** The last record of a list ends the run of its own key. */
  lemma LastEndsItsRun(r: seq<Opportunity>, field: SortField)
    requires r != []
    ensures WithKey(r, field, Key(r[|r| - 1], field))
            == WithKey(r[..|r| - 1], field, Key(r[|r| - 1], field)) + [r[|r| - 1]]
  {
  }

  /** Two ordered non-empty lists that agree on the runs of their last
      records' keys end with records of the same key. */
  lemma LastKeysAgree(r1: seq<Opportunity>, r2: seq<Opportunity>, field: SortField, dir: Direction)
    requires r1 != [] && r2 != []
    requires Ordered(r1, field, dir) && Ordered(r2, field, dir)
    requires WithKey(r1, field, Key(r1[|r1| - 1], field)) == WithKey(r2, field, Key(r1[|r1| - 1], field))
    requires WithKey(r1, field, Key(r2[|r2| - 1], field)) == WithKey(r2, field, Key(r2[|r2| - 1], field))
    ensures Key(r1[|r1| - 1], field) == Key(r2[|r2| - 1], field)
  {
    var x1, x2 := r1[|r1| - 1], r2[|r2| - 1];
    // Each last record is in the other list, so neither belongs after the other.
    LastEndsItsRun(r1, field);
    WithKeyMembers(r2, field, Key(x1, field), x1);
    NotAfterLast(r2, x1, field, dir);
    LastEndsItsRun(r2, field);
    WithKeyMembers(r1, field, Key(x2, field), x2);
    NotAfterLast(r1, x2, field, dir);
  }

  /** Two non-empty lists whose last records share a key, and which agree on
      that key's run, end with the same record. */
  lemma LastsAgree(r1: seq<Opportunity>, r2: seq<Opportunity>, field: SortField)
    requires r1 != [] && r2 != []
    requires Key(r1[|r1| - 1], field) == Key(r2[|r2| - 1], field)
    requires WithKey(r1, field, Key(r1[|r1| - 1], field)) == WithKey(r2, field, Key(r1[|r1| - 1], field))
    ensures r1[|r1| - 1] == r2[|r2| - 1]
  {
    var w := WithKey(r1, field, Key(r1[|r1| - 1], field));
    LastEndsItsRun(r1, field);
    LastEndsItsRun(r2, field);
    assert w[|w| - 1] == r1[|r1| - 1];
    assert w[|w| - 1] == r2[|r2| - 1];
  }

  /** Dropping the same last record from two lists that agree key by key
      leaves lists that agree key by key. */
  lemma PrefixesAgree(r1: seq<Opportunity>, r2: seq<Opportunity>, field: SortField, k: int)
    requires r1 != [] && r2 != [] && r1[|r1| - 1] == r2[|r2| - 1]
    requires WithKey(r1, field, k) == WithKey(r2, field, k)
    ensures WithKey(r1[..|r1| - 1], field, k) == WithKey(r2[..|r2| - 1], field, k)
  {
    var x := r1[|r1| - 1];
    var a, b := WithKey(r1[..|r1| - 1], field, k), WithKey(r2[..|r2| - 1], field, k);
    var tail := if Key(x, field) == k then [x] else [];
    assert WithKey(r1, field, k) == a + tail;
    assert WithKey(r2, field, k) == b + tail;
    assert a == (a + tail)[..|a|];
    assert b == (b + tail)[..|b|];
  }

  lemma LastKeyPresent(s: seq<Opportunity>, field: SortField)
    ensures s != [] ==> WithKey(s, field, Key(s[|s| - 1], field)) != []
  {
  }

  /** Two ordered lists that agree, key by key, on the order of their records
      are the same list: a stable sort has only one possible result. */
  lemma {:induction false} StableOrderIsUnique(r1: seq<Opportunity>, r2: seq<Opportunity>, field: SortField, dir: Direction)
    requires Ordered(r1, field, dir) && Ordered(r2, field, dir)
    requires forall k :: WithKey(r1, field, k) == WithKey(r2, field, k)
    ensures r1 == r2
    decreases |r1| + |r2|
  {
    if r1 == [] || r2 == [] {
      if r1 != [] {
        LastKeyPresent(r1, field);
        assert false;
      } else if r2 != [] {
        LastKeyPresent(r2, field);
        assert false;
      }
    } else {
      var p1, p2 := r1[..|r1| - 1], r2[..|r2| - 1];
      LastKeysAgree(r1, r2, field, dir);
      LastsAgree(r1, r2, field);
      forall k ensures WithKey(p1, field, k) == WithKey(p2, field, k) {
        PrefixesAgree(r1, r2, field, k);
      }
      StableOrderIsUnique(p1, p2, field, dir);
      FrontLast(r1);
      FrontLast(r2);
    }
  }

  /** Any stable sort of `s` by this comparator yields `Sorted(s)`. */
  lemma AnyStableSortIsSorted(s: seq<Opportunity>, r: seq<Opportunity>, field: SortField, dir: Direction)
    requires Ordered(r, field, dir)
    requires forall k :: WithKey(r, field, k) == WithKey(s, field, k)
    ensures r == Sorted(s, field, dir)
  {
    SortedIsStableSort(s, field, dir);
    StableOrderIsUnique(r, Sorted(s, field, dir), field, dir);
  }

  /** Two records with equal keys keep their order in both directions, so a
      descending sort is not the reverse of the ascending one when keys tie. */
  lemma {:induction false} TiesKeepOrderBothWays(a: Opportunity, b: Opportunity, field: SortField)
    requires Key(a, field) == Key(b, field)
    ensures Sorted([a, b], field, Asc) == [a, b]
    ensures Sorted([a, b], field, Desc) == [a, b]
  {
    assert [a, b][..1] == [a];
    assert [a][..0] == [];
    assert Sorted([a], field, Asc) == Insert([], a, field, Asc) == [a];
    assert Sorted([a], field, Desc) == Insert([], a, field, Desc) == [a];
    assert Sorted([a, b], field, Asc) == Insert([a], b, field, Asc) == [a, b];
    assert Sorted([a, b], field, Desc) == Insert([a], b, field, Desc) == [a, b];
  }

  /** Three records whose durations are 5, 1 and 3 days sort ascending by
      duration as the 1-, 3- and 5-day records. */
  lemma DurationExample(r5: Opportunity, r1: Opportunity, r3: Opportunity)
    requires r5.endDate.day - r5.startDate.day == 5
    requires r1.endDate.day - r1.startDate.day == 1
    requires r3.endDate.day - r3.startDate.day == 3
    ensures Sorted([r5, r1, r3], Duration, Asc) == [r1, r3, r5]
  {
    assert [r5, r1, r3][..2] == [r5, r1];
    assert [r5, r1][..1] == [r5];
    assert [r5][..0] == [];
    assert Sorted([r5], Duration, Asc) == Insert([], r5, Duration, Asc) == [r5];
    assert Insert([], r1, Duration, Asc) == [r1];
    assert Sorted([r5, r1], Duration, Asc) == Insert([r5], r1, Duration, Asc) == [r1, r5];
    assert [r1, r5][..1] == [r1];
    assert Insert([r1], r3, Duration, Asc) == [r1, r3];
    assert Insert([r1, r5], r3, Duration, Asc) == [r1, r3, r5];
  }

  /** `Insert` places `x` right after the last record that does not compare
      after it: when every record from `j` on compares after `x` and the one
      before `j` does not, `x` lands at position `j`. */
  lemma {:induction false} InsertAt(done: seq<Opportunity>, x: Opportunity, j: nat, field: SortField, dir: Direction)
    requires j <= |done|
    requires j == 0 || !After(done[j - 1], x, field, dir)
    requires forall k :: j <= k < |done| ==> After(done[k], x, field, dir)
    ensures Insert(done, x, field, dir) == done[..j] + [x] + done[j..]
    decreases |done|
  {
    if j == |done| {
      assert done[..j] == done && done[j..] == [];
    } else {
      var p := done[..|done| - 1];
      assert After(done[|done| - 1], x, field, dir);
      InsertAt(p, x, j, field, dir);
      assert p[..j] == done[..j];
      assert p[j..] + [done[|done| - 1]] == done[j..];
    }
  }

  /** Shifts the records before position `i` that compare strictly after
      `x` one place to the right, scanning from `i - 1` down, and returns
      the gap left where `x` belongs. */
  method ShiftLarger(a: array<Opportunity>, i: nat, x: Opportunity, field: SortField, dir: Direction)
    returns (j: nat)
    requires i < a.Length
    modifies a
    ensures j <= i
    ensures forall k :: 0 <= k < j ==> a[k] == old(a[k])
    ensures forall k :: j < k <= i ==> a[k] == old(a[k - 1])
    ensures forall k :: i < k < a.Length ==> a[k] == old(a[k])
    ensures forall k :: j <= k < i ==> After(old(a[k]), x, field, dir)
    ensures j == 0 || !After(old(a[j - 1]), x, field, dir)
  {
    j := i;
    while j > 0 && Compare(a[j - 1], x, field, dir) > 0
      invariant j <= i
      invariant forall k :: 0 <= k < j ==> a[k] == old(a[k])
      invariant forall k :: j < k <= i ==> a[k] == old(a[k - 1])
      invariant forall k :: i < k < a.Length ==> a[k] == old(a[k])
      invariant forall k :: j <= k < i ==> After(old(a[k]), x, field, dir)
    {
      CompareIsTotalPreorder(a[j - 1], x, x, field, dir);
      a[j] := a[j - 1];
      j := j - 1;
    }
    if j > 0 {
      CompareIsTotalPreorder(a[j - 1], x, x, field, dir);
    }
  }

  /** A list that holds `done`'s records before `j`, then `x`, then the rest
      of `done` one place further on is `x` inserted into `done` at `j`. */
  lemma PlacedAt(b: seq<Opportunity>, done: seq<Opportunity>, x: Opportunity, j: nat)
    requires j <= |done| && |b| == |done| + 1
    requires forall k :: 0 <= k < j ==> b[k] == done[k]
    requires b[j] == x
    requires forall k :: j < k < |b| ==> b[k] == done[k - 1]
    ensures b == done[..j] + [x] + done[j..]
  {
    var placed := done[..j] + [x] + done[j..];
    forall k | 0 <= k < |b| ensures b[k] == placed[k] {
      if k < j {
        assert placed[k] == done[k];
      } else if j < k {
        assert placed[k] == done[k - 1];
      }
    }
  }

  /** Moves `a[i]` left past the records before it that compare strictly
      after it, so that `a[..i + 1]` becomes the insertion of `a[i]` into
      `a[..i]`; the rest of the array is untouched. */
  method InsertInPlace(a: array<Opportunity>, i: nat, field: SortField, dir: Direction)
    requires i < a.Length
    modifies a
    ensures a[..i + 1] == Insert(old(a[..i]), old(a[i]), field, dir)
    ensures a[i + 1..] == old(a[i + 1..])
  {
    ghost var done := a[..i];
    ghost var rest := a[i + 1..];
    var x := a[i];
    var j := ShiftLarger(a, i, x, field, dir);
    a[j] := x;
    InsertAt(done, x, j, field, dir);
    PlacedAt(a[..i + 1], done, x, j);
    assert a[i + 1..] == rest;
  }

  /** Sorting one more record of `s` inserts it into the sorted prefix. */
  lemma SortedStep(s: seq<Opportunity>, i: nat, field: SortField, dir: Direction)
    requires i < |s|
    ensures Sorted(s[..i + 1], field, dir) == Insert(Sorted(s[..i], field, dir), s[i], field, dir)
  {
    assert s[..i + 1][..i] == s[..i];
  }

  /** Sorts `a` in place by insertion; the result is `Sorted` of the input. */
  method SortInPlace(a: array<Opportunity>, field: SortField, dir: Direction)
    modifies a
    ensures a[..] == Sorted(old(a[..]), field, dir)
  {
    ghost var input := a[..];
    var i := 0;
    while i < a.Length
      invariant 0 <= i <= a.Length
      invariant a[..i] == Sorted(input[..i], field, dir)
      invariant a[i..] == input[i..]
    {
      assert a[i] == input[i];
      InsertInPlace(a, i, field, dir);
      SortedStep(input, i, field, dir);
      i := i + 1;
    }
    assert a[..] == a[..a.Length];
    assert input[..a.Length] == input;
  }
}
