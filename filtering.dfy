/** The search and status filter applied to the opportunity list before it is
    sorted and paged. */
module Filtering {
  import opened Text
  import opened Opportunities

  /** The filter predicate: an empty search matches everything, otherwise the
      lower-cased title or consultant email must contain the lower-cased
      search; an empty status filter matches everything, otherwise the status
      name must equal it. */
  predicate Matches(o: Opportunity, search: string, statusFilter: string) {
    (search == []
     || Contains(Lower(o.title), Lower(search))
     || Contains(Lower(o.consultantEmail), Lower(search)))
    && (statusFilter == [] || StatusName(o.status) == statusFilter)
  }

  function Filtered(s: seq<Opportunity>, search: string, statusFilter: string): seq<Opportunity>
    decreases |s|
  {
    if s == [] then []
    else (if Matches(s[0], search, statusFilter) then [s[0]] else [])
         + Filtered(s[1..], search, statusFilter)
  }

  /** `a` is `b` with some elements left out, the rest in their order. */
  ghost predicate IsSubsequence<T>(a: seq<T>, b: seq<T>)
    decreases |b|
  {
    a == []
    || (b != []
        && ((a[0] == b[0] && IsSubsequence(a[1..], b[1..])) || IsSubsequence(a, b[1..])))
  }

  /** The filtered list is a subsequence of the list. */
  lemma {:induction false} FilteredIsSubsequence(s: seq<Opportunity>, search: string, statusFilter: string)
    ensures IsSubsequence(Filtered(s, search, statusFilter), s)
    decreases |s|
  {
    if s != [] {
      FilteredIsSubsequence(s[1..], search, statusFilter);
      var f := Filtered(s, search, statusFilter);
      if Matches(s[0], search, statusFilter) {
        assert f[0] == s[0] && f[1..] == Filtered(s[1..], search, statusFilter);
      } else {
        assert f == Filtered(s[1..], search, statusFilter);
        assert IsSubsequence(f, s[1..]);
      }
    }
  }

  /** Every record of the filtered list matches. */
  lemma {:induction false} FilteredAllMatch(s: seq<Opportunity>, search: string, statusFilter: string)
    ensures forall i :: 0 <= i < |Filtered(s, search, statusFilter)| ==>
              Matches(Filtered(s, search, statusFilter)[i], search, statusFilter)
    decreases |s|
  {
    if s != [] {
      FilteredAllMatch(s[1..], search, statusFilter);
    }
  }

  /** Every matching record of the list is kept as often as it occurs there,
      and no other record is. */
  lemma {:induction false} FilteredCounts(s: seq<Opportunity>, search: string, statusFilter: string, o: Opportunity)
    ensures multiset(Filtered(s, search, statusFilter))[o]
            == if Matches(o, search, statusFilter) then multiset(s)[o] else 0
    decreases |s|
  {
    if s != [] {
      FilteredCounts(s[1..], search, statusFilter, o);
      assert s == [s[0]] + s[1..];
      assert multiset(s) == multiset{s[0]} + multiset(s[1..]);
    }
  }

  /** A record is in the filtered list if and only if it is in the list and
      matches. */
  lemma FilteredMembership(s: seq<Opportunity>, search: string, statusFilter: string, o: Opportunity)
    ensures o in Filtered(s, search, statusFilter) <==> o in s && Matches(o, search, statusFilter)
  {
    FilteredCounts(s, search, statusFilter, o);
    assert o in Filtered(s, search, statusFilter) <==> multiset(Filtered(s, search, statusFilter))[o] > 0;
    assert o in s <==> multiset(s)[o] > 0;
  }
}
