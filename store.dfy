/** The opportunity list the admin page works on: adding through the form,
    deleting by id, the filter/sort/page query and the per-consultant
    metrics. */
module Store {
  import opened Opportunities
  import opened Filtering
  import opened Sorting
  import opened Paging
  import opened Metrics

  /** The list after removing the first record whose id is `id`, if any. */
  function RemoveFirst(s: seq<Opportunity>, id: string): seq<Opportunity>
    decreases |s|
  {
    if s == [] then []
    else if s[0].id == id then s[1..]
    else [s[0]] + RemoveFirst(s[1..], id)
  }

  /** Removing an id no record has leaves the list as it is. */
  lemma {:induction false} RemoveAbsent(s: seq<Opportunity>, id: string)
    requires forall k :: 0 <= k < |s| ==> s[k].id != id
    ensures RemoveFirst(s, id) == s
    decreases |s|
  {
    if s != [] {
      RemoveAbsent(s[1..], id);
    }
  }

  lemma {:induction false} RemoveAt(s: seq<Opportunity>, id: string, i: nat)
    requires i < |s| && s[i].id == id
    requires forall k :: 0 <= k < i ==> s[k].id != id
    ensures RemoveFirst(s, id) == s[..i] + s[i + 1..]
    decreases i
  {
    if i == 0 {
      assert s[..0] + s[1..] == s[1..];
    } else {
      var t := s[1..];
      assert t[0].id == s[1].id;
      RemoveAt(t, id, i - 1);
      assert RemoveFirst(s, id) == [s[0]] + (t[..i - 1] + t[i..]);
      assert [s[0]] + t[..i - 1] == s[..i];
      assert t[i..] == s[i + 1..];
    }
  }

  /** Removing an id whose first record is at `i` drops exactly that record:
      the others stay, in their order, and the list is one shorter. */
  lemma RemovePresent(s: seq<Opportunity>, id: string, i: nat)
    requires i < |s| && s[i].id == id
    requires forall k :: 0 <= k < i ==> s[k].id != id
    ensures RemoveFirst(s, id) == s[..i] + s[i + 1..]
    ensures |RemoveFirst(s, id)| == |s| - 1
    ensures multiset(RemoveFirst(s, id)) + multiset{s[i]} == multiset(s)
  {
    RemoveAt(s, id, i);
    assert s == s[..i] + [s[i]] + s[i + 1..];
  }

  predicate UniqueIds(s: seq<Opportunity>) {
    forall j, k :: 0 <= j < k < |s| ==> s[j].id != s[k].id
  }

  /** With unique ids, deleting twice is the same as deleting once. */
  lemma RemoveIdempotent(s: seq<Opportunity>, id: string)
    requires UniqueIds(s)
    ensures RemoveFirst(RemoveFirst(s, id), id) == RemoveFirst(s, id)
  {
    if i :| 0 <= i < |s| && s[i].id == id {
      RemovePresent(s, id, i);
      var r := s[..i] + s[i + 1..];
      forall k | 0 <= k < |r| ensures r[k].id != id {
        if k < i {
          assert r[k] == s[k];
        } else {
          assert r[k] == s[k + 1];
        }
      }
      RemoveAbsent(r, id);
    } else {
      RemoveAbsent(s, id);
    }
  }

  /** The page is not clamped when the list shrinks: with eleven records,
      page 3 holds only the last one; deleting it leaves two pages, page 3
      shows nothing, and the written Next guard still lets the user move on
      to page 4, which is empty too. */
  lemma NextPageStrandedAsWritten(s0: seq<Opportunity>)
    requires |s0| == 11 && UniqueIds(s0)
    ensures TotalPages(|s0|) == 3 && Page(s0, 3) == [s0[10]]
    ensures var s := RemoveFirst(s0, s0[10].id);
              s == s0[..10] && TotalPages(|s|) == 2 && Page(s, 3) == []
              && NextPageAsWritten(3, TotalPages(|s|)) == 4 && Page(s, 4) == []
  {
    RemovePresent(s0, s0[10].id, 10);
    assert s0[..10] + s0[11..] == s0[..10];
  }

  /** Ids come from the clock and may repeat; then a second delete of the
      same id removes a second record. */
  lemma RemoveTwiceWithRepeatedId(a: Opportunity, b: Opportunity)
    requires a.id == b.id
    ensures RemoveFirst([a, b], a.id) == [b]
    ensures RemoveFirst(RemoveFirst([a, b], a.id), a.id) == []
  {
    assert [a, b][1..] == [b];
  }

  class OpportunityStore {
    /** The shared, ordered list of opportunities. */
    var opportunities: seq<Opportunity>

    /** The list as loaded from the store module. */
    constructor (loaded: seq<Opportunity>)
      ensures opportunities == loaded
    {
      opportunities := loaded;
    }

    /** `addOpportunity`, assumed to append. */
    method Add(o: Opportunity)
      modifies this
      ensures opportunities == old(opportunities) + [o]
    {
      opportunities := opportunities + [o];
    }

    /** `handleSubmit`: nothing happens unless every form field is non-empty;
        otherwise exactly one record is appended, with status pending. */
    method Submit(form: Form, now: string) returns (added: bool)
      modifies this
      ensures added == FormComplete(form)
      ensures added ==> opportunities == old(opportunities) + [NewOpportunity(form, now)]
      ensures added ==> opportunities[|opportunities| - 1].status == Pending
      ensures !added ==> opportunities == old(opportunities)
    {
      if !FormComplete(form) {
        return false;
      }
      Add(NewOpportunity(form, now));
      added := true;
    }

    /** `findIndex(o => o.id === id)`: the first position holding `id`, or -1. */
    method FindIndex(id: string) returns (index: int)
      ensures -1 <= index < |opportunities|
      ensures index == -1 <==> forall k :: 0 <= k < |opportunities| ==> opportunities[k].id != id
      ensures 0 <= index ==> opportunities[index].id == id
      ensures 0 <= index ==> forall k :: 0 <= k < index ==> opportunities[k].id != id
    {
      var i := 0;
      while i < |opportunities|
        invariant 0 <= i <= |opportunities|
        invariant forall k :: 0 <= k < i ==> opportunities[k].id != id
      {
        if opportunities[i].id == id {
          return i;
        }
        i := i + 1;
      }
      return -1;
    }

    /** `deleteOpportunity`: `findIndex` then `splice(index, 1)`. */
    method Delete(id: string)
      modifies this
      ensures opportunities == RemoveFirst(old(opportunities), id)
    {
      var index := FindIndex(id);
      if index != -1 {
        RemovePresent(opportunities, id, index);
        opportunities := opportunities[..index] + opportunities[index + 1..];
      } else {
        RemoveAbsent(opportunities, id);
      }
    }

    /** The filter, sort and page pipeline: the records on `page`, the number
        of records that pass the filter, and the page count. The filtered
        records are copied into a fresh array that is sorted in place, so the
        list itself is left as it is. */
    method Query(search: string, statusFilter: string, field: SortField, dir: Direction, page: int)
      returns (paged: seq<Opportunity>, filteredCount: nat, totalPages: nat)
      ensures filteredCount == |Filtered(opportunities, search, statusFilter)|
      ensures totalPages == TotalPages(filteredCount)
      ensures paged == Page(Sorted(Filtered(opportunities, search, statusFilter), field, dir), page)
    {
      var filtered := Filtered(opportunities, search, statusFilter);
      var a := new Opportunity[|filtered|](i requires 0 <= i < |filtered| => filtered[i]);
      assert a[..] == filtered;
      SortInPlace(a, field, dir);
      filteredCount := a.Length;
      totalPages := TotalPages(filteredCount);
      paged := Page(a[..], page);
    }

    /** `consultantMetrics`: one pass over the list, creating an entry for
        each new email and counting the record under its status. */
    method ConsultantMetrics() returns (grouped: map<string, Counts>)
      ensures grouped == Group(opportunities)
      ensures forall e :: e in grouped <==> exists i :: 0 <= i < |opportunities| && opportunities[i].consultantEmail == e
      ensures forall e :: e in grouped ==> grouped[e] == CountsFor(opportunities, e) && Consistent(grouped[e])
      ensures SumTotals(grouped, grouped.Keys) == |opportunities|
    {
      grouped := map[];
      var i := 0;
      while i < |opportunities|
        invariant 0 <= i <= |opportunities|
        invariant grouped == Group(opportunities[..i])
      {
        var o := opportunities[i];
        if o.consultantEmail !in grouped {
          grouped := grouped[o.consultantEmail := Zero];
        }
        grouped := grouped[o.consultantEmail := Bump(grouped[o.consultantEmail], o.status)];
        assert opportunities[..i + 1][..i] == opportunities[..i];
        i := i + 1;
      }
      assert opportunities[..i] == opportunities;
      forall e ensures e in grouped <==> exists i :: 0 <= i < |opportunities| && opportunities[i].consultantEmail == e {
        GroupKeys(opportunities, e);
      }
      forall e | e in grouped ensures grouped[e] == CountsFor(opportunities, e) && Consistent(grouped[e]) {
        GroupCounts(opportunities, e);
        GroupCountsConsistent(opportunities, e);
      }
      GroupConservesTotal(opportunities);
    }
  }
}
