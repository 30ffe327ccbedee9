/** Per-consultant aggregation of the opportunity list and the three rates
    derived from it. */
module Metrics {
  import opened Opportunities

  datatype Counts = Counts(total: nat, accepted: nat, declined: nat, pending: nat)

  const Zero := Counts(0, 0, 0, 0)

  /** One record's contribution: `total++` and `[status]++`. */
  function Bump(c: Counts, s: Status): Counts {
    match s
    case Accepted => c.(total := c.total + 1, accepted := c.accepted + 1)
    case Declined => c.(total := c.total + 1, declined := c.declined + 1)
    case Pending => c.(total := c.total + 1, pending := c.pending + 1)
  }

  /** One step of the `forEach`: create the email's entry if it is missing,
      then count the record in it. */
  function Tally(m: map<string, Counts>, o: Opportunity): map<string, Counts> {
    var c := if o.consultantEmail in m then m[o.consultantEmail] else Zero;
    m[o.consultantEmail := Bump(c, o.status)]
  }

  /** The grouping the `forEach` builds, record by record from the first. */
  function Group(s: seq<Opportunity>): map<string, Counts>
    decreases |s|
  {
    if s == [] then map[] else Tally(Group(s[..|s| - 1]), s[|s| - 1])
  }

  /** The records of one consultant. */
  function ByEmail(s: seq<Opportunity>, email: string): seq<Opportunity>
    decreases |s|
  {
    if s == [] then []
    else ByEmail(s[..|s| - 1], email)
         + (if s[|s| - 1].consultantEmail == email then [s[|s| - 1]] else [])
  }

  /** The records with one status. */
  function ByStatus(s: seq<Opportunity>, st: Status): seq<Opportunity>
    decreases |s|
  {
    if s == [] then []
    else ByStatus(s[..|s| - 1], st) + (if s[|s| - 1].status == st then [s[|s| - 1]] else [])
  }

  /** The counts of one consultant, taken directly from the list. */
  function CountsFor(s: seq<Opportunity>, email: string): Counts {
    var mine := ByEmail(s, email);
    Counts(|mine|, |ByStatus(mine, Accepted)|, |ByStatus(mine, Declined)|, |ByStatus(mine, Pending)|)
  }

  predicate Consistent(c: Counts) {
    c.total == c.accepted + c.declined + c.pending
  }

  /** The grouping has a key exactly for the emails that occur in the list. */
  lemma {:induction false} GroupKeys(s: seq<Opportunity>, email: string)
    ensures email in Group(s) <==> exists i :: 0 <= i < |s| && s[i].consultantEmail == email
    decreases |s|
  {
    if s != [] {
      var p := s[..|s| - 1];
      GroupKeys(p, email);
      if exists i :: 0 <= i < |s| && s[i].consultantEmail == email {
        var i :| 0 <= i < |s| && s[i].consultantEmail == email;
        if i < |s| - 1 {
          assert p[i].consultantEmail == email;
        }
      }
      if exists i :: 0 <= i < |p| && p[i].consultantEmail == email {
        var i :| 0 <= i < |p| && p[i].consultantEmail == email;
        assert s[i].consultantEmail == email;
      }
    }
  }

  /** Under each key, the grouping holds the counts of that consultant's records. */
  lemma {:induction false} GroupCounts(s: seq<Opportunity>, email: string)
    requires email in Group(s)
    ensures Group(s)[email] == CountsFor(s, email)
    decreases |s|
  {
    var p, o := s[..|s| - 1], s[|s| - 1];
    CountsForStep(s, email);
    if email in Group(p) {
      GroupCounts(p, email);
    } else {
      GroupKeys(p, email);
      ByEmailEmpty(p, email);
    }
  }

  /** Counting one more record changes only its consultant's counts, by one
      under its status. */
  lemma CountsForStep(s: seq<Opportunity>, email: string)
    requires s != []
    ensures CountsFor(s, email)
            == if s[|s| - 1].consultantEmail == email
               then Bump(CountsFor(s[..|s| - 1], email), s[|s| - 1].status)
               else CountsFor(s[..|s| - 1], email)
  {
    var p, o := s[..|s| - 1], s[|s| - 1];
    if o.consultantEmail == email {
      var mine := ByEmail(p, email);
      assert ByEmail(s, email) == mine + [o];
      assert (mine + [o])[..|mine|] == mine;
      assert ByStatus(mine + [o], Accepted) == ByStatus(mine, Accepted) + (if o.status == Accepted then [o] else []);
      assert ByStatus(mine + [o], Declined) == ByStatus(mine, Declined) + (if o.status == Declined then [o] else []);
      assert ByStatus(mine + [o], Pending) == ByStatus(mine, Pending) + (if o.status == Pending then [o] else []);
    } else {
      assert ByEmail(s, email) == ByEmail(p, email);
    }
  }

  lemma {:induction false} ByEmailEmpty(s: seq<Opportunity>, email: string)
    requires forall i :: 0 <= i < |s| ==> s[i].consultantEmail != email
    ensures ByEmail(s, email) == []
    decreases |s|
  {
    if s != [] {
      ByEmailEmpty(s[..|s| - 1], email);
    }
  }

  /** Every record is counted under exactly one status. */
  lemma {:induction false} StatusesPartition(s: seq<Opportunity>)
    ensures |s| == |ByStatus(s, Accepted)| + |ByStatus(s, Declined)| + |ByStatus(s, Pending)|
    decreases |s|
  {
    if s != [] {
      StatusesPartition(s[..|s| - 1]);
    }
  }

  /** For every consultant, `total == accepted + declined + pending`. */
  lemma GroupCountsConsistent(s: seq<Opportunity>, email: string)
    requires email in Group(s)
    ensures Consistent(Group(s)[email])
    ensures Group(s)[email].total >= 1
  {
    GroupKeys(s, email);
    GroupCounts(s, email);
    StatusesPartition(ByEmail(s, email));
    var i :| 0 <= i < |s| && s[i].consultantEmail == email;
    ByEmailHas(s, email, i);
  }

  lemma {:induction false} ByEmailHas(s: seq<Opportunity>, email: string, i: nat)
    requires i < |s| && s[i].consultantEmail == email
    ensures |ByEmail(s, email)| >= 1
    decreases |s|
  {
    if i < |s| - 1 {
      ByEmailHas(s[..|s| - 1], email, i);
    }
  }

  /** The sum of the totals of a grouping over the given keys. */
  ghost function SumTotals(m: map<string, Counts>, keys: set<string>): nat
    requires keys <= m.Keys
    decreases keys
  {
    if keys == {} then 0
    else
      var e :| e in keys;
      m[e].total + SumTotals(m, keys - {e})
  }

  /** `SumTotals` may take out any key first. */
  lemma {:induction false} SumTotalsWithout(m: map<string, Counts>, keys: set<string>, e: string)
    requires keys <= m.Keys && e in keys
    ensures SumTotals(m, keys) == m[e].total + SumTotals(m, keys - {e})
    decreases keys
  {
    var f :| f in keys && SumTotals(m, keys) == m[f].total + SumTotals(m, keys - {f});
    if f != e {
      SumTotalsWithout(m, keys - {f}, e);
      SumTotalsWithout(m, keys - {e}, f);
      assert keys - {f} - {e} == keys - {e} - {f};
    }
  }

  /** Changing the map outside the keys summed over changes nothing. */
  lemma {:induction false} SumTotalsOutside(m: map<string, Counts>, keys: set<string>, e: string, c: Counts)
    requires keys <= m.Keys && e !in keys
    ensures SumTotals(m[e := c], keys) == SumTotals(m, keys)
    decreases keys
  {
    if keys != {} {
      var f :| f in keys && SumTotals(m, keys) == m[f].total + SumTotals(m, keys - {f});
      SumTotalsOutside(m, keys - {f}, e, c);
      SumTotalsWithout(m[e := c], keys, f);
    }
  }

  /** Grouping conserves the records: the totals add up to the list length. */
  lemma {:induction false} GroupConservesTotal(s: seq<Opportunity>)
    ensures SumTotals(Group(s), Group(s).Keys) == |s|
    decreases |s|
  {
    if s != [] {
      var p, o := s[..|s| - 1], s[|s| - 1];
      var g, e := Group(p), o.consultantEmail;
      var g' := Group(s);
      GroupConservesTotal(p);
      SumTotalsWithout(g', g'.Keys, e);
      SumTotalsOutside(g, g.Keys - {e}, e, g'[e]);
      assert g' == g[e := g'[e]];
      if e in g {
        SumTotalsWithout(g, g.Keys, e);
        assert g'.Keys - {e} == g.Keys - {e};
      } else {
        assert g'.Keys - {e} == g.Keys;
        SumTotalsOutside(g, g.Keys, e, g'[e]);
      }
    }
  }

  /** A rate as an exact fraction; the page computes it times 100 but never
      displays it. */
  datatype Ratio = Ratio(num: nat, den: nat)

  /** `(accepted + declined) / total`, with `|| 0` turning 0/0 into 0. */
  function ResponseRate(c: Counts): Ratio {
    if c.total == 0 then Ratio(0, 1) else Ratio(c.accepted + c.declined, c.total)
  }

  /** `accepted / total`, with `|| 0` turning 0/0 into 0. */
  function CompletionRate(c: Counts): Ratio {
    if c.total == 0 then Ratio(0, 1) else Ratio(c.accepted, c.total)
  }

  /** `accepted / (accepted + declined || 1)`. */
  function EngagementRate(c: Counts): Ratio {
    Ratio(c.accepted, if c.accepted + c.declined == 0 then 1 else c.accepted + c.declined)
  }

  /** Every rate has a positive denominator and lies in [0, 1] for consistent
      counts; engagement is exactly 0 when nothing was accepted or declined. */
  lemma RatesWellDefined(c: Counts)
    requires Consistent(c)
    ensures ResponseRate(c).den > 0 && ResponseRate(c).num <= ResponseRate(c).den
    ensures CompletionRate(c).den > 0 && CompletionRate(c).num <= CompletionRate(c).den
    ensures EngagementRate(c).den > 0 && EngagementRate(c).num <= EngagementRate(c).den
    ensures c.accepted + c.declined == 0 ==> EngagementRate(c).num == 0
    ensures c.total > 0 ==> ResponseRate(c) == Ratio(c.accepted + c.declined, c.total)
  {
  }

  /** One consultant with one accepted, one declined and one pending record:
      counts 3/1/1/1 and rates 2/3, 1/3 and 1/2. */
  lemma MetricsExample(a: Opportunity, b: Opportunity, c: Opportunity)
    requires a.consultantEmail == b.consultantEmail == c.consultantEmail == "a@x.com"
    requires a.status == Accepted && b.status == Declined && c.status == Pending
    ensures Group([a, b, c]) == map["a@x.com" := Counts(3, 1, 1, 1)]
    ensures ResponseRate(Counts(3, 1, 1, 1)) == Ratio(2, 3)
    ensures CompletionRate(Counts(3, 1, 1, 1)) == Ratio(1, 3)
    ensures EngagementRate(Counts(3, 1, 1, 1)) == Ratio(1, 2)
  {
    assert [a, b, c][..2] == [a, b];
    assert [a, b][..1] == [a];
    assert [a][..0] == [];
    assert Group([a]) == map["a@x.com" := Counts(1, 1, 0, 0)];
    assert Group([a, b]) == map["a@x.com" := Counts(2, 1, 1, 0)];
  }
}
