/**
  Candidate discovery and least-recently-used routing of services/coordinator/src/routing.ts. Timestamps are
  milliseconds; the locale's order of ids is a parameter.
*/
module Routing {
  import opened Wrappers

  type Id = string

  datatype Row = Row(
    id: Id, status: string, weight: int, lastUsedAt: Option<int>, cooldownUntil: Option<int>,
    allowedModels: seq<string>, allowedPolicyIds: seq<string>,
    requestsToday: nat, costToday: real, usageDay: Option<int>, requestLimit: Option<nat>, costLimit: Option<real>)

  datatype Exclusion = Disabled | Cooldown | ModelNotAllowed | PolicyNotAllowed | DailyRequestLimit | DailyUsdLimit

  datatype Excluded = Excluded(id: Id, reason: Exclusion)

  /** `now` in milliseconds, `today` the day it falls on. */
  datatype Query = Query(model: string, policyId: string, now: int, today: int)

  /** `localeCompare(…) < 0`. */
  type IdOrder = (Id, Id) -> bool

  ghost predicate StrictTotal(less: IdOrder) {
    && (forall a :: !less(a, a))
    && (forall a, b :: less(a, b) || a == b || less(b, a))
    && (forall a, b, c :: less(a, b) && less(b, c) ==> less(a, c))
  }

  // ------------------------------------------------------------ eligibility

  /** `rollUsageDay`. */
  function Roll(row: Row, today: int): Row {
    if row.usageDay == Some(today) then row else row.(requestsToday := 0, costToday := 0.0, usageDay := Some(today))
  }

  function RollAll(rows: seq<Row>, today: int): (r: seq<Row>)
    ensures |r| == |rows| && forall i :: 0 <= i < |rows| ==> r[i] == Roll(rows[i], today)
  {
    seq(|rows|, i requires 0 <= i < |rows| => Roll(rows[i], today))
  }

  function Exclude(row: Row, q: Query): Option<Exclusion> {
    if row.status != "ACTIVE" then Some(Disabled)
    else if row.cooldownUntil.Some? && row.cooldownUntil.value > q.now then Some(Cooldown)
    else if q.model !in row.allowedModels then Some(ModelNotAllowed)
    else if q.policyId !in row.allowedPolicyIds then Some(PolicyNotAllowed)
    else if row.requestLimit.Some? && row.requestsToday >= row.requestLimit.value then Some(DailyRequestLimit)
    else if row.costLimit.Some? && row.costToday >= row.costLimit.value then Some(DailyUsdLimit)
    else None
  }

  /** What is required of a row, with the reason its failure is reported as, in the order of the checks. */
  ghost function Checks(row: Row, q: Query): (r: seq<(bool, Exclusion)>)
    ensures |r| == 6
  {
    [(row.status == "ACTIVE", Disabled),
     (row.cooldownUntil.None? || row.cooldownUntil.value <= q.now, Cooldown),
     (exists i :: 0 <= i < |row.allowedModels| && row.allowedModels[i] == q.model, ModelNotAllowed),
     (exists i :: 0 <= i < |row.allowedPolicyIds| && row.allowedPolicyIds[i] == q.policyId, PolicyNotAllowed),
     (row.requestLimit.None? || row.requestsToday < row.requestLimit.value, DailyRequestLimit),
     (row.costLimit.None? || row.costToday < row.costLimit.value, DailyUsdLimit)]
  }

  /** Each check has its own reason, the one reported is that of the first check to fail, and a candidate passes all. */
  lemma ReasonIsTheFirstFailure(row: Row, q: Query, k: nat)
    requires k < 6
    ensures var checks := Checks(row, q);
            && (forall i :: 0 <= i < k ==> checks[i].1 != checks[k].1)
            && (Exclude(row, q) == Some(checks[k].1) <==> !checks[k].0 && forall i :: 0 <= i < k ==> checks[i].0)
            && (Exclude(row, q).None? <==> forall i :: 0 <= i < 6 ==> checks[i].0)
  {
    var checks := Checks(row, q);
    assert k == 0 || k == 1 || k == 2 || k == 3 || k == 4 || k == 5;
    assert (forall i :: 0 <= i < 6 ==> checks[i].0) <==>
      checks[0].0 && checks[1].0 && checks[2].0 && checks[3].0 && checks[4].0 && checks[5].0;
  }

  function Eligible(rows: seq<Row>, q: Query): seq<Row> {
    if rows == [] then []
    else
      var rest, row := Eligible(rows[..|rows| - 1], q), rows[|rows| - 1];
      if Exclude(row, q).None? then rest + [row] else rest
  }

  function ExcludedRows(rows: seq<Row>, q: Query): seq<Excluded> {
    if rows == [] then []
    else
      var rest, row := ExcludedRows(rows[..|rows| - 1], q), rows[|rows| - 1];
      match Exclude(row, q)
      case None => rest
      case Some(reason) => rest + [Excluded(row.id, reason)]
  }

  // ------------------------------------------------------------ order

  function UsedAt(row: Row): int {
    if row.lastUsedAt.Some? then row.lastUsedAt.value else 0
  }

  /** `routingOrder(a, b) < 0`. */
  predicate Less(idLess: IdOrder, a: Row, b: Row) {
    if UsedAt(a) != UsedAt(b) then UsedAt(a) < UsedAt(b)
    else if a.weight != b.weight then a.weight > b.weight
    else idLess(a.id, b.id)
  }

  /**
    A row never used comes before one that was and is like one used at time zero; of rows used alike the heavier comes
    first, and of those the one of lower id.
  */
  lemma RoutingOrderIs(idLess: IdOrder, a: Row, b: Row)
    requires StrictTotal(idLess)
    ensures a.lastUsedAt.None? && b.lastUsedAt.Some? && b.lastUsedAt.value > 0 ==> Less(idLess, a, b)
    ensures a.lastUsedAt.None? ==>
              (Less(idLess, a, b) <==> Less(idLess, a.(lastUsedAt := Some(0)), b))
              && (Less(idLess, b, a) <==> Less(idLess, b, a.(lastUsedAt := Some(0))))
    ensures a.lastUsedAt.Some? && b.lastUsedAt.Some? && a.lastUsedAt.value < b.lastUsedAt.value ==> Less(idLess, a, b)
    ensures a.lastUsedAt == b.lastUsedAt && a.weight > b.weight ==> Less(idLess, a, b) && !Less(idLess, b, a)
    ensures a.lastUsedAt == b.lastUsedAt && a.weight == b.weight ==> (Less(idLess, a, b) <==> idLess(a.id, b.id))
  {}

  function Insert(idLess: IdOrder, row: Row, sorted: seq<Row>): (r: seq<Row>)
    ensures multiset(r) == multiset{row} + multiset(sorted)
  {
    if sorted == [] || !Less(idLess, sorted[0], row) then [row] + sorted
    else
      assert sorted == [sorted[0]] + sorted[1..];
      [sorted[0]] + Insert(idLess, row, sorted[1..])
  }

  /** `eligible.sort(routingOrder)`. */
  function Sort(idLess: IdOrder, rows: seq<Row>): (r: seq<Row>)
    ensures multiset(r) == multiset(rows)
  {
    if rows == [] then []
    else
      assert rows == [rows[0]] + rows[1..];
      Insert(idLess, rows[0], Sort(idLess, rows[1..]))
  }

  ghost predicate Sorted(idLess: IdOrder, rows: seq<Row>) {
    forall i, j :: 0 <= i < j < |rows| ==> Less(idLess, rows[i], rows[j])
  }

  ghost predicate DistinctIds(rows: seq<Row>) {
    forall i, j :: 0 <= i < j < |rows| ==> rows[i].id != rows[j].id
  }

  lemma LessTotal(idLess: IdOrder, a: Row, b: Row, c: Row)
    requires StrictTotal(idLess)
    ensures !Less(idLess, a, a)
    ensures a.id != b.id ==> Less(idLess, a, b) || Less(idLess, b, a)
    ensures Less(idLess, a, b) && Less(idLess, b, c) ==> Less(idLess, a, c)
    ensures Less(idLess, a, b) ==> !Less(idLess, b, a)
  {}

  lemma InsertMembers(idLess: IdOrder, row: Row, sorted: seq<Row>, x: Row)
    ensures x in Insert(idLess, row, sorted) <==> x == row || x in sorted
  {
    assert x in Insert(idLess, row, sorted) <==> x in multiset(Insert(idLess, row, sorted));
  }

  lemma {:induction false} InsertSorts(idLess: IdOrder, row: Row, sorted: seq<Row>)
    requires StrictTotal(idLess) && Sorted(idLess, sorted) && forall x <- sorted :: x.id != row.id
    ensures Sorted(idLess, Insert(idLess, row, sorted))
  {
    if sorted != [] && Less(idLess, sorted[0], row) {
      var head, rest := sorted[0], sorted[1..];
      assert forall x <- rest :: x in sorted;
      InsertSorts(idLess, row, rest);
      var tail := Insert(idLess, row, rest);
      forall j | 0 <= j < |tail| ensures Less(idLess, head, tail[j]) {
        InsertMembers(idLess, row, rest, tail[j]);
        if tail[j] in rest {
          var k :| 0 <= k < |rest| && rest[k] == tail[j];
          assert sorted[k + 1] == tail[j];
        }
      }
      Consed(idLess, head, tail);
    } else {
      forall j | 0 <= j < |sorted| ensures Less(idLess, row, sorted[j]) {
        assert sorted[j] in sorted && sorted[0] in sorted;
        LessTotal(idLess, row, sorted[0], sorted[j]);
      }
      Consed(idLess, row, sorted);
    }
  }

  lemma Consed(idLess: IdOrder, head: Row, tail: seq<Row>)
    requires Sorted(idLess, tail) && forall j :: 0 <= j < |tail| ==> Less(idLess, head, tail[j])
    ensures Sorted(idLess, [head] + tail)
  {}

  lemma SortMembers(idLess: IdOrder, rows: seq<Row>, x: Row)
    ensures x in Sort(idLess, rows) <==> x in rows
  {
    assert x in Sort(idLess, rows) <==> x in multiset(Sort(idLess, rows));
    assert x in rows <==> x in multiset(rows);
  }

  /** Rows of distinct ids are put into the one order there is. */
  lemma {:induction false} SortSorts(idLess: IdOrder, rows: seq<Row>)
    requires StrictTotal(idLess) && DistinctIds(rows)
    ensures Sorted(idLess, Sort(idLess, rows)) && DistinctIds(Sort(idLess, rows))
  {
    if rows != [] {
      SortSorts(idLess, rows[1..]);
      var sorted := Sort(idLess, rows[1..]);
      forall x | x in sorted ensures x.id != rows[0].id {
        SortMembers(idLess, rows[1..], x);
        var k :| 0 <= k < |rows[1..]| && rows[1..][k] == x;
        assert rows[k + 1] == x;
      }
      InsertSorts(idLess, rows[0], sorted);
      InsertDistinct(idLess, rows[0], sorted);
    }
  }

  lemma {:induction false} InsertDistinct(idLess: IdOrder, row: Row, sorted: seq<Row>)
    requires DistinctIds(sorted) && forall x <- sorted :: x.id != row.id
    ensures DistinctIds(Insert(idLess, row, sorted))
  {
    if sorted != [] && Less(idLess, sorted[0], row) {
      var rest := sorted[1..];
      assert forall x <- rest :: x in sorted;
      InsertDistinct(idLess, row, rest);
      var tail := Insert(idLess, row, rest);
      forall j | 0 <= j < |tail| ensures sorted[0].id != tail[j].id {
        InsertMembers(idLess, row, rest, tail[j]);
        assert sorted[0] in sorted;
        if tail[j] in rest {
          var k :| 0 <= k < |rest| && rest[k] == tail[j];
          assert sorted[k + 1] == tail[j];
        }
      }
    }
  }

  // ------------------------------------------------------------ weight expansion

  /** The rows of weight above `pass`, in order. */
  function Heavier(rows: seq<Row>, pass: int): seq<Row> {
    if rows == [] then []
    else if rows[|rows| - 1].weight > pass then Heavier(rows[..|rows| - 1], pass) + [rows[|rows| - 1]]
    else Heavier(rows[..|rows| - 1], pass)
  }

  /** `passes` rounds over the rows, each appending those whose weight exceeds it. */
  function Expansion(rows: seq<Row>, passes: nat): seq<Row> {
    if passes == 0 then [] else Expansion(rows, passes - 1) + Heavier(rows, passes - 1)
  }

  /** Without rows whose id came before. */
  function FirstOnly(rows: seq<Row>): seq<Row> {
    if rows == [] then []
    else
      var rest, row := FirstOnly(rows[..|rows| - 1]), rows[|rows| - 1];
      if Listed(rows[..|rows| - 1], row.id) then rest else rest + [row]
  }

  predicate Listed(rows: seq<Row>, id: Id) {
    exists r <- rows :: r.id == id
  }

  lemma ListedNext(rows: seq<Row>, i: nat)
    requires i < |rows|
    ensures rows[..i + 1][..i] == rows[..i]
    ensures forall id :: Listed(rows[..i + 1], id) <==> Listed(rows[..i], id) || id == rows[i].id
  {
    assert rows[..i + 1] == rows[..i] + [rows[i]];
    assert rows[i] in rows[..i + 1];
  }

  lemma {:induction false} HeavierMembers(rows: seq<Row>, pass: int, x: Row)
    ensures x in Heavier(rows, pass) <==> x in rows && x.weight > pass
  {
    if rows != [] {
      HeavierMembers(rows[..|rows| - 1], pass, x);
      assert rows == rows[..|rows| - 1] + [rows[|rows| - 1]];
    }
  }

  lemma {:induction false} HeavierDistinct(rows: seq<Row>, pass: int)
    requires DistinctIds(rows)
    ensures DistinctIds(Heavier(rows, pass))
  {
    if rows != [] {
      var init, last := rows[..|rows| - 1], rows[|rows| - 1];
      HeavierDistinct(init, pass);
      var h := Heavier(init, pass);
      forall i | 0 <= i < |h| ensures h[i].id != last.id {
        HeavierMembers(init, pass, h[i]);
        var k :| 0 <= k < |init| && init[k] == h[i];
        assert rows[k] == h[i];
      }
    }
  }

  lemma {:induction false} FirstOnlyOfDistinct(rows: seq<Row>)
    requires DistinctIds(rows)
    ensures FirstOnly(rows) == rows
  {
    if rows != [] {
      var init, last := rows[..|rows| - 1], rows[|rows| - 1];
      FirstOnlyOfDistinct(init);
      LastIsNew(rows);
      assert rows == init + [last];
    }
  }

  lemma LastIsNew(rows: seq<Row>)
    requires DistinctIds(rows) && rows != []
    ensures !Listed(rows[..|rows| - 1], rows[|rows| - 1].id)
  {
    var init := rows[..|rows| - 1];
    forall k | 0 <= k < |init| ensures init[k].id != rows[|rows| - 1].id {
      assert rows[k] == init[k];
    }
  }

  /** Rows that all came before add nothing. */
  lemma {:induction false} RepeatsAddNothing(rows: seq<Row>, more: seq<Row>)
    requires forall x <- more :: x in rows
    ensures FirstOnly(rows + more) == FirstOnly(rows)
  {
    if more == [] {
      assert rows + more == rows;
    } else {
      var init, last := more[..|more| - 1], more[|more| - 1];
      assert last in more && forall x <- init :: x in more;
      RepeatsAddNothing(rows, init);
      assert (rows + more)[..|rows + more| - 1] == rows + init && (rows + more)[|rows + more| - 1] == last;
      assert last in rows + init;
    }
  }

  /** However many passes there are, what is left is the first pass. */
  lemma {:induction false} ExpansionIsFirstPass(rows: seq<Row>, passes: nat)
    requires DistinctIds(rows) && passes >= 1
    ensures FirstOnly(Expansion(rows, passes)) == Heavier(rows, 0)
    ensures forall x :: x in Heavier(rows, 0) ==> x in Expansion(rows, passes)
  {
    if passes == 1 {
      assert Expansion(rows, 0) + Heavier(rows, 0) == Heavier(rows, 0);
      HeavierDistinct(rows, 0);
      FirstOnlyOfDistinct(Heavier(rows, 0));
    } else {
      ExpansionIsFirstPass(rows, passes - 1);
      var earlier, more := Expansion(rows, passes - 1), Heavier(rows, passes - 1);
      forall x | x in more ensures x in earlier {
        HeavierMembers(rows, passes - 1, x);
        HeavierMembers(rows, 0, x);
      }
      RepeatsAddNothing(earlier, more);
    }
  }

  // ------------------------------------------------------------ discovery

  /** The stored rows are rolled to today first; `rows` is what is stored then. */
  method DiscoverCandidates(idLess: IdOrder, stored: seq<Row>, q: Query)
    returns (rows: seq<Row>, candidates: seq<Row>, excluded: seq<Excluded>)
    requires DistinctIds(stored) && StrictTotal(idLess)
    ensures rows == RollAll(stored, q.today)
    ensures candidates == Heavier(Sort(idLess, Eligible(rows, q)), 0)
    ensures excluded == ExcludedRows(rows, q)
  {
    rows := RollAll(stored, q.today);
    var eligible: seq<Row>;
    eligible, excluded := [], [];
    for i := 0 to |rows|
      invariant eligible == Eligible(rows[..i], q) && excluded == ExcludedRows(rows[..i], q)
    {
      assert rows[..i + 1][..i] == rows[..i];
      var row := rows[i];
      match Exclude(row, q)
      case Some(reason) => excluded := excluded + [Excluded(row.id, reason)];
      case None => eligible := eligible + [row];
    }
    assert rows[..|rows|] == rows;
    EligibleDistinct(rows, q);
    SortSorts(idLess, eligible);
    eligible := Sort(idLess, eligible);
    var ordered := Expand(eligible);
    candidates := Dedup(ordered);
  }

  lemma HeavierNext(rows: seq<Row>, i: nat, pass: int, before: seq<Row>)
    requires i < |rows|
    ensures before + Heavier(rows[..i + 1], pass)
         == if rows[i].weight > pass then before + Heavier(rows[..i], pass) + [rows[i]]
           else before + Heavier(rows[..i], pass)
  {
    assert rows[..i + 1][..i] == rows[..i];
  }

  method Expand(eligible: seq<Row>) returns (ordered: seq<Row>)
    requires DistinctIds(eligible)
    ensures FirstOnly(ordered) == Heavier(eligible, 0)
  {
    var maxWeight := 1;
    for i := 0 to |eligible|
      invariant maxWeight >= 1
    {
      if eligible[i].weight > maxWeight { maxWeight := eligible[i].weight; }
    }
    ordered := [];
    for pass := 0 to maxWeight
      invariant ordered == Expansion(eligible, pass)
    {
      ghost var before := ordered;
      for i := 0 to |eligible|
        invariant ordered == before + Heavier(eligible[..i], pass)
      {
        HeavierNext(eligible, i, pass, before);
        if eligible[i].weight > pass { ordered := ordered + [eligible[i]]; }
      }
      assert eligible[..|eligible|] == eligible;
    }
    ExpansionIsFirstPass(eligible, maxWeight);
  }

  method Dedup(ordered: seq<Row>) returns (candidates: seq<Row>)
    ensures candidates == FirstOnly(ordered)
  {
    var seen: set<Id>;
    seen, candidates := {}, [];
    for i := 0 to |ordered|
      invariant candidates == FirstOnly(ordered[..i])
      invariant forall id :: id in seen <==> Listed(ordered[..i], id)
    {
      ListedNext(ordered, i);
      if ordered[i].id !in seen {
        seen := seen + {ordered[i].id};
        candidates := candidates + [ordered[i]];
      }
    }
    assert ordered[..|ordered|] == ordered;
  }

  lemma {:induction false} EligibleMembers(rows: seq<Row>, q: Query, x: Row)
    ensures x in Eligible(rows, q) <==> x in rows && Exclude(x, q).None?
  {
    if rows != [] {
      EligibleMembers(rows[..|rows| - 1], q, x);
      assert rows == rows[..|rows| - 1] + [rows[|rows| - 1]];
    }
  }

  lemma {:induction false} EligibleDistinct(rows: seq<Row>, q: Query)
    requires DistinctIds(rows)
    ensures DistinctIds(Eligible(rows, q))
  {
    if rows != [] {
      var init, last := rows[..|rows| - 1], rows[|rows| - 1];
      EligibleDistinct(init, q);
      var e := Eligible(init, q);
      forall i | 0 <= i < |e| ensures e[i].id != last.id {
        EligibleMembers(init, q, e[i]);
        var k :| 0 <= k < |init| && init[k] == e[i];
        assert rows[k] == e[i];
      }
    }
  }

  lemma {:induction false} HeavierSorted(idLess: IdOrder, rows: seq<Row>, pass: int)
    requires Sorted(idLess, rows)
    ensures Sorted(idLess, Heavier(rows, pass))
  {
    if rows != [] {
      var init, last := rows[..|rows| - 1], rows[|rows| - 1];
      HeavierSorted(idLess, init, pass);
      var h := Heavier(init, pass);
      forall i | 0 <= i < |h| ensures Less(idLess, h[i], last) {
        HeavierMembers(init, pass, h[i]);
        var k :| 0 <= k < |init| && init[k] == h[i];
        assert rows[k] == h[i];
      }
    }
  }

  /**
    The candidates are the stored rows, rolled to today, that are eligible and of positive weight: once each, in
    routing order.
  */
  lemma CandidatesAre(idLess: IdOrder, stored: seq<Row>, q: Query)
    requires DistinctIds(stored) && StrictTotal(idLess)
    ensures var candidates := Heavier(Sort(idLess, Eligible(RollAll(stored, q.today), q)), 0);
            && Sorted(idLess, candidates) && DistinctIds(candidates)
            && forall x :: x in candidates <==>
                 Exclude(x, q).None? && x.weight >= 1 && exists i :: 0 <= i < |stored| && x == Roll(stored[i], q.today)
  {
    var rows := RollAll(stored, q.today);
    var e := Eligible(rows, q);
    EligibleDistinct(rows, q);
    SortSorts(idLess, e);
    HeavierSorted(idLess, Sort(idLess, e), 0);
    HeavierDistinct(Sort(idLess, e), 0);
    forall x
      ensures x in Heavier(Sort(idLess, e), 0) <==>
                Exclude(x, q).None? && x.weight >= 1 && exists i :: 0 <= i < |stored| && x == Roll(stored[i], q.today)
    {
      HeavierMembers(Sort(idLess, e), 0, x);
      SortMembers(idLess, e, x);
      EligibleMembers(rows, q, x);
      RolledMembers(stored, q.today, x);
    }
  }

  lemma RolledMembers(stored: seq<Row>, today: int, x: Row)
    ensures x in RollAll(stored, today) <==> exists i :: 0 <= i < |stored| && x == Roll(stored[i], today)
  {
    var rows := RollAll(stored, today);
    if i :| 0 <= i < |stored| && x == Roll(stored[i], today) {
      assert rows[i] == x;
    }
  }
}
