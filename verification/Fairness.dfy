/** What least-recently-used routing means over many dispatches: no eligible credential starves. */
module Fairness {
  import opened Routing
  import opened Wrappers

  /** One dispatch: who was eligible with positive weight, and when the outcome was recorded. */
  datatype Turn = Turn(eligible: set<Id>, at: int)

  type Table = map<Id, Row>

  ghost predicate Keyed(t: Table) {
    forall id <- t :: t[id].id == id
  }

  /** The first candidate. */
  ghost predicate IsHead(idLess: IdOrder, t: Table, eligible: set<Id>, id: Id) {
    && id in eligible && eligible <= t.Keys
    && forall x <- eligible :: x == id || Less(idLess, t[id], t[x])
  }

  /** `applyAttemptOutcome`'s effect on the order: every outcome sets `last_used_at`. */
  function Used(t: Table, id: Id, at: int): Table
    requires id in t
  {
    t[id := t[id].(lastUsedAt := Some(at))]
  }

  /** At each turn the head is dispatched, and timestamps strictly increase. */
  ghost predicate Dispatches(idLess: IdOrder, t: Table, turns: seq<Turn>, ids: seq<Id>)
    decreases |turns|
  {
    && |ids| == |turns|
    && (turns != [] ==>
          && IsHead(idLess, t, turns[0].eligible, ids[0])
          && (forall id <- t :: UsedAt(t[id]) < turns[0].at)
          && Dispatches(idLess, Used(t, ids[0], turns[0].at), turns[1..], ids[1..]))
  }

  ghost predicate AlwaysEligible(turns: seq<Turn>, id: Id) {
    forall i :: 0 <= i < |turns| ==> id in turns[i].eligible
  }

  /** One that was used earlier is dispatched before one that was used later. */
  lemma {:induction false} WaitsFor(idLess: IdOrder, t: Table, turns: seq<Turn>, ids: seq<Id>, c: Id, d: Id,
                                    j: nat) returns (k: nat)
    requires Dispatches(idLess, t, turns, ids) && AlwaysEligible(turns, c)
    requires c != d && c in t && d in t && UsedAt(t[c]) < UsedAt(t[d]) && j < |ids| && ids[j] == d
    ensures k < j && ids[k] == c
    decreases |turns|
  {
    assert c in turns[0].eligible;
    if ids[0] == c {
      k := 0;
      assert ids[0] != d;
    } else {
      assert ids[0] != d;
      var rest := WaitsFor(idLess, Used(t, ids[0], turns[0].at), turns[1..], ids[1..], c, d, j - 1);
      k := rest + 1;
    }
  }

  /** While one credential stays eligible, no other is dispatched twice before it. */
  lemma {:induction false} NoStarvation(idLess: IdOrder, t: Table, turns: seq<Turn>, ids: seq<Id>, c: Id, i: nat,
                                        j: nat) returns (k: nat)
    requires Dispatches(idLess, t, turns, ids) && AlwaysEligible(turns, c)
    requires i < j < |ids| && ids[i] == ids[j] != c
    ensures i < k < j && ids[k] == c
    decreases |turns|
  {
    assert c in turns[0].eligible;
    var next := Used(t, ids[0], turns[0].at);
    if i == 0 {
      assert UsedAt(next[c]) < UsedAt(next[ids[0]]);
      var rest := WaitsFor(idLess, next, turns[1..], ids[1..], c, ids[0], j - 1);
      k := rest + 1;
    } else {
      var rest := NoStarvation(idLess, next, turns[1..], ids[1..], c, i - 1, j - 1);
      k := rest + 1;
    }
  }

  // ------------------------------------------------------------ a fixed set of credentials

  ghost predicate Fixed(turns: seq<Turn>, eligible: set<Id>) {
    forall i :: 0 <= i < |turns| ==> turns[i].eligible == eligible
  }

  lemma {:induction false} EligibleWereDispatched(idLess: IdOrder, t: Table, turns: seq<Turn>, ids: seq<Id>, i: nat)
    requires Dispatches(idLess, t, turns, ids) && i < |ids|
    ensures ids[i] in turns[i].eligible
    decreases |turns|
  {
    if i > 0 { EligibleWereDispatched(idLess, Used(t, ids[0], turns[0].at), turns[1..], ids[1..], i - 1); }
  }

  lemma {:induction false} SpanCovers(ids: seq<Id>, s: set<Id>)
    requires forall x <- s :: x in ids
    ensures |s| <= |ids|
  {
    if ids == [] {
      assert s == {};
    } else {
      assert ids == [ids[0]] + ids[1..];
      SpanCovers(ids[1..], s - {ids[0]});
      assert s <= (s - {ids[0]}) + {ids[0]};
      Sizes(s, s - {ids[0]}, ids[0]);
    }
  }

  lemma Sizes(s: set<Id>, less: set<Id>, x: Id)
    requires less == s - {x}
    ensures |s| <= |less| + 1
  {
    if x in s { assert s == less + {x}; } else { assert s == less; }
  }

  /** Between two dispatches of one credential come all the others. */
  lemma TurnsBetween(idLess: IdOrder, t: Table, turns: seq<Turn>, ids: seq<Id>, eligible: set<Id>, i: nat, j: nat)
    requires Dispatches(idLess, t, turns, ids) && Fixed(turns, eligible) && i < j < |ids| && ids[i] == ids[j]
    ensures j - i >= |eligible|
  {
    var d, between := ids[i], ids[i + 1..j];
    EligibleWereDispatched(idLess, t, turns, ids, i);
    forall c | c in eligible - {d} ensures c in between {
      var k := NoStarvation(idLess, t, turns, ids, c, i, j);
      assert between[k - i - 1] == c;
    }
    SpanCovers(between, eligible - {d});
    Sizes(eligible, eligible - {d}, d);
  }

  lemma {:induction false} AsMany(ids: seq<Id>, s: set<Id>)
    requires |ids| == |s| && (forall x <- ids :: x in s) && forall i, j :: 0 <= i < j < |ids| ==> ids[i] != ids[j]
    ensures forall x :: x in s <==> x in ids
  {
    if ids == [] {
      assert s == {};
    } else {
      assert ids == [ids[0]] + ids[1..] && ids[0] in s;
      AsMany(ids[1..], s - {ids[0]});
    }
  }

  /** With a fixed eligible set of n credentials, any n consecutive dispatches are a permutation of it. */
  lemma RoundIsPermutation(idLess: IdOrder, t: Table, turns: seq<Turn>, ids: seq<Id>, eligible: set<Id>, from: nat)
    requires Dispatches(idLess, t, turns, ids) && Fixed(turns, eligible) && from + |eligible| <= |ids|
    ensures var round := ids[from..from + |eligible|];
            && (forall i, j :: 0 <= i < j < |round| ==> round[i] != round[j])
            && (forall x :: x in eligible <==> x in round)
  {
    var round := ids[from..from + |eligible|];
    forall i, j | 0 <= i < j < |round| ensures round[i] != round[j] {
      if round[i] == round[j] { TurnsBetween(idLess, t, turns, ids, eligible, from + i, from + j); }
    }
    forall x | x in round ensures x in eligible {
      var i :| 0 <= i < |round| && round[i] == x;
      EligibleWereDispatched(idLess, t, turns, ids, from + i);
    }
    AsMany(round, eligible);
  }

  /** The first candidate `DiscoverCandidates` lists is the head of the eligible rows of positive weight. */
  lemma FirstCandidateIsHead(idLess: IdOrder, stored: seq<Row>, q: Query, t: Table)
    requires DistinctIds(stored) && StrictTotal(idLess) && Keyed(t)
    requires forall i :: 0 <= i < |stored| ==> stored[i].id in t && t[stored[i].id] == Roll(stored[i], q.today)
    requires Heavier(Sort(idLess, Eligible(RollAll(stored, q.today), q)), 0) != []
    ensures var eligible := set r <- RollAll(stored, q.today) | Exclude(r, q).None? && r.weight >= 1 :: r.id;
            IsHead(idLess, t, eligible, Heavier(Sort(idLess, Eligible(RollAll(stored, q.today), q)), 0)[0].id)
  {
    var rows := RollAll(stored, q.today);
    var candidates := Heavier(Sort(idLess, Eligible(rows, q)), 0);
    var eligible := set r <- rows | Exclude(r, q).None? && r.weight >= 1 :: r.id;
    CandidatesAre(idLess, stored, q);
    assert candidates[0] in candidates;
    forall x | x in eligible ensures x == candidates[0].id || Less(idLess, t[candidates[0].id], t[x]) {
      var r :| r in rows && Exclude(r, q).None? && r.weight >= 1 && r.id == x;
      RolledMembers(stored, q.today, r);
      assert r in candidates;
      var k :| 0 <= k < |candidates| && candidates[k] == r;
    }
  }
}
