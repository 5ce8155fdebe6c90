/** A credential's daily spend against the usage ledger (services/coordinator/src/routing.ts). */
module Spend {
  import opened Ledger
  import opened Wrappers
  import C = Cap
  import R = Routing

  // ------------------------------------------------------------ sums over rows

  ghost predicate InLedger(ledger: map<Id, Usage>, rows: set<Id>) {
    forall r <- rows :: r in ledger
  }

  /** What the rows cost together. */
  ghost function CostOf(ledger: map<Id, Usage>, rows: set<Id>): real
    requires InLedger(ledger, rows)
    decreases |rows|
  {
    if rows == {} then 0.0
    else
      var r :| r in rows;
      ledger[r].cost + CostOf(ledger, rows - {r})
  }

  /** Any row may be counted first. */
  lemma {:induction false} CostWithout(ledger: map<Id, Usage>, rows: set<Id>, r: Id)
    requires InLedger(ledger, rows) && r in rows
    ensures CostOf(ledger, rows) == ledger[r].cost + CostOf(ledger, rows - {r})
    decreases |rows|
  {
    var first :| first in rows && CostOf(ledger, rows) == ledger[first].cost + CostOf(ledger, rows - {first});
    if first != r {
      CostWithout(ledger, rows - {first}, r);
      CostWithout(ledger, rows - {r}, first);
      assert rows - {first} - {r} == rows - {r} - {first};
    }
  }

  lemma CostWith(ledger: map<Id, Usage>, rows: set<Id>, r: Id)
    requires InLedger(ledger, rows) && r in ledger && r !in rows
    ensures CostOf(ledger, rows + {r}) == CostOf(ledger, rows) + ledger[r].cost
  {
    CostWithout(ledger, rows + {r}, r);
    assert rows + {r} - {r} == rows;
  }

  lemma {:induction false} CostElsewhere(ledger: map<Id, Usage>, request: Id, usage: Usage, rows: set<Id>)
    requires InLedger(ledger, rows) && request !in ledger
    ensures CostOf(ledger[request := usage], rows) == CostOf(ledger, rows)
    decreases |rows|
  {
    if rows != {} {
      var r :| r in rows;
      CostElsewhere(ledger, request, usage, rows - {r});
      CostWithout(ledger, rows, r);
      CostWithout(ledger[request := usage], rows, r);
    }
  }

  lemma {:induction false} CostAdds(ledger: map<Id, Usage>, a: set<Id>, b: set<Id>)
    requires InLedger(ledger, a) && InLedger(ledger, b) && a !! b
    ensures CostOf(ledger, a + b) == CostOf(ledger, a) + CostOf(ledger, b)
    decreases |b|
  {
    if b == {} {
      assert a + b == a;
    } else {
      var r :| r in b;
      CostAdds(ledger, a, b - {r});
      CostWithout(ledger, b, r);
      CostWithout(ledger, a + b, r);
      assert a + b - {r} == a + (b - {r});
    }
  }

  lemma {:induction false} CostIsPositive(ledger: map<Id, Usage>, rows: set<Id>)
    requires InLedger(ledger, rows) && forall r <- rows :: ledger[r].cost > 0.0
    ensures CostOf(ledger, rows) >= 0.0 && (CostOf(ledger, rows) == 0.0 <==> rows == {})
    decreases |rows|
  {
    if rows != {} {
      var r :| r in rows;
      CostIsPositive(ledger, rows - {r});
      CostWithout(ledger, rows, r);
    }
  }

  // ------------------------------------------------------------ histories

  /** What the ledger says the credential spent since its counters were last set to zero. */
  ghost function SpentSince(s: State, id: Id): real
    requires id in s.reset
  {
    CostOf(s.books.ledger, RowsFrom(s.books.ledger, id, s.reset[id]))
  }

  ghost predicate SpendsSince(s: State, id: Id)
    requires id in s.books.counters && id in s.reset
  {
    s.books.counters[id].usageDay.Some? && s.books.counters[id].costToday == SpentSince(s, id)
  }

  ghost predicate SpendInv(s: State) {
    Inv(s) && forall id <- s.books.counters :: SpendsSince(s, id)
  }

  lemma NoRows(s: State, id: Id, today: int)
    requires Inv(s) && s.now <= today
    requires id in s.books.counters ==> s.books.counters[id].usageDay != Some(today)
    ensures RowsFrom(s.books.ledger, id, today) == {}
  {
    if id in s.books.counters { assert CountsSince(s, id); }
  }

  lemma RegisterSpends(s: State, id: Id, today: int)
    requires SpendInv(s) && s.now <= today && id !in s.books.counters
    ensures SpendInv(Apply(s, Register(id, today)))
  {
    var s' := Apply(s, Register(id, today));
    RegisterKeeps(s, id, today);
    NoRows(s, id, today);
    forall x | x in s'.books.counters ensures SpendsSince(s', x) {
      if x != id { assert SpendsSince(s, x); }
    }
  }

  lemma RollSpends(s: State, today: int)
    requires SpendInv(s) && s.now <= today
    ensures SpendInv(Apply(s, Roll(today)))
  {
    var s' := Apply(s, Roll(today));
    RollKeeps(s, today);
    forall x | x in s'.books.counters ensures SpendsSince(s', x) {
      assert SpendsSince(s, x);
      if s.books.counters[x].usageDay != Some(today) { NoRows(s, x, today); }
    }
  }

  lemma BookSpends(s: State, request: Id, id: Id, cost: real, today: int, x: Id)
    requires SpendInv(s) && s.now <= today && id in s.books.counters && request !in s.books.ledger
             && x in s.books.counters
    ensures SpendsSince(Apply(s, Book(request, id, cost, today)), x)
  {
    var s' := Apply(s, Book(request, id, cost, today));
    assert SpendsSince(s, x) && CountsSince(s, x);
    BookedRows(s.books.ledger, request, id, cost, today, x, s.reset[x]);
    var rows := RowsFrom(s.books.ledger, x, s.reset[x]);
    CostElsewhere(s.books.ledger, request, Usage(id, cost, today), rows);
    if x == id { CostWith(s'.books.ledger, rows, request); }
  }

  lemma StepSpends(s: State, a: Action)
    requires SpendInv(s) && Enabled(s, a)
    ensures SpendInv(Apply(s, a))
  {
    match a
    case Register(id, today) => RegisterSpends(s, id, today);
    case Roll(today) => RollSpends(s, today);
    case Book(request, id, cost, today) =>
      var s' := Apply(s, a);
      BookKeeps(s, request, id, cost, today);
      forall x | x in s'.books.counters ensures SpendsSince(s', x) {
        assert SpendsSince(s, x);
        if request !in s.books.ledger { BookSpends(s, request, id, cost, today, x); }
      }
  }

  lemma {:induction false} RunSpends(s: State, actions: seq<Action>)
    requires SpendInv(s) && Runs(s, actions)
    ensures SpendInv(After(s, actions))
    decreases |actions|
  {
    if actions != [] {
      StepSpends(s, actions[0]);
      RunSpends(Apply(s, actions[0]), actions[1..]);
    }
  }

  /** The rows of other days that the counters still hold. */
  ghost function CarriedRows(s: State, id: Id): set<Id>
    requires id in s.books.counters && id in s.reset && s.books.counters[id].usageDay.Some?
  {
    RowsFrom(s.books.ledger, id, s.reset[id]) - RowsOn(s.books.ledger, id, s.books.counters[id].usageDay.value)
  }

  /**
    Over every history, the spend of a credential is what its ledger rows since the last reset cost: those of the usage
    day, and those that bookings past midnight carried over.
  */
  lemma SpendAgainstLedger(now: int, actions: seq<Action>, id: Id)
    requires Runs(Start(now), actions) && id in After(Start(now), actions).books.counters
    ensures var s := After(Start(now), actions);
            && id in s.reset && s.books.counters[id].usageDay.Some?
            && s.books.counters[id].costToday == SpentSince(s, id)
            && s.books.counters[id].costToday
               == CostOf(s.books.ledger, RowsOn(s.books.ledger, id, s.books.counters[id].usageDay.value))
                  + CostOf(s.books.ledger, CarriedRows(s, id))
  {
    RunSpends(Start(now), actions);
    var s := After(Start(now), actions);
    assert SpendsSince(s, id) && CountsSince(s, id);
    var day := RowsOn(s.books.ledger, id, s.books.counters[id].usageDay.value);
    CostAdds(s.books.ledger, day, CarriedRows(s, id));
    assert RowsFrom(s.books.ledger, id, s.reset[id]) == day + CarriedRows(s, id);
  }

  lemma MatchesIfNoneCarried(s: State, id: Id)
    requires SpendInv(s) && id in s.books.counters
    ensures s.books.counters[id].usageDay.Some? && (Matches(s, id) <==> CarriedRows(s, id) == {})
  {
    assert SpendsSince(s, id) && CountsSince(s, id);
    var day := RowsOn(s.books.ledger, id, s.books.counters[id].usageDay.value);
    assert RowsFrom(s.books.ledger, id, s.reset[id]) == day + CarriedRows(s, id);
    assert |day + CarriedRows(s, id)| == |day| + |CarriedRows(s, id)|;
  }

  /**
    The spend is that of the usage day's rows if no booking carried counts over, and only then when every row costs
    something.
  */
  lemma SpendIsLedgerExactlyWhen(now: int, actions: seq<Action>, id: Id)
    requires Runs(Start(now), actions) && id in After(Start(now), actions).books.counters
    ensures var s := After(Start(now), actions);
            && s.books.counters[id].usageDay.Some?
            && var day := RowsOn(s.books.ledger, id, s.books.counters[id].usageDay.value);
               && (!Carried(Start(now), actions, id, false) ==>
                     s.books.counters[id].costToday == CostOf(s.books.ledger, day))
               && ((forall r <- s.books.ledger :: s.books.ledger[r].cost > 0.0) ==>
                     (s.books.counters[id].costToday == CostOf(s.books.ledger, day)
                      <==> !Carried(Start(now), actions, id, false)))
  {
    var s := After(Start(now), actions);
    SpendAgainstLedger(now, actions, id);
    RunSpends(Start(now), actions);
    CounterIsLedgerExactlyWhen(now, actions, id);
    MatchesIfNoneCarried(s, id);
    if forall r <- s.books.ledger :: s.books.ledger[r].cost > 0.0 {
      CostIsPositive(s.books.ledger, CarriedRows(s, id));
    }
  }

  /**
    A daily dollar limit is a limit on these rows: once they cost as much, no discovery offers the credential, and that
    is the reason given unless another comes first.
  */
  lemma DollarLimitExcludesExactlyWhen(now: int, actions: seq<Action>, id: Id, row: R.Row, q: R.Query, limit: real)
    requires Runs(Start(now), actions) && id in After(Start(now), actions).books.counters
    requires After(Start(now), actions).now <= q.today && row.costLimit == Some(limit)
    ensures var s := Apply(After(Start(now), actions), Roll(q.today));
            var read := R.Roll(C.Read(row, After(Start(now), actions).books.counters[id]), q.today);
            && id in s.reset
            && (SpentSince(s, id) >= limit ==> R.Exclude(read, q).Some?)
            && (R.Exclude(read, q) == Some(R.DailyUsdLimit)
                <==> SpentSince(s, id) >= limit && R.Exclude(read.(costLimit := None), q).None?)
  {
    var before := After(Start(now), actions);
    var s := Apply(before, Roll(q.today));
    RunSpends(Start(now), actions);
    RollSpends(before, q.today);
    assert SpendsSince(s, id);
    C.RollsAlike(row, before.books.counters[id], q.today);
  }
}
