/** Per-day counters against the usage ledger (services/coordinator/src/routing.ts). */
module Ledger {
  import opened Wrappers

  type Id = string

  datatype Counter = Counter(requestsToday: nat, costToday: real, usageDay: Option<int>)

  datatype Usage = Usage(credentialId: Id, cost: real, day: int)

  /** The two tables; the ledger's primary key is the request. */
  datatype Books = Books(counters: map<Id, Counter>, ledger: map<Id, Usage>)

  function Rolled(c: Counter, today: int): Counter {
    if c.usageDay == Some(today) then c else Counter(0, 0.0, Some(today))
  }

  /** `rollUsageDay` on every row, as discovery does. */
  function AfterRoll(b: Books, today: int): Books {
    b.(counters := map id | id in b.counters :: Rolled(b.counters[id], today))
  }

  /** A booking's counter bump, if the credential exists: the day is set, but the counts of another day are kept. */
  function Bumped(counters: map<Id, Counter>, id: Id, cost: real, today: int): map<Id, Counter> {
    if id in counters
      then counters[id := Counter(counters[id].requestsToday + 1, counters[id].costToday + cost, Some(today))]
    else counters
  }

  function Booked(b: Books, request: Id, id: Id, cost: real, today: int): Books {
    if request in b.ledger then b
    else Books(Bumped(b.counters, id, cost, today), b.ledger[request := Usage(id, cost, today)])
  }

  class Database {
    var counters: map<Id, Counter>
    var ledger: map<Id, Usage>

    constructor (counters: map<Id, Counter>)
      ensures Contents() == Books(counters, map[])
    {
      this.counters := counters;
      ledger := map[];
    }

    ghost function Contents(): Books
      reads this
    {
      Books(counters, ledger)
    }

    method RollUsageDay(today: int)
      modifies this
      ensures Contents() == AfterRoll(old(Contents()), today)
    {
      counters := map id | id in counters :: Rolled(counters[id], today);
    }

    /** The ledger row first; a duplicate request throws before the counter is touched. */
    method RecordUsage(request: Id, id: Id, cost: real, today: int) returns (ok: bool)
      modifies this
      ensures ok == (request !in old(ledger)) && Contents() == Booked(old(Contents()), request, id, cost, today)
    {
      if request in ledger { return false; }
      ledger := ledger[request := Usage(id, cost, today)];
      counters := Bumped(counters, id, cost, today);
      ok := true;
    }

    /** The counter first, then the row that can fail: the transaction is rolled back. */
    method RecordAssumedUsage(request: Id, id: Id, cost: real, today: int) returns (ok: bool)
      modifies this
      ensures ok == (request !in old(ledger)) && Contents() == Booked(old(Contents()), request, id, cost, today)
      ensures !ok ==> Contents() == old(Contents())
    {
      var begin := counters;
      counters := Bumped(counters, id, cost, today);
      if request in ledger {
        counters := begin;
        return false;
      }
      ledger := ledger[request := Usage(id, cost, today)];
      ok := true;
    }
  }

  // ------------------------------------------------------------ counting the ledger

  /** A credential's ledger rows from a day on. */
  function RowsFrom(ledger: map<Id, Usage>, id: Id, since: int): set<Id> {
    set r | r in ledger && ledger[r].credentialId == id && ledger[r].day >= since
  }

  function RowsOn(ledger: map<Id, Usage>, id: Id, day: int): set<Id> {
    set r | r in ledger && ledger[r].credentialId == id && ledger[r].day == day
  }

  // ------------------------------------------------------------ histories

  datatype Action =
    | Register(id: Id, today: int)
    | Roll(today: int)
    | Book(request: Id, id: Id, cost: real, today: int)

  /** `reset`: the day each counter was last set to zero on, known to the proof only. */
  datatype State = State(books: Books, reset: map<Id, int>, now: int)

  function Apply(s: State, a: Action): State {
    match a
    case Register(id, today) =>
      State(s.books.(counters := s.books.counters[id := Counter(0, 0.0, Some(today))]), s.reset[id := today], today)
    case Roll(today) =>
      State(AfterRoll(s.books, today),
            map id | id in s.reset ::
              if id in s.books.counters && s.books.counters[id].usageDay != Some(today) then today
                else s.reset[id], today)
    case Book(request, id, cost, today) => State(Booked(s.books, request, id, cost, today), s.reset, today)
  }

  /** Nothing is booked and no credential is there; the clock starts somewhere. */
  function Start(now: int): State {
    State(Books(map[], map[]), map[], now)
  }

  /** The counter is exactly the number of rows since it was last reset. */
  ghost predicate CountsSince(s: State, id: Id)
    requires id in s.books.counters && id in s.reset
  {
    var c := s.books.counters[id];
    && c.requestsToday == |RowsFrom(s.books.ledger, id, s.reset[id])|
    && s.reset[id] <= s.now
    && (c.usageDay.Some? ==> s.reset[id] <= c.usageDay.value <= s.now)
    && (forall r <- s.books.ledger :: s.books.ledger[r].credentialId == id ==>
          c.usageDay.Some? && s.books.ledger[r].day <= c.usageDay.value)
  }

  ghost predicate Inv(s: State) {
    && s.reset.Keys == s.books.counters.Keys
    && (forall r <- s.books.ledger :: s.books.ledger[r].credentialId in s.books.counters)
    && forall id <- s.books.counters :: CountsSince(s, id)
  }

  lemma StartInv(now: int)
    ensures Inv(Start(now))
  {}

  lemma RegisterKeeps(s: State, id: Id, today: int)
    requires Inv(s) && s.now <= today && id !in s.books.counters
    ensures Inv(Apply(s, Register(id, today)))
  {
    var s' := Apply(s, Register(id, today));
    forall x | x in s'.books.counters ensures CountsSince(s', x) {
      if x == id {
        assert RowsFrom(s.books.ledger, id, today) == {};
      } else {
        assert CountsSince(s, x);
      }
    }
  }

  lemma RollKeeps(s: State, today: int)
    requires Inv(s) && s.now <= today
    ensures Inv(Apply(s, Roll(today)))
  {
    var s' := Apply(s, Roll(today));
    forall id | id in s'.books.counters ensures CountsSince(s', id) {
      assert CountsSince(s, id);
      if s.books.counters[id].usageDay != Some(today) {
        assert RowsFrom(s.books.ledger, id, today) == {};
      }
    }
  }

  lemma BookedRows(ledger: map<Id, Usage>, request: Id, id: Id, cost: real, today: int, x: Id, since: int)
    requires request !in ledger && since <= today
    ensures RowsFrom(ledger[request := Usage(id, cost, today)], x, since)
         == if x == id then RowsFrom(ledger, x, since) + {request} else RowsFrom(ledger, x, since)
    ensures request !in RowsFrom(ledger, x, since)
  {}

  /** A fresh booking and the counter of any credential. */
  lemma BookCounts(s: State, request: Id, id: Id, cost: real, today: int, x: Id)
    requires Inv(s) && s.now <= today && id in s.books.counters && request !in s.books.ledger && x in s.books.counters
    ensures CountsSince(State(Booked(s.books, request, id, cost, today), s.reset, today), x)
  {
    assert CountsSince(s, x);
    BookedRows(s.books.ledger, request, id, cost, today, x, s.reset[x]);
    var counters, ledger := Bumped(s.books.counters, id, cost, today),
      s.books.ledger[request := Usage(id, cost, today)];
    assert counters[x] == if x == id
           then Counter(s.books.counters[x].requestsToday + 1, s.books.counters[x].costToday + cost, Some(today))
                          else s.books.counters[x];
    forall r | r in ledger && ledger[r].credentialId == x
      ensures counters[x].usageDay.Some? && ledger[r].day <= counters[x].usageDay.value
    {
      assert r == request || r in s.books.ledger;
    }
  }

  lemma BookKeeps(s: State, request: Id, id: Id, cost: real, today: int)
    requires Inv(s) && s.now <= today && id in s.books.counters
    ensures Inv(Apply(s, Book(request, id, cost, today)))
  {
    var s' := Apply(s, Book(request, id, cost, today));
    forall x | x in s'.books.counters ensures CountsSince(s', x) {
      if request in s.books.ledger {
        assert CountsSince(s, x);
      } else {
        BookCounts(s, request, id, cost, today, x);
      }
    }
  }

  /** The clock does not go back, ids of credentials are fresh, and bookings name credentials there are. */
  predicate Enabled(s: State, a: Action) {
    && s.now <= a.today
    && (a.Register? ==> a.id !in s.books.counters) && (a.Book? ==> a.id in s.books.counters)
  }

  lemma StepKeeps(s: State, a: Action)
    requires Inv(s) && Enabled(s, a)
    ensures Inv(Apply(s, a))
  {
    match a
    case Register(id, today) => RegisterKeeps(s, id, today);
    case Roll(today) => RollKeeps(s, today);
    case Book(request, id, cost, today) => BookKeeps(s, request, id, cost, today);
  }

  ghost predicate Runs(s: State, actions: seq<Action>)
    decreases |actions|
  {
    actions != [] ==> Enabled(s, actions[0]) && Runs(Apply(s, actions[0]), actions[1..])
  }

  function After(s: State, actions: seq<Action>): State
    decreases |actions|
  {
    if actions == [] then s else After(Apply(s, actions[0]), actions[1..])
  }

  lemma {:induction false} RunKeeps(s: State, actions: seq<Action>)
    requires Inv(s) && Runs(s, actions)
    ensures Inv(After(s, actions))
    decreases |actions|
  {
    if actions != [] {
      StepKeeps(s, actions[0]);
      RunKeeps(Apply(s, actions[0]), actions[1..]);
    }
  }

  /**
    `requests_today` is never below the ledger's rows of the usage day. It exceeds them exactly by the rows
    booked between the last reset and that day, which bookings past midnight carry over without a roll.
  */
  lemma CounterAgainstLedger(now: int, actions: seq<Action>, id: Id)
    requires Runs(Start(now), actions)
    requires var s := After(Start(now), actions); id in s.books.counters && s.books.counters[id].usageDay.Some?
    ensures var s := After(Start(now), actions);
            var c := s.books.counters[id];
            && id in s.reset
            && c.requestsToday >= |RowsOn(s.books.ledger, id, c.usageDay.value)|
            && c.requestsToday == |RowsOn(s.books.ledger, id, c.usageDay.value)|
                 + |RowsFrom(s.books.ledger, id, s.reset[id]) - RowsOn(s.books.ledger, id, c.usageDay.value)|
  {
    StartInv(now);
    RunKeeps(Start(now), actions);
    var s := After(Start(now), actions);
    assert CountsSince(s, id);
    var all, today := RowsFrom(s.books.ledger, id, s.reset[id]),
      RowsOn(s.books.ledger, id, s.books.counters[id].usageDay.value);
    assert today <= all && all == today + (all - today);
  }

  /** The counter is the ledger's rows of the usage day. */
  ghost predicate Matches(s: State, id: Id)
    requires id in s.books.counters
  {
    var c := s.books.counters[id];
    c.usageDay.Some? ==> c.requestsToday == |RowsOn(s.books.ledger, id, c.usageDay.value)|
  }

  /** A roll restores the match, unless the counter is of today already and was off before. */
  lemma RollRestores(s: State, today: int, id: Id)
    requires Inv(s) && s.now <= today && id in s.books.counters
    ensures var s' := Apply(s, Roll(today));
            && s'.books.counters[id].usageDay == Some(today)
            && (Matches(s', id) <==> s.books.counters[id].usageDay != Some(today) || Matches(s, id))
  {
    assert CountsSince(s, id);
    if s.books.counters[id].usageDay != Some(today) {
      assert RowsOn(s.books.ledger, id, today) == {};
    }
  }

  /** The same after every history. */
  lemma RollRestoresExactlyWhen(now: int, actions: seq<Action>, today: int, id: Id)
    requires Runs(Start(now), actions) && After(Start(now), actions).now <= today
    requires id in After(Start(now), actions).books.counters
    ensures var s := After(Start(now), actions);
            var s' := Apply(s, Roll(today));
            && id in s'.books.counters && s'.books.counters[id].usageDay == Some(today)
            && (Matches(s', id) <==> s.books.counters[id].usageDay != Some(today) || Matches(s, id))
  {
    StartInv(now);
    RunKeeps(Start(now), actions);
    RollRestores(After(Start(now), actions), today, id);
  }

  /** A fresh booking keeps the match if and only if the counter is of today or at zero. */
  lemma BookingKeepsExactlyWhen(s: State, request: Id, id: Id, cost: real, today: int)
    requires Inv(s) && s.now <= today && id in s.books.counters && request !in s.books.ledger && Matches(s, id)
    ensures Matches(Apply(s, Book(request, id, cost, today)), id)
       <==> s.books.counters[id].usageDay == Some(today) || s.books.counters[id].requestsToday == 0
  {
    BookingCarries(s, request, id, cost, today);
  }

  lemma BookedToday(ledger: map<Id, Usage>, request: Id, id: Id, cost: real, today: int)
    requires request !in ledger
    ensures RowsOn(ledger[request := Usage(id, cost, today)], id, today) == RowsOn(ledger, id, today) + {request}
    ensures request !in RowsOn(ledger, id, today)
  {}

  lemma OtherBooking(ledger: map<Id, Usage>, request: Id, x: Id, cost: real, today: int, id: Id, day: int)
    requires request !in ledger && x != id
    ensures RowsOn(ledger[request := Usage(x, cost, today)], id, day) == RowsOn(ledger, id, day)
  {}

  /** Whether an action carries counts of another day over, for a counter that did so before or not. */
  function Carries(s: State, a: Action, id: Id, before: bool): bool {
    if id !in s.books.counters then before
    else
      var c := s.books.counters[id];
      match a
      case Register(_, _) => before
      case Roll(today) => before && c.usageDay == Some(today)
      case Book(request, x, _, today) =>
        if x != id || request in s.books.ledger || c.usageDay == Some(today) then before else c.requestsToday > 0
  }

  function Carried(s: State, actions: seq<Action>, id: Id, before: bool): bool
    decreases |actions|
  {
    if actions == [] then before
    else Carried(Apply(s, actions[0]), actions[1..], id, Carries(s, actions[0], id, before))
  }

  ghost predicate Differs(s: State, id: Id) {
    id in s.books.counters && !Matches(s, id)
  }

  lemma CarryStep(s: State, a: Action, id: Id)
    requires Inv(s) && Enabled(s, a)
    ensures Carries(s, a, id, Differs(s, id)) <==> Differs(Apply(s, a), id)
  {
    match a
    case Register(x, today) => if x == id { assert RowsOn(s.books.ledger, id, today) == {}; }
    case Roll(today) => if id in s.books.counters { RollRestores(s, today, id); }
    case Book(request, x, cost, today) =>
      if request !in s.books.ledger && id in s.books.counters {
        if x == id {
          BookingCarries(s, request, id, cost, today);
        } else if s.books.counters[id].usageDay.Some? {
          OtherBooking(s.books.ledger, request, x, cost, today, id, s.books.counters[id].usageDay.value);
        }
      }
  }

  lemma NoRowsAhead(s: State, id: Id, today: int)
    requires Inv(s) && id in s.books.counters && s.now <= today && s.books.counters[id].usageDay != Some(today)
    ensures RowsOn(s.books.ledger, id, today) == {}
  {
    assert CountsSince(s, id);
  }

  lemma BookingCarries(s: State, request: Id, id: Id, cost: real, today: int)
    requires Inv(s) && s.now <= today && id in s.books.counters && request !in s.books.ledger
    ensures !Matches(Apply(s, Book(request, id, cost, today)), id)
       <==> if s.books.counters[id].usageDay == Some(today) then !Matches(s, id)
         else s.books.counters[id].requestsToday > 0
  {
    BookedToday(s.books.ledger, request, id, cost, today);
    if s.books.counters[id].usageDay != Some(today) { NoRowsAhead(s, id, today); }
  }

  lemma {:induction false} CarriedExactlyWhen(s: State, actions: seq<Action>, id: Id)
    requires Inv(s) && Runs(s, actions)
    ensures Carried(s, actions, id, Differs(s, id)) <==> Differs(After(s, actions), id)
    decreases |actions|
  {
    if actions != [] {
      CarryStep(s, actions[0], id);
      StepKeeps(s, actions[0]);
      CarriedExactlyWhen(Apply(s, actions[0]), actions[1..], id);
    }
  }

  /**
    Over every history of registrations, discoveries and bookings, a counter is the ledger's rows of its usage day if
    and only if no booking found it of another day and above zero, after which no roll to a new day came.
  */
  lemma CounterIsLedgerExactlyWhen(now: int, actions: seq<Action>, id: Id)
    requires Runs(Start(now), actions) && id in After(Start(now), actions).books.counters
    ensures Matches(After(Start(now), actions), id) <==> !Carried(Start(now), actions, id, false)
  {
    StartInv(now);
    CarriedExactlyWhen(Start(now), actions, id);
  }

  /** Two bookings around midnight, with no discovery between them: the counter says two, the ledger one. */
  lemma MidnightIsCarried(id: Id, day: int)
    ensures var actions := [Register(id, day), Book("a", id, 0.0, day), Book("b", id, 0.0, day + 1)];
            var s := After(Start(day), actions);
            && Runs(Start(day), actions)
            && id in s.books.counters && s.books.counters[id] == Counter(2, 0.0, Some(day + 1))
            && RowsOn(s.books.ledger, id, day + 1) == {"b"}
  {
    var r, a, b := Register(id, day), Book("a", id, 0.0, day), Book("b", id, 0.0, day + 1);
    var s0 := Start(day);
    var s1 := Apply(s0, r);
    var s2 := Apply(s1, a);
    var s3 := Apply(s2, b);
    assert "a" != "b" && [r, a, b][1..] == [a, b] && [a, b][1..] == [b] && [b][1..] == [];
    assert After(s3, []) == s3 && Runs(s3, []) && Runs(s2, [b]) && Runs(s1, [a, b]);
    assert After(s2, [b]) == After(s3, []);
    assert After(s1, [a, b]) == After(s2, [b]);
    assert s2.books.counters[id] == Counter(1, 0.0, Some(day));
    assert s3.books.ledger == map["a" := Usage(id, 0.0, day), "b" := Usage(id, 0.0, day + 1)];
  }
}
