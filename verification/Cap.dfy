/** A credential's daily limits under overlapping requests (services/coordinator/src/routing.ts). */
module Cap {
  import opened Wrappers
  import L = Ledger
  import R = Routing

  type Id = string

  /** The books, and the requests that a discovery offered the credential to and that have not ended. */
  datatype State = State(books: L.Books, open: set<Id>)

  /**
    `row` gives what the credential's row holds besides its counters. A request that was offered the credential may
    book on it once and ends; requests of other credentials book on those.
  */
  datatype Event =
    | Discover(request: Id, row: R.Row, q: R.Query)
    | Settle(request: Id, cost: real, today: int)
    | Elsewhere(request: Id, other: Id, cost: real, today: int)
    | End(request: Id)

  /** The credential's row as discovery reads it, before it rolls the day. */
  function Read(row: R.Row, c: L.Counter): R.Row {
    row.(requestsToday := c.requestsToday, costToday := c.costToday, usageDay := c.usageDay)
  }

  /** Rolling the row is rolling its counters. */
  lemma RollsAlike(row: R.Row, c: L.Counter, today: int)
    ensures R.Roll(Read(row, c), today) == Read(row, L.Rolled(c, today))
  {}

  predicate Enabled(s: State, id: Id, limit: nat, e: Event) {
    match e
    case Discover(_, row, _) => row.id == id && row.requestLimit == Some(limit)
    case Elsewhere(_, other, _, _) => other != id
    case _ => true
  }

  function Apply(s: State, id: Id, limit: nat, e: Event): State
    requires id in s.books.counters && Enabled(s, id, limit, e)
  {
    match e
    case Discover(request, row, q) =>
      var offered := R.Exclude(R.Roll(Read(row, s.books.counters[id]), q.today), q).None?;
      State(L.AfterRoll(s.books, q.today), if offered then s.open + {request} else s.open)
    case Settle(request, cost, today) =>
      if request in s.open then State(L.Booked(s.books, request, id, cost, today), s.open - {request}) else s
    case Elsewhere(request, other, cost, today) => s.(books := L.Booked(s.books, request, other, cost, today))
    case End(request) => s.(open := s.open - {request})
  }

  /** At most `k` requests overlap, at every moment. */
  ghost predicate Overlaps(s: State, id: Id, limit: nat, k: nat, events: seq<Event>)
    requires id in s.books.counters
    decreases |events|
  {
    && |s.open| <= k
    && (events != [] ==>
          Enabled(s, id, limit, events[0]) && Overlaps(Apply(s, id, limit, events[0]), id, limit, k, events[1..]))
  }

  function After(s: State, id: Id, limit: nat, k: nat, events: seq<Event>): (r: State)
    requires id in s.books.counters && Overlaps(s, id, limit, k, events)
    ensures id in r.books.counters
    decreases |events|
  {
    if events == [] then s else After(Apply(s, id, limit, events[0]), id, limit, k, events[1..])
  }

  /** What was booked and what may still be booked. */
  function Claims(s: State, id: Id): nat
    requires id in s.books.counters
  {
    s.books.counters[id].requestsToday + |s.open|
  }

  lemma Without(open: set<Id>, request: Id)
    ensures |open - {request}| == if request in open then |open| - 1 else |open|
  {
    if request !in open { assert open - {request} == open; }
  }

  lemma StepKeepsCap(s: State, id: Id, limit: nat, k: nat, e: Event)
    requires id in s.books.counters && Enabled(s, id, limit, e) && Claims(s, id) <= limit + k - 1
    requires |Apply(s, id, limit, e).open| <= k
    ensures Claims(Apply(s, id, limit, e), id) <= limit + k - 1
  {
    match e
    case Discover(_, row, q) => RollsAlike(row, s.books.counters[id], q.today);
    case Settle(request, _, _) => Without(s.open, request);
    case Elsewhere(_, _, _, _) =>
    case End(request) => Without(s.open, request);
  }

  /** With at most `k` overlapping requests a credential's count never exceeds its limit by more than `k - 1`. */
  lemma {:induction false} CapHolds(s: State, id: Id, limit: nat, k: nat, events: seq<Event>)
    requires k >= 1 && id in s.books.counters && Claims(s, id) <= limit + k - 1 && Overlaps(s, id, limit, k, events)
    ensures After(s, id, limit, k, events).books.counters[id].requestsToday <= limit + k - 1
    decreases |events|
  {
    if events != [] {
      StepKeepsCap(s, id, limit, k, events[0]);
      CapHolds(Apply(s, id, limit, events[0]), id, limit, k, events[1..]);
    }
  }

  // ------------------------------------------------------------ the dollar limit

  /** Every booking on the credential costs at most `most`, and every discovery has the limit. */
  ghost predicate Costs(id: Id, most: real, limit: real, events: seq<Event>) {
    forall i :: 0 <= i < |events| ==>
      match events[i]
      case Discover(_, row, _) => row.costLimit == Some(limit)
      case Settle(_, cost, _) => 0.0 <= cost <= most
      case _ => true
  }

  /** What was spent, and what the open requests may still spend. */
  function Exposure(s: State, id: Id, most: real): real
    requires id in s.books.counters
  {
    s.books.counters[id].costToday + Times(|s.open|, most)
  }

  function Times(n: nat, most: real): real {
    if n == 0 then 0.0 else most + Times(n - 1, most)
  }

  lemma {:induction false} TimesGrows(n: nat, m: nat, most: real)
    requires n <= m && most >= 0.0
    ensures 0.0 <= Times(n, most) <= Times(m, most) && Times(n, most) == n as real * most
  {
    if m > 0 { TimesGrows(if n == m then n - 1 else n, m - 1, most); }
  }

  lemma DiscoverKeepsExposure(s: State, id: Id, limit: nat, k: nat, most: real, usd: real, request: Id, row: R.Row,
                              q: R.Query)
    requires id in s.books.counters && row.costLimit == Some(usd) && most >= 0.0 && usd >= 0.0
    requires Enabled(s, id, limit, Discover(request, row, q))
    requires s.books.counters[id].costToday >= 0.0 && Exposure(s, id, most) <= usd + Times(k, most)
    requires |Apply(s, id, limit, Discover(request, row, q)).open| <= k
    ensures Apply(s, id, limit, Discover(request, row, q)).books.counters[id].costToday >= 0.0
    ensures Exposure(Apply(s, id, limit, Discover(request, row, q)), id, most) <= usd + Times(k, most)
  {
    var s' := Apply(s, id, limit, Discover(request, row, q));
    RollsAlike(row, s.books.counters[id], q.today);
    TimesGrows(|s'.open|, k, most);
  }

  lemma StepKeepsExposure(s: State, id: Id, limit: nat, k: nat, most: real, usd: real, e: Event)
    requires id in s.books.counters && Enabled(s, id, limit, e) && Costs(id, most, usd, [e]) && most >= 0.0
    requires s.books.counters[id].costToday >= 0.0 && Exposure(s, id, most) <= usd + Times(k, most)
    requires |Apply(s, id, limit, e).open| <= k
    requires usd >= 0.0
    ensures Apply(s, id, limit, e).books.counters[id].costToday >= 0.0
    ensures Exposure(Apply(s, id, limit, e), id, most) <= usd + Times(k, most)
  {
    var s' := Apply(s, id, limit, e);
    assert [e][0] == e;
    match e
    case Discover(request, row, q) =>
      DiscoverKeepsExposure(s, id, limit, k, most, usd, request, row, q);
    case Settle(request, _, _) => Without(s.open, request);
    case Elsewhere(_, _, _, _) =>
    case End(request) =>
      Without(s.open, request);
      TimesGrows(|s'.open|, |s.open|, most);
  }

  /**
    With at most `k` overlapping requests of at most `most` dollars each,
      a credential's spend never exceeds its limit by
    more than what these can cost.
  */
  lemma {:induction false} DollarCapHolds(s: State, id: Id, limit: nat, k: nat, most: real, usd: real,
                                          events: seq<Event>)
    requires id in s.books.counters && Overlaps(s, id, limit, k, events) && Costs(id, most, usd, events)
    requires most >= 0.0 && usd >= 0.0
    requires s.books.counters[id].costToday >= 0.0 && Exposure(s, id, most) <= usd + k as real * most
    ensures After(s, id, limit, k, events).books.counters[id].costToday <= usd + k as real * most
    decreases |events|
  {
    TimesGrows(|s.open|, |s.open|, most);
    TimesGrows(k, k, most);
    if events != [] {
      assert Costs(id, most, usd, [events[0]]);
      StepKeepsExposure(s, id, limit, k, most, usd, events[0]);
      DollarCapHolds(Apply(s, id, limit, events[0]), id, limit, k, most, usd, events[1..]);
    }
  }
}
