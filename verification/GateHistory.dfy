/** What the parked gates are for a caller: over any history of calls, a bounded view of one plain dictionary. */
module GateHistory {
  import opened JsMap
  import opened PendingGates
  import opened Wrappers

  type Table<T> = seq<Entry<Parked<T>>>

  datatype Op<+T> =
    | Remember(key: string, commitment: string, value: T, now: int)
    | Consume(key: string, commitment: string, now: int)
    | Sweep(now: int)

  datatype Limits = Limits(ttl: int, max: nat)

  function Apply<T>(l: Limits, m: Table<T>, op: Op<T>): Table<T> {
    match op
    case Remember(key, commitment, value, now) => Remembered(m, l.ttl, l.max, key, Parked(value, commitment, now))
    case Consume(key, commitment, now) => Consumed(m, l.ttl, key, commitment, now)
    case Sweep(now) => Keep(m, Fresh(l.ttl, now))
  }

  function After<T>(l: Limits, ops: seq<Op<T>>): Table<T> {
    if ops == [] then [] else Apply(l, After(l, ops[..|ops| - 1]), ops[|ops| - 1])
  }

  /** The dictionary without bound, order or reaping: the value last parked under a key and not yet consumed. */
  function Dictionary<T>(l: Limits, ops: seq<Op<T>>): map<string, Parked<T>> {
    if ops == [] then map[]
    else
      var d := Dictionary(l, ops[..|ops| - 1]);
      match ops[|ops| - 1]
      case Remember(key, commitment, value, now) => d[key := Parked(value, commitment, now)]
      case Consume(key, commitment, now) => if Judge(Lookup(d, key), l.ttl, commitment, now).Hit? then d - {key} else d
      case Sweep(_) => d
  }

  function Lookup<T>(d: map<string, Parked<T>>, key: string): Option<Parked<T>> {
    if key in d then Some(d[key]) else None
  }

  // ------------------------------------------------------------ size

  lemma SurvivorsFacts<T>(m: Table<T>, ttl: int, max: nat, now: int)
    requires DistinctKeys(m)
    ensures DistinctKeys(Survivors(m, ttl, max, now)) && (max > 0 ==> |Survivors(m, ttl, max, now)| < max)
    ensures max == 0 ==> Survivors(m, ttl, max, now) == []
  {
    KeepKeepsDistinct(m, Fresh(ttl, now));
  }

  lemma {:induction false} StaysDistinct<T>(l: Limits, ops: seq<Op<T>>)
    ensures DistinctKeys(After(l, ops))
  {
    if ops != [] {
      var before := After(l, ops[..|ops| - 1]);
      StaysDistinct(l, ops[..|ops| - 1]);
      match ops[|ops| - 1]
      case Remember(key, commitment, value, now) =>
        SurvivorsFacts(before, l.ttl, l.max, now);
        SetKeepsDistinct(Survivors(before, l.ttl, l.max, now), key, Parked(value, commitment, now));
      case Consume(key, _, _) => DeleteKeepsDistinct(before, key);
      case Sweep(now) => KeepKeepsDistinct(before, Fresh(l.ttl, now));
    }
  }

  /** After a call that parks, the count is within the bound exactly when the bound admits an entry at all. */
  lemma BoundHoldsExactlyWhen<T>(m: Table<T>, l: Limits, key: string, p: Parked<T>)
    requires DistinctKeys(m)
    ensures |Remembered(m, l.ttl, l.max, key, p)| <= l.max <==> l.max >= 1
  {
    SurvivorsFacts(m, l.ttl, l.max, p.at);
    SetHas(Survivors(m, l.ttl, l.max, p.at), key, p);
  }

  lemma {:induction false} DeleteShrinks<T>(m: Table<T>, key: string)
    ensures |Delete(m, key)| <= |m|
  {
    if m != [] { DeleteShrinks(m[1..], key); }
  }

  /** Whatever is called, at most `max` outcomes are parked. */
  lemma {:induction false} BoundedHistory<T>(l: Limits, ops: seq<Op<T>>)
    requires l.max >= 1
    ensures |After(l, ops)| <= l.max
  {
    if ops != [] {
      var before := After(l, ops[..|ops| - 1]);
      BoundedHistory(l, ops[..|ops| - 1]);
      StaysDistinct(l, ops[..|ops| - 1]);
      match ops[|ops| - 1]
      case Remember(key, commitment, value, now) =>
        BoundHoldsExactlyWhen(before, l, key, Parked(value, commitment, now));
      case Consume(key, _, _) => DeleteShrinks(before, key);
      case Sweep(now) => KeepKeepsDistinct(before, Fresh(l.ttl, now));
    }
  }

  // ------------------------------------------------------------ answers

  lemma MakeRoomGets<T>(m: Table<T>, max: nat, key: string)
    requires DistinctKeys(m) && Get(MakeRoom(m, max), key).Some?
    ensures Get(m, key) == Get(MakeRoom(m, max), key)
  {
    GetHas(MakeRoom(m, max), key);
    GetOfMember(m, Entry(key, Get(MakeRoom(m, max), key).value));
  }

  /** What a call leaves under a key it does not name was there before. */
  lemma SurvivorsGet<T>(m: Table<T>, l: Limits, now: int, key: string)
    requires DistinctKeys(m)
    ensures var after := Get(Survivors(m, l.ttl, l.max, now), key);
            after == Get(m, key) || after == None
    ensures |Keep(m, Fresh(l.ttl, now))| < l.max && Get(m, key).Some? && now - Get(m, key).value.at <= l.ttl
        ==> Get(Survivors(m, l.ttl, l.max, now), key) == Get(m, key)
  {
    var fresh_ := Keep(m, Fresh(l.ttl, now));
    KeepKeepsDistinct(m, Fresh(l.ttl, now));
    KeepGets(m, Fresh(l.ttl, now), key);
    if Get(MakeRoom(fresh_, l.max), key).Some? { MakeRoomGets(fresh_, l.max, key); }
  }

  /** Whatever is parked is what the dictionary holds: the value parked last, and never one already consumed. */
  lemma {:induction false} ParkedIsLatest<T>(l: Limits, ops: seq<Op<T>>, key: string)
    ensures var found := Get(After(l, ops), key);
            found == Lookup(Dictionary(l, ops), key) || found == None
  {
    if ops != [] {
      var before := After(l, ops[..|ops| - 1]);
      ParkedIsLatest(l, ops[..|ops| - 1], key);
      StaysDistinct(l, ops[..|ops| - 1]);
      match ops[|ops| - 1]
      case Remember(k, commitment, value, now) =>
        SurvivorsGet(before, l, now, key);
        SetGets(Survivors(before, l.ttl, l.max, now), k, Parked(value, commitment, now), key);
      case Consume(k, _, _) => DeleteGets(before, k, key);
      case Sweep(now) => KeepGets(before, Fresh(l.ttl, now), key);
    }
  }

  /** In every history `consume` answers what the dictionary would, or misses. */
  lemma AnswersAreTheDictionarys<T>(l: Limits, ops: seq<Op<T>>, key: string, commitment: string, now: int)
    ensures var answer := Answer(After(l, ops), l.ttl, key, commitment, now);
            answer == Judge(Lookup(Dictionary(l, ops), key), l.ttl, commitment, now) || answer == Miss
  {
    ParkedIsLatest(l, ops, key);
  }

  function Time<T>(op: Op<T>): int {
    match op
    case Remember(_, _, _, now) => now
    case Consume(_, _, now) => now
    case Sweep(now) => now
  }

  /** The clock does not go back, and no call finds the table full. */
  ghost predicate Calm<T>(l: Limits, ops: seq<Op<T>>) {
    ops != [] ==>
      var rest, op := ops[..|ops| - 1], ops[|ops| - 1];
      && Calm(l, rest)
      && (rest != [] ==> Time(rest[|rest| - 1]) <= Time(op))
      && (op.Remember? ==> |Keep(After(l, rest), Fresh(l.ttl, op.now))| < l.max)
  }

  ghost predicate Expired<T>(l: Limits, entry: Option<Parked<T>>, now: int) {
    entry.Some? ==> now - entry.value.at > l.ttl
  }

  lemma {:induction false} CalmKeepsAll<T>(l: Limits, ops: seq<Op<T>>, key: string, now: int)
    requires Calm(l, ops) && (ops != [] ==> Time(ops[|ops| - 1]) <= now)
    ensures Get(After(l, ops), key) == Lookup(Dictionary(l, ops), key)
            || Expired(l, Lookup(Dictionary(l, ops), key), now)
  {
    if ops != [] {
      var before, d, t := After(l, ops[..|ops| - 1]), Dictionary(l, ops[..|ops| - 1]), Time(ops[|ops| - 1]);
      CalmKeepsAll(l, ops[..|ops| - 1], key, t);
      StaysDistinct(l, ops[..|ops| - 1]);
      match ops[|ops| - 1]
      case Remember(k, commitment, value, _) =>
        SurvivorsGet(before, l, t, key);
        SetGets(Survivors(before, l.ttl, l.max, t), k, Parked(value, commitment, t), key);
      case Consume(k, _, _) => DeleteGets(before, k, key);
      case Sweep(_) => KeepGets(before, Fresh(l.ttl, t), key);
    }
  }

  /** When the bound is never reached, reaping and its order are invisible: every answer is the dictionary's. */
  lemma CalmAnswers<T>(l: Limits, ops: seq<Op<T>>, key: string, commitment: string, now: int)
    requires Calm(l, ops) && (ops != [] ==> Time(ops[|ops| - 1]) <= now)
    ensures Answer(After(l, ops), l.ttl, key, commitment, now)
            == Judge(Lookup(Dictionary(l, ops), key), l.ttl, commitment, now)
  {
    CalmKeepsAll(l, ops, key, now);
    ParkedIsLatest(l, ops, key);
  }

  // ------------------------------------------------------------ oldest first

  ghost predicate OldestFirst<T>(m: Table<T>) {
    forall i, j :: 0 <= i < j < |m| ==> m[i].value.at <= m[j].value.at
  }

  /**
    The table stays ordered by age exactly when the key is fresh or nothing younger stands behind its old place:
    setting a key that is present leaves its new value in its old place.
  */
  lemma AgeOrderSurvivesExactlyWhen<T>(m: Table<T>, l: Limits, key: string, p: Parked<T>)
    requires DistinctKeys(m) && OldestFirst(Survivors(m, l.ttl, l.max, p.at))
    requires forall e <- Survivors(m, l.ttl, l.max, p.at) :: e.value.at <= p.at
    ensures OldestFirst(Remembered(m, l.ttl, l.max, key, p))
       <==> var s := Survivors(m, l.ttl, l.max, p.at);
            forall i, j :: 0 <= i < j < |s| && s[i].key == key ==> s[j].value.at == p.at
  {
    var s, after := Survivors(m, l.ttl, l.max, p.at), Remembered(m, l.ttl, l.max, key, p);
    SurvivorsFacts(m, l.ttl, l.max, p.at);
    SetHas(s, key, p);
    if Has(s, key) {
      var i :| 0 <= i < |s| && s[i].key == key;
      SetAt(s, i, p);
      SetInOrder(s, i, p);
    } else {
      assert forall e :: e in s ==> e.value.at <= p.at;
    }
  }

  lemma {:induction false} SetAt<T>(s: Table<T>, i: nat, p: Parked<T>)
    requires DistinctKeys(s) && i < |s|
    ensures Set(s, s[i].key, p) == s[i := Entry(s[i].key, p)]
  {
    var e := Entry(s[i].key, p);
    if i == 0 {
      assert [e] + s[1..] == s[0 := e];
    } else {
      assert s[0].key != s[i].key && s[1..][i - 1] == s[i];
      SetAt(s[1..], i - 1, p);
      assert [s[0]] + s[1..][i - 1 := e] == s[i := e];
    }
  }

  lemma SetInOrder<T>(s: Table<T>, i: nat, p: Parked<T>)
    requires OldestFirst(s) && i < |s| && forall e <- s :: e.value.at <= p.at
    ensures OldestFirst(s[i := Entry(s[i].key, p)]) <==> forall j :: i < j < |s| ==> s[j].value.at == p.at
  {
    var after := s[i := Entry(s[i].key, p)];
    assert forall j :: 0 <= j < |s| ==> s[j] in s;
    if OldestFirst(after) {
      forall j | i < j < |s| ensures s[j].value.at == p.at {
        assert s[j] in s && after[j] == s[j] && after[i].value.at <= after[j].value.at;
      }
    }
  }

  /** Making room within this bound drops no entry parked later than one that is kept. */
  ghost predicate DropsOldest<T>(m: Table<T>, max: nat) {
    var cut := |m| - |MakeRoom(m, max)|;
    forall i, j :: 0 <= i < cut <= j < |m| ==> m[i].value.at <= m[j].value.at
  }

  /** Whatever the bound, the oldest are dropped: if and only if the table is ordered by age. */
  lemma DropsOldestExactlyWhen<T>(m: Table<T>)
    ensures (forall max: nat :: DropsOldest(m, max)) <==> OldestFirst(m)
  {
    if forall max: nat :: DropsOldest(m, max) {
      forall i, j | 0 <= i < j < |m| ensures m[i].value.at <= m[j].value.at {
        assert DropsOldest(m, |m| - j + 1);
        assert |MakeRoom(m, |m| - j + 1)| == |m| - j;
      }
    }
  }

  lemma {:induction false} KeepOldestFirst<T>(m: Table<T>, keep: Parked<T> -> bool)
    requires OldestFirst(m)
    ensures OldestFirst(Keep(m, keep))
  {
    if m != [] {
      KeepOldestFirst(m[1..], keep);
      var k := Keep(m[1..], keep);
      forall j | 0 <= j < |k| ensures m[0].value.at <= k[j].value.at {
        KeepMembers(m[1..], keep, k[j]);
        var i :| 0 <= i < |m[1..]| && m[1..][i] == k[j];
        assert m[0].value.at <= m[i + 1].value.at;
      }
    }
  }

  lemma DeleteOldestFirst<T>(m: Table<T>, key: string)
    requires DistinctKeys(m) && OldestFirst(m)
    ensures OldestFirst(Delete(m, key))
  {
    if Has(m, key) {
      var i :| 0 <= i < |m| && m[i].key == key;
      DeleteAt(m, i);
    } else {
      DeleteAbsent(m, key);
    }
  }

  ghost predicate NoneLater<T>(m: Table<T>, now: int) {
    forall e <- m :: e.value.at <= now
  }

  /** The clock does not go back, and no key is parked while it is still there. */
  ghost predicate KeysAreFresh<T>(l: Limits, ops: seq<Op<T>>) {
    ops != [] ==>
      var rest, op := ops[..|ops| - 1], ops[|ops| - 1];
      && KeysAreFresh(l, rest)
      && (rest != [] ==> Time(rest[|rest| - 1]) <= Time(op))
      && (op.Remember? ==> !Has(Survivors(After(l, rest), l.ttl, l.max, op.now), op.key))
  }

  lemma SurvivorsOrdered<T>(m: Table<T>, l: Limits, last: int, now: int)
    requires DistinctKeys(m) && OldestFirst(m) && NoneLater(m, last) && last <= now
    ensures OldestFirst(Survivors(m, l.ttl, l.max, now)) && NoneLater(Survivors(m, l.ttl, l.max, now), now)
  {
    var kept, s := Keep(m, Fresh(l.ttl, now)), Survivors(m, l.ttl, l.max, now);
    KeepOldestFirst(m, Fresh(l.ttl, now));
    forall e | e in s ensures e.value.at <= now {
      assert e in kept;
      KeepMembers(m, Fresh(l.ttl, now), e);
    }
  }

  lemma RememberOrdered<T>(m: Table<T>, l: Limits, key: string, p: Parked<T>, last: int)
    requires DistinctKeys(m) && OldestFirst(m) && NoneLater(m, last) && last <= p.at
    requires !Has(Survivors(m, l.ttl, l.max, p.at), key)
    ensures OldestFirst(Remembered(m, l.ttl, l.max, key, p)) && NoneLater(Remembered(m, l.ttl, l.max, key, p), p.at)
  {
    SurvivorsOrdered(m, l, last, p.at);
    SetHas(Survivors(m, l.ttl, l.max, p.at), key, p);
    assert forall i :: 0 <= i < |Survivors(m, l.ttl, l.max, p.at)| ==>
           Survivors(m, l.ttl, l.max, p.at)[i] in Survivors(m, l.ttl, l.max, p.at);
  }

  lemma {:induction false} FreshKeysStayOrdered<T>(l: Limits, ops: seq<Op<T>>, now: int)
    requires KeysAreFresh(l, ops) && (ops != [] ==> Time(ops[|ops| - 1]) <= now)
    ensures OldestFirst(After(l, ops)) && NoneLater(After(l, ops), now)
  {
    if ops != [] {
      var before, t := After(l, ops[..|ops| - 1]), Time(ops[|ops| - 1]);
      FreshKeysStayOrdered(l, ops[..|ops| - 1], t);
      StaysDistinct(l, ops[..|ops| - 1]);
      match ops[|ops| - 1]
      case Remember(key, commitment, value, _) => RememberOrdered(before, l, key, Parked(value, commitment, t), t);
      case Consume(key, _, _) =>
        DeleteOldestFirst(before, key);
        forall e | e in Delete(before, key) ensures e in before { DeleteMembers(before, key, e); }
      case Sweep(_) =>
        KeepOldestFirst(before, Fresh(l.ttl, t));
        forall e | e in Keep(before, Fresh(l.ttl, t)) ensures e in before { KeepMembers(before, Fresh(l.ttl, t), e); }
    }
  }

  /**
    Over every history in which no key was parked again while it was there, the next call that parks drops the
    oldest. After it, every later drop would again drop the oldest if and only if its own key is fresh or nothing
    parked later stands behind its old place.
  */
  lemma OldestDroppedWhileKeysAreFresh<T>(l: Limits, ops: seq<Op<T>>, key: string, p: Parked<T>)
    requires KeysAreFresh(l, ops) && (ops != [] ==> Time(ops[|ops| - 1]) <= p.at)
    ensures DropsOldest(Keep(After(l, ops), Fresh(l.ttl, p.at)), l.max)
    ensures var s := Survivors(After(l, ops), l.ttl, l.max, p.at);
            (forall max: nat :: DropsOldest(Remembered(After(l, ops), l.ttl, l.max, key, p), max))
            <==> (forall i, j :: 0 <= i < j < |s| && s[i].key == key ==> s[j].value.at == p.at)
  {
    var m := After(l, ops);
    FreshKeysStayOrdered(l, ops, p.at);
    StaysDistinct(l, ops);
    KeepOldestFirst(m, Fresh(l.ttl, p.at));
    DropsOldestExactlyWhen(Keep(m, Fresh(l.ttl, p.at)));
    SurvivorsOrdered(m, l, p.at, p.at);
    AgeOrderSurvivesExactlyWhen(m, l, key, p);
    DropsOldestExactlyWhen(Remembered(m, l.ttl, l.max, key, p));
  }

  lemma AfterSnoc<T>(l: Limits, ops: seq<Op<T>>, op: Op<T>)
    ensures After(l, ops + [op]) == Apply(l, After(l, ops), op)
  {
    assert (ops + [op])[..|ops|] == ops;
  }

  lemma {:induction false} AllKept<T>(m: Table<T>, keep: Parked<T> -> bool)
    requires forall i :: 0 <= i < |m| ==> keep(m[i].value)
    ensures Keep(m, keep) == m
  {
    if m != [] {
      AllKept(m[1..], keep);
      assert m == [m[0]] + m[1..];
    }
  }

  const THREE := Limits(100, 3)

  /** Parking while nothing has expired. */
  lemma Park(ops: seq<Op<int>>, m: Table<int>, key: string, now: int)
    requires After(THREE, ops) == m && forall i :: 0 <= i < |m| ==> 0 <= now - m[i].value.at <= 100
    ensures After(THREE, ops + [Remember(key, "", 0, now)])
         == Set(if |m| < 3 then m else m[|m| - 2..], key, Parked(0, "", now))
  {
    AfterSnoc(THREE, ops, Remember(key, "", 0, now));
    AllKept(m, Fresh(100, now));
  }

  const A0 := Remember("a", "", 0, 0)
  const B1 := Remember("b", "", 0, 1)
  const A2 := Remember("a", "", 0, 2)
  const C3 := Remember("c", "", 0, 3)
  const D4 := Remember("d", "", 0, 4)

  lemma SetFresh(m: Table<int>, key: string, p: Parked<int>)
    requires forall i :: 0 <= i < |m| ==> m[i].key != key
    ensures Set(m, key, p) == m + [Entry(key, p)]
  {
    SetHas(m, key, p);
  }

  lemma ParkedThrice()
    ensures After(THREE, [A0, B1, A2]) == [Entry("a", Parked(0, "", 2)), Entry("b", Parked(0, "", 1))]
  {
    var m1, m2 := [Entry("a", Parked(0, "", 0))], [Entry("a", Parked(0, "", 0)), Entry("b", Parked(0, "", 1))];
    Park([], [], "a", 0);
    assert [] + [A0] == [A0];
    Park([A0], m1, "b", 1);
    SetFresh(m1, "b", Parked(0, "", 1));
    assert [A0] + [B1] == [A0, B1];
    Park([A0, B1], m2, "a", 2);
    SetAt(m2, 0, Parked(0, "", 2));
    assert [A0, B1] + [A2] == [A0, B1, A2];
  }

  const FULL: Table<int> := [Entry("a", Parked(0, "", 2)), Entry("b", Parked(0, "", 1)), Entry("c", Parked(0, "", 3))]

  lemma ParkedFour()
    ensures After(THREE, [A0, B1, A2, C3]) == FULL
  {
    var m3 := [Entry("a", Parked(0, "", 2)), Entry("b", Parked(0, "", 1))];
    ParkedThrice();
    Park([A0, B1, A2], m3, "c", 3);
    SetFresh(m3, "c", Parked(0, "", 3));
    assert [A0, B1, A2] + [C3] == [A0, B1, A2, C3];
  }

  /**
    "Drops the oldest first" fails for a key parked again: the last call drops "a", parked at 2, and keeps "b",
    parked at 1.
  */
  lemma OldestIsNotAlwaysDropped()
    ensures After(THREE, [A0, B1, A2, C3]) == FULL
    ensures After(THREE, [A0, B1, A2, C3, D4]) == FULL[1..] + [Entry("d", Parked(0, "", 4))]
  {
    ParkedFour();
    Park([A0, B1, A2, C3], FULL, "d", 4);
    SetFresh(FULL[1..], "d", Parked(0, "", 4));
    assert [A0, B1, A2, C3] + [D4] == [A0, B1, A2, C3, D4];
  }
}
