/** `rememberNonce` of services/tee-sim/src/index.ts: the replay window on a JavaScript `Map`. */
module NonceWindow {
  import opened JsMap

  type Window = seq<Entry<int>>

  datatype Limits = Limits(ttl: int, max: nat)

  function Recent(ttl: int, now: int): int -> bool {
    (seenAt: int) => now - seenAt <= ttl
  }

  /** Room for one more: only a full window is reaped. */
  function Trimmed(l: Limits, w: Window, now: int): Window {
    if |w| >= l.max then MakeRoom(Keep(w, Recent(l.ttl, now)), l.max) else w
  }

  function Admitted(l: Limits, w: Window, nonce: string, now: int): Window {
    if Has(w, nonce) then w else Trimmed(l, w, now) + [Entry(nonce, now)]
  }

  class NonceWindow {
    var seen: Window
    const limits: Limits

    constructor (limits: Limits)
      ensures seen == [] && this.limits == limits
    {
      this.limits := limits;
      seen := [];
    }

    method RememberNonce(nonce: string, now: int) returns (accepted: bool)
      requires DistinctKeys(seen)
      modifies this
      ensures accepted == !Has(old(seen), nonce)
      ensures DistinctKeys(seen) && seen == Admitted(limits, old(seen), nonce, now)
    {
      GetHas(seen, nonce);
      if Get(seen, nonce).Some? { return false; }
      AdmittedDistinct(limits, seen, nonce, now);
      TrimmedLacks(limits, seen, nonce, now);
      if |seen| >= limits.max {
        var kept, _ := ReapEntries(seen, Recent(limits.ttl, now));
        seen := DropOldest(kept, limits.max);
      }
      SetHas(seen, nonce, now);
      seen := Set(seen, nonce, now);
      accepted := true;
    }
  }

  lemma TrimmedLacks(l: Limits, w: Window, nonce: string, now: int)
    requires DistinctKeys(w) && !Has(w, nonce)
    ensures DistinctKeys(Trimmed(l, w, now)) && !Has(Trimmed(l, w, now), nonce)
  {
    var kept, t := Keep(w, Recent(l.ttl, now)), Trimmed(l, w, now);
    KeepKeepsDistinct(w, Recent(l.ttl, now));
    forall i | 0 <= i < |t| ensures t[i].key != nonce {
      if |w| >= l.max {
        assert t[i] in kept;
        KeepMembers(w, Recent(l.ttl, now), t[i]);
      }
      assert t[i] in w;
    }
  }

  lemma AdmittedDistinct(l: Limits, w: Window, nonce: string, now: int)
    requires DistinctKeys(w)
    ensures DistinctKeys(Admitted(l, w, nonce, now))
  {
    if !Has(w, nonce) { TrimmedLacks(l, w, nonce, now); }
  }

  // ------------------------------------------------------------ runs

  datatype Call = Call(nonce: string, now: int)

  function After(l: Limits, w: Window, calls: seq<Call>): Window
    decreases |calls|
  {
    if calls == [] then w else After(l, Admitted(l, w, calls[0].nonce, calls[0].now), calls[1..])
  }

  /** The clock never goes back. */
  ghost predicate Clocked(last: int, calls: seq<Call>)
    decreases |calls|
  {
    calls != [] ==> last <= calls[0].now && Clocked(calls[0].now, calls[1..])
  }

  function Last(last: int, calls: seq<Call>): int {
    if calls == [] then last else calls[|calls| - 1].now
  }

  /** Distinct nonces, oldest first, within the bound, none from the future. */
  ghost predicate Orderly(l: Limits, w: Window, last: int) {
    && DistinctKeys(w) && |w| <= l.max
    && (forall i, j :: 0 <= i < j < |w| ==> w[i].value <= w[j].value)
    && (forall i :: 0 <= i < |w| ==> w[i].value <= last)
  }

  lemma {:induction false} KeepInOrder(w: Window, keep: int -> bool)
    requires forall i, j :: 0 <= i < j < |w| ==> w[i].value <= w[j].value
    ensures var k := Keep(w, keep); forall i, j :: 0 <= i < j < |k| ==> k[i].value <= k[j].value
  {
    if w != [] {
      KeepInOrder(w[1..], keep);
      var k := Keep(w[1..], keep);
      forall j | 0 <= j < |k| ensures w[0].value <= k[j].value {
        KeepMembers(w[1..], keep, k[j]);
        var i :| 0 <= i < |w[1..]| && w[1..][i] == k[j];
        assert w[0].value <= w[i + 1].value;
      }
    }
  }

  lemma TrimmedOrderly(l: Limits, w: Window, last: int, now: int)
    requires Orderly(l, w, last) && l.max >= 1
    ensures Orderly(l, Trimmed(l, w, now), last) && |Trimmed(l, w, now)| < l.max
  {
    var kept := Keep(w, Recent(l.ttl, now));
    KeepKeepsDistinct(w, Recent(l.ttl, now));
    KeepInOrder(w, Recent(l.ttl, now));
    forall i | 0 <= i < |kept| ensures kept[i].value <= last {
      KeepMembers(w, Recent(l.ttl, now), kept[i]);
    }
  }

  lemma AdmittedOrderly(l: Limits, w: Window, last: int, nonce: string, now: int)
    requires Orderly(l, w, last) && l.max >= 1 && last <= now
    ensures Orderly(l, Admitted(l, w, nonce, now), now)
  {
    if !Has(w, nonce) {
      TrimmedOrderly(l, w, last, now);
      TrimmedLacks(l, w, nonce, now);
    }
  }

  /** Under a clock that never goes back the window is always orderly. */
  lemma {:induction false} StaysOrderly(l: Limits, w: Window, last: int, calls: seq<Call>)
    requires Orderly(l, w, last) && l.max >= 1 && Clocked(last, calls)
    ensures Orderly(l, After(l, w, calls), Last(last, calls))
    decreases |calls|
  {
    if calls != [] {
      var c := calls[0];
      AdmittedOrderly(l, w, last, c.nonce, c.now);
      StaysOrderly(l, Admitted(l, w, c.nonce, c.now), c.now, calls[1..]);
    }
  }

  // ------------------------------------------------------------ replays

  /** How many calls with other nonces were accepted. */
  function OthersAccepted(l: Limits, w: Window, nonce: string, calls: seq<Call>): nat
    decreases |calls|
  {
    if calls == [] then 0
    else
      (if calls[0].nonce != nonce && !Has(w, calls[0].nonce) then 1 else 0)
      + OthersAccepted(l, Admitted(l, w, calls[0].nonce, calls[0].now), nonce, calls[1..])
  }

  /**
    The nonce is in the window with at most `count` younger ones, or its time is over, or `count` others pushed it
    out.
  */
  ghost predicate Guarded(l: Limits, w: Window, e: Entry<int>, last: int, count: nat) {
    || (exists p :: 0 <= p < |w| && w[p] == e && |w| - 1 - p <= count)
    || last - e.value > l.ttl
    || count >= l.max
  }

  lemma KeptPlace(w: Window, keep: int -> bool, p: nat) returns (p': nat)
    requires p < |w| && keep(w[p].value) && DistinctKeys(w)
    ensures var k := Keep(w, keep); p' < |k| && k[p'] == w[p] && |k| - 1 - p' <= |w| - 1 - p
  {
    assert w == w[..p] + ([w[p]] + w[p + 1..]);
    KeepAppend(w[..p], [w[p]] + w[p + 1..], keep);
    KeepAppend([w[p]], w[p + 1..], keep);
    assert Keep([w[p]], keep) == [w[p]];
    KeepKeepsDistinct(w[p + 1..], keep);
    p' := |Keep(w[..p], keep)|;
  }

  lemma TrimGuards(l: Limits, w: Window, e: Entry<int>, now: int, count: nat)
    requires DistinctKeys(w) && exists p :: 0 <= p < |w| && w[p] == e && |w| - 1 - p <= count
    ensures (exists p ::
            0 <= p < |Trimmed(l, w, now)| && Trimmed(l, w, now)[p] == e && |Trimmed(l, w, now)| - 1 - p <= count)
         || now - e.value > l.ttl || count + 1 >= l.max
  {
    var p :| 0 <= p < |w| && w[p] == e && |w| - 1 - p <= count;
    var t := Trimmed(l, w, now);
    if |w| >= l.max && now - e.value <= l.ttl && count + 1 < l.max {
      var q := KeptPlace(w, Recent(l.ttl, now), p);
      var kept := Keep(w, Recent(l.ttl, now));
      if |kept| >= l.max {
        assert t[q - (|kept| - l.max + 1)] == e;
      } else {
        assert t[q] == e;
      }
    } else if |w| < l.max {
      assert t[p] == e;
    }
  }

  lemma GuardStep(l: Limits, w: Window, e: Entry<int>, last: int, count: nat, c: Call)
    requires DistinctKeys(w) && Guarded(l, w, e, last, count) && last <= c.now
    ensures Guarded(l, Admitted(l, w, c.nonce, c.now), e, c.now,
                    if c.nonce != e.key && !Has(w, c.nonce) then count + 1 else count)
  {
    var w' := Admitted(l, w, c.nonce, c.now);
    if !Has(w, c.nonce) && exists p :: 0 <= p < |w| && w[p] == e && |w| - 1 - p <= count {
      assert c.nonce != e.key;
      TrimGuards(l, w, e, c.now, count);
      var t := Trimmed(l, w, c.now);
      if p :| 0 <= p < |t| && t[p] == e && |t| - 1 - p <= count {
        assert w'[p] == e;
      }
    }
  }

  lemma {:induction false} GuardRuns(l: Limits, w: Window, e: Entry<int>, last: int, count: nat, calls: seq<Call>)
    requires DistinctKeys(w) && Guarded(l, w, e, last, count) && Clocked(last, calls)
    ensures Guarded(l, After(l, w, calls), e, Last(last, calls), count + OthersAccepted(l, w, e.key, calls))
    ensures DistinctKeys(After(l, w, calls))
    decreases |calls|
  {
    if calls != [] {
      var c := calls[0];
      GuardStep(l, w, e, last, count, c);
      AdmittedDistinct(l, w, c.nonce, c.now);
      GuardRuns(l, Admitted(l, w, c.nonce, c.now), e, c.now,
                if c.nonce != e.key && !Has(w, c.nonce) then count + 1 else count, calls[1..]);
    }
  }

  /** An accepted nonce is accepted again only once it is older than the TTL or `max` others were accepted since. */
  lemma ReplayNeedsTimeOrTraffic(l: Limits, w: Window, nonce: string, at: int, between: seq<Call>, again: int)
    requires DistinctKeys(w) && !Has(w, nonce) && Clocked(at, between) && Last(at, between) <= again
    requires var w1 := Admitted(l, w, nonce, at);
             !Has(After(l, w1, between), nonce)
    ensures again - at > l.ttl || OthersAccepted(l, Admitted(l, w, nonce, at), nonce, between) >= l.max
  {
    var w1, e := Admitted(l, w, nonce, at), Entry(nonce, at);
    AdmittedDistinct(l, w, nonce, at);
    assert w1[|w1| - 1] == e;
    GuardRuns(l, w1, e, at, 0, between);
  }

  /** Until the window is full nothing is forgotten, however much time passes: every nonce seen is refused. */
  lemma {:induction false} RemembersUntilFull(l: Limits, w: Window, calls: seq<Call>, i: nat)
    requires |w| + |calls| <= l.max && i < |calls|
    ensures w <= After(l, w, calls) && Has(After(l, w, calls), calls[i].nonce)
    decreases |calls|
  {
    var w1 := Admitted(l, w, calls[0].nonce, calls[0].now);
    if !Has(w, calls[0].nonce) { assert w1[|w|] == Entry(calls[0].nonce, calls[0].now); }
    if |calls| > 1 { RemembersUntilFull(l, w1, calls[1..], if i == 0 then 0 else i - 1); }
    assert w1 <= After(l, w1, calls[1..]) == After(l, w, calls);
    if i == 0 {
      var p :| 0 <= p < |w1| && w1[p].key == calls[0].nonce;
      assert After(l, w, calls)[p] == w1[p];
    }
  }
}
