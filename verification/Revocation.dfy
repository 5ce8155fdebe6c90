/** The status of a credential: its owner changes and revokes it while dispatches report their outcomes. */
module Revocation {
  import opened Routing
  import opened Wrappers
  import P = Projection

  datatype Outcome = Succeeded | AuthFailed | RateLimited | OtherFailure

  datatype Action =
    | Patch(status: Option<string>, weight: Option<int>)
    | Delete
    | Attempted(outcome: Outcome, now: int)

  const COOLDOWN_MS := 60000

  /** `applyAttemptOutcome`. */
  function AfterAttempt(row: Row, outcome: Outcome, now: int): Row {
    match outcome
    case Succeeded => row.(lastUsedAt := Some(now), cooldownUntil := None)
    case AuthFailed =>
      row.(status := if row.status == "DELETED" then "DELETED" else "DISABLED", lastUsedAt := Some(now))
    case RateLimited => row.(cooldownUntil := Some(now + COOLDOWN_MS), lastUsedAt := Some(now))
    case OtherFailure => row.(lastUsedAt := Some(now))
  }

  /** Only two statuses can be set, and none on a revoked credential. */
  predicate Accepts(row: Row, a: Action) {
    a.Patch? && a.status.Some? ==>
      (a.status.value == "ACTIVE" || a.status.value == "DISABLED") && row.status != "DELETED"
  }

  function Apply(row: Row, a: Action): Row {
    if !Accepts(row, a) then row
    else
      match a
      case Patch(status, weight) =>
        var r := if status.Some? then row.(status := status.value, cooldownUntil := None) else row;
        if weight.Some? then r.(weight := weight.value) else r
      case Delete => row.(status := "DELETED")
      case Attempted(outcome, now) => AfterAttempt(row, outcome, now)
  }

  function After(row: Row, actions: seq<Action>): Row
    decreases |actions|
  {
    if actions == [] then row else After(Apply(row, actions[0]), actions[1..])
  }

  /** Once revoked, a credential is never a candidate again, whatever its owner and late outcomes do. */
  lemma {:induction false} RevocationIsTerminal(row: Row, actions: seq<Action>, q: Query)
    requires row.status == "DELETED"
    ensures After(row, actions).status == "DELETED" && Exclude(After(row, actions), q) == Some(Disabled)
    decreases |actions|
  {
    if actions != [] {
      RevocationIsTerminal(Apply(row, actions[0]), actions[1..], q);
    }
  }

  // ------------------------------------------------------------ cooldown

  /**
    What ends a cooldown early: a success of a call that was still under way, or the owner setting a status. A later
    rate limit starts another.
  */
  predicate EndsCooldown(row: Row, a: Action) {
    (a.Attempted? && a.outcome.Succeeded?) || (a.Patch? && a.status.Some? && Accepts(row, a))
  }

  ghost predicate KeepsCooldown(row: Row, actions: seq<Action>, since: int)
    decreases |actions|
  {
    actions != [] ==>
      && !EndsCooldown(row, actions[0])
      && (actions[0].Attempted? ==> actions[0].now >= since)
      && KeepsCooldown(Apply(row, actions[0]), actions[1..], since)
  }

  lemma {:induction false} CooldownStays(row: Row, actions: seq<Action>, since: int)
    requires row.cooldownUntil.Some? && row.cooldownUntil.value >= since + 60000 && KeepsCooldown(row, actions, since)
    ensures var c := After(row, actions).cooldownUntil; c.Some? && c.value >= since + 60000
    decreases |actions|
  {
    if actions != [] { CooldownStays(Apply(row, actions[0]), actions[1..], since); }
  }

  /**
    A rate limit keeps the credential from being offered for a minute, whatever else happens to it short of a success or
    a status set by its owner.
  */
  lemma RateLimitCoolsDown(row: Row, now: int, actions: seq<Action>, q: Query)
    requires KeepsCooldown(Apply(row, Attempted(RateLimited, now)), actions, now) && q.now < now + 60000
    ensures Exclude(After(row, [Attempted(RateLimited, now)] + actions), q) in {Some(Disabled), Some(Cooldown)}
  {
    var a := Attempted(RateLimited, now);
    assert ([a] + actions)[0] == a && ([a] + actions)[1..] == actions;
    CooldownStays(Apply(row, a), actions, now);
  }

  /** The cooldown of one rate limit ends after exactly a minute. */
  lemma CoolsDownForAMinute(row: Row, now: int, q: Query)
    requires row.status == "ACTIVE"
    ensures Exclude(Apply(row, Attempted(RateLimited, now)), q) == Some(Cooldown) <==> q.now < now + 60000
    ensures EndsCooldown(row, Attempted(Succeeded, now))
    ensures Exclude(Apply(row, Attempted(Succeeded, now)), q) != Some(Cooldown)
  {}

  // ------------------------------------------------------------ the credential's node

  /** The status its graph node shows: accepted changes and revocations are announced, outcomes are not. */
  function Node(node: string, row: Row, a: Action): string {
    if !a.Attempted? && Accepts(row, a) then Apply(row, a).status else node
  }

  function NodeAfter(node: string, row: Row, actions: seq<Action>): string
    decreases |actions|
  {
    if actions == [] then node else NodeAfter(Node(node, row, actions[0]), Apply(row, actions[0]), actions[1..])
  }

  /** The events of a credential: what is announced carries the status it leads to. */
  function Announced(id: Id, row: Row, actions: seq<Action>): seq<P.Event>
    decreases |actions|
  {
    if actions == [] then []
    else
      var a := actions[0];
      (if !a.Attempted? && Accepts(row, a) then [P.CredentialUpdated(id, Some(Apply(row, a).status))] else [])
      + Announced(id, Apply(row, a), actions[1..])
  }

  /** The node is the one the projection makes of these events. */
  lemma {:induction false} NodeIsProjected(g: P.Graph, id: Id, node: string, row: Row, actions: seq<Action>)
    requires P.StatusOf(g, P.Credential(id)) == Some(node)
    ensures P.StatusOf(P.Fold(g, Announced(id, row, actions)), P.Credential(id)) == Some(NodeAfter(node, row, actions))
    decreases |actions|
  {
    if actions != [] {
      var a := actions[0];
      var next := Apply(row, a);
      var event := P.CredentialUpdated(id, Some(next.status));
      if !a.Attempted? && Accepts(row, a) {
        P.FoldWrites(g, [event], P.Credential(id));
        assert [event][|[event]| - 1] == event && P.LastWrite([event], P.Credential(id)) == Some(next.status);
        P.FoldAppend(g, [event], Announced(id, next, actions[1..]));
        NodeIsProjected(P.Fold(g, [event]), id, next.status, next, actions[1..]);
      } else {
        assert Announced(id, row, actions) == [] + Announced(id, next, actions[1..])
               == Announced(id, next, actions[1..]);
        NodeIsProjected(g, id, node, next, actions[1..]);
      }
    }
  }

  /** A provider refused the key of an active credential, and nothing was announced since. */
  function Unannounced(row: Row, actions: seq<Action>, so: bool): bool
    decreases |actions|
  {
    if actions == [] then so
    else
      var a := actions[0];
      Unannounced(Apply(row, a), actions[1..],
                  if a.Attempted? then so || (a.outcome.AuthFailed? && row.status == "ACTIVE")
                    else so && !Accepts(row, a))
  }

  ghost predicate Known(row: Row) {
    row.status == "ACTIVE" || row.status == "DISABLED" || row.status == "DELETED"
  }

  /** The node shows the row's status exactly when no such refusal is unannounced. */
  lemma {:induction false} NodeMirrorsExactlyWhen(node: string, row: Row, actions: seq<Action>, so: bool)
    requires Known(row) && (so ==> row.status == "DISABLED" && node == "ACTIVE") && (!so ==> node == row.status)
    ensures NodeAfter(node, row, actions) == After(row, actions).status <==> !Unannounced(row, actions, so)
    decreases |actions|
  {
    if actions != [] {
      var a := actions[0];
      NodeMirrorsExactlyWhen(Node(node, row, a), Apply(row, a), actions[1..],
                             if a.Attempted? then so || (a.outcome.AuthFailed? && row.status == "ACTIVE")
                               else so && !Accepts(row, a));
    }
  }

  /** One refusal suffices: the row is disabled, the node still says active. */
  lemma RefusalIsNotAnnounced(row: Row, now: int)
    requires row.status == "ACTIVE"
    ensures var refused := [Attempted(AuthFailed, now)];
            After(row, refused).status == "DISABLED" && NodeAfter("ACTIVE", row, refused) == "ACTIVE"
  {
    var a := Attempted(AuthFailed, now);
    assert [a][1..] == [];
    assert After(Apply(row, a), []) == Apply(row, a);
    assert NodeAfter(Node("ACTIVE", row, a), Apply(row, a), []) == "ACTIVE";
  }
}
