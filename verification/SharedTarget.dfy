/** Shared subscriptions: which member of a share group receives the next message. */
module SharedTarget {
  import opened Wrappers
  import opened TopicFilter
  import TreeCounts

  /** A user's session under a client id. */
  datatype Session = Session(user: string, client: string)

  /** One client id in one share group. */
  datatype Member = Member(client: string, share: string)

  /** The user who joined first, when it was last picked, and the subscription it holds for each filter. */
  datatype Target<S> = Target(user: string, tp: nat, subs: map<Filter, S>)

  type Targets<S> = map<Member, Target<S>>

  predicate Serves<S>(targets: Targets<S>, m: Member, f: Filter) {
    m in targets && f in targets[m].subs
  }

  // ----- the four operations on the table

  function Joined<S>(targets: Targets<S>, m: Member, user: string, f: Filter, sub: S, now: nat): Targets<S> {
    if m !in targets then targets[m := Target(user, now, map[f := sub])]
    else if f in targets[m].subs then targets
    else targets[m := targets[m].(subs := targets[m].subs[f := sub])]
  }

  function Left<S>(targets: Targets<S>, m: Member, f: Filter): Targets<S> {
    if m !in targets then targets
    else
      var subs := targets[m].subs - {f};
      if subs.Keys == {} then targets - {m} else targets[m := targets[m].(subs := subs)]
  }

  function Gone<S>(targets: Targets<S>, client: string): Targets<S> {
    map m | m in targets && m.client != client :: targets[m]
  }

  function Touched<S>(targets: Targets<S>, m: Member, now: nat): Targets<S>
    requires m in targets
  {
    targets[m := targets[m].(tp := now)]
  }

  /** `m` serves the filter in the group and no member that does was picked longer ago. */
  ghost predicate IsPick<S>(targets: Targets<S>, share: string, f: Filter, m: Member) {
    && Serves(targets, m, f) && m.share == share
    && forall n | Serves(targets, n, f) && n.share == share :: targets[m].tp <= targets[n].tp
  }

  class SharedTarget<S> {
    var targets: Targets<S>

    constructor ()
      ensures targets == map[]
    {
      targets := map[];
    }

    /**
     * Adds a filter to the client's entry in the group, which stays that of the user who joined first; a subscription
     * already held for the filter is kept as it is.
     */
    method Insert(share: string, f: Filter, sub: S, s: Session, now: nat)
      modifies this
      ensures targets == Joined(old(targets), Member(s.client, share), s.user, f, sub, now)
      ensures Serves(targets, Member(s.client, share), f)
    {
      var m := Member(s.client, share);
      if m !in targets {
        targets := targets[m := Target(s.user, now, map[f := sub])];
      } else if f !in targets[m].subs {
        targets := targets[m := targets[m].(subs := targets[m].subs[f := sub])];
      }
    }

    /** Removes a filter from the client's entry, and the entry with its last filter. */
    method Erase(share: string, f: Filter, client: string)
      modifies this
      ensures targets == Left(old(targets), Member(client, share), f)
      ensures !Serves(targets, Member(client, share), f)
    {
      var m := Member(client, share);
      if m in targets {
        targets := targets[m := targets[m].(subs := targets[m].subs - {f})];
        if targets[m].subs.Keys == {} {
          targets := targets - {m};
        }
      }
    }

    /** Removes the client from every group. */
    method EraseClient(client: string)
      modifies this
      ensures targets == Gone(old(targets), client)
      ensures forall m, f :: Serves(targets, m, f) <==> Serves(old(targets), m, f) && m.client != client
      ensures forall m | m in targets :: m in old(targets) && targets[m] == old(targets)[m]
    {
      targets := map m | m in targets && m.client != client :: targets[m];
    }

    /** The member of `rest` that was picked longest ago. */
    method Oldest(rest: set<Member>) returns (m: Member)
      requires rest != {} && rest <= targets.Keys
      ensures m in rest && forall n | n in rest :: targets[m].tp <= targets[n].tp
    {
      m :| m in rest;
      var left := rest - {m};
      while left != {}
        invariant left <= rest && m in rest
        invariant forall n | n in rest && n !in left :: targets[m].tp <= targets[n].tp
      {
        var n :| n in left;
        if targets[n].tp < targets[m].tp {
          m := n;
        }
        left := left - {n};
      }
    }

    /** Walks the group from the member picked longest ago to the first one that has the filter, and touches it. */
    method GetTarget(share: string, f: Filter, now: nat) returns (r: Option<(Session, S)>)
      modifies this
      ensures r.None? <==> forall m | m in old(targets) && m.share == share :: !Serves(old(targets), m, f)
      ensures r.None? ==> targets == old(targets)
      ensures r.Some? ==>
                var m := Member(r.value.0.client, share);
                && IsPick(old(targets), share, f, m) && targets == Touched(old(targets), m, now)
                && r.value == (Session(old(targets)[m].user, m.client), old(targets)[m].subs[f])
    {
      var rest := set m | m in targets && m.share == share;
      while rest != {}
        invariant targets == old(targets)
        invariant forall m | m in rest :: m in targets && m.share == share
        invariant forall m | m in targets && m.share == share && m !in rest :: !Serves(targets, m, f)
      {
        var m := Oldest(rest);
        if f in targets[m].subs {
          r := Some((Session(targets[m].user, m.client), targets[m].subs[f]));
          targets := targets[m := targets[m].(tp := now)];
          return;
        }
        rest := rest - {m};
      }
      r := None;
    }
  }

  // ----- fairness

  /** Strictly increasing clock readings: all stamps lie before the next one and no two are equal. */
  ghost predicate Stamped<S>(targets: Targets<S>, now: nat) {
    && (forall m | m in targets :: targets[m].tp < now)
    && (forall m, n | m in targets && n in targets && targets[m].tp == targets[n].tp :: m == n)
  }

  /** The members of m's group that were picked longer ago than m. */
  ghost function Ahead<S>(targets: Targets<S>, m: Member): set<Member> {
    set n | n in targets && m in targets && n.share == m.share && targets[n].tp < targets[m].tp
  }

  datatype Step<S> =
    | Join(member: Member, user: string, filter: Filter, sub: S)
    | Leave(member: Member, filter: Filter)
    | LeaveAll(client: string)
    | Pick(picked: Member, filter: Filter)

  /** A client that leaves takes its own places along; nobody else serves less or moves. */
  lemma GoneKeepsQueue<S>(targets: Targets<S>, client: string, m: Member, f: Filter)
    ensures Serves(Gone(targets, client), m, f) <==> Serves(targets, m, f) && m.client != client
    ensures m.client != client ==>
              Ahead(Gone(targets, client), m) == set n | n in Ahead(targets, m) && n.client != client
  {
  }

  /** A step the table can take. */
  ghost predicate Enabled<S>(targets: Targets<S>, step: Step<S>) {
    step.Pick? ==> IsPick(targets, step.picked.share, step.filter, step.picked)
  }

  ghost function After<S>(targets: Targets<S>, step: Step<S>, now: nat): Targets<S>
    requires Enabled(targets, step)
  {
    match step
    case Join(m, user, f, sub) => Joined(targets, m, user, f, sub, now)
    case Leave(m, f) => Left(targets, m, f)
    case LeaveAll(client) => Gone(targets, client)
    case Pick(m, f) => Touched(targets, m, now)
  }

  lemma StepStamped<S>(targets: Targets<S>, step: Step<S>, now: nat)
    requires Stamped(targets, now) && Enabled(targets, step)
    ensures Stamped(After(targets, step, now), now + 1)
  {
  }

  /** No step lets anybody in ahead of a member that stays and is not picked itself. */
  lemma NobodyJumpsAhead<S>(targets: Targets<S>, step: Step<S>, now: nat, m: Member)
    requires Stamped(targets, now) && Enabled(targets, step)
    requires m in targets && m in After(targets, step, now) && (step.Pick? ==> step.picked != m)
    ensures Ahead(After(targets, step, now), m) <= Ahead(targets, m)
  {
  }

  /** A pick for a filter m serves takes m, or somebody who was ahead and is not any more. */
  lemma PickAdvances<S>(targets: Targets<S>, step: Step<S>, now: nat, m: Member)
    requires Stamped(targets, now) && Enabled(targets, step)
    requires step.Pick? && step.picked.share == m.share && Serves(targets, m, step.filter) && step.picked != m
    ensures Ahead(After(targets, step, now), m) < Ahead(targets, m)
  {
    assert targets[step.picked].tp < targets[m].tp;
    assert step.picked in Ahead(targets, m) && step.picked !in Ahead(After(targets, step, now), m);
    NobodyJumpsAhead(targets, step, now, m);
  }

  /** Whether a step asks m's group for filter f. */
  predicate Asks<S>(step: Step<S>, share: string, f: Filter) {
    step.Pick? && step.picked.share == share && step.filter == f
  }

  function Requests<S>(steps: seq<Step<S>>, share: string, f: Filter): nat {
    if steps == [] then 0 else (if Asks(steps[0], share, f) then 1 else 0) + Requests(steps[1..], share, f)
  }

  /** Clock readings that start at `now` or later and strictly increase. */
  ghost predicate Readings(times: seq<nat>, now: nat) {
    && (forall i | 0 <= i < |times| :: now <= times[i])
    && (forall i, j | 0 <= i < j < |times| :: times[i] < times[j])
  }

  /** The steps, taken at the given times one after the other, lead from one table to the other. */
  ghost predicate TakesTo<S(!new)>(t0: Targets<S>, steps: seq<Step<S>>, times: seq<nat>, t: Targets<S>)
    decreases |steps|
  {
    && |times| == |steps|
    && if steps == [] then t == t0
       else Enabled(t0, steps[0]) && TakesTo(After(t0, steps[0], times[0]), steps[1..], times[1..], t)
  }

  lemma TakesFirst<S(!new)>(t0: Targets<S>, step: Step<S>, now: nat, steps: seq<Step<S>>, times: seq<nat>,
                            t: Targets<S>)
    requires Enabled(t0, step)
    ensures TakesTo(t0, [step] + steps, [now] + times, t) <==> TakesTo(After(t0, step, now), steps, times, t)
  {
    assert ([step] + steps)[1..] == steps && ([now] + times)[1..] == times;
  }

  lemma TakesSame<S(!new)>(t0: Targets<S>, steps: seq<Step<S>>, times: seq<nat>, t: Targets<S>)
    requires TakesTo(t0, steps, times, t)
    ensures |times| == |steps| && if steps == [] then t == t0 else Enabled(t0, steps[0])
  {
  }

  lemma {:induction false} TraceConcat<S(!new)>(t0: Targets<S>, a: seq<Step<S>>, ta: seq<nat>, t1: Targets<S>,
                                                b: seq<Step<S>>, tb: seq<nat>, t2: Targets<S>)
    requires TakesTo(t0, a, ta, t1) && TakesTo(t1, b, tb, t2)
    ensures TakesTo(t0, a + b, ta + tb, t2)
    decreases |a|
  {
    hide TakesTo;
    hide Enabled;
    hide After;
    TakesSame(t0, a, ta, t1);
    if a == [] {
      assert a + b == b && ta + tb == tb;
    } else {
      var a', ta' := a[1..], ta[1..];
      assert a == [a[0]] + a' && ta == [ta[0]] + ta';
      TakesFirst(t0, a[0], ta[0], a', ta', t1);
      TraceConcat(After(t0, a[0], ta[0]), a', ta', t1, b, tb, t2);
      TakesFirst(t0, a[0], ta[0], a' + b, ta' + tb, t2);
      assert a + b == [a[0]] + (a' + b) && ta + tb == [ta[0]] + (ta' + tb);
    }
  }

  lemma TraceOne<S(!new)>(t: Targets<S>, step: Step<S>, now: nat)
    requires Enabled(t, step)
    ensures TakesTo(t, [step], [now], After(t, step, now))
  {
    assert [step][1..] == [] && [now][1..] == [];
  }

  lemma {:induction false} RequestsConcat<S>(a: seq<Step<S>>, b: seq<Step<S>>, share: string, f: Filter)
    ensures Requests(a + b, share, f) == Requests(a, share, f) + Requests(b, share, f)
    decreases |a|
  {
    if a == [] {
      assert a + b == b;
    } else {
      RequestsConcat(a[1..], b, share, f);
      assert (a + b)[0] == a[0] && (a + b)[1..] == a[1..] + b;
    }
  }

  /** m serves f throughout the run and is never picked, for this filter or another. */
  ghost predicate WaitsThrough<S(!new)>(targets: Targets<S>, steps: seq<Step<S>>, times: seq<nat>, m: Member, f: Filter)
    decreases |steps|
  {
    && Serves(targets, m, f) && |times| == |steps|
    && (steps != [] ==>
          && Enabled(targets, steps[0]) && (steps[0].Pick? ==> steps[0].picked != m)
          && WaitsThrough(After(targets, steps[0], times[0]), steps[1..], times[1..], m, f))
  }

  lemma StampedLater<S>(targets: Targets<S>, now: nat, later: nat)
    requires Stamped(targets, now) && now <= later
    ensures Stamped(targets, later)
  {
  }

  /** A run leaves stamps that lie before any later reading. */
  lemma {:induction false} RunStamped<S(!new)>(t0: Targets<S>, steps: seq<Step<S>>, times: seq<nat>, t: Targets<S>,
                                               now: nat, later: nat)
    requires Stamped(t0, now) && TakesTo(t0, steps, times, t) && Readings(times, now)
    requires now <= later && forall i | 0 <= i < |times| :: times[i] < later
    ensures Stamped(t, later)
    decreases |steps|
  {
    hide Stamped;
    if steps == [] {
      StampedLater(t0, now, later);
    } else {
      StampedLater(t0, now, times[0]);
      StepStamped(t0, steps[0], times[0]);
      RunStamped(After(t0, steps[0], times[0]), steps[1..], times[1..], t, times[0] + 1, later);
    }
  }

  /** Bounded waiting: a member is passed over at most as often as there are members ahead of it. */
  lemma {:induction false} BoundedWaiting<S(!new)>(targets: Targets<S>, steps: seq<Step<S>>, times: seq<nat>, now: nat,
                                                   m: Member, f: Filter)
    requires Stamped(targets, now) && Readings(times, now) && WaitsThrough(targets, steps, times, m, f)
    ensures Requests(steps, m.share, f) <= |Ahead(targets, m)|
    decreases |steps|
  {
    if steps != [] {
      var t := times[0];
      var next := After(targets, steps[0], t);
      StampedLater(targets, now, t);
      StepStamped(targets, steps[0], t);
      BoundedWaiting(next, steps[1..], times[1..], t + 1, m, f);
      NobodyJumpsAhead(targets, steps[0], t, m);
      if Asks(steps[0], m.share, f) {
        PickAdvances(targets, steps[0], t, m);
        ProperlyFewer(Ahead(next, m), Ahead(targets, m));
      } else {
        TreeCounts.CardinalityMonotone(Ahead(next, m), Ahead(targets, m));
      }
    }
  }

  lemma ProperlyFewer<T>(a: set<T>, b: set<T>)
    requires a < b
    ensures |a| < |b|
  {
    var x :| x in b && x !in a;
    TreeCounts.CardinalityMonotone(a + {x}, b);
  }
}
