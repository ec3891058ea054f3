/** Whole runs of the broker: exact handle sets, share groups in step, and how long a member can be passed over. */
module BrokerRuns {
  import opened TopicFilter
  import opened TrieModel
  import opened SharedTarget
  import opened FanOut
  import opened Sessions
  import opened SharedGroups
  import opened BrokerSteps
  import SubscriptionMap

  // ----- one operation as the share groups see it

  /** The steps that an operation takes on the share groups. */
  ghost function StepsOf(m: Moment, op: Op, r: Round): seq<Step<Subscription>> {
    if !Possible(m.sessions.Keys, op) || !r.ok then []
    else
      match op
      case Open(_) => []
      case Sub(s, share, f, noLocal, qos) =>
        var sub := Subscription(s, share, f, noLocal, qos);
        if share != "" then [Join(Member(s.client, share), s.user, f, sub)] else []
      case Unsub(s, share, f) => if share != "" then [Leave(Member(s.client, share), f)] else []
      case CleanUp(s) => [LeaveAll(s.client)]
      case End(s) => [LeaveAll(s.client)]
      case Send(_, _, _) => PickSteps(r.dispatch.chosen)
  }

  /** The clock readings of these steps. */
  ghost function TimesOf(m: Moment, op: Op, clock: nat, r: Round): seq<nat> {
    if op.Send? then r.dispatch.times else if StepsOf(m, op, r) == [] then [] else [clock]
  }

  ghost predicate ReadBy(times: seq<nat>, clock: nat, later: nat) {
    clock <= later && Readings(times, clock) && forall i | 0 <= i < |times| :: times[i] < later
  }

  /** The share groups that an operation asks for a member and that have one. */
  ghost function Asked(m: Moment, op: Op): set<(string, Filter)> {
    if op.Send? then set g | g in GroupsMatched(m.view.store, op.topic) && Staffed(m.targets, g.0, g.1) else {}
  }

  /** One request for every group that is asked. */
  ghost predicate OnRequest(steps: seq<Step<Subscription>>, asked: set<(string, Filter)>) {
    forall share, f: Filter :: Requests(steps, share, f) == if (share, f) in asked then 1 else 0
  }

  /** Among choices for different groups and filters there is one request for each of them. */
  lemma {:induction false} OnePick(chosen: seq<Chosen>, share: string, f: Filter)
    requires OnceEach(chosen)
    ensures Requests(PickSteps(chosen), share, f) == if exists c :: c in chosen && For(c, (share, f)) then 1 else 0
    decreases |chosen|
  {
    if chosen != [] {
      var rest := chosen[1..];
      assert PickSteps(chosen)[1..] == PickSteps(rest);
      assert OnceEach(rest) by {
        assert forall i | 0 <= i < |rest| :: rest[i] == chosen[i + 1];
      }
      OnePick(rest, share, f);
      assert chosen == [chosen[0]] + rest;
      if For(chosen[0], (share, f)) {
        assert forall c | c in rest :: !For(c, (share, f));
        assert chosen[0] in chosen;
      } else if c :| c in rest && For(c, (share, f)) {
        assert c in chosen;
      } else {
        assert forall c | c in chosen :: c == chosen[0] || c in rest;
      }
    }
  }

  lemma PicksAre(m: Moment, op: Op, clock: nat, r: Round, m': Moment, share: string, f: Filter)
    requires op.Send? && Sent(m, op, clock, r, m')
    ensures Requests(PickSteps(r.dispatch.chosen), share, f) == if (share, f) in Asked(m, op) then 1 else 0
  {
    hide Requests;
    hide Staffed;
    hide GroupsMatched;
    hide DirectSoFar;
    hide PickedInTurn;
    var chosen := r.dispatch.chosen;
    OnePick(chosen, share, f);
    assert (share, f) in Asked(m, op) ==> exists c :: c in chosen && For(c, (share, f));
    if c :| c in chosen && For(c, (share, f)) {
      HolderStaffs(m.targets, c);
    }
  }

  lemma HolderStaffs(targets: Targets<Subscription>, c: Chosen)
    requires Holder(targets, c)
    ensures Staffed(targets, c.share, c.filter)
  {
    assert Serves(targets, MemberOf(c), c.filter);
  }

  lemma StandStill(t: Targets<Subscription>, clock: nat)
    ensures TakesTo(t, [], [], t) && OnRequest([], {}) && ReadBy([], clock, clock + 1)
  {
  }

  lemma OneStep(t: Targets<Subscription>, step: Step<Subscription>, clock: nat)
    requires !step.Pick?
    ensures TakesTo(t, [step], [clock], After(t, step, clock)) && OnRequest([step], {})
    ensures ReadBy([clock], clock, clock + 1)
  {
    TraceOne(t, step, clock);
    assert [step][1..] == [];
  }

  /** Every operation takes its steps on the share groups, and makes one request for every group that it asks. */
  lemma StepTakes(m: Moment, op: Op, clock: nat, r: Round, m': Moment)
    requires Acts(m, op, clock, r, m')
    ensures TakesTo(m.targets, StepsOf(m, op, r), TimesOf(m, op, clock, r), m'.targets)
    ensures ReadBy(TimesOf(m, op, clock, r), clock, Later(op, clock, r)) && OnRequest(StepsOf(m, op, r), Asked(m, op))
  {
    hide TakesTo;
    hide Requests;
    hide ErasedAt;
    hide SubscriptionMap.Evolves;
    hide Joined;
    hide Left;
    hide Gone;
    hide Asked;
    StandStill(m.targets, clock);
    var steps := StepsOf(m, op, r);
    if op.Send? {
      forall share, f: Filter ensures Requests(steps, share, f) == if (share, f) in Asked(m, op) then 1 else 0 {
        PicksAre(m, op, clock, r, m', share, f);
      }
    } else {
      NoneAsked(m, op);
      if steps != [] {
        OneStep(m.targets, steps[0], clock);
      }
    }
  }

  lemma NoneAsked(m: Moment, op: Op)
    requires !op.Send?
    ensures Asked(m, op) == {}
  {
  }

  // ----- runs

  /** The states, with the clock in each of them, and what each operation came to. */
  datatype Record = Record(moments: seq<Moment>, clocks: seq<nat>, rounds: seq<Round>)

  ghost predicate RunOf(ops: seq<Op>, r: Record) {
    && |r.moments| == |r.clocks| == |ops| + 1 && |r.rounds| == |ops|
    && (forall i | 0 <= i < |ops| :: StepAt(ops, r, i))
  }

  /** A run whose subscription maps stand for their entries in every state. */
  ghost predicate SoundRun(ops: seq<Op>, r: Record) {
    RunOf(ops, r) && forall i | 0 <= i <= |ops| :: Sound(r.moments[i])
  }

  ghost predicate StepAt(ops: seq<Op>, r: Record, i: nat)
    requires |r.moments| == |r.clocks| == |ops| + 1 && |r.rounds| == |ops| && i < |ops|
  {
    && Acts(r.moments[i], ops[i], r.clocks[i], r.rounds[i], r.moments[i + 1])
    && r.clocks[i + 1] == Later(ops[i], r.clocks[i], r.rounds[i])
  }

  /** The steps on the share groups from operation `i` up to operation `j`, and their clock readings. */
  ghost function StepsThrough(ops: seq<Op>, r: Record, i: nat, j: nat): seq<Step<Subscription>>
    requires RunOf(ops, r) && i <= j <= |ops|
    decreases j
  {
    if i == j then [] else StepsThrough(ops, r, i, j - 1) + StepsOf(r.moments[j - 1], ops[j - 1], r.rounds[j - 1])
  }

  ghost function TimesThrough(ops: seq<Op>, r: Record, i: nat, j: nat): seq<nat>
    requires RunOf(ops, r) && i <= j <= |ops|
    decreases j
  {
    if i == j then []
    else TimesThrough(ops, r, i, j - 1) + TimesOf(r.moments[j - 1], ops[j - 1], r.clocks[j - 1], r.rounds[j - 1])
  }

  /** How many of these operations are publications that reach the group through the filter. */
  ghost function Publications(ops: seq<Op>, r: Record, i: nat, j: nat, share: string, f: Filter): nat
    requires RunOf(ops, r) && i <= j <= |ops|
    decreases j
  {
    if i == j then 0
    else
      Publications(ops, r, i, j - 1, share, f) + if Reaches(r.moments[j - 1], ops[j - 1], share, f) then 1 else 0
  }

  ghost predicate Reaches(m: Moment, op: Op, share: string, f: Filter) {
    op.Send? && (share, f) in GroupsMatched(m.view.store, op.topic)
  }

  lemma ReadConcat(a: seq<nat>, clock: nat, mid: nat, b: seq<nat>, later: nat)
    requires ReadBy(a, clock, mid) && ReadBy(b, mid, later)
    ensures ReadBy(a + b, clock, later)
  {
  }

  lemma NothingReadYet(clock: nat)
    ensures ReadBy([], clock, clock)
  {
  }

  /** Operation `k` of a run. */
  lemma StepTakesAt(ops: seq<Op>, r: Record, k: nat)
    requires RunOf(ops, r) && k < |ops|
    ensures var m, op, round := r.moments[k], ops[k], r.rounds[k];
            && TakesTo(m.targets, StepsOf(m, op, round), TimesOf(m, op, r.clocks[k], round), r.moments[k + 1].targets)
            && ReadBy(TimesOf(m, op, r.clocks[k], round), r.clocks[k], r.clocks[k + 1])
            && OnRequest(StepsOf(m, op, round), Asked(m, op))
  {
    hide Acts;
    hide Sound;
    hide TakesTo;
    hide ReadBy;
    hide OnRequest;
    hide StepsOf;
    hide TimesOf;
    hide Asked;
    hide Later;
    assert StepAt(ops, r, k);
    StepTakes(r.moments[k], ops[k], r.clocks[k], r.rounds[k], r.moments[k + 1]);
  }

  /** From operation `i` to operation `j`: the steps in a row. */
  lemma {:induction false} SegmentSteps(ops: seq<Op>, r: Record, i: nat, j: nat)
    requires RunOf(ops, r) && i <= j <= |ops|
    ensures TakesTo(r.moments[i].targets, StepsThrough(ops, r, i, j), TimesThrough(ops, r, i, j), r.moments[j].targets)
    ensures ReadBy(TimesThrough(ops, r, i, j), r.clocks[i], r.clocks[j])
    decreases j
  {
    hide TakesTo;
    hide ReadBy;
    hide OnRequest;
    hide StepsOf;
    hide TimesOf;
    hide Sound;
    hide StepAt;
    if i == j {
      StandStill(r.moments[i].targets, r.clocks[i]);
      NothingReadYet(r.clocks[i]);
    } else {
      var k := j - 1;
      SegmentSteps(ops, r, i, k);
      StepTakesAt(ops, r, k);
      var m, op, round := r.moments[k], ops[k], r.rounds[k];
      var steps, times := StepsOf(m, op, round), TimesOf(m, op, r.clocks[k], round);
      var before, read := StepsThrough(ops, r, i, k), TimesThrough(ops, r, i, k);
      TraceConcat(r.moments[i].targets, before, read, m.targets, steps, times, r.moments[j].targets);
      ReadConcat(read, r.clocks[i], r.clocks[k], times, r.clocks[j]);
    }
  }

  /** Who waits through steps and more of them waits through the former and serves the filter after them. */
  lemma {:induction false} WaitsPrefix(t0: Targets<Subscription>, a: seq<Step<Subscription>>, ta: seq<nat>,
                                       t1: Targets<Subscription>, b: seq<Step<Subscription>>, tb: seq<nat>, m: Member,
                                       f: Filter)
    requires TakesTo(t0, a, ta, t1) && WaitsThrough(t0, a + b, ta + tb, m, f)
    ensures WaitsThrough(t0, a, ta, m, f) && Serves(t1, m, f)
    decreases |a|
  {
    hide Enabled;
    hide After;
    if a == [] {
      assert a + b == b && ta + tb == tb;
    } else {
      assert (a + b)[0] == a[0] && (a + b)[1..] == a[1..] + b && (ta + tb)[1..] == ta[1..] + tb;
      assert (ta + tb)[0] == ta[0];
      WaitsPrefix(After(t0, a[0], ta[0]), a[1..], ta[1..], t1, b, tb, m, f);
    }
  }

  /** Somebody waits, so that every publication that reaches the group and filter finds a member: one request each. */
  lemma {:induction false} SegmentRequests(ops: seq<Op>, r: Record, i: nat, j: nat, m: Member, f: Filter)
    requires RunOf(ops, r) && i <= j <= |ops|
    requires WaitsThrough(r.moments[i].targets, StepsThrough(ops, r, i, j), TimesThrough(ops, r, i, j), m, f)
    ensures Requests(StepsThrough(ops, r, i, j), m.share, f) == Publications(ops, r, i, j, m.share, f)
    decreases j
  {
    hide TakesTo;
    hide WaitsThrough;
    hide ReadBy;
    hide StepsOf;
    hide TimesOf;
    hide Sound;
    hide StepAt;
    if i < j {
      var k := j - 1;
      var now, op, round := r.moments[k], ops[k], r.rounds[k];
      SegmentSteps(ops, r, i, k);
      StepTakesAt(ops, r, k);
      var steps, times := StepsOf(now, op, round), TimesOf(now, op, r.clocks[k], round);
      var before, read := StepsThrough(ops, r, i, k), TimesThrough(ops, r, i, k);
      WaitsPrefix(r.moments[i].targets, before, read, now.targets, steps, times, m, f);
      SegmentRequests(ops, r, i, k, m, f);
      RequestsConcat(before, steps, m.share, f);
      hide Requests;
      AskedWhenServed(now, op, m, f);
    }
  }

  lemma AskedWhenServed(now: Moment, op: Op, m: Member, f: Filter)
    requires Serves(now.targets, m, f)
    ensures (m.share, f) in Asked(now, op) <==> Reaches(now, op, m.share, f)
  {
    hide GroupsMatched;
    assert Staffed(now.targets, m.share, f);
  }

  /**
   * From whatever operation of a run on: whoever serves a filter in a share group through operation `j` and is not
   * picked has been passed over by every publication in between that reaches the group through the filter, and there
   * are at most as many of those as there were members of the group waiting longer at the start.
   */
  lemma WaitingBound(ops: seq<Op>, r: Record, i: nat, j: nat, m: Member, f: Filter)
    requires RunOf(ops, r) && Stamped(r.moments[0].targets, r.clocks[0]) && i <= j <= |ops|
    requires WaitsThrough(r.moments[i].targets, StepsThrough(ops, r, i, j), TimesThrough(ops, r, i, j), m, f)
    ensures Publications(ops, r, i, j, m.share, f) <= |Ahead(r.moments[i].targets, m)|
  {
    hide TakesTo;
    hide WaitsThrough;
    hide Stamped;
    hide StepsThrough;
    hide TimesThrough;
    hide Requests;
    hide Publications;
    hide Ahead;
    hide Sound;
    hide StepAt;
    StampedThrough(ops, r, i);
    SegmentSteps(ops, r, i, j);
    SegmentRequests(ops, r, i, j, m, f);
    BoundedWaiting(r.moments[i].targets, StepsThrough(ops, r, i, j), TimesThrough(ops, r, i, j), r.clocks[i], m, f);
  }

  lemma StampedThrough(ops: seq<Op>, r: Record, i: nat)
    requires RunOf(ops, r) && Stamped(r.moments[0].targets, r.clocks[0]) && i <= |ops|
    ensures Stamped(r.moments[i].targets, r.clocks[i])
  {
    hide TakesTo;
    hide Stamped;
    hide StepsThrough;
    hide TimesThrough;
    hide Sound;
    hide StepAt;
    SegmentSteps(ops, r, 0, i);
    var steps, times := StepsThrough(ops, r, 0, i), TimesThrough(ops, r, 0, i);
    RunStamped(r.moments[0].targets, steps, times, r.moments[i].targets, r.clocks[0], r.clocks[i]);
  }

  // ----- the plain history

  /** The sessions and what they are subscribed to after a history of operations none of which clashed. */
  ghost function Outcome(p: Plain, ops: seq<Op>): Plain {
    if ops == [] then p else Then(Outcome(p, Init(ops)), Last(ops))
  }

  lemma OutcomeNext(p: Plain, ops: seq<Op>, k: nat)
    requires k < |ops|
    ensures Outcome(p, ops[..k + 1]) == Then(Outcome(p, ops[..k]), ops[k])
  {
    assert Init(ops[..k + 1]) == ops[..k];
  }

  /** The handle sets are exact before each of the first `k` operations and after them. */
  ghost predicate ExactThrough(r: Record, k: nat)
    requires k < |r.moments|
  {
    forall i | 0 <= i <= k :: HandlesMatch(r.moments[i].view, r.moments[i].sessions)
  }

  ghost predicate InStepThrough(r: Record, k: nat)
    requires k < |r.moments|
  {
    forall i | 0 <= i <= k :: InStep(r.moments[i].view.store, r.moments[i].targets)
  }

  ghost predicate ClashAt(p: Plain, ops: seq<Op>, i: nat)
    requires i < |ops|
  {
    Clashes(Outcome(p, ops[..i]), ops[i])
  }

  ghost predicate BreakAt(p: Plain, ops: seq<Op>, i: nat)
    requires i < |ops|
  {
    Breaks(Outcome(p, ops[..i]), ops[i])
  }

  ghost predicate NoClash(p: Plain, ops: seq<Op>, k: nat)
    requires k <= |ops|
  {
    forall i | 0 <= i < k :: !ClashAt(p, ops, i)
  }

  ghost predicate NoBreak(p: Plain, ops: seq<Op>, k: nat)
    requires k <= |ops|
  {
    forall i | 0 <= i < k :: !BreakAt(p, ops, i)
  }

  /** The first `k` operations met no invalid handle and did to sessions and entries what the history says. */
  ghost predicate AsPlain(p: Plain, ops: seq<Op>, r: Record, k: nat)
    requires k <= |ops| && k < |r.moments| && k <= |r.rounds|
  {
    && (forall i | 0 <= i <= k :: PlainOf(r.moments[i]) == Outcome(p, ops[..i]))
    && (forall i | 0 <= i < k :: r.rounds[i].ok)
  }

  ghost predicate OrderlyThrough(r: Record, k: nat)
    requires k < |r.moments|
  {
    forall i | 0 <= i <= k :: Orderly(PlainOf(r.moments[i]), r.moments[i].targets)
  }

  lemma RunStep(ops: seq<Op>, r: Record, k: nat)
    requires SoundRun(ops, r) && k < |ops|
    ensures Sound(r.moments[k]) && Sound(r.moments[k + 1])
    ensures Acts(r.moments[k], ops[k], r.clocks[k], r.rounds[k], r.moments[k + 1])
  {
    hide Acts;
    hide Sound;
    assert StepAt(ops, r, k);
  }

  /**
   * Over any run that starts from exact handle sets: they are exact all along exactly when no operation of the plain
   * history opens a session for a client id with stored entries, or changes the filters stored for a client id that
   * another session has. Then no erase meets an invalid handle and the broker follows the plain history.
   */
  lemma {:induction false} HandlesExact(ops: seq<Op>, r: Record, k: nat)
    requires SoundRun(ops, r) && k <= |ops| && HandlesMatch(r.moments[0].view, r.moments[0].sessions)
    ensures ExactThrough(r, k) <==> NoClash(PlainOf(r.moments[0]), ops, k)
    ensures ExactThrough(r, k) ==> AsPlain(PlainOf(r.moments[0]), ops, r, k)
  {
    hide Sound;
    hide StepAt;
    hide HandlesMatch;
    hide Then;
    hide Clashes;
    hide Acts;
    var p := PlainOf(r.moments[0]);
    if k == 0 {
      assert ops[..0] == [];
    } else {
      var i := k - 1;
      HandlesExact(ops, r, i);
      assert ExactThrough(r, k) ==> ExactThrough(r, i);
      assert NoClash(p, ops, k) ==> NoClash(p, ops, i);
      if ExactThrough(r, i) {
        RunStep(ops, r, i);
        StepExact(r.moments[i], ops[i], r.clocks[i], r.rounds[i], r.moments[k]);
        OutcomeNext(p, ops, i);
        hide RunOf;
        hide Outcome;
        assert ClashAt(p, ops, i) <==> !HandlesMatch(r.moments[k].view, r.moments[k].sessions);
      }
    }
  }

  /** Meanwhile no subscription outlives its session, and no shared one is without its place in the group. */
  lemma {:induction false} OrderlyRun(ops: seq<Op>, r: Record, k: nat)
    requires SoundRun(ops, r) && k <= |ops| && HandlesMatch(r.moments[0].view, r.moments[0].sessions)
    requires Orderly(PlainOf(r.moments[0]), r.moments[0].targets) && NoClash(PlainOf(r.moments[0]), ops, k)
    ensures OrderlyThrough(r, k)
  {
    hide Sound;
    hide StepAt;
    hide HandlesMatch;
    hide Then;
    hide Clashes;
    hide Orderly;
    hide Acts;
    hide Groups;
    var p := PlainOf(r.moments[0]);
    if k > 0 {
      var i := k - 1;
      OrderlyRun(ops, r, i);
      HandlesExact(ops, r, k);
      RunStep(ops, r, i);
      ActsGroups(r.moments[i], ops[i], r.clocks[i], r.rounds[i], r.moments[k]);
      OutcomeNext(p, ops, i);
      hide RunOf;
      hide Outcome;
      assert !ClashAt(p, ops, i);
      assert PlainOf(r.moments[i]) == Outcome(p, ops[..i]) && PlainOf(r.moments[k]) == Outcome(p, ops[..k]);
      OrderlyStays(PlainOf(r.moments[i]), ops[i], r.clocks[i], r.moments[i].targets, r.moments[k].targets);
    }
  }

  /** And the share groups are in step with the map all along exactly when no operation breaks them apart. */
  lemma {:induction false} GroupsExact(ops: seq<Op>, r: Record, k: nat)
    requires SoundRun(ops, r) && k <= |ops| && HandlesMatch(r.moments[0].view, r.moments[0].sessions)
    requires InStep(r.moments[0].view.store, r.moments[0].targets) && NoClash(PlainOf(r.moments[0]), ops, k)
    ensures InStepThrough(r, k) <==> NoBreak(PlainOf(r.moments[0]), ops, k)
  {
    hide Sound;
    hide StepAt;
    hide HandlesMatch;
    hide Then;
    hide Clashes;
    hide Breaks;
    hide InStep;
    hide Acts;
    hide Groups;
    var p := PlainOf(r.moments[0]);
    if k > 0 {
      var i := k - 1;
      GroupsExact(ops, r, i);
      assert InStepThrough(r, k) ==> InStepThrough(r, i);
      assert NoBreak(p, ops, k) ==> NoBreak(p, ops, i);
      if InStepThrough(r, i) {
        HandlesExact(ops, r, k);
        RunStep(ops, r, i);
        ActsGroups(r.moments[i], ops[i], r.clocks[i], r.rounds[i], r.moments[k]);
        OutcomeNext(p, ops, i);
        hide RunOf;
        hide Outcome;
        assert PlainOf(r.moments[i]) == Outcome(p, ops[..i]) && PlainOf(r.moments[k]) == Outcome(p, ops[..k]);
        GroupStepExact(PlainOf(r.moments[i]), ops[i], r.clocks[i], r.moments[i].targets, r.moments[k].targets);
        assert BreakAt(p, ops, i) <==> !InStep(r.moments[k].view.store, r.moments[k].targets);
      }
    }
  }

  // ----- one session for each client id

  /** No two sessions have the same client id. */
  ghost predicate Apart(sessions: set<Session>) {
    forall s, o | s in sessions && o in sessions && s.client == o.client :: s == o
  }

  /** Every entry describes itself and belongs to an open session. */
  ghost predicate Owned(p: Plain) {
    Described(p.store) && forall e | e in p.store :: p.store[e].session in p.sessions
  }

  lemma OwnedStays(p: Plain, op: Op)
    requires Owned(p)
    ensures Owned(Then(p, op))
  {
  }

  lemma ApartNoClash(p: Plain, op: Op)
    requires Owned(p) && Apart(p.sessions) && Apart(Then(p, op).sessions)
    ensures !Clashes(p, op)
  {
    forall e | e in p.store ensures op.Open? && Possible(p.sessions, op) ==> e.key != op.s.client {
      var owner := p.store[e].session;
      assert owner in p.sessions && owner.client == e.key;
      assert op.Open? && Possible(p.sessions, op) ==> owner in Then(p, op).sessions && op.s in Then(p, op).sessions;
    }
  }

  ghost predicate ApartThrough(p: Plain, ops: seq<Op>, k: nat)
    requires k <= |ops|
  {
    forall i | 0 <= i <= k :: Apart(Outcome(p, ops[..i]).sessions)
  }

  /** With one session at a time for each client id no operation clashes. */
  lemma {:induction false} OneSessionEach(p: Plain, ops: seq<Op>, k: nat)
    requires Owned(p) && k <= |ops| && ApartThrough(p, ops, k)
    ensures NoClash(p, ops, k) && Owned(Outcome(p, ops[..k]))
  {
    hide Owned;
    hide Apart;
    hide Clashes;
    hide Then;
    if k == 0 {
      assert ops[..0] == [];
    } else {
      var i := k - 1;
      OneSessionEach(p, ops, i);
      OutcomeNext(p, ops, i);
      hide Outcome;
      ApartNoClash(Outcome(p, ops[..i]), ops[i]);
      OwnedStays(Outcome(p, ops[..i]), ops[i]);
    }
  }

  /** What a run that starts from exact handle sets is like after `k` operations. */
  ghost predicate Follows(ops: seq<Op>, r: Record, k: nat)
    requires k <= |ops| && |r.moments| == |ops| + 1 && |r.rounds| == |ops|
  {
    var p, targets := PlainOf(r.moments[0]), r.moments[0].targets;
    && (ExactThrough(r, k) <==> NoClash(p, ops, k))
    && (NoClash(p, ops, k) ==> AsPlain(p, ops, r, k))
    && (NoClash(p, ops, k) && Orderly(p, targets) ==> OrderlyThrough(r, k))
    && (NoClash(p, ops, k) && InStep(p.store, targets) ==> (InStepThrough(r, k) <==> NoBreak(p, ops, k)))
  }

  lemma RunFollows(ops: seq<Op>, r: Record, k: nat)
    requires SoundRun(ops, r) && k <= |ops| && HandlesMatch(r.moments[0].view, r.moments[0].sessions)
    ensures Follows(ops, r, k)
  {
    hide Sound;
    hide StepAt;
    hide HandlesMatch;
    hide Orderly;
    hide InStep;
    hide ExactThrough;
    hide NoClash;
    hide AsPlain;
    hide OrderlyThrough;
    hide InStepThrough;
    hide NoBreak;
    HandlesExact(ops, r, k);
    if NoClash(PlainOf(r.moments[0]), ops, k) {
      if Orderly(PlainOf(r.moments[0]), r.moments[0].targets) {
        OrderlyRun(ops, r, k);
      }
      if InStep(r.moments[0].view.store, r.moments[0].targets) {
        GroupsExact(ops, r, k);
      }
    }
  }

  /** Between any two operations the waiting of every member is bounded. */
  ghost predicate Bounded(ops: seq<Op>, r: Record)
    requires RunOf(ops, r)
  {
    forall i, j, m, f: Filter | 0 <= i <= j <= |ops| && WaitsBetween(ops, r, i, j, m, f) ::
      Publications(ops, r, i, j, m.share, f) <= |Ahead(r.moments[i].targets, m)|
  }

  /** The member serves the filter from operation `i` through operation `j` and is not picked. */
  ghost predicate WaitsBetween(ops: seq<Op>, r: Record, i: nat, j: nat, m: Member, f: Filter)
    requires RunOf(ops, r) && i <= j <= |ops|
  {
    WaitsThrough(r.moments[i].targets, StepsThrough(ops, r, i, j), TimesThrough(ops, r, i, j), m, f)
  }

  lemma RunBounded(ops: seq<Op>, r: Record)
    requires RunOf(ops, r) && Stamped(r.moments[0].targets, r.clocks[0])
    ensures Bounded(ops, r)
  {
    hide Sound;
    hide StepAt;
    hide Stamped;
    hide Publications;
    hide Ahead;
    hide WaitsThrough;
    hide StepsThrough;
    hide TimesThrough;
    forall i, j, m, f: Filter | 0 <= i <= j <= |ops| && WaitsBetween(ops, r, i, j, m, f)
      ensures Publications(ops, r, i, j, m.share, f) <= |Ahead(r.moments[i].targets, m)|
    {
      WaitingBound(ops, r, i, j, m, f);
    }
  }

  // ----- the broker itself

  lemma RunSnoc(ops: seq<Op>, r: Record, op: Op, round: Round, m: Moment, later: nat)
    requires SoundRun(ops, r) && Sound(m) && Acts(r.moments[|ops|], op, r.clocks[|ops|], round, m)
    requires later == Later(op, r.clocks[|ops|], round)
    ensures SoundRun(ops + [op], Record(r.moments + [m], r.clocks + [later], r.rounds + [round]))
  {
    hide Sound;
    hide Acts;
    hide Later;
    var n, ops', r' := |ops|, ops + [op], Record(r.moments + [m], r.clocks + [later], r.rounds + [round]);
    forall i | 0 <= i <= n ensures StepAt(ops', r', i) {
      assert i < n ==> StepAt(ops, r, i);
    }
  }

  lemma StartRun(m: Moment, clock: nat)
    requires Sound(m)
    ensures SoundRun([], Record([m], [clock], []))
  {
  }

  /**
   * Any run of the broker, from any state. The record says what every operation did: how far each cleaning got, and to
   * whom each publication was delivered.
   */
  method Run(b: Broker, ops: seq<Op>, clock: nat) returns (later: nat, ghost r: Record)
    requires b.Valid()
    modifies b, b.subs, b.shared
    ensures b.Valid() && SoundRun(ops, r)
    ensures r.moments[0] == old(Now(b)) && r.moments[|ops|] == Now(b)
    ensures r.clocks[0] == clock && r.clocks[|ops|] == later
    ensures Stamped(old(b.shared.targets), clock) ==> Stamped(b.shared.targets, later) && Bounded(ops, r)
    ensures HandlesMatch(old(b.subs.view), old(b.sessions)) ==> forall k | 0 <= k <= |ops| :: Follows(ops, r, k)
  {
    hide SubscriptionMap.Stands;
    hide HandlesMatch;
    hide Described;
    hide Known;
    hide Acts;
    hide Stamped;
    hide Bounded;
    hide RunOf;
    hide SoundRun;
    hide Follows;
    hide Later;
    later := clock;
    r := Record([Now(b)], [clock], []);
    StartRun(Now(b), clock);
    assert ops[..0] == [];
    for i := 0 to |ops|
      invariant b.Valid() && |r.moments| == |r.clocks| == i + 1 && SoundRun(ops[..i], r)
      invariant r.moments[0] == old(Now(b)) && r.clocks[0] == clock
      invariant r.moments[i] == Now(b) && r.clocks[i] == later
    {
      ghost var round;
      var ok, deliveries;
      ok, deliveries, later, round := Perform(b, ops[i], later);
      TakeSnoc(ops, i);
      RunSnoc(ops[..i], r, ops[i], round, Now(b), later);
      r := Record(r.moments + [Now(b)], r.clocks + [later], r.rounds + [round]);
    }
    assert ops[..|ops|] == ops;
    SoundIsRun(ops, r);
    RunLengths(ops, r);
    if Stamped(r.moments[0].targets, clock) {
      StampedThrough(ops, r, |ops|);
      RunBounded(ops, r);
    }
    if HandlesMatch(r.moments[0].view, r.moments[0].sessions) {
      forall k | 0 <= k <= |ops| ensures Follows(ops, r, k) {
        RunFollows(ops, r, k);
      }
    }
  }

  lemma SoundIsRun(ops: seq<Op>, r: Record)
    requires SoundRun(ops, r)
    ensures RunOf(ops, r)
  {
  }

  lemma RunLengths(ops: seq<Op>, r: Record)
    requires RunOf(ops, r)
    ensures |r.moments| == |r.clocks| == |ops| + 1 && |r.rounds| == |ops|
  {
  }

  /** A new broker meets all conditions from the start. */
  lemma NewBroker(table: SubTable, view: SubView)
    requires view.store == map[]
    ensures HandlesMatch(view, map[]) && Orderly(Plain({}, map[]), map[])
    ensures Stamped<Subscription>(map[], 0) && InStep(map[], map[])
  {
  }
}
