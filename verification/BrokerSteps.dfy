/**
 * One operation of the broker as a step from one state to the next, in every case; and when it leaves the handle sets
 * of the sessions exact.
 */
module BrokerSteps {
  import opened TopicFilter
  import opened TrieModel
  import opened TreeCounts
  import opened TrieHandles
  import opened SubscriptionMap
  import opened SharedTarget
  import opened FanOut
  import opened Sessions
  import opened SharedGroups

  datatype Op =
    | Open(s: Session)
    | Sub(s: Session, share: string, filter: Filter, noLocal: bool, qos: nat)
    | Unsub(s: Session, share: string, filter: Filter)
    | CleanUp(s: Session)
    | End(s: Session)
    | Send(source: Session, topic: seq<Level>, mayReceive: string -> bool)

  /** The whole state of the broker. */
  datatype Moment = Moment(table: SubTable, view: SubView, sessions: map<Session, set<Key>>,
    targets: Targets<Subscription>)

  ghost function Now(b: Broker): Moment
    reads b, b.subs, b.shared
  {
    Moment(b.subs.table, b.subs.view, b.sessions, b.shared.targets)
  }

  ghost predicate Sound(m: Moment) {
    Stands(m.table, m.view) && Described(m.view.store) && AllKnown(m.view, m.sessions)
  }

  /** An operation that a session or a publisher can ask for. */
  predicate Possible(sessions: set<Session>, op: Op) {
    match op
    case Open(s) => s !in sessions
    case Sub(s, _, _, _, _) => s in sessions
    case Unsub(s, _, _) => s in sessions
    case CleanUp(s) => s in sessions
    case End(s) => s in sessions
    case Send(_, _, _) => true
  }

  /**
   * What else an operation comes to: whether it met no invalid handle, the handles it erased at, and the messages it
   * delivered.
   */
  datatype Round = Round(ok: bool, done: set<Key>, deliveries: seq<(Session, Subscription)>, dispatch: Dispatch)

  const QUIET := Round(true, {}, [], Dispatch([], [], [], {}, [], []))

  ghost predicate Subscribed(m: Moment, sub: Subscription, clock: nat, m': Moment)
    requires sub.session in m.sessions
  {
    var s, e := sub.session, Entry(sub.filter, sub.session.client);
    var more := m.sessions[s := m.sessions[s] + {KeyOf(m'.view.tree, sub.filter)}];
    && m'.view.store == m.view.store[e := sub] && m'.sessions == (if e in m.view.store then m.sessions else more)
    && m'.targets == AfterSubscribe(m.targets, sub, clock)
  }

  ghost predicate Unsubscribed(m: Moment, s: Session, share: string, f: Filter, m': Moment)
    requires s in m.sessions
  {
    var less := m.sessions[s := m.sessions[s] - {KeyOf(m.view.tree, f)}];
    && m'.view.store == m.view.store - {Entry(f, s.client)}
    && m'.sessions == (if f in m.view.tree then less else m.sessions)
    && m'.targets == AfterUnsubscribe(m.targets, s.client, share, f)
  }

  /** The session erased its handles one after the other, all of them or until one was invalid. */
  ghost predicate Cleaned(m: Moment, s: Session, r: Round, m': Moment)
    requires s in m.sessions
  {
    var all := m.sessions[s];
    && r.done <= all && m'.view.store == ErasedAt(m.view, s.client, r.done)
    && m'.targets == (if r.ok then Gone(m.targets, s.client) else m.targets)
    && (if r.ok then r.done == all <= m.table.nodes.Keys else !(all - r.done <= m'.table.nodes.Keys))
    && (all <= HandlesOf(m.view, s.client) ==> r.ok)
  }

  ghost predicate Sent(m: Moment, op: Op, clock: nat, r: Round, m': Moment)
    requires op.Send?
  {
    && m' == m.(targets := m'.targets)
    && Fanned(m.view.store, m.targets, op.source, op.topic, clock, r.dispatch, m'.targets)
    && Delivered(r.deliveries, r.dispatch.direct, r.dispatch.chosen, op.mayReceive)
  }

  /** One operation. */
  ghost predicate Acts(m: Moment, op: Op, clock: nat, r: Round, m': Moment) {
    && Evolves(m.view, m'.view) && (!op.CleanUp? && !op.End? ==> r.ok)
    && if !Possible(m.sessions.Keys, op) then m' == m && r.ok
       else
         match op
         case Open(s) => m' == m.(sessions := m.sessions[s := {}])
         case Sub(s, share, f, noLocal, qos) => Subscribed(m, Subscription(s, share, f, noLocal, qos), clock, m')
         case Unsub(s, share, f) => Unsubscribed(m, s, share, f, m')
         case CleanUp(s) => Cleaned(m, s, r, m') && m'.sessions == if r.ok then m.sessions[s := {}] else m.sessions
         case End(s) => Cleaned(m, s, r, m') && m'.sessions == if r.ok then m.sessions - {s} else m.sessions
         case Send(_, _, _) => Sent(m, op, clock, r, m')
  }

  function Later(op: Op, clock: nat, r: Round): nat {
    clock + if op.Send? then |r.dispatch.from| else 1
  }

  /** One operation of the broker, whatever its state. */
  method Perform(b: Broker, op: Op, clock: nat)
    returns (ok: bool, deliveries: seq<(Session, Subscription)>, later: nat, ghost r: Round)
    requires b.Valid()
    modifies b, b.subs, b.shared
    ensures b.Valid() && Acts(old(Now(b)), op, clock, r, Now(b))
    ensures r.ok == ok && r.deliveries == deliveries && later == Later(op, clock, r)
  {
    hide Stands;
    hide Described;
    hide Known;
    hide Evolves;
    hide HandlesOf;
    hide ErasedAt;
    hide AfterSubscribe;
    hide AfterUnsubscribe;
    hide Gone;
    hide Fanned;
    hide Delivered;
    ok, deliveries, later, r := true, [], clock + 1, QUIET;
    EvolvesSelf(b.subs.view);
    match op {
      case Open(s) =>
        if s !in b.sessions {
          b.OpenSession(s);
        }
      case Sub(s, share, f, noLocal, qos) =>
        if s in b.sessions {
          var _ := b.Subscribe(s, share, f, noLocal, qos, clock);
        }
      case Unsub(s, share, f) =>
        if s in b.sessions {
          b.Unsubscribe(s, share, f);
        }
      case CleanUp(s) =>
        if s in b.sessions {
          ghost var done;
          ok, done := b.Clean(s);
          r := QUIET.(ok := ok, done := done);
        }
      case End(s) =>
        if s in b.sessions {
          ghost var done;
          ok, done := b.EndSession(s);
          r := QUIET.(ok := ok, done := done);
        }
      case Send(source, topic, mayReceive) =>
        ghost var d;
        var matched;
        matched, deliveries, later, d := b.Publish(source, topic, mayReceive, clock);
        r := Round(true, {}, deliveries, d);
    }
  }

  // ----- exact handle sets

  /** Every session's handles are exactly those its client id is stored under. */
  ghost predicate HandlesMatch(view: SubView, sessions: map<Session, set<Key>>) {
    forall s | s in sessions :: sessions[s] == HandlesOf(view, s.client)
  }

  /** The sessions and what they are subscribed to. */
  datatype Plain = Plain(sessions: set<Session>, store: Store)

  ghost function PlainOf(m: Moment): Plain {
    Plain(m.sessions.Keys, m.view.store)
  }

  ghost function Then(p: Plain, op: Op): Plain {
    if !Possible(p.sessions, op) then p
    else
      match op
      case Open(s) => p.(sessions := p.sessions + {s})
      case Sub(s, share, f, noLocal, qos) =>
        p.(store := p.store[Entry(f, s.client) := Subscription(s, share, f, noLocal, qos)])
      case Unsub(s, _, f) => p.(store := p.store - {Entry(f, s.client)})
      case CleanUp(s) => p.(store := WithoutClient(p.store, s.client))
      case End(s) => Plain(p.sessions - {s}, WithoutClient(p.store, s.client))
      case Send(_, _, _) => p
  }

  predicate HasEntries(store: Store, client: string) {
    exists e :: e in store && e.key == client
  }

  /** Another session under the same client id. */
  predicate Shares(sessions: set<Session>, s: Session) {
    exists o :: o in sessions && o != s && o.client == s.client
  }

  /**
   * An operation that opens a session for a client id with stored entries, or changes the filters stored for a client
   * id that another session has.
   */
  predicate Clashes(p: Plain, op: Op) {
    Possible(p.sessions, op) &&
    match op
    case Open(s) => HasEntries(p.store, s.client)
    case Sub(s, _, f, _, _) => Entry(f, s.client) !in p.store && Shares(p.sessions, s)
    case Unsub(s, _, f) => Entry(f, s.client) in p.store && Shares(p.sessions, s)
    case CleanUp(s) => HasEntries(p.store, s.client) && Shares(p.sessions, s)
    case End(s) => HasEntries(p.store, s.client) && Shares(p.sessions, s)
    case Send(_, _, _) => false
  }

  lemma NoHandles(view: SubView, client: string)
    ensures HandlesOf(view, client) == {} <==> !HasEntries(view.store, client)
  {
    if e :| e in view.store && e.key == client {
      assert KeyOf(view.tree, e.filter) in HandlesOf(view, client);
    }
  }

  lemma OpenExact(view: SubView, sessions: map<Session, set<Key>>, s: Session)
    requires HandlesMatch(view, sessions) && s !in sessions
    ensures HandlesMatch(view, sessions[s := {}]) <==> !HasEntries(view.store, s.client)
  {
    hide HandlesOf;
    hide HasEntries;
    NoHandles(view, s.client);
    var after := sessions[s := {}];
    assert s in after && after[s] == {};
  }

  /**
   * A step that adds to or takes from what one client id is stored under, and to the handles of one session: the sets
   * stay exact unless another session has the client id.
   */
  lemma ChangeExact(before: SubView, after: SubView, sessions: map<Session, set<Key>>, later: map<Session, set<Key>>,
                    s: Session)
    requires HandlesMatch(before, sessions) && s in sessions
    requires forall c | c != s.client :: HandlesOf(after, c) == HandlesOf(before, c)
    requires later - {s} == sessions - {s} && (s in later ==> later[s] == HandlesOf(after, s.client))
    ensures HandlesMatch(after, later)
       <==> HandlesOf(after, s.client) == HandlesOf(before, s.client) || !Shares(sessions.Keys, s)
  {
    hide HandlesOf;
    forall o | o != s ensures o in later <==> o in sessions
                      ensures o in later ==> later[o] == sessions[o] {
      assert o in later - {s} <==> o in sessions - {s};
      assert o in sessions ==> (sessions - {s})[o] == sessions[o];
      assert o in later ==> (later - {s})[o] == later[o];
    }
    if o :| o in sessions.Keys && o != s && o.client == s.client {
      assert o in later && later[o] == HandlesOf(before, s.client);
    }
  }

  lemma SubscribedExact(m: Moment, sub: Subscription, clock: nat, m': Moment)
    requires Sound(m) && Sound(m') && Evolves(m.view, m'.view) && HandlesMatch(m.view, m.sessions)
    requires sub.session in m.sessions && Subscribed(m, sub, clock, m')
    ensures HandlesMatch(m'.view, m'.sessions)
       <==> Entry(sub.filter, sub.session.client) in m.view.store || !Shares(m.sessions.Keys, sub.session)
  {
    hide Stands;
    hide Described;
    hide Known;
    hide HandlesOf;
    hide KeyOf;
    hide Evolves;
    hide Shares;
    hide AfterSubscribe;
    var s, f := sub.session, sub.filter;
    var h, e := KeyOf(m'.view.tree, f), Entry(f, s.client);
    forall c ensures HandlesOf(m'.view, c) == HandlesOf(m.view, c) + if c == s.client then {h} else {} {
      HandlesAfterInsert(m.table, m.view, m'.table, m'.view, f, s.client, sub, c);
    }
    NewHandle(m.table, m.view, m'.table, m'.view, e);
    ChangeExact(m.view, m'.view, m.sessions, m'.sessions, s);
  }

  /** The handle of an entry is new to its client exactly when the entry is. */
  lemma NewHandle(table0: SubTable, before: SubView, table: SubTable, after: SubView, e: Entry<string>)
    requires Stands(table0, before) && Stands(table, after) && Evolves(before, after)
    requires before.store.Keys <= after.store.Keys && e in after.store
    ensures KeyOf(after.tree, e.filter) in HandlesOf(before, e.key) <==> e in before.store
  {
    hide Stands;
    hide KeyOf;
    hide Evolves;
    StoredInTree(table, after, e);
    if e in before.store {
      KeptHandle(table0, before, table, after, e);
    }
    if d :| d in before.store && d.key == e.key && KeyOf(before.tree, d.filter) == KeyOf(after.tree, e.filter) {
      KeptHandle(table0, before, table, after, d);
      DistinctHandle(table, after, d, e.filter);
    }
  }

  lemma UnsubscribedExact(m: Moment, s: Session, share: string, f: Filter, m': Moment)
    requires Sound(m) && Sound(m') && Evolves(m.view, m'.view) && HandlesMatch(m.view, m.sessions)
    requires s in m.sessions && Unsubscribed(m, s, share, f, m')
    ensures HandlesMatch(m'.view, m'.sessions) <==> Entry(f, s.client) !in m.view.store || !Shares(m.sessions.Keys, s)
  {
    hide Stands;
    hide Described;
    hide Known;
    hide HandlesOf;
    hide KeyOf;
    hide Evolves;
    hide Shares;
    hide AfterUnsubscribe;
    var h, e := KeyOf(m.view.tree, f), Entry(f, s.client);
    if f in m.view.tree {
      forall c ensures HandlesOf(m'.view, c) == HandlesOf(m.view, c) - if c == s.client then {h} else {} {
        HandlesAfterErase(m.table, m.view, m'.table, m'.view, f, s.client, c);
      }
      OldHandle(m.table, m.view, e);
      ChangeExact(m.view, m'.view, m.sessions, m'.sessions, s);
    } else {
      if e in m.view.store {
        StoredInTree(m.table, m.view, e);
      }
      assert m'.view.store == m.view.store;
      forall c ensures HandlesOf(m'.view, c) == HandlesOf(m.view, c) {
        SameHandles(m.table, m.view, m'.table, m'.view, c);
      }
    }
  }

  lemma OldHandle(table: SubTable, view: SubView, e: Entry<string>)
    requires Stands(table, view) && e.filter in view.tree
    ensures KeyOf(view.tree, e.filter) in HandlesOf(view, e.key) <==> e in view.store
  {
    hide Stands;
    hide KeyOf;
    if d :| d in view.store && d.key == e.key && KeyOf(view.tree, d.filter) == KeyOf(view.tree, e.filter) {
      DistinctHandle(table, view, d, e.filter);
    }
  }

  /** Handles of a client whose entries are the same before and after. */
  lemma SameHandles(table0: SubTable, before: SubView, table: SubTable, after: SubView, client: string)
    requires Stands(table0, before) && Stands(table, after) && Evolves(before, after)
    requires forall e: Entry<string> | e.key == client :: e in after.store <==> e in before.store
    ensures HandlesOf(after, client) == HandlesOf(before, client)
  {
    hide Stands;
    hide KeyOf;
    hide Evolves;
    forall e | e in before.store && e.key == client
      ensures KeyOf(after.tree, e.filter) == KeyOf(before.tree, e.filter)
    {
      KeptHandle(table0, before, table, after, e);
    }
  }

  /** Erasing at all handles that the client is stored under takes out the client. */
  lemma AllErased(table: SubTable, view: SubView, client: string)
    requires Stands(table, view)
    ensures ErasedAt(view, client, HandlesOf(view, client)) == WithoutClient(view.store, client)
  {
    hide Stands;
    hide KeyOf;
    var all := HandlesOf(view, client);
    forall e | e in view.store ensures Reached(view, client, all, e) <==> e.key == client {
      if e.key == client {
        var h := KeyOf(view.tree, e.filter);
        assert h in all;
        HandleResolves(table, view, client, h);
        StoredInTree(table, view, e);
        DistinctHandle(table, view, e, FilterOf(view, h));
      }
    }
  }

  lemma CleanedExact(m: Moment, s: Session, r: Round, m': Moment)
    requires Sound(m) && Sound(m') && Evolves(m.view, m'.view) && HandlesMatch(m.view, m.sessions)
    requires s in m.sessions && Cleaned(m, s, r, m')
    requires r.ok ==> m'.sessions == m.sessions[s := {}] || m'.sessions == m.sessions - {s}
    ensures r.ok && m'.view.store == WithoutClient(m.view.store, s.client)
    ensures HandlesMatch(m'.view, m'.sessions)
       <==> !HasEntries(m.view.store, s.client) || !Shares(m.sessions.Keys, s)
  {
    hide Stands;
    hide Described;
    hide Known;
    hide HandlesOf;
    hide Evolves;
    hide Shares;
    hide HasEntries;
    hide Gone;
    hide ErasedAt;
    AllErased(m.table, m.view, s.client);
    forall c | c != s.client ensures HandlesOf(m'.view, c) == HandlesOf(m.view, c) {
      SameHandles(m.table, m.view, m'.table, m'.view, c);
    }
    NoHandles(m.view, s.client);
    NoHandles(m'.view, s.client);
    NoneOf(m.view.store, s.client);
    assert m'.sessions - {s} == m.sessions - {s};
    ChangeExact(m.view, m'.view, m.sessions, m'.sessions, s);
  }

  lemma NoneOf(store: Store, client: string)
    ensures !HasEntries(WithoutClient(store, client), client)
  {
  }

  /**
   * From exact handle sets every operation does what it says to the plain history and meets no invalid handle, and the
   * sets stay exact exactly when it does not clash.
   */
  lemma StepExact(m: Moment, op: Op, clock: nat, r: Round, m': Moment)
    requires Sound(m) && Sound(m') && HandlesMatch(m.view, m.sessions) && Acts(m, op, clock, r, m')
    ensures r.ok && PlainOf(m') == Then(PlainOf(m), op)
    ensures HandlesMatch(m'.view, m'.sessions) <==> !Clashes(PlainOf(m), op)
  {
    hide Stands;
    hide Described;
    hide Known;
    hide HandlesMatch;
    hide Evolves;
    hide Shares;
    hide HasEntries;
    hide WithoutClient;
    if Possible(m.sessions.Keys, op) {
      match op
      case Open(s) =>
        OpenExact(m.view, m.sessions, s);
        assert m'.sessions.Keys == m.sessions.Keys + {s};
      case Sub(s, share, f, noLocal, qos) =>
        SubscribedExact(m, Subscription(s, share, f, noLocal, qos), clock, m');
        assert m'.sessions.Keys == m.sessions.Keys;
      case Unsub(s, share, f) =>
        UnsubscribedExact(m, s, share, f, m');
        assert m'.sessions.Keys == m.sessions.Keys;
      case CleanUp(s) =>
        CleanedExact(m, s, r, m');
        assert m'.sessions.Keys == m.sessions.Keys;
      case End(s) =>
        CleanedExact(m, s, r, m');
        assert m'.sessions.Keys == m.sessions.Keys - {s};
      case Send(_, _, _) =>
    }
  }

  // ----- what exact handle sets are good for

  /** What an operation that meets no invalid handle does to the share groups. */
  ghost predicate Groups(p: Plain, op: Op, clock: nat, t0: Targets<Subscription>, t: Targets<Subscription>) {
    if !Possible(p.sessions, op) then t == t0
    else
      match op
      case Open(_) => t == t0
      case Sub(s, share, f, noLocal, qos) =>
        t == AfterSubscribe(t0, Subscription(s, share, f, noLocal, qos), clock)
      case Unsub(s, share, f) => t == AfterUnsubscribe(t0, s.client, share, f)
      case CleanUp(s) => t == Gone(t0, s.client)
      case End(s) => t == Gone(t0, s.client)
      case Send(_, _, _) => SameServing(t0, t)
  }

  lemma ActsGroups(m: Moment, op: Op, clock: nat, r: Round, m': Moment)
    requires Acts(m, op, clock, r, m') && r.ok
    ensures Groups(PlainOf(m), op, clock, m.targets, m'.targets)
  {
    hide AfterSubscribe;
    hide AfterUnsubscribe;
    hide Gone;
    hide SameServing;
    hide ErasedAt;
    hide Evolves;
  }

  /** Every subscription is stored for an open session, and every place in a share group is held for one. */
  ghost predicate OwnersOpen(p: Plain, targets: Targets<Subscription>) {
    && (forall e | e in p.store :: p.store[e].session in p.sessions)
    && (forall m | m in targets :: Session(targets[m].user, m.client) in p.sessions)
  }

  /** A client id with stored entries has no two sessions. */
  ghost predicate OneSession(p: Plain) {
    forall s, o | s in p.sessions && o in p.sessions && s.client == o.client && HasEntries(p.store, s.client) :: s == o
  }

  /** A stored shared subscription has its client among the members of its group. */
  ghost predicate Manned(store: Store, targets: Targets<Subscription>) {
    forall e | e in store && store[e].share != "" ::
      Serves(targets, Member(e.key, store[e].share), store[e].filter)
  }

  ghost predicate Orderly(p: Plain, targets: Targets<Subscription>) {
    Described(p.store) && OwnersOpen(p, targets) && OneSession(p) && Manned(p.store, targets)
  }

  lemma OwnersStay(p: Plain, op: Op, clock: nat, t0: Targets<Subscription>, t: Targets<Subscription>)
    requires Described(p.store) && OwnersOpen(p, t0) && Groups(p, op, clock, t0, t)
    ensures OwnersOpen(Then(p, op), t)
  {
    hide HasEntries;
  }

  lemma OneSessionStays(p: Plain, op: Op)
    requires OneSession(p) && !Clashes(p, op)
    ensures OneSession(Then(p, op))
  {
    var p' := Then(p, op);
    forall s, o | s in p'.sessions && o in p'.sessions && s.client == o.client && HasEntries(p'.store, s.client)
      ensures s == o
    {
      var e :| e in p'.store && e.key == s.client;
      if op.Sub? && Possible(p.sessions, op) && e == Entry(op.filter, op.s.client) && e !in p.store {
        assert !Shares(p.sessions, op.s);
      } else {
        assert e in p.store && HasEntries(p.store, s.client);
        assert op.Open? && Possible(p.sessions, op) ==> op.s.client != s.client;
      }
    }
  }

  lemma MannedStays(p: Plain, op: Op, clock: nat, t0: Targets<Subscription>, t: Targets<Subscription>)
    requires Described(p.store) && Manned(p.store, t0) && Groups(p, op, clock, t0, t)
    ensures Manned(Then(p, op).store, t)
  {
    var store := Then(p, op).store;
    forall e | e in store && store[e].share != "" ensures Serves(t, Member(e.key, store[e].share), store[e].filter) {
      var m, f := Member(e.key, store[e].share), store[e].filter;
      assert e in p.store && store[e] == p.store[e] ==> Serves(t0, m, f);
      match op
      case Open(_) =>
      case Sub(s, share, g, noLocal, qos) =>
      case Unsub(s, share, g) =>
        if Possible(p.sessions, op) {
          assert e.filter != g || e.key != s.client;
          LeftServes(t0, s.client, share, g, m, f);
        }
      case CleanUp(_) =>
      case End(_) =>
      case Send(_, _, _) =>
        ServesStill(t0, t, m, f);
    }
  }

  lemma DescribedStays(p: Plain, op: Op)
    requires Described(p.store)
    ensures Described(Then(p, op).store)
  {
  }

  /**
   * An operation that does not clash keeps all subscriptions with open sessions, one for each client id that has any,
   * and the members of share groups in their places.
   */
  lemma OrderlyStays(p: Plain, op: Op, clock: nat, t0: Targets<Subscription>, t: Targets<Subscription>)
    requires Orderly(p, t0) && Groups(p, op, clock, t0, t) && !Clashes(p, op)
    ensures Orderly(Then(p, op), t)
  {
    DescribedStays(p, op);
    OwnersStay(p, op, clock, t0, t);
    OneSessionStays(p, op);
    MannedStays(p, op, clock, t0, t);
  }

  /** Then nobody who is addressed is left out for want of a member. */
  lemma MannedIsStaffed(store: Store, targets: Targets<Subscription>, topic: seq<Level>, g: (string, Filter))
    requires Described(store) && Manned(store, targets) && g in GroupsMatched(store, topic)
    ensures Staffed(targets, g.0, g.1)
  {
    var e :| e in store && store[e].share != "" && Matches(e.filter, topic) && g == (store[e].share, store[e].filter);
    assert Serves(targets, Member(e.key, g.0), g.1);
  }

  // ----- the groups

  /** An operation that changes a shared subscription, joins another session's place, or leaves the wrong group. */
  ghost predicate Breaks(p: Plain, op: Op) {
    Possible(p.sessions, op) &&
    match op
    case Sub(s, share, f, noLocal, qos) =>
      var sub := Subscription(s, share, f, noLocal, qos);
      ReplacesShared(p.store, sub) || JoinsOther(p.store, sub)
    case Unsub(s, share, f) => WrongGroup(p.store, s.client, share, f)
    case _ => false
  }

  lemma GroupStepExact(p: Plain, op: Op, clock: nat, t0: Targets<Subscription>, t: Targets<Subscription>)
    requires InStep(p.store, t0) && Groups(p, op, clock, t0, t)
    ensures InStep(Then(p, op).store, t) <==> !Breaks(p, op)
  {
    hide InStep;
    hide AfterSubscribe;
    hide AfterUnsubscribe;
    hide Gone;
    hide WithoutClient;
    hide SameServing;
    match op
    case Open(_) =>
    case Sub(s, share, f, noLocal, qos) =>
      if Possible(p.sessions, op) {
        SubscribeExact(p.store, t0, Subscription(s, share, f, noLocal, qos), clock);
      }
    case Unsub(s, share, f) =>
      if Possible(p.sessions, op) {
        UnsubscribeExact(p.store, t0, s.client, share, f);
      }
    case CleanUp(s) =>
      CleanKeeps(p.store, t0, s.client);
    case End(s) =>
      CleanKeeps(p.store, t0, s.client);
    case Send(_, _, _) =>
      ServingKeeps(p.store, t0, t);
  }

  // ----- two users under one client id

  /** A handle of an entry whose filter has nothing stored at or below it any more is invalid. */
  lemma NothingResolves(table: SubTable, view: SubView, h: Key)
    requires Stands(table, view) && view.store == map[] && h != ROOT_KEY
    ensures h !in table.nodes
  {
    assert view.store.Keys == {};
    EmptyCount<string>(FilterOf(view, h));
    if h in table.nodes {
      HandlePath(table.nodes, view.tree, view.denote, table.nextNodeId, h);
    }
  }

  /**
   * Users "u" and "v" both use client id "c". The second subscription to "t" replaces the first, and when it is given
   * up the node goes with it: cleaning the first session then meets an invalid handle.
   */
  method SecondUser() returns (first: bool, second: bool, ok: bool)
    ensures first && !second && !ok
  {
    hide Stands;
    hide Evolves;
    hide Described;
    hide Known;
    var f: Filter := [Name("t")];
    var u, v := Session("u", "c"), Session("v", "c");
    var b := new Broker();
    b.OpenSession(u);
    b.OpenSession(v);
    first := b.Subscribe(u, "", f, false, 0, 0);
    ghost var h := KeyOf(b.subs.view.tree, f);
    assert Entry(f, "c") in b.subs.view.store && h in HandlesOf(b.subs.view, "c");
    HandleResolves(b.subs.table, b.subs.view, "c", h);
    second := b.Subscribe(v, "", f, false, 0, 1);
    b.Unsubscribe(v, "", f);
    assert b.subs.view.store == map[];
    assert h in b.sessions[u];
    NothingResolves(b.subs.table, b.subs.view, h);
    ghost var done;
    ok, done := b.Clean(u);
  }

  /** If the second session ends instead, its subscription stays behind without a session. */
  method LeftOver() returns (b: Broker, ok: bool)
    ensures b.Valid() && ok && !OwnersOpen(PlainOf(Now(b)), b.shared.targets)
  {
    hide Stands;
    hide Evolves;
    hide Described;
    hide Known;
    var f: Filter := [Name("t")];
    var u, v := Session("u", "c"), Session("v", "c");
    b := new Broker();
    b.OpenSession(u);
    b.OpenSession(v);
    var first := b.Subscribe(u, "", f, false, 0, 0);
    var second := b.Subscribe(v, "", f, false, 0, 1);
    ghost var done;
    ok, done := b.EndSession(v);
    assert b.subs.view.store[Entry(f, "c")].session == v;
  }
}
