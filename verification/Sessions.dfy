/** Sessions subscribing, unsubscribing, being cleaned and ending, and publications to what they subscribed to. */
module Sessions {
  import opened Wrappers
  import opened TopicFilter
  import opened TrieModel
  import opened TrieHandles
  import opened TreeCounts
  import opened TrieMatch
  import opened EntryMatch
  import opened SubscriptionMap
  import opened SubscriptionRuns
  import opened SharedTarget
  import opened FanOut

  type SubView = View<string, Subscription>
  type SubTable = Table<string, Subscription>

  // ----- the handles a client is stored under

  ghost function HandlesOf(view: SubView, client: string): set<Key> {
    set e | e in view.store && e.key == client :: KeyOf(view.tree, e.filter)
  }

  lemma StoredInTree(table: SubTable, view: SubView, e: Entry<string>)
    requires Stands(table, view) && e in view.store
    ensures e.filter in view.tree
  {
    CountPositive(view.store.Keys, e, e.filter);
  }

  /** Entries stored before and after a step keep their handle. */
  lemma KeptHandle(table0: SubTable, before: SubView, table: SubTable, after: SubView, e: Entry<string>)
    requires Stands(table0, before) && Stands(table, after) && Evolves(before, after)
    requires e in before.store && e in after.store
    ensures KeyOf(after.tree, e.filter) == KeyOf(before.tree, e.filter)
  {
    StoredInTree(table0, before, e);
    StoredInTree(table, after, e);
    StableKey(table0, before, table, after, e.filter);
  }

  lemma HandlesAfterInsert(table0: SubTable, before: SubView, table: SubTable, after: SubView, f: Filter, k: string,
                           v: Subscription, client: string)
    requires Stands(table0, before) && Stands(table, after) && Evolves(before, after)
    requires after.store == before.store[Entry(f, k) := v]
    ensures HandlesOf(after, client) == HandlesOf(before, client) + if client == k then {KeyOf(after.tree, f)} else {}
  {
    hide Stands;
    hide KeyOf;
    var added := if client == k then {KeyOf(after.tree, f)} else {};
    forall e | e in before.store ensures KeyOf(after.tree, e.filter) == KeyOf(before.tree, e.filter) {
      KeptHandle(table0, before, table, after, e);
    }
    forall h | h in HandlesOf(after, client) ensures h in HandlesOf(before, client) + added {
      var e :| e in after.store && e.key == client && h == KeyOf(after.tree, e.filter);
      assert e == Entry(f, k) || e in before.store;
    }
    forall h | h in HandlesOf(before, client) + added ensures h in HandlesOf(after, client) {
      if h in HandlesOf(before, client) {
        var e :| e in before.store && e.key == client && h == KeyOf(before.tree, e.filter);
        assert e in after.store;
      } else {
        assert Entry(f, k) in after.store;
      }
    }
  }

  lemma DistinctHandle(table: SubTable, view: SubView, e: Entry<string>, f: Path)
    requires Stands(table, view) && e in view.store && f in view.tree
    ensures KeyOf(view.tree, e.filter) == KeyOf(view.tree, f) <==> e.filter == f
  {
    StoredInTree(table, view, e);
    KeyInjective(table.nodes, view.tree, view.denote, table.nextNodeId, e.filter, f);
  }

  lemma HandlesAfterErase(table0: SubTable, before: SubView, table: SubTable, after: SubView, f: Path, k: string,
                          client: string)
    requires Stands(table0, before) && Stands(table, after) && Evolves(before, after) && f in before.tree
    requires after.store == before.store - {Entry(f, k)}
    ensures HandlesOf(after, client) == HandlesOf(before, client) - if client == k then {KeyOf(before.tree, f)} else {}
  {
    hide Stands;
    hide KeyOf;
    var gone := if client == k then {KeyOf(before.tree, f)} else {};
    forall e | e in after.store ensures KeyOf(after.tree, e.filter) == KeyOf(before.tree, e.filter) {
      KeptHandle(table0, before, table, after, e);
    }
    forall e | e in before.store ensures KeyOf(before.tree, e.filter) == KeyOf(before.tree, f) <==> e.filter == f {
      DistinctHandle(table0, before, e, f);
    }
    forall h | h in HandlesOf(after, client) ensures h in HandlesOf(before, client) - gone {
      var e :| e in after.store && e.key == client && h == KeyOf(after.tree, e.filter);
      assert e in before.store && e != Entry(f, k);
    }
    forall h | h in HandlesOf(before, client) - gone ensures h in HandlesOf(after, client) {
      var e :| e in before.store && e.key == client && h == KeyOf(before.tree, e.filter);
      assert e != Entry(f, k);
      assert e in after.store;
    }
  }

  /** A handle of the client resolves, to a filter the client is stored under. */
  lemma HandleResolves(table: SubTable, view: SubView, client: string, h: Key)
    requires Stands(table, view) && h in HandlesOf(view, client)
    ensures h in table.nodes && h != ROOT_KEY && Entry(FilterOf(view, h), client) in view.store
    ensures FilterOf(view, h) in view.tree && KeyOf(view.tree, FilterOf(view, h)) == h
  {
    var e :| e in view.store && e.key == client && h == KeyOf(view.tree, e.filter);
    StoredInTree(table, view, e);
    PathHandle(table.nodes, view.tree, view.denote, table.nextNodeId, e.filter);
  }

  // ----- the broker

  /** Every entry describes itself. */
  ghost predicate Described(store: Store) {
    forall e | e in store :: e.filter != [] && store[e].session.client == e.key && store[e].filter == e.filter
  }

  /** The handles were handed out at some time, so that they stand for a filter. */
  ghost predicate Known(view: SubView, handles: set<Key>) {
    forall h | h in handles :: h.parent in view.denote
  }

  ghost predicate AllKnown(view: SubView, sessions: map<Session, set<Key>>) {
    forall s | s in sessions :: Known(view, sessions[s])
  }

  lemma KnownLater(before: SubView, after: SubView, sessions: map<Session, set<Key>>)
    requires AllKnown(before, sessions) && Evolves(before, after)
    ensures AllKnown(after, sessions)
  {
  }

  lemma HandleKnown(table: SubTable, view: SubView, h: Key)
    requires Stands(table, view) && h in table.nodes && h != ROOT_KEY
    ensures Known(view, {h})
  {
    assert KnownKey(view.tree, view.denote, h);
  }

  ghost function AfterSubscribe(targets: Targets<Subscription>, sub: Subscription, now: nat): Targets<Subscription> {
    var s := sub.session;
    if sub.share != "" then Joined(targets, Member(s.client, sub.share), s.user, sub.filter, sub, now) else targets
  }

  ghost function AfterUnsubscribe(targets: Targets<Subscription>, client: string, share: string,
                                  f: Filter): Targets<Subscription> {
    if share != "" then Left(targets, Member(client, share), f) else targets
  }

  /** The entry of the client that one of the handles stands for. */
  ghost predicate Reached(view: SubView, client: string, handles: set<Key>, e: Entry<string>) {
    e.key == client && exists h :: h in handles && FilterOf(view, h) == e.filter
  }

  /** What is left of the store when the client is erased at every one of the handles. */
  ghost function ErasedAt(view: SubView, client: string, handles: set<Key>): Store {
    map e | e in view.store && !Reached(view, client, handles, e) :: view.store[e]
  }

  /**
   * The sessions by user name and client id with their handle sets, the subscription map and the shared targets, which
   * both know a session by its client id alone.
   */
  class Broker {
    const subs: MultipleSubscriptionMap<string, Subscription>
    const shared: SharedTarget<Subscription>
    var sessions: map<Session, set<Key>>

    ghost predicate Valid()
      reads this, subs
    {
      subs.Valid() && Described(subs.view.store) && AllKnown(subs.view, sessions)
    }

    constructor ()
      ensures Valid() && fresh(subs) && fresh(shared)
      ensures sessions == map[] && subs.view.store == map[] && shared.targets == map[]
    {
      subs := new MultipleSubscriptionMap();
      shared := new SharedTarget();
      sessions := map[];
    }

    /** A new session, whoever else uses the client id. */
    method OpenSession(s: Session)
      requires Valid() && s !in sessions
      modifies this
      ensures Valid() && sessions == old(sessions)[s := {}]
    {
      hide Stands;
      hide Described;
      sessions := sessions[s := {}];
    }

    /** Stores the subscription, and its handle when the entry is new; a shared one joins its group first. */
    method Subscribe(s: Session, share: string, f: Filter, noLocal: bool, qos: nat, now: nat) returns (isNew: bool)
      requires Valid() && s in sessions
      modifies this, subs, shared
      ensures Valid() && Evolves(old(subs.view), subs.view)
      ensures subs.view.store == old(subs.view.store)[Entry(f, s.client) := Subscription(s, share, f, noLocal, qos)]
      ensures isNew <==> Entry(f, s.client) !in old(subs.view.store)
      ensures var h := KeyOf(subs.view.tree, f);
              sessions == if isNew then old(sessions)[s := old(sessions)[s] + {h}] else old(sessions)
      ensures shared.targets == AfterSubscribe(old(shared.targets), Subscription(s, share, f, noLocal, qos), now)
    {
      hide Stands;
      hide Evolves;
      hide Known;
      hide Joined;
      var sub := Subscription(s, share, f, noLocal, qos);
      if share != "" {
        shared.Insert(share, f, sub, s, now);
      }
      ghost var before := subs.view;
      var h;
      h, isNew := subs.InsertOrAssign(f, s.client, sub);
      HandleIs(subs.table, subs.view, h, f);
      KnownLater(before, subs.view, sessions);
      if isNew {
        HandleKnown(subs.table, subs.view, h);
        MoreKnown(subs.view, sessions, s, h);
        sessions := sessions[s := sessions[s] + {h}];
      }
    }

    /** Removes the client's subscription, and the handle from this session; a shared one leaves its group first. */
    method Unsubscribe(s: Session, share: string, f: Filter)
      requires Valid() && s in sessions
      modifies this, subs, shared
      ensures Valid() && Evolves(old(subs.view), subs.view)
      ensures subs.view.store == old(subs.view.store) - {Entry(f, s.client)}
      ensures var h := KeyOf(old(subs.view).tree, f);
              sessions == if f in old(subs.view).tree then old(sessions)[s := old(sessions)[s] - {h}] else old(sessions)
      ensures shared.targets == AfterUnsubscribe(old(shared.targets), s.client, share, f)
    {
      hide Stands;
      hide Evolves;
      hide Known;
      hide Left;
      if share != "" {
        shared.Erase(share, f, s.client);
      }
      ghost var before := subs.view;
      var h := subs.Lookup(f);
      FoundInTree(subs.table, subs.view, f);
      if h.Some? {
        HandleIs(subs.table, subs.view, h.value, f);
        LessKnown(before, sessions, s, h.value);
        sessions := sessions[s := sessions[s] - {h.value}];
        var _ := subs.EraseAtHandle(h.value, s.client);
        KnownLater(before, subs.view, sessions);
      } else {
        NotStored(subs.view.store, Entry(f, s.client));
        EvolvesSelf(subs.view);
      }
    }

    /**
     * Removes the client from the subscription map through the handles of the session, in any order; false where the
     * code throws at an invalid handle, which leaves the handles that were not reached yet. Never thrown while the
     * client is stored under all of them, and certain once the node of one of them is gone.
     */
    method UnsubscribeAll(s: Session) returns (ok: bool, ghost done: set<Key>)
      requires Valid() && s in sessions
      modifies this, subs
      ensures Valid() && Evolves(old(subs.view), subs.view)
      ensures done <= old(sessions)[s] && subs.view.store == ErasedAt(old(subs.view), s.client, done)
      ensures sessions == if ok then old(sessions)[s := {}] else old(sessions)
      ensures ok ==> done == old(sessions)[s] && done <= old(subs.table).nodes.Keys
      ensures !ok ==> !(old(sessions)[s] - done <= subs.table.nodes.Keys)
      ensures old(sessions)[s] <= HandlesOf(old(subs.view), s.client) ==> ok
    {
      hide Stands;
      hide Evolves;
      hide Known;
      hide HandlesOf;
      hide Described;
      hide ErasedAt;
      ghost var table0, view0, all := subs.table, subs.view, sessions[s];
      var rest := sessions[s];
      done := {};
      EvolvesSelf(view0);
      NothingErased(view0, s.client);
      while rest != {}
        invariant sessions == old(sessions) && rest <= all && done == all - rest
        invariant subs.Valid() && Evolves(view0, subs.view) && subs.view.store == ErasedAt(view0, s.client, done)
        invariant done <= table0.nodes.Keys
        invariant all <= HandlesOf(view0, s.client) ==> rest <= HandlesOf(subs.view, s.client)
      {
        var h :| h in rest;
        ghost var table1, before := subs.table, subs.view;
        var erased := subs.EraseAtHandle(h, s.client);
        if erased.None? {
          NotExact(table1, before, s.client, rest, h);
          KnownLater(view0, subs.view, sessions);
          ErasedDescribed(view0, s.client, done);
          return false, done;
        }
        KnownHandle(view0, sessions, s, h);
        ErasedNext(table0, view0, table1, before, subs.table, subs.view, s.client, done, h);
        RestHandles(table1, before, subs.table, subs.view, s.client, rest, h);
        rest, done := rest - {h}, done + {h};
      }
      KnownLater(view0, subs.view, sessions);
      ErasedDescribed(view0, s.client, done);
      NoneKnown(subs.view, sessions, s);
      sessions := sessions[s := {}];
      ok := true;
    }

    /** The subscription part of cleaning a session: out of the subscription map, then out of every share group. */
    method Clean(s: Session) returns (ok: bool, ghost done: set<Key>)
      requires Valid() && s in sessions
      modifies this, subs, shared
      ensures Valid() && Evolves(old(subs.view), subs.view)
      ensures done <= old(sessions)[s] && subs.view.store == ErasedAt(old(subs.view), s.client, done)
      ensures sessions == if ok then old(sessions)[s := {}] else old(sessions)
      ensures shared.targets == if ok then Gone(old(shared.targets), s.client) else old(shared.targets)
      ensures ok ==> done == old(sessions)[s] && done <= old(subs.table).nodes.Keys
      ensures !ok ==> !(old(sessions)[s] - done <= subs.table.nodes.Keys)
      ensures old(sessions)[s] <= HandlesOf(old(subs.view), s.client) ==> ok
    {
      hide *;
      ok, done := UnsubscribeAll(s);
      if ok {
        shared.EraseClient(s.client);
      }
    }

    /** The end of a session, on expiry or when its connection closes: its destructor cleans it. */
    method EndSession(s: Session) returns (ok: bool, ghost done: set<Key>)
      requires Valid() && s in sessions
      modifies this, subs, shared
      ensures Valid() && Evolves(old(subs.view), subs.view)
      ensures done <= old(sessions)[s] && subs.view.store == ErasedAt(old(subs.view), s.client, done)
      ensures sessions == if ok then old(sessions) - {s} else old(sessions)
      ensures shared.targets == if ok then Gone(old(shared.targets), s.client) else old(shared.targets)
      ensures ok ==> done == old(sessions)[s] && done <= old(subs.table).nodes.Keys
      ensures !ok ==> !(old(sessions)[s] - done <= subs.table.nodes.Keys)
      ensures old(sessions)[s] <= HandlesOf(old(subs.view), s.client) ==> ok
    {
      hide Stands;
      hide Evolves;
      hide Known;
      hide HandlesOf;
      hide Described;
      hide ErasedAt;
      ok, done := Clean(s);
      if ok {
        sessions := sessions - {s};
        assert sessions == old(sessions) - {s};
      }
    }

    /**
     * Delivers a publication to those addressed whose user may receive: each matching non-shared subscription as often
     * as its filter is met, and each share group once per filter, through a member that holds the filter.
     */
    method Publish(source: Session, topic: seq<Level>, mayReceive: string -> bool, clock: nat)
      returns (matched: bool, deliveries: seq<(Session, Subscription)>, later: nat, ghost d: Dispatch)
      requires Valid()
      modifies shared
      ensures Valid() && Fanned(subs.view.store, old(shared.targets), source, topic, clock, d, shared.targets)
      ensures DirectFields(subs.view.store, source, topic, d)
              && GroupFields(subs.view.store, old(shared.targets), topic, d)
      ensures Delivered(deliveries, d.direct, d.chosen, mayReceive) && (matched <==> deliveries != [])
      ensures later == clock + |d.from|
    {
      hide Stands;
      hide Known;
      hide DirectSoFar;
      hide ChosenSoFar;
      hide SameServing;
      hide CallsMatching;
      hide PickedInTurn;
      hide Touched;
      hide IsPick;
      hide ReadSoFar;
      hide GroupsMatched;
      hide Delivered;
      hide Called;
      hide Single;
      hide Matches;
      hide Staffed;
      hide Holder;
      hide DirectFields;
      hide GroupFields;
      var calls;
      ghost var from;
      calls, from := subs.Find(topic);
      ghost var store, targets0 := subs.view.store, shared.targets;
      matched, deliveries, later := false, [], clock + |calls|;
      ghost var direct, at, chosen := [], [], [];
      ghost var times: seq<nat> := [];
      var sent: set<(string, Filter)> := {};
      NothingSoFar(store, from, source, targets0);
      ServingNow(targets0);
      NonePicked(targets0);
      NothingRead(clock);
      NothingDelivered(mayReceive);
      for i := 0 to |calls|
        invariant SameServing(targets0, shared.targets) && PickedInTurn(targets0, chosen, times, shared.targets)
        invariant ReadSoFar(times, clock, i)
        invariant DirectSoFar(store, from, i, source, direct, at)
        invariant ChosenSoFar(store, from, i, targets0, chosen, sent)
        invariant Delivered(deliveries, direct, chosen, mayReceive) && (matched <==> deliveries != [])
      {
        var sub := calls[i].1;
        DirectStep(store, from, i, source, direct, at);
        ReadNext(times, clock, i);
        if sub.share == "" {
          ChosenSkip(store, from, i, targets0, chosen, sent);
          if !(sub.noLocal && sub.session.client == source.client) {
            DeliveredDirect(deliveries, direct, chosen, sub, mayReceive);
            direct, at := direct + [sub], at + [from[i]];
            assert deliveries + [] == deliveries;
            if mayReceive(sub.session.user) {
              matched, deliveries := true, deliveries + [(sub.session, sub)];
            }
          }
        } else if (sub.share, sub.filter) in sent {
          ChosenSkip(store, from, i, targets0, chosen, sent);
        } else {
          ghost var before := shared.targets;
          var target := shared.GetTarget(sub.share, sub.filter, clock + i);
          TargetFound(targets0, before, shared.targets, sub.share, sub.filter, clock + i, target);
          if target.None? {
            ChosenAdd(store, from, i, targets0, chosen, sent, sub.share, sub.filter, []);
            assert chosen + [] == chosen;
          } else {
            ghost var c := Chosen(sub.share, sub.filter, target.value.0, target.value.1);
            PickNext(targets0, chosen, times, before, c, clock + i, shared.targets);
            ChosenAdd(store, from, i, targets0, chosen, sent, sub.share, sub.filter, [c]);
            DeliveredChosen(deliveries, direct, chosen, c, mayReceive);
            chosen, times := chosen + [c], times + [clock + i];
            assert deliveries + [] == deliveries;
            if mayReceive(target.value.0.user) {
              matched, deliveries := true, deliveries + [target.value];
            }
          }
          sent := sent + {(sub.share, sub.filter)};
        }
      }
      DirectDistinct(store, from, source, direct, at);
      SentAre(store, from, topic, targets0, chosen, sent);
      d := Dispatch(from, direct, at, sent, chosen, times);
      DirectSpelled(store, targets0, source, topic, clock, d, shared.targets);
      GroupsSpelled(store, targets0, source, topic, clock, d, shared.targets);
    }
  }

  lemma HandleIs(table: SubTable, view: SubView, h: Key, f: Path)
    requires Stands(table, view) && h in table.nodes && FilterOf(view, h) == f
    ensures f in view.tree && KeyOf(view.tree, f) == h
  {
    HandlePath(table.nodes, view.tree, view.denote, table.nextNodeId, h);
  }

  lemma FoundInTree(table: SubTable, view: SubView, f: Filter)
    requires Stands(table, view)
    ensures f in view.tree <==> Count(view.store.Keys, f) > 0
  {
  }

  lemma NotStored(store: Store, e: Entry<string>)
    requires Count(store.Keys, e.filter) == 0
    ensures store - {e} == store
  {
    if e in store {
      CountPositive(store.Keys, e, e.filter);
    }
  }

  lemma MoreKnown(view: SubView, sessions: map<Session, set<Key>>, s: Session, h: Key)
    requires AllKnown(view, sessions) && s in sessions && Known(view, {h})
    ensures AllKnown(view, sessions[s := sessions[s] + {h}])
  {
  }

  lemma LessKnown(view: SubView, sessions: map<Session, set<Key>>, s: Session, h: Key)
    requires AllKnown(view, sessions) && s in sessions
    ensures AllKnown(view, sessions[s := sessions[s] - {h}])
  {
  }

  lemma NoneKnown(view: SubView, sessions: map<Session, set<Key>>, s: Session)
    requires AllKnown(view, sessions)
    ensures AllKnown(view, sessions[s := {}])
  {
  }

  lemma KnownHandle(view: SubView, sessions: map<Session, set<Key>>, s: Session, h: Key)
    requires AllKnown(view, sessions) && s in sessions && h in sessions[s]
    ensures h.parent in view.denote
  {
    assert Known(view, sessions[s]);
  }

  // ----- erasing through handles

  lemma NothingErased(view: SubView, client: string)
    ensures ErasedAt(view, client, {}) == view.store
  {
  }

  lemma ErasedDescribed(view: SubView, client: string, done: set<Key>)
    requires Described(view.store)
    ensures Described(ErasedAt(view, client, done))
  {
    hide Reached;
  }

  /** One more handle erased. */
  lemma ErasedMore(view: SubView, client: string, done: set<Key>, h: Key)
    ensures ErasedAt(view, client, done + {h}) == ErasedAt(view, client, done) - {Entry(FilterOf(view, h), client)}
  {
    forall e ensures Reached(view, client, done + {h}, e)
                <==> Reached(view, client, done, e) || e == Entry(FilterOf(view, h), client) {
      if Reached(view, client, done, e) {
        var g :| g in done && FilterOf(view, g) == e.filter;
        assert g in done + {h};
      }
      assert e == Entry(FilterOf(view, h), client) ==> h in done + {h} && FilterOf(view, h) == e.filter;
    }
  }

  /** Erasing leaves a smaller tree, so that ids are kept across any number of erasures. */
  lemma ShrinkEvolves(before: SubView, table1: SubTable, mid: SubView, table2: SubTable, after: SubView)
    requires Stands(table1, mid) && Stands(table2, after)
    requires Evolves(before, mid) && Evolves(mid, after) && after.store.Keys <= mid.store.Keys
    ensures Evolves(before, after)
  {
    forall p | p in after.tree ensures p in mid.tree {
      if p != [] {
        var e :| e in Below(after.store.Keys, p);
        CountPositive(mid.store.Keys, e, p);
      }
    }
  }

  /** A handle that resolves after erasures resolved before them. */
  lemma ResolvedBefore(table0: SubTable, before: SubView, table: SubTable, after: SubView, h: Key)
    requires Stands(table0, before) && Stands(table, after) && Evolves(before, after)
    requires after.store.Keys <= before.store.Keys && h in table.nodes && h.parent in before.denote
    ensures h in table0.nodes
  {
    var p := FilterOf(after, h);
    HandlePath(table.nodes, after.tree, after.denote, table.nextNodeId, h);
    if p != [] {
      var e :| e in Below(after.store.Keys, p);
      CountPositive(before.store.Keys, e, p);
    }
    StableKey(table0, before, table, after, p);
    PathHandle(table0.nodes, before.tree, before.denote, table0.nextNodeId, p);
  }

  lemma ErasedNext(table0: SubTable, view0: SubView, table1: SubTable, before: SubView, table2: SubTable,
                   after: SubView, client: string, done: set<Key>, h: Key)
    requires Stands(table0, view0) && Stands(table1, before) && Stands(table2, after)
    requires Evolves(view0, before) && Evolves(before, after)
    requires h in table1.nodes && h.parent in view0.denote
    requires before.store == ErasedAt(view0, client, done)
    requires after.store == before.store - {Entry(FilterOf(before, h), client)}
    ensures after.store == ErasedAt(view0, client, done + {h}) && Evolves(view0, after) && h in table0.nodes
  {
    hide Stands;
    HandleMeaning(view0, before, h);
    ErasedMore(view0, client, done, h);
    assert before.store.Keys <= view0.store.Keys;
    assert after.store.Keys <= before.store.Keys;
    hide Evolves;
    hide ErasedAt;
    ShrinkEvolves(view0, table1, before, table2, after);
    ResolvedBefore(table0, view0, table1, before, h);
  }

  /** While the client is stored under all its handles, each erasure takes one of them away. */
  lemma RestHandles(table1: SubTable, before: SubView, table2: SubTable, after: SubView, client: string, rest: set<Key>,
                    h: Key)
    requires Stands(table1, before) && Stands(table2, after) && Evolves(before, after) && h in table1.nodes
    requires after.store == before.store - {Entry(FilterOf(before, h), client)}
    ensures rest <= HandlesOf(before, client) ==> rest - {h} <= HandlesOf(after, client)
  {
    hide Stands;
    hide HandlesOf;
    hide Evolves;
    HandleIs(table1, before, h, FilterOf(before, h));
    HandlesAfterErase(table1, before, table2, after, FilterOf(before, h), client, client);
  }

  lemma NotExact(table: SubTable, view: SubView, client: string, rest: set<Key>, h: Key)
    requires Stands(table, view) && h in rest && h !in table.nodes
    ensures !(rest <= HandlesOf(view, client))
  {
    hide Stands;
    if h in HandlesOf(view, client) {
      HandleResolves(table, view, client, h);
    }
  }

  // ----- picks

  /** The target of a group, where the groups before serve as they did at the start. */
  lemma TargetFound(t0: Targets<Subscription>, before: Targets<Subscription>, after: Targets<Subscription>,
                    share: string, f: Filter, now: nat, r: Option<(Session, Subscription)>)
    requires SameServing(t0, before)
    requires r.None? <==> forall m | m in before && m.share == share :: !Serves(before, m, f)
    requires r.None? ==> after == before
    requires r.Some? ==>
               var m := Member(r.value.0.client, share);
               && IsPick(before, share, f, m) && after == Touched(before, m, now)
               && r.value == (Session(before[m].user, m.client), before[m].subs[f])
    ensures SameServing(t0, after) && (r.None? ==> !Staffed(t0, share, f))
    ensures r.Some? ==>
              var c := Chosen(share, f, r.value.0, r.value.1);
              PickStep(before, c, now, after) && Holder(t0, c)
  {
    StaffedStill(t0, before, share, f);
    if r.Some? {
      var c := Chosen(share, f, r.value.0, r.value.1);
      assert Holder(before, c);
      PickServes(t0, before, c, now, after);
    }
  }
}
