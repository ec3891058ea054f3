/** Publications on literal subscriptions: who gets the message. */
module DeliveryRuns {
  import opened Wrappers
  import opened TopicFilter
  import opened TrieModel
  import opened TrieMatch
  import opened SharedTarget
  import opened FanOut
  import opened Sessions
  import opened Authorization
  import opened DecisionRuns
  import Delivery
  import opened EntryMatch
  import LostEntries
  import Security
  import SubscriptionMap

  // ----- subscriptions without share groups, each met once

  function EntryOf(s: Subscription): Entry<string> {
    Entry(s.filter, s.session.client)
  }

  /** As often as the entry of a subscription occurs, the subscription does, and its session with it. */
  lemma {:induction false} PairsCount(direct: seq<Subscription>, at: seq<Entry<string>>, x: (Session, Subscription))
    requires |at| == |direct| && forall i | 0 <= i < |at| :: at[i] == EntryOf(direct[i])
    requires forall i | 0 <= i < |at| && at[i] == EntryOf(x.1) :: direct[i] == x.1
    ensures multiset(DirectPairs(direct))[x] == if x.0 == x.1.session then multiset(at)[EntryOf(x.1)] else 0
    decreases |direct|
  {
    if direct != [] {
      var n := |direct| - 1;
      PairsCount(direct[..n], at[..n], x);
      assert direct == direct[..n] + [direct[n]] && at == at[..n] + [at[n]];
      assert DirectPairs(direct) == DirectPairs(direct[..n]) + [(direct[n].session, direct[n])];
    }
  }

  /** The subscription is stored, and neither no-local for the publisher nor that of a user who may not receive. */
  ghost predicate Receives(store: Store, source: Session, mayReceive: string -> bool, x: (Session, Subscription)) {
    && EntryOf(x.1) in store && store[EntryOf(x.1)] == x.1 && x.0 == x.1.session
    && !(x.1.noLocal && x.1.session.client == source.client) && mayReceive(x.0.user)
  }

  lemma SomeIn<T>(s: seq<T>)
    requires s != []
    ensures exists x :: x in s && multiset(s)[x] > 0
  {
    assert s[0] in s;
  }

  lemma NoneChosen(store: Store, t0: Targets<Subscription>, topic: seq<Level>, d: Dispatch)
    requires (forall e | e in store :: store[e].share == "") && GroupFields(store, t0, topic, d)
    ensures d.chosen == [] && PickPairs(d.chosen) == []
  {
    hide Matches;
    if d.chosen != [] {
      SomeIn(d.chosen);
    }
  }

  lemma DirectCount(store: Store, source: Session, topic: seq<Level>, d: Dispatch, x: (Session, Subscription))
    requires Described(store) && DirectFields(store, source, topic, d)
    requires forall e | e in store :: store[e].share == "" && Times(e.filter, topic) == 1
    ensures multiset(DirectPairs(d.direct))[x] == if Receives(store, source, u => true, x) then 1 else 0
  {
    hide Times;
    var e := EntryOf(x.1);
    if e in store && store[e] == x.1 {
      PairsCount(d.direct, d.at, x);
      if x.1.noLocal && x.1.session.client == source.client {
        assert forall i | 0 <= i < |d.at| :: d.direct[i] in d.direct && d.at[i] != e;
        assert e !in d.at;
      }
    } else {
      assert forall p | p in DirectPairs(d.direct) :: p != x;
    }
  }

  lemma AllDirect(store: Store, t0: Targets<Subscription>, source: Session, topic: seq<Level>, d: Dispatch,
                  deliveries: seq<(Session, Subscription)>, mayReceive: string -> bool)
    requires Described(store) && forall e | e in store :: store[e].share == "" && Times(e.filter, topic) == 1
    requires DirectFields(store, source, topic, d) && GroupFields(store, t0, topic, d)
    requires Delivered(deliveries, d.direct, d.chosen, mayReceive)
    ensures forall x :: multiset(deliveries)[x] == if Receives(store, source, mayReceive, x) then 1 else 0
  {
    NoneChosen(store, t0, topic, d);
    hide DirectFields;
    hide GroupFields;
    hide Described;
    hide Times;
    forall x ensures multiset(deliveries)[x] == if Receives(store, source, mayReceive, x) then 1 else 0 {
      DirectCount(store, source, topic, d, x);
    }
  }

  lemma OnceEach(topic: Filter)
    requires |topic| == 1 && !IsWild(topic[0])
    ensures Times(topic, topic) == 1
  {
    assert topic[0] in topic;
    TimesOnce(topic, topic);
  }

  lemma Only(deliveries: seq<(Session, Subscription)>, x: (Session, Subscription))
    requires forall y :: multiset(deliveries)[y] == if y == x then 1 else 0
    ensures deliveries == [x]
  {
    assert multiset(deliveries) == multiset{x};
    assert |deliveries| == |multiset(deliveries)| == 1;
    assert deliveries[0] in multiset(deliveries);
  }

  lemma Nobody(deliveries: seq<(Session, Subscription)>)
    requires forall y :: multiset(deliveries)[y] == 0
    ensures deliveries == []
  {
    if deliveries != [] {
      SomeIn(deliveries);
    }
  }

  const NONE := Dispatch([], [], [], {}, [], [])

  // ----- no-local

  /** "c" subscribes to "t" with no-local: it gets what "d" publishes and not what it publishes itself. */
  method NoLocal() returns (own: seq<(Session, Subscription)>, others: seq<(Session, Subscription)>,
                            refused: seq<(Session, Subscription)>)
    ensures own == [] && refused == []
    ensures others == [(Session("u", "c"), Subscription(Session("u", "c"), "", [Name("t")], true, 0))]
  {
    hide SubscriptionMap.Stands;
    hide SubscriptionMap.Evolves;
    hide Known;
    hide Fanned;
    hide DirectFields;
    hide GroupFields;
    hide Delivered;
    hide Times;
    var f: Filter := [Name("t")];
    var c, d := Session("u", "c"), Session("v", "d");
    var sub := Subscription(c, "", f, true, 0);
    var b := new Broker();
    b.OpenSession(c);
    b.OpenSession(d);
    var isNew := b.Subscribe(c, "", f, true, 0, 0);
    OnceEach(f);
    ghost var store := b.subs.view.store;
    assert store == map[Entry(f, "c") := sub];
    var matched, later;
    ghost var t0, x := b.shared.targets, NONE;
    matched, own, later, x := b.Publish(c, f, u => true, 1);
    AllDirect(store, t0, c, f, x, own, u => true);
    Nobody(own);
    t0 := b.shared.targets;
    matched, others, later, x := b.Publish(d, f, u => true, 2);
    AllDirect(store, t0, d, f, x, others, u => true);
    Only(others, (c, sub));
    t0 := b.shared.targets;
    matched, refused, later, x := b.Publish(d, f, u => false, 3);
    AllDirect(store, t0, d, f, x, refused, u => false);
    Nobody(refused);
  }

  // ----- taking turns

  /** Members "a" and "b" of one group, "a" since the first reading. */
  ghost predicate InTurns(b: Broker, a: Subscription, c: Subscription, x: nat, y: nat)
    reads b, b.subs, b.shared
  {
    && b.Valid() && a.session.client != c.session.client && a.filter == c.filter == T() && a.share == c.share == "g"
    && b.subs.view.store == map[EntryOf(a) := a, EntryOf(c) := c]
    && b.shared.targets == map[Member(a.session.client, "g") := Target(a.session.user, x, map[T() := a]),
                               Member(c.session.client, "g") := Target(c.session.user, y, map[T() := c])]
  }

  lemma NoneDirect(store: Store, source: Session, topic: seq<Level>, d: Dispatch)
    requires DirectFields(store, source, topic, d) && forall e | e in store :: store[e].share != ""
    ensures d.direct == []
  {
    hide Times;
    if d.direct != [] {
      SomeIn(d.direct);
    }
  }

  /** Every stored subscription is one to "t" in group "g". */
  ghost predicate AllInGroup(store: Store) {
    forall e | e in store :: store[e].share == "g" && store[e].filter == T() && e.filter == T()
  }

  lemma ChoiceIs(store: Store, t0: Targets<Subscription>, c: Chosen)
    requires ChoiceFields(store, t0, T(), c) && AllInGroup(store)
    ensures c.share == "g" && c.filter == T()
  {
    hide Matches;
  }

  lemma SomeChoice(store: Store, t0: Targets<Subscription>, chosen: seq<Chosen>, e: Entry<string>, m: Member)
    requires EachServed(store, t0, T(), chosen) && AllInGroup(store) && e in store
    requires m in t0 && m.share == "g" && T() in t0[m].subs
    ensures chosen != []
  {
    Exactly(T(), T());
    hide Matches;
    var c :| c in chosen && c.share == store[e].share && c.filter == store[e].filter;
  }

  lemma TwoAlike(chosen: seq<Chosen>)
    requires |chosen| > 1 && forall i | 0 <= i < |chosen| :: chosen[i].share == "g" && chosen[i].filter == T()
    ensures !DifferentGroups(chosen)
  {
    assert chosen[0].share == chosen[1].share && chosen[0].filter == chosen[1].filter;
  }

  lemma OneGroup(store: Store, t0: Targets<Subscription>, d: Dispatch, e: Entry<string>, m: Member)
    requires GroupFields(store, t0, T(), d) && AllInGroup(store) && e in store
    requires m in t0 && m.share == "g" && T() in t0[m].subs
    ensures |d.chosen| == 1 && d.chosen[0].share == "g" && d.chosen[0].filter == T()
  {
    hide ChoiceFields;
    hide EachServed;
    hide DifferentGroups;
    hide AllInGroup;
    forall i | 0 <= i < |d.chosen| ensures d.chosen[i].share == "g" && d.chosen[i].filter == T() {
      assert d.chosen[i] in d.chosen;
      ChoiceIs(store, t0, d.chosen[i]);
    }
    SomeChoice(store, t0, d.chosen, e, m);
    if |d.chosen| > 1 {
      TwoAlike(d.chosen);
    }
  }

  lemma OnePicked(t0: Targets<Subscription>, d: Dispatch, clock: nat, n: nat, t: Targets<Subscription>)
    requires PickedInTurn(t0, d.chosen, d.times, t) && ReadSoFar(d.times, clock, n) && |d.chosen| == 1
    ensures |d.times| == 1 && clock <= d.times[0] < clock + n
    ensures IsPick(t0, d.chosen[0].share, d.chosen[0].filter, MemberOf(d.chosen[0]))
    ensures t == Touched(t0, MemberOf(d.chosen[0]), d.times[0])
  {
    var steps := PickSteps(d.chosen);
    TakesSame(t0, steps, d.times, t);
    assert steps == [steps[0]] + [] && d.times == [d.times[0]] + [];
    TakesFirst(t0, steps[0], d.times[0], [], [], t);
  }

  lemma OneChoice(store: Store, t0: Targets<Subscription>, source: Session, clock: nat, d: Dispatch,
                  t: Targets<Subscription>, a: Subscription, c: Subscription)
    requires Fanned(store, t0, source, T(), clock, d, t)
    requires DirectFields(store, source, T(), d) && GroupFields(store, t0, T(), d)
    requires store == map[EntryOf(a) := a, EntryOf(c) := c]
    requires a.filter == c.filter == T() && a.share == c.share == "g"
    requires Serves(t0, Member(a.session.client, "g"), T())
    ensures d.direct == [] && |d.chosen| == |d.times| == 1 && clock <= d.times[0] < clock + |d.from|
    ensures PickStep(t0, d.chosen[0], d.times[0], t) && d.chosen[0].share == "g" && d.chosen[0].filter == T()
  {
    hide DirectSoFar;
    hide ChosenSoFar;
    hide Called;
    hide SameServing;
    hide Single;
    hide PickedInTurn;
    hide ReadSoFar;
    hide DirectFields;
    hide EachServed;
    hide DifferentGroups;
    NoneDirect(store, source, T(), d);
    OneGroup(store, t0, d, EntryOf(a), Member(a.session.client, "g"));
    OnePicked(t0, d, clock, |d.from|, t);
    assert d.chosen[0] in d.chosen;
  }

  /** The publication goes to the member that was picked longer ago, and that one is the later one then. */
  method Turn(b: Broker, ghost a: Subscription, ghost c: Subscription, ghost x: nat, ghost y: nat, clock: nat)
    returns (deliveries: seq<(Session, Subscription)>, later: nat, ghost z: nat)
    requires InTurns(b, a, c, x, y) && x < y < clock
    modifies b.shared
    ensures deliveries == [(a.session, a)] && clock <= z < later && InTurns(b, a, c, z, y)
  {
    hide SubscriptionMap.Stands;
    hide Known;
    hide Described;
    hide Fanned;
    hide DirectFields;
    hide GroupFields;
    ghost var t0 := b.shared.targets;
    ghost var d;
    var matched;
    matched, deliveries, later, d := b.Publish(Session("s", "s"), T(), u => true, clock);
    OneChoice(b.subs.view.store, t0, Session("s", "s"), clock, d, b.shared.targets, a, c);
    z := d.times[0];
    var m := Member(a.session.client, "g");
    assert IsPick(t0, "g", T(), MemberOf(d.chosen[0]));
    assert Serves(t0, m, T()) && t0[m].tp == x;
    assert d.chosen[0] == Chosen("g", T(), a.session, a);
    assert DirectPairs(d.direct) == [] && PickPairs(d.chosen) == [(a.session, a)];
    Only(deliveries, (a.session, a));
  }

  lemma Swapped(b: Broker, a: Subscription, c: Subscription, x: nat, y: nat)
    requires InTurns(b, a, c, x, y)
    ensures InTurns(b, c, a, y, x)
  {
    hide SubscriptionMap.Stands;
    assert EntryOf(a) != EntryOf(c);
  }

  /** "a" joins the group before "b": publications go to "a", to "b" and to "a" again. */
  method Turns() returns (who: seq<string>)
    ensures who == ["a", "b", "a"]
  {
    hide SubscriptionMap.Stands;
    hide SubscriptionMap.Evolves;
    hide Known;
    var sa, sb := Session("u", "a"), Session("u", "b");
    var a, c := Subscription(sa, "g", T(), false, 0), Subscription(sb, "g", T(), false, 0);
    var b := new Broker();
    b.OpenSession(sa);
    b.OpenSession(sb);
    var isNew := b.Subscribe(sa, "g", T(), false, 0, 0);
    isNew := b.Subscribe(sb, "g", T(), false, 0, 1);
    assert InTurns(b, a, c, 0, 1);
    var first, later, x := Turn(b, a, c, 0, 1, 2);
    Swapped(b, a, c, x, 1);
    var second, last, y := Turn(b, c, a, 1, x, later);
    Swapped(b, c, a, y, x);
    var third, end, z := Turn(b, a, c, x, y, last);
    who := [first[0].0.client, second[0].0.client, third[0].0.client];
  }

  // ----- from the sender's check to the recipients'

  /** "m" may publish to "t", and "u" may receive it. */
  function SendRules(): seq<Rule> {
    [Rule(T(), 1, Allow, {"u"}, Allow, {"m"})]
  }

  lemma SendTable()
    ensures forall user :: PubRule(SendRules()[0], map[], user, T()) <==> user == "m"
    ensures forall n :: SubRule(SendRules()[0], n, T()) <==> n == "u"
  {
    Exactly(T(), T());
    hide Matches;
    forall user ensures Reaches({"m"}, map[], user) <==> user == "m" {
      assert "m" in {"m"};
    }
    assert {"m"} - {""} == {"m"};
  }

  lemma SendDecided(user: string)
    ensures LastVerdict(SendRules(), Pub, NamesOf(map[], user), T()) == Allow <==> user == "m"
    ensures Security.MayReceive(SendRules(), T(), NamesOf(map[], user), user) <==> user == "u"
  {
    SendTable();
    hide LastVerdict;
    hide PubRule;
    hide SubRule;
    hide Applies;
    var rules := SendRules();
    PubVerdict(rules, map[], user, T());
    assert |rules| == 1 && PubRule(rules[0], map[], user, T()) <==> user == "m";
    SubVerdict(rules, user, T());
    assert SubRule(rules[0], user, T()) <==> user == "u";
    assert NamesOf(map[], user) == {user};
    var mentioned := Security.MentionedOf(rules, T(), {user});
    assert user in mentioned <==> user == "u";
    assert user == "u" ==> Security.Asked(mentioned, {user}, user, user);
  }

  lemma ServedIs(deliveries: seq<(Session, Subscription)>, d: Dispatch, sec: Security.Security)
    requires Delivery.Served(deliveries, d.direct, d.chosen, sec, T())
    requires forall user :: Delivery.Admits(sec, T(), user) <==> user == "u"
    ensures Delivered(deliveries, d.direct, d.chosen, user => user == "u")
  {
    hide Delivery.Admits;
  }

  method TwoSubscribed(c: Session, d: Session) returns (b: Broker)
    requires c.client != d.client
    ensures fresh(b) && fresh(b.subs) && fresh(b.shared) && b.Valid()
    ensures b.subs.view.store == map[Entry(T(), c.client) := Subscription(c, "", T(), false, 0),
                                     Entry(T(), d.client) := Subscription(d, "", T(), false, 0)]
  {
    hide SubscriptionMap.Stands;
    hide SubscriptionMap.Evolves;
    hide Known;
    b := new Broker();
    b.OpenSession(c);
    b.OpenSession(d);
    var isNew := b.Subscribe(c, "", T(), false, 0, 0);
    isNew := b.Subscribe(d, "", T(), false, 0, 1);
  }

  method Sending() returns (sec: Security.Security)
    ensures fresh(sec) && fresh(sec.authPubMap) && fresh(sec.authSubMap) && sec.Intact()
    ensures Delivery.KnownPub(sec) == SendRules() && sec.groups == map[]
    ensures forall user :: Delivery.Admits(sec, T(), user) <==> user == "u"
  {
    hide SubscriptionMap.Stands;
    hide LastVerdict;
    hide NamesOf;
    hide LostEntries.Effective;
    hide Index;
    hide Security.MayReceive;
    Initials();
    sec := Loaded(SendRules(), map[], {"m", "s", "u"});
    LostEntries.NothingLost(SendRules(), Pub);
    LostEntries.NothingLost(SendRules(), Sub);
    forall user ensures Delivery.Admits(sec, T(), user) <==> user == "u" {
      SendDecided(user);
    }
  }

  /** "u" and "s" both subscribe to "t". What "m" publishes reaches "u" alone, and "s" may not publish. */
  method Checked() returns (allowed: bool, refused: bool, got: seq<(Session, Subscription)>,
                            nothing: seq<(Session, Subscription)>)
    ensures allowed && !refused && nothing == []
    ensures got == [(Session("u", "c"), Subscription(Session("u", "c"), "", T(), false, 0))]
  {
    hide SubscriptionMap.Stands;
    hide SubscriptionMap.Evolves;
    hide Known;
    hide Fanned;
    hide DirectFields;
    hide GroupFields;
    hide Times;
    hide LastVerdict;
    hide NamesOf;
    hide LostEntries.Effective;
    hide Index;
    hide Security.MayReceive;
    hide Delivery.Served;
    hide Delivered;
    hide Delivery.Admits;
    hide SendRules;
    var c, d := Session("u", "c"), Session("s", "d");
    var b := TwoSubscribed(c, d);
    ghost var store := b.subs.view.store;
    var sec := Sending();
    SendDecided("m");
    SendDecided("s");
    OnceEach(T());
    ghost var t0, x := b.shared.targets, NONE;
    var later;
    allowed, got, later, x := Delivery.PublishChecked(b, sec, Session("m", "p"), T(), 2);
    ServedIs(got, x, sec);
    AllDirect(store, t0, Session("m", "p"), T(), x, got, user => user == "u");
    Only(got, (c, Subscription(c, "", T(), false, 0)));
    refused, nothing, later, x := Delivery.PublishChecked(b, sec, d, T(), later);
  }
}
