/** A publication from the check of its sender to the checks of its recipients. */
module Delivery {
  import opened TopicFilter
  import opened TrieModel
  import opened SharedTarget
  import opened FanOut
  import opened Sessions
  import opened Authorization
  import opened LostEntries
  import opened EntryMatch
  import Security
  import SubscriptionMap

  /** The rules for publishers, and those for subscribers, as the indexes know them. */
  ghost function KnownPub(sec: Security.Security): seq<Rule>
    reads sec
  {
    Effective(sec.rules, Pub, sec.lostPub)
  }

  ghost function KnownSub(sec: Security.Security): seq<Rule>
    reads sec
  {
    Effective(sec.rules, Sub, sec.lostSub)
  }

  /** The user may be sent messages on the topic. */
  ghost predicate Admits(sec: Security.Security, topic: seq<Level>, user: string)
    reads sec
  {
    Security.MayReceive(KnownSub(sec), topic, NamesOf(sec.groups, user), user)
  }

  /** Those of the given users who may be sent messages on the topic. */
  method Admitted(sec: Security.Security, topic: seq<Level>, users: set<string>) returns (ok: set<string>)
    requires sec.Intact()
    ensures ok == set u | u in users && Admits(sec, topic, u)
  {
    hide SubscriptionMap.Stands;
    hide Security.MayReceive;
    hide Security.PerName;
    hide Security.Asked;
    hide Security.AskedName;
    hide Security.FromRuleOf;
    hide Security.Mentioned;
    hide SubRule;
    hide LastVerdict;
    hide NamesOf;
    hide Effective;
    hide Index;
    var result := sec.AuthSub(topic);
    ok := {};
    var rest := users;
    while rest != {}
      invariant rest <= users
      invariant ok <= users - rest && forall u | u in users - rest :: u in ok <==> Admits(sec, topic, u)
    {
      var u :| u in rest;
      var verdict := sec.AuthSubUser(result, u, topic, KnownSub(sec));
      if verdict == Allow {
        ok := ok + {u};
      }
      rest := rest - {u};
    }
  }

  /** The users of everybody who can be addressed. */
  ghost predicate CoversAll(users: set<string>, store: Store, targets: Targets<Subscription>, topic: seq<Level>) {
    && (forall e | e in store && Matches(e.filter, topic) :: store[e].session.user in users)
    && (forall m | m in targets :: targets[m].user in users)
  }

  /** The users of the matching subscriptions and of the members of share groups. */
  method Recipients(b: Broker, topic: seq<Level>) returns (users: set<string>)
    requires b.Valid()
    ensures CoversAll(users, b.subs.view.store, b.shared.targets, topic)
  {
    hide SubscriptionMap.Stands;
    hide CallsMatching;
    hide Called;
    hide Matches;
    var calls, from := b.subs.Find(topic);
    users := (set c | c in calls :: c.1.session.user) + set m | m in b.shared.targets :: b.shared.targets[m].user;
    ghost var store := b.subs.view.store;
    forall e | e in store && Matches(e.filter, topic) ensures store[e].session.user in users {
      var i :| 0 <= i < |from| && from[i] == e;
      assert calls[i] in calls;
    }
  }

  /** Everybody who was addressed and is admitted got the message, as often as addressed, and nobody else did. */
  ghost predicate Served(deliveries: seq<(Session, Subscription)>, direct: seq<Subscription>, chosen: seq<Chosen>,
                         sec: Security.Security, topic: seq<Level>)
    reads sec
  {
    forall d ::
      multiset(deliveries)[d]
        == if Admits(sec, topic, d.0.user) then multiset(DirectPairs(direct))[d] + multiset(PickPairs(chosen))[d] else 0
  }

  lemma ServedBy(deliveries: seq<(Session, Subscription)>, direct: seq<Subscription>, chosen: seq<Chosen>,
                 sec: Security.Security, topic: seq<Level>, users: set<string>, ok: set<string>)
    requires ok == set u | u in users && Admits(sec, topic, u)
    requires Delivered(deliveries, direct, chosen, u => u in ok)
    requires forall s | s in direct :: s.session.user in users
    requires forall c | c in chosen :: c.session.user in users
    ensures Served(deliveries, direct, chosen, sec, topic)
  {
    hide Admits;
    forall d
      ensures multiset(deliveries)[d]
           == if Admits(sec, topic, d.0.user) then multiset(DirectPairs(direct))[d] + multiset(PickPairs(chosen))[d]
              else 0
    {
      if d.0.user !in users {
        NotAddressed(direct, chosen, users, d);
      }
    }
  }

  lemma NotAddressed(direct: seq<Subscription>, chosen: seq<Chosen>, users: set<string>, d: (Session, Subscription))
    requires forall s | s in direct :: s.session.user in users
    requires forall c | c in chosen :: c.session.user in users
    requires d.0.user !in users
    ensures multiset(DirectPairs(direct))[d] == 0 && multiset(PickPairs(chosen))[d] == 0
  {
    assert d !in DirectPairs(direct);
    assert d !in PickPairs(chosen);
  }

  lemma AddressedCovered(store: Store, t0: Targets<Subscription>, source: Session, topic: seq<Level>, clock: nat,
                         d: Dispatch, t: Targets<Subscription>, users: set<string>)
    requires Fanned(store, t0, source, topic, clock, d, t) && CoversAll(users, store, t0, topic)
    requires forall e | e in d.from :: e in store && Matches(e.filter, topic)
    ensures forall s | s in d.direct :: s.session.user in users
    ensures forall c | c in d.chosen :: c.session.user in users
  {
    hide DirectSoFar;
    hide PickedInTurn;
    hide Called;
    hide Matches;
    forall s | s in d.direct ensures s.session.user in users {
      DirectCalled(store, d.from, source, d.direct, d.at, s);
    }
    forall c | c in d.chosen ensures c.session.user in users {
      assert Holder(t0, c);
    }
  }

  /**
   * A publication by a session: refused unless the last rule that applies to its user allows it, else delivered to
   * exactly those addressed whose user may be sent it.
   */
  method PublishChecked(b: Broker, sec: Security.Security, source: Session, topic: seq<Level>, clock: nat)
    returns (authorized: bool, deliveries: seq<(Session, Subscription)>, later: nat, ghost d: Dispatch)
    requires b.Valid() && sec.Intact()
    modifies b.shared
    ensures b.Valid()
    ensures authorized <==> LastVerdict(KnownPub(sec), Pub, NamesOf(sec.groups, source.user), topic) == Allow
    ensures !authorized ==> deliveries == [] && later == clock && b.shared.targets == old(b.shared.targets)
    ensures authorized ==>
              && Fanned(b.subs.view.store, old(b.shared.targets), source, topic, clock, d, b.shared.targets)
              && DirectFields(b.subs.view.store, source, topic, d)
              && GroupFields(b.subs.view.store, old(b.shared.targets), topic, d)
              && Served(deliveries, d.direct, d.chosen, sec, topic) && later == clock + |d.from|
  {
    hide SubscriptionMap.Stands;
    hide Described;
    hide Known;
    hide Fanned;
    hide DirectFields;
    hide GroupFields;
    hide Served;
    hide Admits;
    hide CoversAll;
    hide LastVerdict;
    hide Delivered;
    hide Matches;
    deliveries, later, d := [], clock, Dispatch([], [], [], {}, [], []);
    var verdict := sec.AuthPub(topic, source.user);
    authorized := verdict == Allow;
    if authorized {
      var users := Recipients(b, topic);
      var ok := Admitted(sec, topic, users);
      ghost var targets0 := b.shared.targets;
      var matched;
      matched, deliveries, later, d := b.Publish(source, topic, u => u in ok, clock);
      CalledFrom(b.subs.view.store, targets0, source, topic, clock, d, b.shared.targets);
      AddressedCovered(b.subs.view.store, targets0, source, topic, clock, d, b.shared.targets, users);
      ServedBy(deliveries, d.direct, d.chosen, sec, topic, users, ok);
    }
  }

  lemma CalledFrom(store: Store, t0: Targets<Subscription>, source: Session, topic: seq<Level>, clock: nat, d: Dispatch,
                   t: Targets<Subscription>)
    requires Fanned(store, t0, source, topic, clock, d, t)
    ensures forall e | e in d.from :: e in store && Matches(e.filter, topic)
  {
    CalledMatching(d.from, store, topic);
  }
}
