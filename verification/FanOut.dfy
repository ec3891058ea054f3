/** Who is addressed by a publication: the subscriptions met, and one member for each share group and filter. */
module FanOut {
  import opened TopicFilter
  import opened TrieModel
  import opened TrieMatch
  import opened EntryMatch
  import opened SharedTarget

  /** A subscription and the session that made it. */
  datatype Subscription = Subscription(session: Session, share: string, filter: Filter, noLocal: bool, qos: nat)

  type Store = map<Entry<string>, Subscription>

  /** One message handed to a share group: whose session got it, and for which subscription. */
  datatype Chosen = Chosen(share: string, filter: Filter, session: Session, sub: Subscription)

  function MemberOf(c: Chosen): Member {
    Member(c.session.client, c.share)
  }

  // ----- who gets the message

  function DirectPairs(direct: seq<Subscription>): seq<(Session, Subscription)> {
    seq(|direct|, i requires 0 <= i < |direct| => (direct[i].session, direct[i]))
  }

  function PickPairs(chosen: seq<Chosen>): seq<(Session, Subscription)> {
    seq(|chosen|, i requires 0 <= i < |chosen| => (chosen[i].session, chosen[i].sub))
  }

  /** Everybody who was addressed and whose user may receive got the message as often as addressed, and nobody else. */
  ghost predicate Delivered(deliveries: seq<(Session, Subscription)>, direct: seq<Subscription>, chosen: seq<Chosen>,
                            mayReceive: string -> bool) {
    forall d ::
      multiset(deliveries)[d]
        == if mayReceive(d.0.user) then multiset(DirectPairs(direct))[d] + multiset(PickPairs(chosen))[d] else 0
  }

  lemma NothingDelivered(mayReceive: string -> bool)
    ensures Delivered([], [], [], mayReceive)
  {
  }

  lemma DeliveredDirect(deliveries: seq<(Session, Subscription)>, direct: seq<Subscription>, chosen: seq<Chosen>,
                        s: Subscription, mayReceive: string -> bool)
    requires Delivered(deliveries, direct, chosen, mayReceive)
    ensures var more := if mayReceive(s.session.user) then [(s.session, s)] else [];
            Delivered(deliveries + more, direct + [s], chosen, mayReceive)
  {
    assert DirectPairs(direct + [s]) == DirectPairs(direct) + [(s.session, s)];
  }

  lemma DeliveredChosen(deliveries: seq<(Session, Subscription)>, direct: seq<Subscription>, chosen: seq<Chosen>,
                        c: Chosen, mayReceive: string -> bool)
    requires Delivered(deliveries, direct, chosen, mayReceive)
    ensures var more := if mayReceive(c.session.user) then [(c.session, c.sub)] else [];
            Delivered(deliveries + more, direct, chosen + [c], mayReceive)
  {
    assert PickPairs(chosen + [c]) == PickPairs(chosen) + [(c.session, c.sub)];
  }

  // ----- subscriptions that are no member of a group

  /** The stored subscription gets the message directly. */
  predicate Direct(sub: Subscription, source: Session) {
    sub.share == "" && !(sub.noLocal && sub.session.client == source.client)
  }

  /** Those addressed directly among the first `n` callbacks, as often as they were called back for. */
  ghost predicate DirectSoFar(store: Store, from: seq<Entry<string>>, n: nat, source: Session,
                              direct: seq<Subscription>, at: seq<Entry<string>>)
    requires n <= |from|
  {
    && |direct| == |at|
    && (forall i | 0 <= i < |at| :: at[i] in store && direct[i] == store[at[i]])
    && (forall e :: multiset(at)[e] == if e in store && Direct(store[e], source) then multiset(from[..n])[e] else 0)
  }

  lemma DirectStep(store: Store, from: seq<Entry<string>>, n: nat, source: Session, direct: seq<Subscription>,
                   at: seq<Entry<string>>)
    requires n < |from| && from[n] in store && DirectSoFar(store, from, n, source, direct, at)
    ensures var sub := store[from[n]];
            if Direct(sub, source) then DirectSoFar(store, from, n + 1, source, direct + [sub], at + [from[n]])
            else DirectSoFar(store, from, n + 1, source, direct, at)
  {
    TakeSnoc(from, n);
    forall e ensures multiset(from[..n + 1])[e] == multiset(from[..n])[e] + if e == from[n] then 1 else 0 {
    }
  }

  /** Where no filter is met twice nobody is addressed twice for one subscription. */
  lemma DirectDistinct(store: Store, from: seq<Entry<string>>, source: Session, direct: seq<Subscription>,
                       at: seq<Entry<string>>)
    requires DirectSoFar(store, from, |from|, source, direct, at)
    ensures Distinct(from) ==> Distinct(at)
  {
    assert from[..|from|] == from;
    if Distinct(from) {
      forall e ensures multiset(at)[e] <= 1 {
        DistinctOnce(from, e);
      }
      SinglesDistinct(at);
    }
  }

  /** Every subscription that is addressed directly was called back for. */
  lemma DirectCalled(store: Store, from: seq<Entry<string>>, source: Session, direct: seq<Subscription>,
                     at: seq<Entry<string>>, s: Subscription)
    requires DirectSoFar(store, from, |from|, source, direct, at) && s in direct
    ensures exists i :: 0 <= i < |from| && from[i] in store && store[from[i]] == s
  {
    assert from[..|from|] == from;
    var j :| 0 <= j < |direct| && direct[j] == s;
    assert multiset(at)[at[j]] > 0;
    assert at[j] in multiset(from) && at[j] in from;
  }

  // ----- share groups

  /** Somebody in the group serves the filter. */
  ghost predicate Staffed(targets: Targets<Subscription>, share: string, f: Filter) {
    exists m :: Serves(targets, m, f) && m.share == share
  }

  /** The picks change nothing but who was picked when. */
  ghost predicate SameServing(t: Targets<Subscription>, t': Targets<Subscription>) {
    t'.Keys == t.Keys && forall m | m in t :: t'[m].subs == t[m].subs && t'[m].user == t[m].user
  }

  lemma ServingNow(t: Targets<Subscription>)
    ensures SameServing(t, t)
  {
  }

  lemma ServesStill(t0: Targets<Subscription>, t: Targets<Subscription>, m: Member, f: Filter)
    requires SameServing(t0, t)
    ensures Serves(t0, m, f) <==> Serves(t, m, f)
    ensures m in t ==> m in t0 && t0[m].subs == t[m].subs && t0[m].user == t[m].user
  {
  }

  lemma StaffedStill(t0: Targets<Subscription>, t: Targets<Subscription>, share: string, f: Filter)
    requires SameServing(t0, t)
    ensures Staffed(t0, share, f) <==> Staffed(t, share, f)
  {
    hide SameServing;
    forall m ensures Serves(t0, m, f) <==> Serves(t, m, f) {
      ServesStill(t0, t, m, f);
    }
  }

  /** The chosen session stands for a member that holds the filter, and gets it with the subscription held. */
  ghost predicate Holder(targets: Targets<Subscription>, c: Chosen) {
    var m := MemberOf(c);
    Serves(targets, m, c.filter) && c.sub == targets[m].subs[c.filter] && c.session.user == targets[m].user
  }

  /** One pick: of the members of the group that serve the filter, the one that was picked longest ago. */
  ghost predicate PickStep(t: Targets<Subscription>, c: Chosen, now: nat, t': Targets<Subscription>) {
    IsPick(t, c.share, c.filter, MemberOf(c)) && Holder(t, c) && t' == Touched(t, MemberOf(c), now)
  }

  lemma PickServes(t0: Targets<Subscription>, t: Targets<Subscription>, c: Chosen, now: nat, t': Targets<Subscription>)
    requires SameServing(t0, t) && PickStep(t, c, now, t')
    ensures SameServing(t0, t') && Holder(t0, c)
  {
  }

  function PickSteps(chosen: seq<Chosen>): seq<Step<Subscription>> {
    seq(|chosen|, i requires 0 <= i < |chosen| => Pick(MemberOf(chosen[i]), chosen[i].filter))
  }

  /** The choices were made one after the other at the given times, each in the state that the one before left. */
  ghost predicate PickedInTurn(t0: Targets<Subscription>, chosen: seq<Chosen>, times: seq<nat>,
                               t: Targets<Subscription>) {
    TakesTo(t0, PickSteps(chosen), times, t)
  }

  lemma NonePicked(t: Targets<Subscription>)
    ensures PickedInTurn(t, [], [], t)
  {
  }

  lemma PickNext(t0: Targets<Subscription>, chosen: seq<Chosen>, times: seq<nat>, mid: Targets<Subscription>, c: Chosen,
                 now: nat, t: Targets<Subscription>)
    requires PickedInTurn(t0, chosen, times, mid) && PickStep(mid, c, now, t)
    ensures PickedInTurn(t0, chosen + [c], times + [now], t)
  {
    hide TakesTo;
    var step := Pick(MemberOf(c), c.filter);
    TraceOne(mid, step, now);
    TraceConcat(t0, PickSteps(chosen), times, mid, [step], [now], t);
    assert PickSteps(chosen + [c]) == PickSteps(chosen) + [step];
  }

  /** The readings of the first `n` callbacks. */
  ghost predicate ReadSoFar(times: seq<nat>, clock: nat, n: nat) {
    Readings(times, clock) && forall i | 0 <= i < |times| :: times[i] < clock + n
  }

  lemma NothingRead(clock: nat)
    ensures ReadSoFar([], clock, 0)
  {
  }

  lemma ReadNext(times: seq<nat>, clock: nat, n: nat)
    requires ReadSoFar(times, clock, n)
    ensures ReadSoFar(times, clock, n + 1) && ReadSoFar(times + [clock + n], clock, n + 1)
  {
  }

  /** The share groups and filters that a publication reaches. */
  ghost function GroupsMatched(store: Store, topic: seq<Level>): set<(string, Filter)> {
    set e | e in store && store[e].share != "" && Matches(e.filter, topic) :: (store[e].share, store[e].filter)
  }

  /** No two choices are for the same share group and filter. */
  ghost predicate OnceEach(chosen: seq<Chosen>) {
    forall i, j | 0 <= i < j < |chosen| :: chosen[i].share != chosen[j].share || chosen[i].filter != chosen[j].filter
  }

  predicate For(c: Chosen, g: (string, Filter)) {
    (c.share, c.filter) == g
  }

  /** One choice for every share group and filter met in the first `n` callbacks that has a member to serve it. */
  ghost predicate ChosenSoFar(store: Store, from: seq<Entry<string>>, n: nat, targets: Targets<Subscription>,
                              chosen: seq<Chosen>, sent: set<(string, Filter)>)
    requires n <= |from|
  {
    && OnceEach(chosen)
    && (forall c | c in chosen :: (c.share, c.filter) in sent && Holder(targets, c))
    && (forall g | g in sent && Staffed(targets, g.0, g.1) :: exists c :: c in chosen && For(c, g))
    && (forall g | g in sent :: exists e ::
          e in from[..n] && e in store && store[e].share == g.0 != "" && store[e].filter == g.1)
    && (forall e | e in from[..n] && e in store && store[e].share != "" :: (store[e].share, store[e].filter) in sent)
  }

  lemma NothingSoFar(store: Store, from: seq<Entry<string>>, source: Session, targets: Targets<Subscription>)
    ensures DirectSoFar(store, from, 0, source, [], []) && ChosenSoFar(store, from, 0, targets, [], {})
  {
  }

  lemma ChosenSkip(store: Store, from: seq<Entry<string>>, n: nat, targets: Targets<Subscription>, chosen: seq<Chosen>,
                   sent: set<(string, Filter)>)
    requires n < |from| && from[n] in store && ChosenSoFar(store, from, n, targets, chosen, sent)
    requires store[from[n]].share == "" || (store[from[n]].share, store[from[n]].filter) in sent
    ensures ChosenSoFar(store, from, n + 1, targets, chosen, sent)
  {
    hide Staffed;
    hide Holder;
    hide OnceEach;
    TakeSnoc(from, n);
    forall g | g in sent ensures exists e ::
      e in from[..n + 1] && e in store && store[e].share == g.0 != "" && store[e].filter == g.1 {
      var e :| e in from[..n] && e in store && store[e].share == g.0 != "" && store[e].filter == g.1;
      assert e in from[..n + 1];
    }
  }

  /** A group and filter met for the first time: one choice, or none where nobody serves the filter. */
  lemma ChosenAdd(store: Store, from: seq<Entry<string>>, n: nat, targets: Targets<Subscription>, chosen: seq<Chosen>,
                  sent: set<(string, Filter)>, share: string, f: Filter, more: seq<Chosen>)
    requires n < |from| && from[n] in store && ChosenSoFar(store, from, n, targets, chosen, sent)
    requires store[from[n]].share == share != "" && store[from[n]].filter == f && (share, f) !in sent
    requires if more == [] then !Staffed(targets, share, f)
             else |more| == 1 && Holder(targets, more[0]) && For(more[0], (share, f))
    ensures ChosenSoFar(store, from, n + 1, targets, chosen + more, sent + {(share, f)})
  {
    hide Staffed;
    hide Holder;
    TakeSnoc(from, n);
    var sent', chosen' := sent + {(share, f)}, chosen + more;
    assert OnceEach(chosen') by {
      forall i | 0 <= i < |chosen| ensures chosen[i].share != share || chosen[i].filter != f {
        assert chosen[i] in chosen;
      }
    }
    forall g | g in sent' ensures exists e ::
      e in from[..n + 1] && e in store && store[e].share == g.0 != "" && store[e].filter == g.1 {
      if g in sent {
        var e :| e in from[..n] && e in store && store[e].share == g.0 != "" && store[e].filter == g.1;
        assert e in from[..n + 1];
      } else {
        assert from[n] in from[..n + 1];
      }
    }
    forall g | g in sent' && Staffed(targets, g.0, g.1) ensures exists c :: c in chosen' && For(c, g) {
      if g in sent {
        var c :| c in chosen && For(c, g);
        assert c in chosen';
      } else {
        assert more[0] in chosen';
      }
    }
  }

  lemma SentAre(store: Store, from: seq<Entry<string>>, topic: seq<Level>, targets: Targets<Subscription>,
                chosen: seq<Chosen>, sent: set<(string, Filter)>)
    requires ChosenSoFar(store, from, |from|, targets, chosen, sent)
    requires forall e :: e in from <==> e in store && Matches(e.filter, topic)
    ensures sent == GroupsMatched(store, topic)
  {
    hide Staffed;
    hide Holder;
    hide OnceEach;
    assert from[..|from|] == from;
    forall g | g in sent ensures g in GroupsMatched(store, topic) {
      var e :| e in from && e in store && store[e].share == g.0 != "" && store[e].filter == g.1;
      assert g == (store[e].share, store[e].filter);
    }
    forall g | g in GroupsMatched(store, topic) ensures g in sent {
      var e :| e in store && store[e].share != "" && Matches(e.filter, topic)
          && g == (store[e].share, store[e].filter);
      assert e in from;
    }
  }

  // ----- the whole of a publication

  /**
   * How a publication was worked through: the entries called back for, the subscriptions addressed directly and the
   * entries they are stored at, the share groups and filters met, and the picks among their members with their times.
   */
  datatype Dispatch = Dispatch(from: seq<Entry<string>>, direct: seq<Subscription>, at: seq<Entry<string>>,
    sent: set<(string, Filter)>, chosen: seq<Chosen>, times: seq<nat>)

  /**
   * Each non-shared subscription is addressed as often as its filter is met, no-local apart, and each share group once
   * for a filter, through the member serving the filter that was picked longest ago, if any serves it.
   */
  ghost predicate Fanned(store: Store, t0: Targets<Subscription>, source: Session, topic: seq<Level>, clock: nat,
                         d: Dispatch, t: Targets<Subscription>) {
    && Called(d.from, store, topic) && (Single(topic) ==> Distinct(d.at))
    && DirectSoFar(store, d.from, |d.from|, source, d.direct, d.at)
    && d.sent == GroupsMatched(store, topic) && ChosenSoFar(store, d.from, |d.from|, t0, d.chosen, d.sent)
    && PickedInTurn(t0, d.chosen, d.times, t) && ReadSoFar(d.times, clock, |d.from|) && SameServing(t0, t)
  }

  /**
   * Who is addressed directly, told by the fields: no no-local subscription of the publisher's client id, and all other
   * non-shared subscriptions exactly as often as their filters are met.
   */
  ghost predicate DirectFields(store: Store, source: Session, topic: seq<Level>, d: Dispatch) {
    && (forall s | s in d.direct :: s.share == "" && !(s.noLocal && s.session.client == source.client))
    && |d.at| == |d.direct| && (forall i | 0 <= i < |d.at| :: d.at[i] in store && d.direct[i] == store[d.at[i]])
    && (forall e | e in store && store[e].share == "" ::
          !store[e].noLocal || store[e].session.client != source.client ==>
            multiset(d.at)[e] == Times(e.filter, topic))
  }

  lemma DirectSpelled(store: Store, t0: Targets<Subscription>, source: Session, topic: seq<Level>, clock: nat,
                      d: Dispatch, t: Targets<Subscription>)
    requires Fanned(store, t0, source, topic, clock, d, t)
    ensures DirectFields(store, source, topic, d)
  {
    hide Times;
    hide ChosenSoFar;
    hide PickedInTurn;
    hide ReadSoFar;
    hide SameServing;
    hide Single;
    assert d.from[..|d.from|] == d.from;
    forall s | s in d.direct ensures s.share == "" && !(s.noLocal && s.session.client == source.client) {
      var i :| 0 <= i < |d.direct| && d.direct[i] == s;
      assert multiset(d.at)[d.at[i]] > 0;
      assert Direct(store[d.at[i]], source);
    }
  }

  /** Told by the fields: a choice is for the share name and filter of a matching entry, and a member that holds it. */
  ghost predicate ChoiceFields(store: Store, t0: Targets<Subscription>, topic: seq<Level>, c: Chosen) {
    var m := Member(c.session.client, c.share);
    && c.share != "" && m in t0 && c.filter in t0[m].subs
    && c.sub == t0[m].subs[c.filter] && c.session.user == t0[m].user
    && exists e :: e in store && Matches(e.filter, topic) && store[e].share == c.share && store[e].filter == c.filter
  }

  predicate DifferentGroups(chosen: seq<Chosen>) {
    forall i, j | 0 <= i < j < |chosen| :: chosen[i].share != chosen[j].share || chosen[i].filter != chosen[j].filter
  }

  /** Told by the fields: the group of every matching shared entry is served, if some member holds the filter. */
  ghost predicate EachServed(store: Store, t0: Targets<Subscription>, topic: seq<Level>, chosen: seq<Chosen>) {
    forall e, m | e in store && store[e].share != "" && Matches(e.filter, topic)
                  && m in t0 && m.share == store[e].share && store[e].filter in t0[m].subs ::
      exists c :: c in chosen && c.share == store[e].share && c.filter == store[e].filter
  }

  /** Which groups are served: one choice for every share name and filter that is met and held, and no other choice. */
  ghost predicate GroupFields(store: Store, t0: Targets<Subscription>, topic: seq<Level>, d: Dispatch) {
    && (forall c | c in d.chosen :: ChoiceFields(store, t0, topic, c))
    && DifferentGroups(d.chosen) && EachServed(store, t0, topic, d.chosen)
  }

  lemma GroupsSpelled(store: Store, t0: Targets<Subscription>, source: Session, topic: seq<Level>, clock: nat,
                      d: Dispatch, t: Targets<Subscription>)
    requires Fanned(store, t0, source, topic, clock, d, t)
    ensures GroupFields(store, t0, topic, d)
  {
    hide Times;
    hide DirectSoFar;
    hide PickedInTurn;
    hide ReadSoFar;
    hide SameServing;
    hide Single;
    hide Matches;
    hide Called;
    forall c | c in d.chosen ensures ChoiceFields(store, t0, topic, c) {
      assert (c.share, c.filter) in GroupsMatched(store, topic);
      var e :| e in store && store[e].share != "" && Matches(e.filter, topic)
        && (store[e].share, store[e].filter) == (c.share, c.filter);
    }
    forall e, m | e in store && store[e].share != "" && Matches(e.filter, topic)
                  && m in t0 && m.share == store[e].share && store[e].filter in t0[m].subs
      ensures exists c :: c in d.chosen && c.share == store[e].share && c.filter == store[e].filter
    {
      var g := (store[e].share, store[e].filter);
      assert Serves(t0, m, g.1);
      assert g in d.sent && Staffed(t0, g.0, g.1);
      var c :| c in d.chosen && For(c, g);
    }
  }
}
