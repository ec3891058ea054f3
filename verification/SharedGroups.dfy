/** When the share groups hold exactly the shared subscriptions that the subscription map holds. */
module SharedGroups {
  import opened TopicFilter
  import opened TrieModel
  import opened SharedTarget
  import opened FanOut
  import opened Sessions

  /** The stored subscription of the member's client puts it into the member's group. */
  ghost predicate Belongs(store: Store, m: Member, f: Filter) {
    m.share != "" && Entry(f, m.client) in store && store[Entry(f, m.client)].share == m.share
  }

  /** The member holds the filter with the stored subscription, on behalf of the session that made it. */
  ghost predicate HeldFor(store: Store, targets: Targets<Subscription>, m: Member, f: Filter)
    requires Serves(targets, m, f) && Entry(f, m.client) in store
  {
    var sub := store[Entry(f, m.client)];
    targets[m].subs[f] == sub && targets[m].user == sub.session.user
  }

  /**
   * A client serves a filter in a group exactly when that is its stored subscription, with that subscription and for
   * its session; nobody is in a group without a filter.
   */
  ghost predicate InStep(store: Store, targets: Targets<Subscription>) {
    && (forall m, f: Filter :: Serves(targets, m, f) <==> Belongs(store, m, f))
    && (forall m, f: Filter | Serves(targets, m, f) :: HeldFor(store, targets, m, f))
    && (forall m | m in targets :: exists f: Filter :: Serves(targets, m, f))
  }

  /**
   * A subscription under a filter that the client already has in a share group, and that differs from the one it has.
   */
  predicate ReplacesShared(store: Store, sub: Subscription) {
    var e := Entry(sub.filter, sub.session.client);
    e in store && store[e].share != "" && store[e] != sub
  }

  /** A subscription to a share group in which the same client id is subscribed by another session. */
  ghost predicate JoinsOther(store: Store, sub: Subscription) {
    && sub.share != ""
    && exists f: Filter ::
         var e := Entry(f, sub.session.client);
         e in store && store[e].share == sub.share && store[e].session.user != sub.session.user
  }

  lemma JoinedServes(targets: Targets<Subscription>, sub: Subscription, now: nat, m: Member, f: Filter)
    requires sub.share != ""
    ensures var after := AfterSubscribe(targets, sub, now);
            var here := m == Member(sub.session.client, sub.share) && f == sub.filter;
            && (Serves(after, m, f) <==> Serves(targets, m, f) || here)
            && (Serves(targets, m, f) ==> after[m].subs[f] == targets[m].subs[f])
            && (here && !Serves(targets, m, f) ==> after[m].subs[f] == sub)
  {
  }

  /** Who was in a group stays under the same user; who enters it does so under the user of the subscription. */
  lemma JoinedUser(targets: Targets<Subscription>, sub: Subscription, now: nat, m: Member)
    requires m in AfterSubscribe(targets, sub, now)
    ensures var after := AfterSubscribe(targets, sub, now);
            if m in targets then after[m].user == targets[m].user
            else m == Member(sub.session.client, sub.share) && after[m].user == sub.session.user
  {
  }

  lemma SubscribeKeeps(store: Store, targets: Targets<Subscription>, sub: Subscription, now: nat)
    requires InStep(store, targets) && !ReplacesShared(store, sub) && !JoinsOther(store, sub)
    ensures InStep(store[Entry(sub.filter, sub.session.client) := sub], AfterSubscribe(targets, sub, now))
  {
    var after, store' := AfterSubscribe(targets, sub, now), store[Entry(sub.filter, sub.session.client) := sub];
    forall m, f: Filter ensures Serves(after, m, f) <==> Belongs(store', m, f)
                        ensures Serves(after, m, f) ==> HeldFor(store', after, m, f) {
      KeepsAt(store, targets, sub, now, m, f);
    }
    forall m | m in after ensures exists f: Filter :: Serves(after, m, f) {
      JoinedUser(targets, sub, now, m);
      if m in targets {
        var f: Filter :| Serves(targets, m, f);
        assert Serves(after, m, f);
      } else {
        assert Serves(after, m, sub.filter);
      }
    }
  }

  lemma KeepsAt(store: Store, targets: Targets<Subscription>, sub: Subscription, now: nat, m: Member, f: Filter)
    requires InStep(store, targets) && !ReplacesShared(store, sub) && !JoinsOther(store, sub)
    ensures var after, store' := AfterSubscribe(targets, sub, now), store[Entry(sub.filter, sub.session.client) := sub];
            && (Serves(after, m, f) <==> Belongs(store', m, f))
            && (Serves(after, m, f) ==> HeldFor(store', after, m, f))
  {
    assert Serves(targets, m, f) <==> Belongs(store, m, f);
    if sub.share != "" {
      JoinedServes(targets, sub, now, m, f);
      if m == Member(sub.session.client, sub.share) && m in targets {
        var g: Filter :| Serves(targets, m, g);
        assert Belongs(store, m, g) && HeldFor(store, targets, m, g);
      }
    }
  }

  lemma ReplacingBreaks(store: Store, targets: Targets<Subscription>, sub: Subscription, now: nat)
    requires InStep(store, targets) && ReplacesShared(store, sub)
    ensures !InStep(store[Entry(sub.filter, sub.session.client) := sub], AfterSubscribe(targets, sub, now))
  {
    var was := store[Entry(sub.filter, sub.session.client)];
    var m := Member(sub.session.client, was.share);
    assert Belongs(store, m, sub.filter);
    assert Serves(targets, m, sub.filter) && HeldFor(store, targets, m, sub.filter);
    if sub.share != "" {
      JoinedServes(targets, sub, now, m, sub.filter);
    }
  }

  lemma JoiningBreaks(store: Store, targets: Targets<Subscription>, sub: Subscription, now: nat)
    requires InStep(store, targets) && JoinsOther(store, sub)
    ensures !InStep(store[Entry(sub.filter, sub.session.client) := sub], AfterSubscribe(targets, sub, now))
  {
    var f: Filter :|
      var e := Entry(f, sub.session.client);
      e in store && store[e].share == sub.share && store[e].session.user != sub.session.user;
    var m := Member(sub.session.client, sub.share);
    assert Belongs(store, m, f);
    assert Serves(targets, m, f) && HeldFor(store, targets, m, f);
    JoinedServes(targets, sub, now, m, sub.filter);
    JoinedUser(targets, sub, now, m);
  }

  /**
   * A subscription leaves the groups in step exactly when it does not change a shared one under the same filter, and
   * joins no group in which the client id is there for another session: a new share name leaves the old membership
   * behind, the same share name keeps the old options in the group, and the group keeps sending to the other session.
   */
  lemma SubscribeExact(store: Store, targets: Targets<Subscription>, sub: Subscription, now: nat)
    requires InStep(store, targets)
    ensures InStep(store[Entry(sub.filter, sub.session.client) := sub], AfterSubscribe(targets, sub, now))
            <==> !ReplacesShared(store, sub) && !JoinsOther(store, sub)
  {
    hide InStep;
    if ReplacesShared(store, sub) {
      ReplacingBreaks(store, targets, sub, now);
    } else if JoinsOther(store, sub) {
      JoiningBreaks(store, targets, sub, now);
    } else {
      SubscribeKeeps(store, targets, sub, now);
    }
  }

  /** An unsubscription that names another share group than the stored one, or none. */
  predicate WrongGroup(store: Store, client: string, share: string, f: Filter) {
    var e := Entry(f, client);
    e in store && store[e].share != "" && store[e].share != share
  }

  lemma LeftServes(targets: Targets<Subscription>, client: string, share: string, g: Filter, m: Member, f: Filter)
    ensures var after := AfterUnsubscribe(targets, client, share, g);
            var here := share != "" && m == Member(client, share) && f == g;
            && (Serves(after, m, f) <==> Serves(targets, m, f) && !here)
            && (Serves(after, m, f) ==> after[m].subs[f] == targets[m].subs[f] && after[m].user == targets[m].user)
  {
    if m in targets {
      assert f != g && f in targets[m].subs ==> f in targets[m].subs - {g};
    }
  }

  lemma LeftSome(targets: Targets<Subscription>, client: string, share: string, g: Filter, m: Member)
    requires forall n | n in targets :: exists f: Filter :: Serves(targets, n, f)
    requires m in AfterUnsubscribe(targets, client, share, g)
    ensures exists f: Filter :: Serves(AfterUnsubscribe(targets, client, share, g), m, f)
  {
    var after := AfterUnsubscribe(targets, client, share, g);
    var f: Filter :| Serves(targets, m, f);
    if !Serves(after, m, f) {
      var h :| h in after[m].subs.Keys;
      assert Serves(after, m, h);
    }
  }

  lemma LeavesAt(store: Store, targets: Targets<Subscription>, client: string, share: string, f: Filter, m: Member,
                 g: Filter)
    requires InStep(store, targets) && !WrongGroup(store, client, share, f)
    ensures var after, store' := AfterUnsubscribe(targets, client, share, f), store - {Entry(f, client)};
            && (Serves(after, m, g) <==> Belongs(store', m, g))
            && (Serves(after, m, g) ==> HeldFor(store', after, m, g))
  {
    hide AfterUnsubscribe;
    LeftServes(targets, client, share, f, m, g);
    assert Serves(targets, m, g) <==> Belongs(store, m, g);
    assert Serves(targets, m, g) ==> HeldFor(store, targets, m, g);
  }

  lemma UnsubscribeKeeps(store: Store, targets: Targets<Subscription>, client: string, share: string, f: Filter)
    requires InStep(store, targets) && !WrongGroup(store, client, share, f)
    ensures InStep(store - {Entry(f, client)}, AfterUnsubscribe(targets, client, share, f))
  {
    var after, store' := AfterUnsubscribe(targets, client, share, f), store - {Entry(f, client)};
    forall m, g: Filter ensures Serves(after, m, g) <==> Belongs(store', m, g)
                        ensures Serves(after, m, g) ==> HeldFor(store', after, m, g) {
      LeavesAt(store, targets, client, share, f, m, g);
    }
    forall m | m in after ensures exists g: Filter :: Serves(after, m, g) {
      LeftSome(targets, client, share, f, m);
    }
  }

  lemma UnsubscribeBreaks(store: Store, targets: Targets<Subscription>, client: string, share: string, f: Filter)
    requires InStep(store, targets) && WrongGroup(store, client, share, f)
    ensures !InStep(store - {Entry(f, client)}, AfterUnsubscribe(targets, client, share, f))
  {
    hide AfterUnsubscribe;
    var m := Member(client, store[Entry(f, client)].share);
    assert Belongs(store, m, f);
    assert Serves(targets, m, f);
    LeftServes(targets, client, share, f, m, f);
    assert !Belongs(store - {Entry(f, client)}, m, f);
  }

  /** An unsubscription keeps the groups in step exactly when it names the group of the stored subscription. */
  lemma UnsubscribeExact(store: Store, targets: Targets<Subscription>, client: string, share: string, f: Filter)
    requires InStep(store, targets)
    ensures InStep(store - {Entry(f, client)}, AfterUnsubscribe(targets, client, share, f))
            <==> !WrongGroup(store, client, share, f)
  {
    hide InStep;
    if WrongGroup(store, client, share, f) {
      UnsubscribeBreaks(store, targets, client, share, f);
    } else {
      UnsubscribeKeeps(store, targets, client, share, f);
    }
  }

  ghost function WithoutClient(store: Store, client: string): Store {
    map e | e in store && e.key != client :: store[e]
  }

  /** Taking a client id out of both keeps them in step. */
  lemma CleanKeeps(store: Store, targets: Targets<Subscription>, client: string)
    requires InStep(store, targets)
    ensures InStep(WithoutClient(store, client), Gone(targets, client))
  {
    var after, store' := Gone(targets, client), WithoutClient(store, client);
    forall m, f: Filter ensures Serves(after, m, f) <==> Belongs(store', m, f)
                        ensures Serves(after, m, f) ==> HeldFor(store', after, m, f) {
      assert Serves(targets, m, f) <==> Belongs(store, m, f);
      assert Serves(targets, m, f) ==> HeldFor(store, targets, m, f);
    }
    forall m | m in after ensures exists f: Filter :: Serves(after, m, f) {
      var f: Filter :| Serves(targets, m, f);
      assert Serves(after, m, f);
    }
  }

  lemma ServingKeeps(store: Store, t0: Targets<Subscription>, t: Targets<Subscription>)
    requires InStep(store, t0) && SameServing(t0, t)
    ensures InStep(store, t)
  {
    forall m, f: Filter ensures Serves(t, m, f) <==> Serves(t0, m, f)
                        ensures Serves(t, m, f) ==> HeldFor(store, t, m, f) {
      ServesStill(t0, t, m, f);
      assert Serves(t0, m, f) ==> HeldFor(store, t0, m, f);
    }
    forall m | m in t ensures exists f: Filter :: Serves(t, m, f) {
      var f: Filter :| Serves(t0, m, f);
      assert Serves(t, m, f);
    }
  }

  /**
   * While in step, whoever is picked for a group is subscribed to the filter in that group, and the message goes to the
   * session that subscribed.
   */
  lemma PickedIsSubscribed(store: Store, targets: Targets<Subscription>, c: Chosen)
    requires InStep(store, targets) && Described(store) && Holder(targets, c)
    ensures var e := Entry(c.filter, c.session.client);
            e in store && store[e] == c.sub && c.sub.share == c.share != "" && c.sub.session == c.session
  {
    assert Belongs(store, MemberOf(c), c.filter);
    assert HeldFor(store, targets, MemberOf(c), c.filter);
  }

  /** And whoever is subscribed to a filter in a group can be picked. */
  lemma SubscribedIsStaffed(store: Store, targets: Targets<Subscription>, topic: seq<Level>, g: (string, Filter))
    requires InStep(store, targets) && Described(store) && g in GroupsMatched(store, topic)
    ensures Staffed(targets, g.0, g.1)
  {
    var e :| e in store && store[e].share != "" && Matches(e.filter, topic) && g == (store[e].share, store[e].filter);
    assert Belongs(store, Member(e.key, g.0), g.1);
    assert Serves(targets, Member(e.key, g.0), g.1);
  }

  /** "$share/g/t", then "$share/h/t": the client stays in group g, where it may still be picked. */
  lemma LeftBehind()
    ensures var f: Filter := [Name("t")];
            var s := Session("u", "c");
            var first, second := Subscription(s, "g", f, false, 0), Subscription(s, "h", f, false, 0);
            var targets := AfterSubscribe(AfterSubscribe(map[], first, 0), second, 1);
            Serves(targets, Member("c", "g"), f) && !Belongs(map[Entry(f, "c") := second], Member("c", "g"), f)
  {
    var f: Filter := [Name("t")];
    var s := Session("u", "c");
    var first, second := Subscription(s, "g", f, false, 0), Subscription(s, "h", f, false, 0);
    JoinedServes(map[], first, 0, Member("c", "g"), f);
    JoinedServes(AfterSubscribe(map[], first, 0), second, 1, Member("c", "g"), f);
  }

  /** Two users under one client id in one group: what the second asks for goes to the first. */
  lemma GoesToOther()
    ensures var a: Filter, b: Filter := [Name("a")], [Name("b")];
            var first := Subscription(Session("u", "c"), "g", a, false, 0);
            var second := Subscription(Session("v", "c"), "g", b, false, 0);
            var targets := AfterSubscribe(AfterSubscribe(map[], first, 0), second, 1);
            Holder(targets, Chosen("g", b, Session("u", "c"), second))
  {
    var a: Filter, b: Filter := [Name("a")], [Name("b")];
    var first := Subscription(Session("u", "c"), "g", a, false, 0);
    var second := Subscription(Session("v", "c"), "g", b, false, 0);
    var once := AfterSubscribe(map[], first, 0);
    assert once == map[Member("c", "g") := Target("u", 0, map[a := first])];
    JoinedServes(once, second, 1, Member("c", "g"), b);
    JoinedUser(once, second, 1, Member("c", "g"));
    assert a[0] != b[0];
  }
}
