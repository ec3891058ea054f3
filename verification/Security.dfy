/** The broker's authorization state: the rule list and the two subscription maps that index it. */
module Security {
  import opened Wrappers
  import opened TopicFilter
  import opened TrieModel
  import opened TrieMatch
  import opened EntryMatch
  import opened SubscriptionMap
  import opened Authorization
  import opened LostEntries
  import FilterAlgebra
  import NameOrder

  type AuthMap = MultipleSubscriptionMap<string, (AuthType, nat)>

  function Entries(f: Filter, names: set<string>, v: (AuthType, nat)): Verdicts {
    map n | n in names :: Entry(f, n) := v
  }

  /** Enters one verdict under a filter for every name. */
  method IndexNames(m: AuthMap, f: Filter, names: set<string>, v: (AuthType, nat))
    requires m.Valid()
    modifies m
    ensures m.Valid() && m.view.store == old(m.view.store) + Entries(f, names, v)
  {
    hide Stands;
    var rest := names;
    while rest != {}
      invariant rest <= names
      invariant m.Valid() && m.view.store == old(m.view.store) + Entries(f, names - rest, v)
    {
      var n :| n in rest;
      EntriesInsert(old(m.view.store), f, names - rest, n, v);
      var _, _ := m.InsertOrAssign(f, n, v);
      assert names - (rest - {n}) == names - rest + {n};
      rest := rest - {n};
    }
    assert names - {} == names;
  }

  lemma NoEntries(store: Verdicts, f: Filter, v: (AuthType, nat))
    ensures store + Entries(f, {}, v) == store
  {
  }

  lemma EntriesInsert(store: Verdicts, f: Filter, names: set<string>, n: string, v: (AuthType, nat))
    ensures (store + Entries(f, names, v))[Entry(f, n) := v] == store + Entries(f, names + {n}, v)
  {
  }

  /** Erases the entries of a filter for every name. */
  method EraseNames(m: AuthMap, f: Filter, names: set<string>, v: (AuthType, nat))
    requires m.Valid()
    modifies m
    ensures m.Valid() && m.view.store == old(m.view.store) - Entries(f, names, v).Keys
  {
    hide Stands;
    var rest := names;
    while rest != {}
      invariant rest <= names
      invariant m.Valid() && m.view.store == old(m.view.store) - Entries(f, names - rest, v).Keys
    {
      var n :| n in rest;
      EntriesErase(old(m.view.store), f, names - rest, n, v);
      var _ := m.Erase(f, n);
      assert names - (rest - {n}) == names - rest + {n};
      rest := rest - {n};
    }
    assert names - {} == names;
  }

  lemma EntriesErase(store: Verdicts, f: Filter, names: set<string>, n: string, v: (AuthType, nat))
    ensures store - Entries(f, names, v).Keys - {Entry(f, n)} == store - Entries(f, names + {n}, v).Keys
  {
  }

  lemma RuleEntriesAre(r: Rule, side: Side)
    ensures RuleEntries(r, side) == Entries(r.filter, NamedBy(r, side), (TypeOf(r, side), r.nr))
  {
  }

  lemma IndexSnoc(rules: seq<Rule>, r: Rule, side: Side)
    ensures Index(rules + [r], side) == Index(rules, side) + RuleEntries(r, side)
  {
    assert Init(rules + [r]) == rules;
  }

  /** After the first `n` callbacks: nothing applied yet, or `best` is the last of the highest numbered ones. */
  ghost predicate BestSoFar(index: Verdicts, from: seq<Entry<string>>, names: set<string>, n: nat, best: Option<nat>,
                            verdict: AuthType, priority: nat)
    requires n <= |from| && forall i | 0 <= i < |from| :: from[i] in index
  {
    match best
    case None => verdict == Deny && priority == 0 && forall j | 0 <= j < n :: from[j].key !in names
    case Some(b) =>
      && b < n && from[b].key in names && (verdict, priority) == index[from[b]]
      && forall j | 0 <= j < n && from[j].key in names :: index[from[j]].1 <= priority
  }

  lemma BestIsLastVerdict(rules: seq<Rule>, side: Side, index: Verdicts, from: seq<Entry<string>>, names: set<string>,
                          topic: seq<Level>, best: Option<nat>, verdict: AuthType, priority: nat)
    requires index == Index(rules, side) && Ordered(rules)
    requires forall i | 0 <= i < |from| :: from[i] in index
    requires forall e :: e in from <==> e in index && Matches(e.filter, topic)
    requires BestSoFar(index, from, names, |from|, best, verdict, priority)
    ensures verdict == LastVerdict(rules, side, names, topic)
  {
    if best.None? {
      forall d ensures !Candidate(index, d, names, topic) {
        assert Candidate(index, d, names, topic) ==> d in from;
      }
      NoCandidateMeansDeny(rules, side, names, topic);
    } else {
      var e := from[best.value];
      forall d | d in index && Candidate(index, d, names, topic) ensures index[d].1 <= index[e].1 {
        assert d in from;
      }
      assert e in from;
      WinnerIsLastVerdict(rules, side, names, topic, e);
    }
  }

  /** The decision taken over the index, whatever order the entries are visited in. */
  method Decide(m: AuthMap, names: set<string>, topic: seq<Level>, ghost rules: seq<Rule>, ghost side: Side)
    returns (verdict: AuthType)
    requires m.Valid() && m.view.store == Index(rules, side) && Ordered(rules)
    ensures verdict == LastVerdict(rules, side, names, topic)
  {
    hide Stands;
    hide Index;
    hide LastVerdict;
    hide Ordered;
    hide Matches;
    hide CallsMatching;
    hide Called;
    hide Single;
    verdict := Deny;
    var priority := 0;
    var calls, from := m.Find(topic);
    ghost var index := m.view.store;
    ghost var best: Option<nat> := None;
    for i := 0 to |calls|
      invariant BestSoFar(index, from, names, i, best, verdict, priority)
    {
      var (name, entry) := calls[i];
      if name in names {
        if entry.1 >= priority {
          verdict, priority := entry.0, entry.1;
          best := Some(i);
        }
      }
    }
    BestIsLastVerdict(rules, side, index, from, names, topic, best, verdict, priority);
  }

  // ----- delivering: a verdict for every name

  /** What the callbacks so far say about one name. */
  ghost predicate NameBest(index: Verdicts, from: seq<Entry<string>>, n: nat, name: string,
                           result: map<string, AuthType>, priorities: map<string, nat>)
    requires n <= |from| && forall i | 0 <= i < |from| :: from[i] in index
  {
    if name in result then
      name in priorities && exists b: nat :: BestSoFar(index, from, {name}, n, Some(b), result[name], priorities[name])
    else BestSoFar(index, from, {name}, n, None, Deny, 0)
  }

  lemma NameOther(index: Verdicts, from: seq<Entry<string>>, n: nat, name: string, result: map<string, AuthType>,
                  priorities: map<string, nat>)
    requires n < |from| && forall i | 0 <= i < |from| :: from[i] in index
    requires NameBest(index, from, n, name, result, priorities) && from[n].key != name
    ensures NameBest(index, from, n + 1, name, result, priorities)
  {
    if name in result {
      var b: nat :| BestSoFar(index, from, {name}, n, Some(b), result[name], priorities[name]);
      assert BestSoFar(index, from, {name}, n + 1, Some(b), result[name], priorities[name]);
    }
  }

  /** The verdict of the callback replaces what is known of its name, unless that has a greater rule number. */
  lemma NameStep(index: Verdicts, from: seq<Entry<string>>, n: nat, result: map<string, AuthType>,
                 priorities: map<string, nat>)
    requires n < |from| && forall i | 0 <= i < |from| :: from[i] in index
    requires NameBest(index, from, n, from[n].key, result, priorities)
    ensures var name, v := from[n].key, index[from[n]];
            if name !in result || priorities[name] <= v.1
            then NameBest(index, from, n + 1, name, result[name := v.0], priorities[name := v.1])
            else NameBest(index, from, n + 1, name, result, priorities)
  {
    var name, v := from[n].key, index[from[n]];
    if name in result {
      var b: nat :| BestSoFar(index, from, {name}, n, Some(b), result[name], priorities[name]);
      assert priorities[name] > v.1 ==> BestSoFar(index, from, {name}, n + 1, Some(b), result[name], priorities[name]);
      assert priorities[name] <= v.1 ==> BestSoFar(index, from, {name}, n + 1, Some(n), v.0, v.1);
    } else {
      assert BestSoFar(index, from, {name}, n + 1, Some(n), v.0, v.1);
    }
  }

  /** Some rule for subscribers applies to the name. */
  predicate Mentioned(rules: seq<Rule>, topic: seq<Level>, name: string) {
    exists i :: 0 <= i < |rules| && Applies(rules[i], Sub, {name}, topic)
  }

  /** Each name has the verdict of a scan for that name alone, and is absent exactly when no rule applies to it. */
  ghost predicate PerName(rules: seq<Rule>, topic: seq<Level>, result: map<string, AuthType>) {
    forall n ::
      && (n in result <==> Mentioned(rules, topic, n))
      && (n in result ==> result[n] == LastVerdict(rules, Sub, {n}, topic))
  }

  lemma NameVerdict(rules: seq<Rule>, index: Verdicts, from: seq<Entry<string>>, topic: seq<Level>, name: string,
                    result: map<string, AuthType>, priorities: map<string, nat>)
    requires index == Index(rules, Sub) && Ordered(rules)
    requires forall i | 0 <= i < |from| :: from[i] in index
    requires forall e :: e in from <==> e in index && Matches(e.filter, topic)
    requires NameBest(index, from, |from|, name, result, priorities)
    ensures name in result <==> Mentioned(rules, topic, name)
    ensures name in result ==> result[name] == LastVerdict(rules, Sub, {name}, topic)
  {
    hide Index;
    hide LastVerdict;
    if name in result {
      var b: nat :| BestSoFar(index, from, {name}, |from|, Some(b), result[name], priorities[name]);
      BestIsLastVerdict(rules, Sub, index, from, {name}, topic, Some(b), result[name], priorities[name]);
      var e := from[b];
      assert e in from;
      IndexKeys(rules, Sub, e);
      var i :| 0 <= i < |rules| && Names(rules[i], Sub, e);
      assert Applies(rules[i], Sub, {name}, topic);
    } else {
      forall d ensures !Candidate(index, d, {name}, topic) {
        assert Candidate(index, d, {name}, topic) ==> d in from;
      }
      NoCandidateMeansDeny(rules, Sub, {name}, topic);
    }
  }

  /** auth_sub over the index, whatever order the entries are visited in. */
  method VerdictsByName(m: AuthMap, topic: seq<Level>, ghost rules: seq<Rule>) returns (result: map<string, AuthType>)
    requires m.Valid() && m.view.store == Index(rules, Sub) && Ordered(rules)
    ensures PerName(rules, topic, result)
  {
    hide Stands;
    hide Index;
    hide LastVerdict;
    hide Ordered;
    hide Matches;
    hide CallsMatching;
    hide Called;
    hide Single;
    hide NameBest;
    result := map[];
    var priorities: map<string, nat> := map[];
    var calls, from := m.Find(topic);
    ghost var index := m.view.store;
    NoneYet(index, from);
    for i := 0 to |calls|
      invariant result.Keys == priorities.Keys
      invariant forall n :: NameBest(index, from, i, n, result, priorities)
    {
      var (name, entry) := calls[i];
      NameStep(index, from, i, result, priorities);
      ghost var result0, priorities0 := result, priorities;
      if name !in result {
        result, priorities := result[name := entry.0], priorities[name := entry.1];
      } else if priorities[name] <= entry.1 {
        result, priorities := result[name := entry.0], priorities[name := entry.1];
      }
      ghost var next := i + 1;
      forall n ensures NameBest(index, from, next, n, result, priorities) {
        if n != name {
          NameOther(index, from, i, n, result0, priorities0);
          NameLocal(index, from, next, n, result0, priorities0, result, priorities);
        }
      }
    }
    forall n ensures n in result <==> Mentioned(rules, topic, n)
             ensures n in result ==> result[n] == LastVerdict(rules, Sub, {n}, topic) {
      NameVerdict(rules, index, from, topic, n, result, priorities);
    }
  }

  lemma NoneYet(index: Verdicts, from: seq<Entry<string>>)
    requires forall i | 0 <= i < |from| :: from[i] in index
    ensures forall n :: NameBest(index, from, 0, n, map[], map[])
  {
  }

  lemma NameLocal(index: Verdicts, from: seq<Entry<string>>, n: nat, name: string, result: map<string, AuthType>,
                  priorities: map<string, nat>, result': map<string, AuthType>, priorities': map<string, nat>)
    requires n <= |from| && forall i | 0 <= i < |from| :: from[i] in index
    requires NameBest(index, from, n, name, result, priorities)
    requires (name in result <==> name in result') && (name in priorities <==> name in priorities')
    requires name in result ==> result[name] == result'[name]
    requires name in priorities ==> priorities[name] == priorities'[name]
    ensures NameBest(index, from, n, name, result', priorities')
  {
  }

  /** The name whose verdict counts for a user: its own, else the first of its groups that has a verdict. */
  predicate Asked(verdicts: set<string>, names: set<string>, user: string, n: string) {
    n in names && n in verdicts && if user in verdicts then n == user else NameOrder.IsFirst(n, names * verdicts)
  }

  /** The name that counts for the user is allowed the topic by the last rule that applies to it. */
  ghost predicate MayReceive(rules: seq<Rule>, topic: seq<Level>, names: set<string>, user: string) {
    exists n :: Asked(MentionedOf(rules, topic, names), names, user, n) && LastVerdict(rules, Sub, {n}, topic) == Allow
  }

  ghost function MentionedOf(rules: seq<Rule>, topic: seq<Level>, names: set<string>): set<string> {
    set m | m in names && Mentioned(rules, topic, m)
  }

  /**
   * The verdict is that of the last rule for any of the names exactly when this rule mentions `n`, else of an earlier
   * one.
   */
  ghost predicate FromRuleOf(rules: seq<Rule>, topic: seq<Level>, names: set<string>, n: string, verdict: AuthType) {
    forall i: nat, k: nat | Decides(rules, Sub, i, names, topic) && Decides(rules, Sub, k, {n}, topic) ::
      verdict == TypeOf(rules[k], Sub) && k <= i && (k == i <==> n in NamedBy(rules[i], Sub))
  }

  lemma MayReceiveMeans(rules: seq<Rule>, topic: seq<Level>, result: map<string, AuthType>, names: set<string>,
                        user: string, verdict: AuthType)
    requires PerName(rules, topic, result) && user in names
    requires names !! result.Keys ==> verdict == Deny
    requires !(names !! result.Keys) ==> exists n :: Asked(result.Keys, names, user, n) && verdict == result[n]
    ensures verdict == Allow <==> MayReceive(rules, topic, names, user)
  {
    hide Mentioned;
    hide LastVerdict;
    var mentioned := MentionedOf(rules, topic, names);
    assert names * mentioned == names * result.Keys && (user in mentioned <==> user in result);
    forall n ensures Asked(mentioned, names, user, n) <==> Asked(result.Keys, names, user, n) {
    }
    if n :| Asked(result.Keys, names, user, n) && verdict == result[n] {
      forall m | Asked(result.Keys, names, user, m) ensures m == n {
        AskedUnique(result.Keys, names, user, n, m);
      }
    }
  }

  /** Some name is asked exactly when one of the names has a verdict. */
  lemma AskedFrom(verdicts: set<string>, names: set<string>, user: string)
    requires user in names
    ensures (exists n :: Asked(verdicts, names, user, n)) <==> !(names !! verdicts)
  {
    if n :| Asked(verdicts, names, user, n) {
      assert n in names && n in verdicts;
    }
    if !(names !! verdicts) {
      if user in verdicts {
        assert Asked(verdicts, names, user, user);
      } else {
        var m :| m in names && m in verdicts;
        assert m in names * verdicts;
        var n := NameOrder.FirstOf(names * verdicts);
        assert Asked(verdicts, names, user, n);
      }
    }
  }

  lemma AskedUnique(verdicts: set<string>, names: set<string>, user: string, n: string, m: string)
    requires Asked(verdicts, names, user, n) && Asked(verdicts, names, user, m)
    ensures n == m
  {
    if user !in verdicts {
      NameOrder.FirstUnique(n, m, names * verdicts);
    }
  }

  /** Some rule speaks of the name. */
  predicate HasRule(rules: seq<Rule>, topic: seq<Level>, n: string) {
    exists i :: 0 <= i < |rules| && SubRule(rules[i], n, topic)
  }

  /** A group the user is in, by its list or as "@any". */
  predicate InGroup(groups: map<string, seq<string>>, user: string, g: string) {
    g in groups && (g == "@any" || user in groups[g])
  }

  /**
   * The name that is asked: the user's own if some rule speaks of it, and else the first of its groups of which some
   * rule does.
   */
  ghost predicate AskedName(rules: seq<Rule>, groups: map<string, seq<string>>, topic: seq<Level>, user: string,
                            n: string) {
    && HasRule(rules, topic, n)
    && (n == user
        || (&& !HasRule(rules, topic, user) && InGroup(groups, user, n)
            && forall g | InGroup(groups, user, g) && HasRule(rules, topic, g) :: NameOrder.UpTo(n, g)))
  }

  lemma AskedSpelled(rules: seq<Rule>, groups: map<string, seq<string>>, topic: seq<Level>,
                     result: map<string, AuthType>, user: string, n: string)
    requires PerName(rules, topic, result)
    ensures Asked(result.Keys, NamesOf(groups, user), user, n) <==> AskedName(rules, groups, topic, user, n)
    ensures n in result <==> HasRule(rules, topic, n)
  {
    hide LastVerdict;
    forall m ensures m in result <==> HasRule(rules, topic, m) {
      SubVerdict(rules, m, topic);
    }
    hide HasRule;
    NameOrder.Total(n, n);
    if !(user in result) {
      assert forall m :: m in NamesOf(groups, user) * result.Keys <==> InGroup(groups, user, m) && m in result;
    }
  }

  /** auth_sub_user: the verdict for the user's own name, else for the first of its groups that has one, else deny. */
  method VerdictForUser(result: map<string, AuthType>, groups: map<string, seq<string>>, user: string)
    returns (verdict: AuthType)
    ensures NamesOf(groups, user) !! result.Keys ==> verdict == Deny
    ensures !(NamesOf(groups, user) !! result.Keys) ==> exists n ::
            Asked(result.Keys, NamesOf(groups, user), user, n) && verdict == result[n]
  {
    if user in result {
      assert Asked(result.Keys, NamesOf(groups, user), user, user);
      return result[user];
    }
    var rest := groups.Keys;
    while rest != {}
      invariant rest <= groups.Keys
      invariant NamesOf(groups, user) * result.Keys <= rest
    {
      var g := NameOrder.First(rest);
      if (g == ANY_GROUP || user in groups[g]) && g in result {
        assert g in NamesOf(groups, user);
        assert Asked(result.Keys, NamesOf(groups, user), user, g);
        return result[g];
      }
      rest := rest - {g};
    }
    verdict := Deny;
  }

  lemma SilentNames(rules: seq<Rule>, topic: seq<Level>, names: set<string>)
    requires forall n | n in names :: !Mentioned(rules, topic, n)
    ensures LastVerdict(rules, Sub, names, topic) == Deny
  {
    hide LastVerdict;
    forall i | 0 <= i < |rules| ensures !Applies(rules[i], Sub, names, topic) {
      assert forall n | n in names :: !Mentioned(rules, topic, n) && !Applies(rules[i], Sub, {n}, topic);
    }
    LastVerdictMeans(rules, Sub, names, topic);
  }

  /** The rule that decides for a set of names decides for one of them alone exactly when it mentions that one. */
  lemma DecidesForName(rules: seq<Rule>, topic: seq<Level>, names: set<string>, name: string, i: nat)
    requires Decides(rules, Sub, i, names, topic) && name in names
    ensures Decides(rules, Sub, i, {name}, topic) <==> name in NamedBy(rules[i], Sub)
  {
    forall j | i < j < |rules| ensures !Applies(rules[j], Sub, {name}, topic) {
      assert !Applies(rules[j], Sub, names, topic);
    }
    assert Applies(rules[i], Sub, {name}, topic) <==> name in NamedBy(rules[i], Sub);
  }

  /**
   * Rule `i` decides for all names of a user and rule `k` for the one that is asked: `k` is the same rule exactly when
   * rule `i` mentions that name, and an earlier one otherwise.
   */
  lemma DeliveryMeetsLastRule(rules: seq<Rule>, topic: seq<Level>, names: set<string>, name: string, i: nat, k: nat)
    requires Decides(rules, Sub, i, names, topic) && name in names && Decides(rules, Sub, k, {name}, topic)
    ensures k <= i && (k == i <==> name in NamedBy(rules[i], Sub))
    ensures LastVerdict(rules, Sub, {name}, topic) == TypeOf(rules[k], Sub)
    ensures LastVerdict(rules, Sub, names, topic) == TypeOf(rules[i], Sub)
  {
    hide LastVerdict;
    DecidesForName(rules, topic, names, name, i);
    LastVerdictMeans(rules, Sub, names, topic);
    LastVerdictMeans(rules, Sub, {name}, topic);
    assert Applies(rules[k], Sub, names, topic);
  }

  /** Otherwise it need not: a denial for the user outweighs a later permission for its group. */
  lemma OwnNameFirst()
    ensures var f: Filter := [Name("t")];
            var rules := [Rule(f, 1, Deny, {"u"}, NoType, {}), Rule(f, 2, Allow, {"@g"}, NoType, {})];
            LastVerdict(rules, Sub, {"u"}, f) == Deny && LastVerdict(rules, Sub, {"u", "@g"}, f) == Allow
  {
    var f: Filter := [Name("t")];
    var rules := [Rule(f, 1, Deny, {"u"}, NoType, {}), Rule(f, 2, Allow, {"@g"}, NoType, {})];
    assert Agrees(f, f) && Matches(f, f);
    assert "@g" in NamedBy(rules[1], Sub) && NamedBy(rules[1], Sub) == {"@g"};
    assert Applies(rules[1], Sub, {"u", "@g"}, f);
    assert !Applies(rules[1], Sub, {"u"}, f);
    assert "u" in NamedBy(rules[0], Sub);
    assert Applies(rules[0], Sub, {"u"}, f);
    assert Decides(rules, Sub, 0, {"u"}, f);
    assert Decides(rules, Sub, 1, {"u", "@g"}, f);
    LastVerdictMeans(rules, Sub, {"u"}, f);
    LastVerdictMeans(rules, Sub, {"u", "@g"}, f);
  }

  /** The name checks of add_auth: no empty name, no unknown group, no unknown user. */
  predicate KnownName(groups: map<string, seq<string>>, users: set<string>, name: string) {
    IsName(name) && if name[0] == '@' then name in groups else name in users
  }

  /** The rule list with its publish and subscribe indexes. */
  class Security {
    var rules: seq<Rule>
    var groups: map<string, seq<string>>
    var users: set<string>
    const authPubMap: AuthMap
    const authSubMap: AuthMap

    ghost var lostPub: Pairs
    ghost var lostSub: Pairs

    ghost predicate Base()
      reads this, authPubMap, authSubMap
    {
      authPubMap != authSubMap && authPubMap.Valid() && authSubMap.Valid() && Ordered(rules)
    }

    /** The indexes hold the verdicts of the rule list, less the lost entries. */
    ghost predicate Intact()
      reads this, authPubMap, authSubMap
    {
      && Base()
      && lostPub <= Index(rules, Pub).Keys && authPubMap.view.store == Index(rules, Pub) - lostPub
      && lostSub <= Index(rules, Sub).Keys && authSubMap.view.store == Index(rules, Sub) - lostSub
    }

    /** Both indexes hold exactly the verdicts of the rule list. */
    ghost predicate Valid()
      reads this, authPubMap, authSubMap
    {
      Intact() && lostPub == {} && lostSub == {}
    }

    constructor (groups: map<string, seq<string>>, users: set<string>)
      ensures Valid() && fresh(authPubMap) && fresh(authSubMap)
      ensures rules == [] && this.groups == groups && this.users == users
    {
      hide Stands;
      rules := [];
      this.groups := groups;
      this.users := users;
      authPubMap := new MultipleSubscriptionMap();
      authSubMap := new MultipleSubscriptionMap();
      lostPub, lostSub := {}, {};
    }

    /** A rule list as the configuration gives it, not indexed yet. */
    constructor Load(rules: seq<Rule>, groups: map<string, seq<string>>, users: set<string>)
      requires Ordered(rules)
      ensures Intact() && fresh(authPubMap) && fresh(authSubMap)
      ensures authPubMap.view.store == map[] && authSubMap.view.store == map[]
      ensures this.rules == rules && this.groups == groups && this.users == users
    {
      hide Stands;
      this.rules := rules;
      this.groups := groups;
      this.users := users;
      authPubMap := new MultipleSubscriptionMap();
      authSubMap := new MultipleSubscriptionMap();
      lostPub, lostSub := Index(rules, Pub).Keys, Index(rules, Sub).Keys;
    }

    /** Enters one verdict for every known name, and stops at an unknown one; an empty name is skipped. */
    method IndexKnown(m: AuthMap, f: Filter, names: set<string>, v: (AuthType, nat))
      returns (ok: bool, ghost done: set<string>)
      requires m.Valid()
      modifies m
      ensures m.Valid() && m.view.store == old(m.view.store) + Entries(f, done, v)
      ensures forall n | n in done :: n in names && Known(n)
      ensures ok <==> forall n | n in names && IsName(n) :: Known(n)
      ensures ok ==> done == set n | n in names && IsName(n)
    {
      hide Stands;
      var rest := names;
      done := {};
      NoEntries(m.view.store, f, v);
      while rest != {}
        invariant rest <= names && done == set n | n in names - rest && IsName(n)
        invariant forall n | n in done :: Known(n)
        invariant m.Valid() && m.view.store == old(m.view.store) + Entries(f, done, v)
      {
        var n :| n in rest;
        if IsName(n) {
          if !Known(n) {
            return false, done;
          }
          EntriesInsert(old(m.view.store), f, done, n, v);
          var _, _ := m.InsertOrAssign(f, n, v);
          done := done + {n};
        }
        rest := rest - {n};
      }
      ok := true;
    }

    /** The loaded rules before the `n`-th are indexed, and of that one the given names. */
    ghost predicate IndexedUpTo(n: nat, sub: set<string>, pub: set<string>)
      requires n < |rules|
      reads this, authPubMap, authSubMap
    {
      var r := rules[n];
      && authSubMap.view.store == Index(rules[..n], Sub) + Entries(r.filter, sub, (r.subType, r.nr))
      && authPubMap.view.store == Index(rules[..n], Pub) + Entries(r.filter, pub, (r.pubType, r.nr))
    }

    /**
     * Indexes the loaded rules in order; false where the code throws on an unknown name, which leaves the rules before
     * that one and a part of its names in the indexes, of those for publishers only when all for subscribers are known.
     */
    method Validate() returns (ok: bool, ghost n: nat, ghost sub: set<string>, ghost pub: set<string>)
      requires Base() && authPubMap.view.store == map[] && authSubMap.view.store == map[]
      modifies authPubMap, authSubMap, this`lostPub, this`lostSub
      ensures Base()
      ensures ok <==> forall i | 0 <= i < |rules| :: Acceptable(rules[i])
      ensures ok <==> forall i, m | 0 <= i < |rules| && m in rules[i].pub + rules[i].sub && m != "" ::
                if "@" <= m then m in groups else m in users
      ensures ok ==> Valid()
      ensures !ok ==>
                && n < |rules| && !Acceptable(rules[n]) && (forall i | 0 <= i < n :: Acceptable(rules[i]))
                && IndexedUpTo(n, sub, pub) && (forall m | m in sub :: m in rules[n].sub && Known(m))
                && (forall m | m in pub :: m in rules[n].pub && Known(m))
                && (pub != {} ==> sub == NamedBy(rules[n], Sub))
    {
      hide Stands;
      hide Index;
      IndexNone(Pub);
      IndexNone(Sub);
      assert rules[..0] == [];
      n, sub, pub := 0, {}, {};
      for i := 0 to |rules|
        invariant Base()
        invariant forall j | 0 <= j < i :: Acceptable(rules[j])
        invariant authPubMap.view.store == Index(rules[..i], Pub) && authSubMap.view.store == Index(rules[..i], Sub)
      {
        var r := rules[i];
        n, sub, pub := i, {}, {};
        NoEntries(authPubMap.view.store, r.filter, (r.pubType, r.nr));
        ok, sub := IndexKnown(authSubMap, r.filter, r.sub, (r.subType, r.nr));
        if !ok {
          return;
        }
        ok, pub := IndexKnown(authPubMap, r.filter, r.pub, (r.pubType, r.nr));
        if !ok {
          return;
        }
        RuleEntriesAre(r, Pub);
        RuleEntriesAre(r, Sub);
        IndexSnoc(rules[..i], r, Pub);
        IndexSnoc(rules[..i], r, Sub);
        TakeSnoc(rules, i);
      }
      assert rules[..|rules|] == rules;
      lostPub, lostSub := {}, {};
      ok := true;
    }

    /** Every name of the rule is empty, which is skipped, or known. */
    predicate Acceptable(r: Rule)
      reads this
    {
      forall n | n in r.pub + r.sub :: IsName(n) ==> Known(n)
    }

    predicate Known(name: string)
      reads this
    {
      KnownName(groups, users, name)
    }

    /** Appends a rule with the next number; None where the code throws on a bad name, leaving everything as it was. */
    method AddAuth(f: Filter, pub: set<string>, pubType: AuthType, sub: set<string>, subType: AuthType)
      returns (nr: Option<nat>)
      requires Intact()
      modifies this`rules, this`lostPub, this`lostSub, authPubMap, authSubMap
      ensures Intact() && (old(Valid()) ==> Valid())
      ensures nr.Some? <==> forall n | n in pub + sub :: Known(n)
      ensures nr.Some? <==> forall n | n in pub + sub ::
                if "@" <= n then n in groups else n != "" && n in users
      ensures nr.Some? ==> nr.value > 0 && (forall i | 0 <= i < |old(rules)| :: old(rules)[i].nr < nr.value)
                           && (nr.value == 1 || exists i :: 0 <= i < |old(rules)| && old(rules)[i].nr + 1 == nr.value)
      ensures nr.None? ==> rules == old(rules) && lostPub == old(lostPub) && lostSub == old(lostSub)
      ensures nr.Some? ==> rules == old(rules) + [Rule(f, nr.value, subType, sub, pubType, pub)]
      ensures nr.Some? ==> lostPub == old(lostPub) - PairsOf(f, pub) && lostSub == old(lostSub) - PairsOf(f, sub)
    {
      hide Stands;
      hide Index;
      if exists n :: n in pub + sub && !Known(n) {
        return None;
      }
      var next := NextRuleNr(rules);
      var r := Rule(f, next, subType, sub, pubType, pub);
      NewEntries(rules, r);
      AdditionLost(Index(rules, Sub), Entries(f, sub, (subType, next)), lostSub);
      AdditionLost(Index(rules, Pub), Entries(f, pub, (pubType, next)), lostPub);
      IndexNames(authSubMap, f, sub, (subType, next));
      IndexNames(authPubMap, f, pub, (pubType, next));
      rules := rules + [r];
      EntriesKeys(f, sub, (subType, next));
      EntriesKeys(f, pub, (pubType, next));
      lostPub, lostSub := lostPub - PairsOf(f, pub), lostSub - PairsOf(f, sub);
      nr := Some(next);
    }

    /**
     * Removes the rule with number `nr`, if there is one, and erases its names from both indexes. An exact index stays
     * exact exactly when no other rule shares an entry with the removed one.
     */
    method RemoveAuth(nr: nat) returns (ghost removed: Option<nat>)
      requires Intact()
      modifies this`rules, this`lostPub, this`lostSub, authPubMap, authSubMap
      ensures Intact()
      ensures removed.None? <==> forall i | 0 <= i < |old(rules)| :: old(rules)[i].nr != nr
      ensures removed.None? ==> rules == old(rules) && lostPub == old(lostPub) && lostSub == old(lostSub)
      ensures removed.Some? ==>
                var i := removed.value;
                && i < |old(rules)| && old(rules)[i].nr == nr && rules == Without(old(rules), i)
                && lostPub == LostAfter(old(rules), Pub, i, old(lostPub))
                  && lostSub == LostAfter(old(rules), Sub, i, old(lostSub))
                && (old(Valid()) ==> (Valid() <==> Removable(old(rules), Pub, i) && Removable(old(rules), Sub, i)))
    {
      hide Stands;
      hide Index;
      hide LostAfter;
      hide Removable;
      for i := 0 to |rules|
        invariant rules == old(rules) && lostPub == old(lostPub) && lostSub == old(lostSub) && Intact()
        invariant forall j | 0 <= j < i :: rules[j].nr != nr
      {
        if rules[i].nr == nr {
          var r := rules[i];
          EraseNames(authSubMap, r.filter, r.sub, (r.subType, r.nr));
          EraseNames(authPubMap, r.filter, r.pub, (r.pubType, r.nr));
          ErasedRule(rules, r.sub, Sub, i, lostSub);
          ErasedRule(rules, r.pub, Pub, i, lostPub);
          NothingLostExact(rules, Sub, i);
          NothingLostExact(rules, Pub, i);
          OrderedWithout(rules, i);
          lostPub, lostSub := LostAfter(rules, Pub, i, lostPub), LostAfter(rules, Sub, i, lostSub);
          rules := Without(rules, i);
          return Some(i);
        }
      }
      removed := None;
    }

    /**
     * Whether `user` may publish to `topic`: the verdict of the last rule that applies, deny if none does, where rules
     * apply through the names whose entry is not lost.
     */
    method AuthPub(topic: seq<Level>, user: string) returns (verdict: AuthType)
      requires Intact()
      ensures verdict == LastVerdict(Effective(rules, Pub, lostPub), Pub, NamesOf(groups, user), topic)
      ensures Valid() ==> verdict == LastVerdict(rules, Pub, NamesOf(groups, user), topic)
      ensures var known := Effective(rules, Pub, lostPub);
              && (forall i | 0 <= i < |known| && PubRule(known[i], groups, user, topic)
                             && (forall j | i < j < |known| :: !PubRule(known[j], groups, user, topic)) ::
                    verdict == known[i].pubType)
              && ((forall i | 0 <= i < |known| :: !PubRule(known[i], groups, user, topic)) ==> verdict == Deny)
    {
      hide Stands;
      hide PubRule;
      PubVerdict(Effective(rules, Pub, lostPub), groups, user, topic);
      IndexEffective(rules, Pub, lostPub);
      EffectiveOrdered(rules, Pub, lostPub);
      NothingLost(rules, Pub);
      verdict := Decide(authPubMap, NamesOf(groups, user), topic, Effective(rules, Pub, lostPub), Pub);
    }

    /** The verdicts of a topic by name. */
    method AuthSub(topic: seq<Level>) returns (result: map<string, AuthType>)
      requires Intact()
      ensures PerName(Effective(rules, Sub, lostSub), topic, result)
      ensures Valid() ==> PerName(rules, topic, result)
    {
      hide Stands;
      IndexEffective(rules, Sub, lostSub);
      EffectiveOrdered(rules, Sub, lostSub);
      NothingLost(rules, Sub);
      result := VerdictsByName(authSubMap, topic, Effective(rules, Sub, lostSub));
    }

    /**
     * Whether `user` may be sent a message on the topic that `result` was computed for, where `known` are the rules as
     * the index knows them: the verdict for the one name that is asked. It comes from the last rule that applies to any
     * name of the user exactly when that rule mentions the asked name, and from an earlier one otherwise.
     */
    method AuthSubUser(result: map<string, AuthType>, user: string, ghost topic: seq<Level>, ghost known: seq<Rule>)
      returns (verdict: AuthType)
      requires PerName(known, topic, result)
      ensures verdict == Allow <==> MayReceive(known, topic, NamesOf(groups, user), user)
      ensures (forall n | n in NamesOf(groups, user) :: !Mentioned(known, topic, n)) ==>
                verdict == Deny == LastVerdict(known, Sub, NamesOf(groups, user), topic)
      ensures forall n | Asked(result.Keys, NamesOf(groups, user), user, n) ::
                verdict == LastVerdict(known, Sub, {n}, topic)
                  && FromRuleOf(known, topic, NamesOf(groups, user), n, verdict)
      ensures (forall n :: !AskedName(known, groups, topic, user, n)) ==> verdict == Deny
      ensures forall n, i | AskedName(known, groups, topic, user, n) && 0 <= i < |known| && SubRule(known[i], n, topic)
                            && (forall j | i < j < |known| :: !SubRule(known[j], n, topic)) ::
                verdict == known[i].subType
    {
      hide FromRuleOf;
      hide MayReceive;
      hide Mentioned;
      hide LastVerdict;
      hide NamesOf;
      hide Asked;
      verdict := VerdictForUser(result, groups, user);
      OwnName(groups, user);
      DeliveryExact(known, topic, result, NamesOf(groups, user), user, verdict);
      hide AskedName;
      hide SubRule;
      forall n
        ensures Asked(result.Keys, NamesOf(groups, user), user, n) <==> AskedName(known, groups, topic, user, n)
      {
        AskedSpelled(known, groups, topic, result, user, n);
        SubVerdict(known, n, topic);
      }
      AskedFrom(result.Keys, NamesOf(groups, user), user);
      forall n, i | AskedName(known, groups, topic, user, n) && 0 <= i < |known| && SubRule(known[i], n, topic)
                    && (forall j | i < j < |known| :: !SubRule(known[j], n, topic))
        ensures verdict == known[i].subType
      {
        SubVerdict(known, n, topic);
      }
    }

    /** Whether `user` may subscribe to `f`. */
    method AuthorizeSubscribe(user: string, f: Filter) returns (ok: bool)
      ensures ok <==> exists i: nat :: Grants(rules, i, NamesOf(groups, user), f)
      ensures AllValid(rules) && FilterAlgebra.ValidFilter(f) ==>
                (ok <==> exists i: nat :: GrantsTopics(rules, i, NamesOf(groups, user), f))
      ensures ok <==> exists i: nat :: GrantsUser(rules, i, groups, user, f)
    {
      ok := IsSubscribeAuthorized(rules, groups, user, f);
    }
  }

  /** A rule all of whose names are non-empty is indexed under all of them. */
  lemma NewEntries(rules: seq<Rule>, r: Rule)
    requires forall n | n in r.pub + r.sub :: IsName(n)
    ensures Index(rules + [r], Pub) == Index(rules, Pub) + Entries(r.filter, r.pub, (r.pubType, r.nr))
    ensures Index(rules + [r], Sub) == Index(rules, Sub) + Entries(r.filter, r.sub, (r.subType, r.nr))
  {
    assert forall n | n in r.pub || n in r.sub :: n in r.pub + r.sub;
    assert NamedBy(r, Pub) == r.pub && NamedBy(r, Sub) == r.sub;
    RuleEntriesAre(r, Pub);
    RuleEntriesAre(r, Sub);
    IndexSnoc(rules, r, Pub);
    IndexSnoc(rules, r, Sub);
  }

  function PairsOf(f: Filter, names: set<string>): Pairs {
    set n | n in names :: Entry(f, n)
  }

  lemma EntriesKeys(f: Filter, names: set<string>, v: (AuthType, nat))
    ensures Entries(f, names, v).Keys == PairsOf(f, names)
  {
  }

  lemma IndexNone(side: Side)
    ensures Index([], side) == map[]
  {
  }

  /** Names that were never indexed have no entry to erase. */
  lemma NoEmptyNames(rules: seq<Rule>, names: set<string>, side: Side, i: nat)
    requires i < |rules| && names == if side.Pub? then rules[i].pub else rules[i].sub
    ensures var v := (TypeOf(rules[i], side), rules[i].nr);
            Index(rules, side) - Entries(rules[i].filter, names, v).Keys
              == Index(rules, side) - RuleEntries(rules[i], side).Keys
  {
    var v := (TypeOf(rules[i], side), rules[i].nr);
    RuleEntriesAre(rules[i], side);
    forall e | e in Entries(rules[i].filter, names, v) && e !in RuleEntries(rules[i], side)
      ensures e !in Index(rules, side)
    {
      IndexKeys(rules, side, e);
    }
  }

  lemma MinusSwap(m: Verdicts, a: Pairs, b: Pairs, c: Pairs)
    requires m - a == m - b
    ensures (m - c) - a == (m - c) - b
  {
    assert (m - c) - a == (m - a) - c && (m - c) - b == (m - b) - c;
  }

  /** What erasing all names of a rule leaves in an index. */
  lemma ErasedRule(rules: seq<Rule>, names: set<string>, side: Side, i: nat, lost: Pairs)
    requires i < |rules| && names == if side.Pub? then rules[i].pub else rules[i].sub
    ensures (Index(rules, side) - lost) - Entries(rules[i].filter, names, (TypeOf(rules[i], side), rules[i].nr)).Keys
         == Index(Without(rules, i), side) - LostAfter(rules, side, i, lost)
    ensures LostAfter(rules, side, i, lost) <= Index(Without(rules, i), side).Keys
  {
    var v := (TypeOf(rules[i], side), rules[i].nr);
    NoEmptyNames(rules, names, side, i);
    MinusSwap(Index(rules, side), Entries(rules[i].filter, names, v).Keys, RuleEntries(rules[i], side).Keys, lost);
    RemovalLost(rules, side, i, lost);
  }

  lemma OwnName(groups: map<string, seq<string>>, user: string)
    ensures user in NamesOf(groups, user)
  {
  }

  /** What the verdict for the name that is asked means. */
  lemma DeliveryExact(known: seq<Rule>, topic: seq<Level>, result: map<string, AuthType>, names: set<string>,
                      user: string, verdict: AuthType)
    requires PerName(known, topic, result) && user in names
    requires names !! result.Keys ==> verdict == Deny
    requires !(names !! result.Keys) ==> exists n :: Asked(result.Keys, names, user, n) && verdict == result[n]
    ensures verdict == Allow <==> MayReceive(known, topic, names, user)
    ensures (forall n | n in names :: !Mentioned(known, topic, n)) ==>
            verdict == Deny == LastVerdict(known, Sub, names, topic)
    ensures forall n | Asked(result.Keys, names, user, n) ::
              verdict == LastVerdict(known, Sub, {n}, topic) && FromRuleOf(known, topic, names, n, verdict)
  {
    hide Mentioned;
    hide LastVerdict;
    if forall n | n in names :: !Mentioned(known, topic, n) {
      SilentNames(known, topic, names);
    }
    forall n | Asked(result.Keys, names, user, n)
      ensures verdict == LastVerdict(known, Sub, {n}, topic) && FromRuleOf(known, topic, names, n, verdict)
    {
      AskedVerdict(known, topic, result, names, user, n, verdict);
      FromItsRule(known, topic, names, n);
    }
    MayReceiveMeans(known, topic, result, names, user, verdict);
  }

  lemma FromItsRule(rules: seq<Rule>, topic: seq<Level>, names: set<string>, n: string)
    requires n in names
    ensures FromRuleOf(rules, topic, names, n, LastVerdict(rules, Sub, {n}, topic))
  {
    hide LastVerdict;
    forall i: nat, k: nat | Decides(rules, Sub, i, names, topic) && Decides(rules, Sub, k, {n}, topic)
      ensures LastVerdict(rules, Sub, {n}, topic) == TypeOf(rules[k], Sub) && k <= i
              && (k == i <==> n in NamedBy(rules[i], Sub))
    {
      DeliveryMeetsLastRule(rules, topic, names, n, i, k);
    }
  }

  lemma AskedVerdict(rules: seq<Rule>, topic: seq<Level>, result: map<string, AuthType>, names: set<string>,
                     user: string, n: string, verdict: AuthType)
    requires PerName(rules, topic, result) && Asked(result.Keys, names, user, n)
    requires exists m :: Asked(result.Keys, names, user, m) && verdict == result[m]
    ensures verdict == LastVerdict(rules, Sub, {n}, topic)
  {
    var m :| Asked(result.Keys, names, user, m) && verdict == result[m];
    AskedUnique(result.Keys, names, user, n, m);
  }

  /** Two rules for one filter and one user: removing the second also loses the first one's verdict. */
  lemma RemovalForgets()
    ensures var first := Rule([Name("a")], 1, NoType, {}, Allow, {"u"});
            var rules := [first, first.(nr := 2)];
            && Ordered(rules) && Without(rules, 1) == [first]
            && LastVerdict([first], Pub, {"u"}, [Name("a")]) == Allow
            && Index(rules, Pub) - RuleEntries(rules[1], Pub).Keys == map[]
  {
    var first := Rule([Name("a")], 1, NoType, {}, Allow, {"u"});
    var rules := [first, first.(nr := 2)];
    assert "u" in NamedBy(first, Pub);
    assert Applies(first, Pub, {"u"}, [Name("a")]);
    assert Init([first]) == [] && Init(rules) == [first];
    assert RuleEntries(first, Pub).Keys == RuleEntries(rules[1], Pub).Keys;
    var left := Index(rules, Pub) - RuleEntries(rules[1], Pub).Keys;
    assert Index([first], Pub) == RuleEntries(first, Pub);
    assert left.Keys == {};
  }
}
