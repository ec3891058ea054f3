/** Authorization rules: an ordered list, and the two decisions the broker takes from it. */
module Authorization {
  import opened Wrappers
  import opened TopicFilter
  import opened TrieModel
  import opened FilterAlgebra

  datatype AuthType = Deny | Allow | NoType

  datatype Rule = Rule(filter: Filter, nr: nat, subType: AuthType, sub: set<string>, pubType: AuthType,
    pub: set<string>)

  const ANY_GROUP := "@any"

  /** The names a user acts under: its own, "@any" where that group exists, and the groups it is a member of. */
  function NamesOf(groups: map<string, seq<string>>, user: string): set<string> {
    {user} + set g | g in groups && (g == ANY_GROUP || user in groups[g])
  }

  /** Some of the names is the user's own, or "@any" as a group there is, or a group that lists the user. */
  predicate Reaches(names: set<string>, groups: map<string, seq<string>>, user: string) {
    exists n :: n in names && (n == user || (n in groups && (n == "@any" || user in groups[n])))
  }

  lemma ReachesNames(names: set<string>, groups: map<string, seq<string>>, user: string)
    ensures Reaches(names, groups, user) <==> exists n :: n in names && n in NamesOf(groups, user)
  {
    if n :| n in names && n in NamesOf(groups, user) {
      assert n == user || (n in groups && (n == "@any" || user in groups[n]));
    }
  }

  /** Names that can be indexed: user and group names are not empty. */
  predicate IsName(s: string) {
    s != ""
  }

  /** Rules are numbered in the order they were added. */
  predicate Ordered(rules: seq<Rule>) {
    forall i, j | 0 <= i < j < |rules| :: rules[i].nr < rules[j].nr
  }

  /** The number after the greatest one in use. */
  method NextRuleNr(rules: seq<Rule>) returns (nr: nat)
    ensures nr > 0 && forall i | 0 <= i < |rules| :: rules[i].nr < nr
    ensures nr == 1 || exists i :: 0 <= i < |rules| && rules[i].nr + 1 == nr
  {
    var greatest := 0;
    for i := 0 to |rules|
      invariant forall j | 0 <= j < i :: rules[j].nr <= greatest
      invariant greatest == 0 || exists j :: 0 <= j < i && rules[j].nr == greatest
    {
      if rules[i].nr > greatest {
        greatest := rules[i].nr;
      }
    }
    nr := greatest + 1;
  }

  // ----- publishing and delivering: the last rule that applies decides

  /** A rule speaks for publishers and for subscribers separately. */
  datatype Side = Pub | Sub

  function TypeOf(r: Rule, side: Side): AuthType {
    if side.Pub? then r.pubType else r.subType
  }

  /** The names of a rule that can be indexed. */
  function NamedBy(r: Rule, side: Side): set<string> {
    set n | n in (if side.Pub? then r.pub else r.sub) && IsName(n)
  }

  predicate Applies(r: Rule, side: Side, names: set<string>, topic: seq<Level>) {
    Matches(r.filter, topic) && exists n :: n in NamedBy(r, side) && n in names
  }

  /** The decision of a plain scan over the rule list. */
  function LastVerdict(rules: seq<Rule>, side: Side, names: set<string>, topic: seq<Level>): AuthType {
    if rules == [] then Deny
    else if Applies(Last(rules), side, names, topic) then TypeOf(Last(rules), side)
    else LastVerdict(Init(rules), side, names, topic)
  }

  /**
   * The decision spelled out: the last rule for publishers that matches the topic and reaches the user decides, and the
   * topic is denied if there is none.
   */
  lemma PubVerdict(rules: seq<Rule>, groups: map<string, seq<string>>, user: string, topic: seq<Level>)
    ensures forall i | 0 <= i < |rules| && PubRule(rules[i], groups, user, topic)
                       && (forall j | i < j < |rules| :: !PubRule(rules[j], groups, user, topic)) ::
              LastVerdict(rules, Pub, NamesOf(groups, user), topic) == rules[i].pubType
    ensures (forall i | 0 <= i < |rules| :: !PubRule(rules[i], groups, user, topic)) ==>
              LastVerdict(rules, Pub, NamesOf(groups, user), topic) == Deny
  {
    var names := NamesOf(groups, user);
    forall i | 0 <= i < |rules|
      ensures PubRule(rules[i], groups, user, topic) <==> Applies(rules[i], Pub, names, topic)
    {
      ReachesNames(rules[i].pub - {""}, groups, user);
      assert NamedBy(rules[i], Pub) == rules[i].pub - {""};
    }
    LastVerdictMeans(rules, Pub, names, topic);
    forall i | 0 <= i < |rules| && PubRule(rules[i], groups, user, topic)
               && (forall j | i < j < |rules| :: !PubRule(rules[j], groups, user, topic))
      ensures LastVerdict(rules, Pub, names, topic) == rules[i].pubType
    {
      assert Decides(rules, Pub, i, names, topic);
    }
  }

  /** A rule that speaks of this publisher and topic; the empty name is never indexed. */
  predicate PubRule(r: Rule, groups: map<string, seq<string>>, user: string, topic: seq<Level>) {
    Matches(r.filter, topic) && Reaches(r.pub - {""}, groups, user)
  }

  /** A rule that speaks of this name for subscribers. */
  predicate SubRule(r: Rule, name: string, topic: seq<Level>) {
    Matches(r.filter, topic) && name in r.sub && name != ""
  }

  /** The same for one name and the rules for subscribers. */
  lemma SubVerdict(rules: seq<Rule>, name: string, topic: seq<Level>)
    ensures forall i | 0 <= i < |rules| && SubRule(rules[i], name, topic)
                       && (forall j | i < j < |rules| :: !SubRule(rules[j], name, topic)) ::
              LastVerdict(rules, Sub, {name}, topic) == rules[i].subType
    ensures (forall i | 0 <= i < |rules| :: !SubRule(rules[i], name, topic)) ==>
              LastVerdict(rules, Sub, {name}, topic) == Deny
    ensures forall i | 0 <= i < |rules| :: SubRule(rules[i], name, topic) <==> Applies(rules[i], Sub, {name}, topic)
  {
    hide Matches;
    forall i | 0 <= i < |rules| ensures SubRule(rules[i], name, topic) <==> Applies(rules[i], Sub, {name}, topic) {
      assert name in NamedBy(rules[i], Sub) <==> name in rules[i].sub && name != "";
    }
    LastVerdictMeans(rules, Sub, {name}, topic);
    hide LastVerdict;
    forall i | 0 <= i < |rules| && SubRule(rules[i], name, topic)
               && (forall j | i < j < |rules| :: !SubRule(rules[j], name, topic))
      ensures LastVerdict(rules, Sub, {name}, topic) == rules[i].subType
    {
      assert Decides(rules, Sub, i, {name}, topic);
    }
  }

  type Verdicts = map<Entry<string>, (AuthType, nat)>

  function RuleEntries(r: Rule, side: Side): Verdicts {
    map n | n in NamedBy(r, side) :: Entry(r.filter, n) := (TypeOf(r, side), r.nr)
  }

  /** What an index holds: for every filter and name, the verdict of the last rule that mentions them. */
  function Index(rules: seq<Rule>, side: Side): Verdicts {
    if rules == [] then map[] else Index(Init(rules), side) + RuleEntries(Last(rules), side)
  }

  predicate Names(r: Rule, side: Side, e: Entry<string>) {
    r.filter == e.filter && e.key in NamedBy(r, side)
  }

  /** Rule `i` is the last one with this filter that names `n`. */
  predicate LastNaming(rules: seq<Rule>, side: Side, i: nat, e: Entry<string>) {
    && i < |rules| && Names(rules[i], side, e)
    && forall j | i < j < |rules| :: !Names(rules[j], side, e)
  }

  lemma RuleEntriesAt(r: Rule, side: Side, e: Entry<string>)
    ensures e in RuleEntries(r, side) <==> Names(r, side, e)
    ensures Names(r, side, e) ==> RuleEntries(r, side)[e] == (TypeOf(r, side), r.nr)
  {
  }

  lemma {:induction false} IndexKeys(rules: seq<Rule>, side: Side, e: Entry<string>)
    ensures e in Index(rules, side) <==> exists i :: 0 <= i < |rules| && Names(rules[i], side, e)
    decreases |rules|
  {
    if rules != [] {
      var init := Init(rules);
      IndexKeys(init, side, e);
      RuleEntriesAt(Last(rules), side, e);
      assert forall i | 0 <= i < |init| :: init[i] == rules[i];
    }
  }

  lemma {:induction false} IndexAt(rules: seq<Rule>, side: Side, e: Entry<string>)
    requires e in Index(rules, side)
    ensures exists i: nat ::
              LastNaming(rules, side, i, e) && Index(rules, side)[e] == (TypeOf(rules[i], side), rules[i].nr)
    decreases |rules|
  {
    var init, r := Init(rules), Last(rules);
    RuleEntriesAt(r, side, e);
    if Names(r, side, e) {
      assert LastNaming(rules, side, |rules| - 1, e);
    } else {
      IndexAt(init, side, e);
      var i: nat :| LastNaming(init, side, i, e) && Index(init, side)[e] == (TypeOf(init[i], side), init[i].nr);
      assert LastNaming(rules, side, i, e);
    }
  }

  /** Rule `i` applies and no later one does. */
  predicate Decides(rules: seq<Rule>, side: Side, i: nat, names: set<string>, topic: seq<Level>) {
    && i < |rules| && Applies(rules[i], side, names, topic)
    && forall j | i < j < |rules| :: !Applies(rules[j], side, names, topic)
  }

  /** The scan returns the type of the last rule that applies, and denies if there is none. */
  lemma {:induction false} LastVerdictMeans(rules: seq<Rule>, side: Side, names: set<string>, topic: seq<Level>)
    ensures (forall i | 0 <= i < |rules| :: !Applies(rules[i], side, names, topic)) ==>
            LastVerdict(rules, side, names, topic) == Deny
    ensures forall i: nat | Decides(rules, side, i, names, topic) ::
            LastVerdict(rules, side, names, topic) == TypeOf(rules[i], side)
    decreases |rules|
  {
    if rules != [] {
      var init := Init(rules);
      LastVerdictMeans(init, side, names, topic);
      forall i: nat | Decides(rules, side, i, names, topic)
        ensures LastVerdict(rules, side, names, topic) == TypeOf(rules[i], side)
      {
        if i < |rules| - 1 {
          assert !Applies(rules[|rules| - 1], side, names, topic);
          assert Decides(init, side, i, names, topic);
        }
      }
    }
  }

  ghost predicate Candidate(index: Verdicts, e: Entry<string>, names: set<string>, topic: seq<Level>) {
    e in index && Matches(e.filter, topic) && e.key in names
  }

  /** `e` applies, and no entry that applies has a greater rule number. */
  ghost predicate Winner(index: Verdicts, e: Entry<string>, names: set<string>, topic: seq<Level>) {
    && Candidate(index, e, names, topic)
    && forall d | d in index && Candidate(index, d, names, topic) :: index[d].1 <= index[e].1
  }

  /** Looking the highest numbered entry up in the index is the same as scanning the rule list. */
  lemma WinnerIsLastVerdict(rules: seq<Rule>, side: Side, names: set<string>, topic: seq<Level>, e: Entry<string>)
    requires Ordered(rules) && Winner(Index(rules, side), e, names, topic)
    ensures Index(rules, side)[e].0 == LastVerdict(rules, side, names, topic)
  {
    IndexAt(rules, side, e);
    var i: nat :| LastNaming(rules, side, i, e) && Index(rules, side)[e] == (TypeOf(rules[i], side), rules[i].nr);
    assert Applies(rules[i], side, names, topic);
    forall j | i < j < |rules| ensures !Applies(rules[j], side, names, topic) {
      if Applies(rules[j], side, names, topic) {
        var n :| n in NamedBy(rules[j], side) && n in names;
        var d := Entry(rules[j].filter, n);
        assert Names(rules[j], side, d);
        IndexKeys(rules, side, d);
        IndexAt(rules, side, d);
      }
    }
    assert Decides(rules, side, i, names, topic);
    LastVerdictMeans(rules, side, names, topic);
  }

  lemma NoCandidateMeansDeny(rules: seq<Rule>, side: Side, names: set<string>, topic: seq<Level>)
    requires forall d :: !Candidate(Index(rules, side), d, names, topic)
    ensures LastVerdict(rules, side, names, topic) == Deny
    ensures forall i | 0 <= i < |rules| :: !Applies(rules[i], side, names, topic)
  {
    forall i | 0 <= i < |rules| ensures !Applies(rules[i], side, names, topic) {
      if Applies(rules[i], side, names, topic) {
        var n :| n in NamedBy(rules[i], side) && n in names;
        var d := Entry(rules[i].filter, n);
        assert Names(rules[i], side, d);
        IndexKeys(rules, side, d);
        assert Candidate(Index(rules, side), d, names, topic);
      }
    }
    LastVerdictMeans(rules, side, names, topic);
  }

  // ----- removing a rule

  function Without<T>(s: seq<T>, i: nat): seq<T>
    requires i < |s|
  {
    s[..i] + s[i + 1..]
  }

  /** No other rule has an entry in common with rule `i`. */
  predicate Removable(rules: seq<Rule>, side: Side, i: nat)
    requires i < |rules|
  {
    forall j | 0 <= j < |rules| && j != i ::
      rules[j].filter == rules[i].filter ==> NamedBy(rules[j], side) !! NamedBy(rules[i], side)
  }

  lemma OrderedWithout(rules: seq<Rule>, i: nat)
    requires Ordered(rules) && i < |rules|
    ensures Ordered(Without(rules, i))
  {
  }

  predicate SameAt(m: Verdicts, m': Verdicts, e: Entry<string>) {
    (e in m <==> e in m') && (e in m ==> m[e] == m'[e])
  }

  /** A rule that does not mention an entry has no say in its verdict. */
  lemma {:induction false} IndexSkip(a: seq<Rule>, r: Rule, b: seq<Rule>, side: Side, e: Entry<string>)
    requires !Names(r, side, e)
    ensures SameAt(Index(a + [r] + b, side), Index(a + b, side), e)
    decreases |b|
  {
    if b == [] {
      assert a + [r] + b == a + [r] && a + b == a;
      assert Init(a + [r]) == a;
    } else {
      IndexSkip(a, r, Init(b), side, e);
      assert Init(a + [r] + b) == a + [r] + Init(b) && Init(a + b) == a + Init(b);
    }
  }

  lemma IndexWithout(rules: seq<Rule>, side: Side, i: nat, e: Entry<string>)
    requires i < |rules| && !Names(rules[i], side, e)
    ensures SameAt(Index(rules, side), Index(Without(rules, i), side), e)
  {
    assert rules == rules[..i] + [rules[i]] + rules[i + 1..];
    IndexSkip(rules[..i], rules[i], rules[i + 1..], side, e);
  }

  /** An entry of the removed rule is still due exactly when another rule mentions it. */
  lemma StillDue(rules: seq<Rule>, side: Side, i: nat, e: Entry<string>)
    requires i < |rules|
    ensures e in Index(Without(rules, i), side) <==> exists j :: 0 <= j < |rules| && j != i && Names(rules[j], side, e)
  {
    hide Index;
    hide Names;
    var rest := Without(rules, i);
    IndexKeys(rest, side, e);
    if j :| 0 <= j < |rules| && j != i && Names(rules[j], side, e) {
      assert rest[if j < i then j else j - 1] == rules[j];
    }
    if k :| 0 <= k < |rest| && Names(rest[k], side, e) {
      assert rest[k] == rules[if k < i then k else k + 1];
    }
  }

  lemma RemovalLeaves(rules: seq<Rule>, side: Side, i: nat)
    requires i < |rules| && Removable(rules, side, i)
    ensures Index(rules, side) - RuleEntries(rules[i], side).Keys == Index(Without(rules, i), side)
  {
    var left, due := Index(rules, side) - RuleEntries(rules[i], side).Keys, Index(Without(rules, i), side);
    forall e ensures SameAt(left, due, e) {
      RemovalLeavesAt(rules, side, i, e);
    }
    SameEverywhere(left, due);
  }

  lemma SameEverywhere(m: Verdicts, m': Verdicts)
    requires forall e :: SameAt(m, m', e)
    ensures m == m'
  {
    assert forall e :: e in m <==> e in m' by {
      forall e ensures e in m <==> e in m' {
        assert SameAt(m, m', e);
      }
    }
    forall e | e in m ensures m[e] == m'[e] {
      assert SameAt(m, m', e);
    }
  }

  lemma RemovalLeavesAt(rules: seq<Rule>, side: Side, i: nat, e: Entry<string>)
    requires i < |rules| && Removable(rules, side, i)
    ensures SameAt(Index(rules, side) - RuleEntries(rules[i], side).Keys, Index(Without(rules, i), side), e)
  {
    RuleEntriesAt(rules[i], side, e);
    if Names(rules[i], side, e) {
      StillDue(rules, side, i, e);
    } else {
      IndexWithout(rules, side, i, e);
    }
  }

  lemma RemovalLoses(rules: seq<Rule>, side: Side, i: nat)
    requires i < |rules| && !Removable(rules, side, i)
    ensures Index(rules, side) - RuleEntries(rules[i], side).Keys != Index(Without(rules, i), side)
  {
    var j :| 0 <= j < |rules| && j != i && rules[j].filter == rules[i].filter
        && !(NamedBy(rules[j], side) !! NamedBy(rules[i], side));
    var n :| n in NamedBy(rules[j], side) && n in NamedBy(rules[i], side);
    var e := Entry(rules[i].filter, n);
    assert Names(rules[j], side, e) && Names(rules[i], side, e);
    StillDue(rules, side, i, e);
    RuleEntriesAt(rules[i], side, e);
  }

  /** Erasing a rule's entries leaves the index of the remaining rules exactly when no other rule shares one of them. */
  lemma RemovalExact(rules: seq<Rule>, side: Side, i: nat)
    requires i < |rules|
    ensures Index(rules, side) - RuleEntries(rules[i], side).Keys == Index(Without(rules, i), side)
            <==> Removable(rules, side, i)
  {
    if Removable(rules, side, i) {
      RemovalLeaves(rules, side, i);
    } else {
      RemovalLoses(rules, side, i);
    }
  }

  // ----- subscribing

  predicate SubApplies(r: Rule, names: set<string>) {
    r.subType != NoType && exists n :: n in r.sub && n in names
  }

  /** One rule of get_auth_sub_topics: an allow rule adds its intersection, a covering deny rule clears the list. */
  function AuthStep(topics: seq<seq<Level>>, r: Rule, names: set<string>, f: Filter): seq<seq<Level>> {
    if !SubApplies(r, names) then topics
    else if r.subType == Allow then
      match Intersection(r.filter, f)
      case None => topics
      case Some(t) => topics + [t]
    else if Covers(r.filter, f) then [] else topics
  }

  function AuthTopics(rules: seq<Rule>, names: set<string>, f: Filter): seq<seq<Level>> {
    if rules == [] then [] else AuthStep(AuthTopics(Init(rules), names, f), Last(rules), names, f)
  }

  /**
   * Rule `i` allows one of the names, `t` is what its filter has in common with the requested one, and no later rule
   * that denies one of the names covers the requested filter.
   */
  predicate Contributes(rules: seq<Rule>, i: nat, names: set<string>, f: Filter, t: seq<Level>) {
    && i < |rules| && rules[i].subType == Allow && !(rules[i].sub !! names)
    && Intersection(rules[i].filter, f) == Some(t)
    && forall j | i < j < |rules| :: rules[j].subType == Deny && !(rules[j].sub !! names) ==>
      !Covers(rules[j].filter, f)
  }

  lemma SubAppliesTo(r: Rule, names: set<string>)
    ensures SubApplies(r, names) <==> r.subType != NoType && !(r.sub !! names)
  {
    if !(r.sub !! names) {
      var n :| n in r.sub && n in names;
    }
  }

  lemma ContributesSnoc(rules: seq<Rule>, names: set<string>, f: Filter, t: seq<Level>)
    requires rules != []
    ensures var r := Last(rules);
            (exists i :: Contributes(rules, i, names, f, t))
              <==> (|| (r.subType == Allow && !(r.sub !! names) && Intersection(r.filter, f) == Some(t))
                    || ((exists i :: Contributes(Init(rules), i, names, f, t))
                        && !(r.subType == Deny && !(r.sub !! names) && Covers(r.filter, f))))
  {
    var init, n := Init(rules), |rules| - 1;
    if i: nat :| Contributes(rules, i, names, f, t) {
      if i < n {
        assert Contributes(init, i, names, f, t);
      }
    }
    if rules[n].subType == Allow && !(rules[n].sub !! names) && Intersection(rules[n].filter, f) == Some(t) {
      assert Contributes(rules, n, names, f, t);
    }
    if i: nat :| Contributes(init, i, names, f, t)
                 && !(rules[n].subType == Deny && !(rules[n].sub !! names) && Covers(rules[n].filter, f)) {
      assert Contributes(rules, i, names, f, t);
    }
  }

  /** Exactly what the rules contribute is collected. */
  lemma {:induction false} AuthTopicsAre(rules: seq<Rule>, names: set<string>, f: Filter)
    ensures forall t :: t in AuthTopics(rules, names, f) <==> exists i :: Contributes(rules, i, names, f, t)
    decreases |rules|
  {
    if rules != [] {
      AuthTopicsAre(Init(rules), names, f);
      SubAppliesTo(Last(rules), names);
      forall t ensures t in AuthTopics(rules, names, f) <==> exists i :: Contributes(rules, i, names, f, t) {
        ContributesSnoc(rules, names, f, t);
      }
    }
  }

  /** get_auth_sub_topics over the rules that apply to the user, in list order. */
  method GetAuthSubTopics(rules: seq<Rule>, names: set<string>, f: Filter) returns (topics: seq<seq<Level>>)
    ensures topics == AuthTopics(rules, names, f)
    ensures forall t :: t in topics <==> exists i :: Contributes(rules, i, names, f, t)
  {
    AuthTopicsAre(rules, names, f);
    hide Contributes;
    topics := [];
    for i := 0 to |rules|
      invariant topics == AuthTopics(rules[..i], names, f)
    {
      assert Init(rules[..i + 1]) == rules[..i] && Last(rules[..i + 1]) == rules[i];
      var r := rules[i];
      if r.subType != NoType && r.sub * names != {} {
        assert SubApplies(r, names) by {
          var n :| n in r.sub * names;
        }
        if r.subType == Allow {
          var entry := IsSubscribeAllowed(r.filter, f);
          if entry.Some? {
            topics := topics + [entry.value];
          }
        } else {
          topics := DropDenied(topics, r.filter, f);
        }
      } else {
        assert !SubApplies(r, names) by {
          assert forall n :: n in r.sub && n in names ==> n in r.sub * names;
        }
      }
    }
    assert rules[..|rules|] == rules;
  }

  /** The erase loop of a deny rule: each collected topic goes when the rule covers the requested filter. */
  method DropDenied(topics0: seq<seq<Level>>, deny: Filter, f: Filter) returns (topics: seq<seq<Level>>)
    ensures topics == if Covers(deny, f) then [] else topics0
  {
    topics := topics0;
    var j := 0;
    while j < |topics|
      invariant 0 <= j <= |topics|
      invariant if Covers(deny, f) then j == 0 else topics == topics0
      decreases |topics| - j
    {
      var denied := IsSubscribeDenied(deny, f);
      if denied {
        topics := topics[..j] + topics[j + 1..];
      } else {
        j := j + 1;
      }
    }
  }

  predicate Allows(r: Rule, names: set<string>, f: Filter) {
    SubApplies(r, names) && r.subType == Allow && Intersection(r.filter, f).Some?
  }

  predicate Forbids(r: Rule, names: set<string>, f: Filter) {
    SubApplies(r, names) && r.subType == Deny && Covers(r.filter, f)
  }

  /** Rule `i` contributes a topic that no later rule clears. */
  predicate Survives(rules: seq<Rule>, i: nat, names: set<string>, f: Filter) {
    && i < |rules| && Allows(rules[i], names, f)
    && forall j | i < j < |rules| :: !Forbids(rules[j], names, f)
  }

  /**
   * Rule `i` admits some topic of `f`, and no later rule that applies suppresses `f`. What comes after a '#' before the
   * last level plays no part in the first half, and is taken by its text in the second.
   */
  ghost predicate Grants(rules: seq<Rule>, i: nat, names: set<string>, f: Filter) {
    && i < |rules| && SubApplies(rules[i], names) && rules[i].subType == Allow
    && Overlap(UpToHash(rules[i].filter), UpToHash(f))
    && forall j | i < j < |rules| :: SubApplies(rules[j], names) && rules[j].subType == Deny ==>
      !Suppresses(rules[j].filter, f)
  }

  /** Rule `i` admits some topic of `f`, and no later rule that applies denies every topic of `f`. */
  ghost predicate GrantsTopics(rules: seq<Rule>, i: nat, names: set<string>, f: Filter) {
    && i < |rules| && SubApplies(rules[i], names) && rules[i].subType == Allow && Overlap(rules[i].filter, f)
    && forall j | i < j < |rules| :: SubApplies(rules[j], names) && rules[j].subType == Deny ==>
      !Included(f, rules[j].filter)
  }

  predicate AllValid(rules: seq<Rule>) {
    forall i | 0 <= i < |rules| :: ValidFilter(rules[i].filter)
  }

  lemma SurvivesSnoc(rules: seq<Rule>, names: set<string>, f: Filter)
    requires rules != []
    ensures (exists i: nat :: Survives(rules, i, names, f))
       <==> Allows(Last(rules), names, f)
            || ((exists i: nat :: Survives(Init(rules), i, names, f)) && !Forbids(Last(rules), names, f))
  {
    var init, n := Init(rules), |rules| - 1;
    if i: nat :| Survives(rules, i, names, f) {
      if i < n {
        assert Survives(init, i, names, f);
      }
    }
    if Allows(rules[n], names, f) {
      assert Survives(rules, n, names, f);
    }
    if i: nat :| Survives(init, i, names, f) && !Forbids(rules[n], names, f) {
      assert Survives(rules, i, names, f);
    }
  }

  lemma {:induction false} AuthTopicsSurvive(rules: seq<Rule>, names: set<string>, f: Filter)
    ensures AuthTopics(rules, names, f) != [] <==> exists i: nat :: Survives(rules, i, names, f)
    decreases |rules|
  {
    if rules != [] {
      AuthTopicsSurvive(Init(rules), names, f);
      SurvivesSnoc(rules, names, f);
    }
  }

  /** What the two filter checks mean makes the surviving rules the granting ones. */
  lemma SurvivesMeansGrants(rules: seq<Rule>, i: nat, names: set<string>, f: Filter)
    ensures Survives(rules, i, names, f) <==> Grants(rules, i, names, f)
  {
    if i < |rules| {
      AllowedExact(rules[i].filter, f);
      forall j | i < j < |rules| ensures Covers(rules[j].filter, f) <==> Suppresses(rules[j].filter, f) {
        CoversExact(rules[j].filter, f);
      }
    }
  }

  /** For valid filters this is a matter of the topics they match. */
  lemma GrantsMeansTopics(rules: seq<Rule>, i: nat, names: set<string>, f: Filter)
    requires AllValid(rules) && ValidFilter(f)
    ensures Grants(rules, i, names, f) <==> GrantsTopics(rules, i, names, f)
  {
    UpToHashIs(f);
    if i < |rules| {
      UpToHashIs(rules[i].filter);
      forall j | i < j < |rules| ensures Suppresses(rules[j].filter, f) <==> Included(f, rules[j].filter) {
        CoversExact(rules[j].filter, f);
        DeniedMeansIncluded(rules[j].filter, f);
      }
    }
  }

  lemma AuthTopicsMeans(rules: seq<Rule>, names: set<string>, f: Filter)
    ensures AuthTopics(rules, names, f) != [] <==> exists i: nat :: Grants(rules, i, names, f)
    ensures AllValid(rules) && ValidFilter(f) ==>
              (AuthTopics(rules, names, f) != [] <==> exists i: nat :: GrantsTopics(rules, i, names, f))
  {
    hide AuthTopics;
    hide Grants;
    hide GrantsTopics;
    hide Survives;
    AuthTopicsSurvive(rules, names, f);
    forall i: nat ensures Survives(rules, i, names, f) <==> Grants(rules, i, names, f) {
      SurvivesMeansGrants(rules, i, names, f);
    }
    if AllValid(rules) && ValidFilter(f) {
      forall i: nat ensures Grants(rules, i, names, f) <==> GrantsTopics(rules, i, names, f) {
        GrantsMeansTopics(rules, i, names, f);
      }
    }
  }

  /**
   * The grant spelled out: rule `i` allows the user, or a group the user is in, a filter that overlaps the requested
   * one, and no later rule that denies one of these suppresses it.
   */
  ghost predicate GrantsUser(rules: seq<Rule>, i: nat, groups: map<string, seq<string>>, user: string, f: Filter) {
    && i < |rules| && rules[i].subType == Allow && Reaches(rules[i].sub, groups, user)
    && Overlap(UpToHash(rules[i].filter), UpToHash(f))
    && forall j | i < j < |rules| :: rules[j].subType == Deny && Reaches(rules[j].sub, groups, user) ==>
      !Suppresses(rules[j].filter, f)
  }

  lemma GrantsSpelled(rules: seq<Rule>, i: nat, groups: map<string, seq<string>>, user: string, f: Filter)
    ensures Grants(rules, i, NamesOf(groups, user), f) <==> GrantsUser(rules, i, groups, user, f)
  {
    hide NamesOf;
    hide Reaches;
    forall j | 0 <= j < |rules|
      ensures SubApplies(rules[j], NamesOf(groups, user))
         <==> rules[j].subType != NoType && Reaches(rules[j].sub, groups, user)
    {
      ReachesNames(rules[j].sub, groups, user);
    }
  }

  /** is_subscribe_authorized, for rule lists of any length and any requested filter. */
  method IsSubscribeAuthorized(rules: seq<Rule>, groups: map<string, seq<string>>, user: string, f: Filter)
    returns (ok: bool)
    ensures ok <==> exists i: nat :: Grants(rules, i, NamesOf(groups, user), f)
    ensures AllValid(rules) && ValidFilter(f) ==>
              (ok <==> exists i: nat :: GrantsTopics(rules, i, NamesOf(groups, user), f))
    ensures ok <==> exists i: nat :: GrantsUser(rules, i, groups, user, f)
  {
    forall i: nat ensures Grants(rules, i, NamesOf(groups, user), f) <==> GrantsUser(rules, i, groups, user, f) {
      GrantsSpelled(rules, i, groups, user, f);
    }
    hide Grants;
    hide GrantsUser;
    hide GrantsTopics;
    hide Contributes;
    var topics := GetAuthSubTopics(rules, NamesOf(groups, user), f);
    AuthTopicsMeans(rules, NamesOf(groups, user), f);
    ok := topics != [];
  }
}
