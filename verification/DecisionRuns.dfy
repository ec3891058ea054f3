/** Decisions on literal groups and rules: who is reached by a rule, and which rule decides. */
module DecisionRuns {
  import opened Wrappers
  import opened TopicFilter
  import opened TrieModel
  import opened Authorization
  import opened LostEntries
  import opened Security
  import FilterAlgebra
  import SubscriptionMap
  import NameOrder

  const GROUPS: map<string, seq<string>> := map["@any" := [], "@g" := ["m"]]
  const USERS: set<string> := {"m", "s", "u"}

  function T(): Filter {
    [Name("t")]
  }

  function X(): Filter {
    [Name("x")]
  }

  lemma Exactly(f: Filter, t: Filter)
    requires |f| == |t| == 1 && !IsWild(f[0])
    ensures Matches(f, t) <==> f == t
  {
  }

  /** Which users the three kinds of names reach. */
  lemma ReachedBy()
    ensures Reaches({"@g"}, GROUPS, "m") && !Reaches({"@g"}, GROUPS, "s")
    ensures Reaches({"@any"}, GROUPS, "m") && Reaches({"@any"}, GROUPS, "s")
    ensures Reaches({"u"}, GROUPS, "u") && !Reaches({"u"}, GROUPS, "s") && !Reaches({"u"}, GROUPS, "m")
    ensures !Reaches({}, GROUPS, "u") && !Reaches({}, GROUPS, "s")
    ensures Reaches({"u", "@g"}, GROUPS, "u") && Reaches({"u", "@g"}, GROUPS, "m")
    ensures !Reaches({"u", "@g"}, GROUPS, "s")
    ensures !Reaches({"@any"}, map[], "s")
  {
    assert "@g" in {"@g"} && "@any" in {"@any"} && "u" in {"u"} && "u" in {"u", "@g"} && "@g" in {"u", "@g"};
  }

  /** Group names begin with '@'. */
  lemma Initials()
    ensures "@" <= "@g" && "@" <= "@any" && !("@" <= "m") && !("@" <= "s") && !("@" <= "u")
  {
    assert "@"[0] == '@' && "m"[0] == 'm' && "s"[0] == 's' && "u"[0] == 'u';
    assert "@g"[..1] == "@" && "@any"[..1] == "@";
  }

  /** Configured rules, all of whose names are known. */
  method Loaded(rules: seq<Rule>, groups: map<string, seq<string>>, users: set<string>) returns (sec: Security)
    requires Ordered(rules)
    requires forall i, m | 0 <= i < |rules| && m in rules[i].pub + rules[i].sub && m != "" ::
               if "@" <= m then m in groups else m in users
    ensures fresh(sec) && fresh(sec.authPubMap) && fresh(sec.authSubMap)
    ensures sec.Valid() && sec.rules == rules && sec.groups == groups && sec.users == users
  {
    hide SubscriptionMap.Stands;
    hide Index;
    sec := new Security.Load(rules, groups, users);
    var ok;
    ghost var n, sub, pub;
    ok, n, sub, pub := sec.Validate();
  }

  // ----- publishing

  /** A group on "t", "@any" on "x", and a user who is allowed "t" and then denied it. */
  function PubRules(): seq<Rule> {
    [Rule(T(), 1, Allow, {"s"}, Allow, {"@g"}), Rule(X(), 2, NoType, {}, Allow, {"@any"}),
     Rule(T(), 3, NoType, {}, Allow, {"u"}), Rule(T(), 4, NoType, {}, Deny, {"u"})]
  }

  lemma PubTable()
    ensures PubRule(PubRules()[0], GROUPS, "m", T()) && !PubRule(PubRules()[0], GROUPS, "s", T())
    ensures PubRule(PubRules()[1], GROUPS, "s", X()) && !PubRule(PubRules()[1], GROUPS, "m", T())
    ensures !PubRule(PubRules()[1], GROUPS, "s", T())
    ensures PubRule(PubRules()[3], GROUPS, "u", T())
    ensures forall i | 2 <= i < 4 ::
              && !PubRule(PubRules()[i], GROUPS, "m", T()) && !PubRule(PubRules()[i], GROUPS, "s", T())
              && !PubRule(PubRules()[i], GROUPS, "s", X())
  {
    ReachedBy();
    Exactly(T(), T());
    Exactly(X(), X());
    Exactly(X(), T());
    Exactly(T(), X());
    hide Matches;
    assert {"@g"} - {""} == {"@g"} && {"@any"} - {""} == {"@any"} && {"u"} - {""} == {"u"};
  }

  lemma PubDecided()
    ensures LastVerdict(PubRules(), Pub, NamesOf(GROUPS, "m"), T()) == Allow
    ensures LastVerdict(PubRules(), Pub, NamesOf(GROUPS, "s"), T()) == Deny
    ensures LastVerdict(PubRules(), Pub, NamesOf(GROUPS, "s"), X()) == Allow
    ensures LastVerdict(PubRules(), Pub, NamesOf(GROUPS, "u"), T()) == Deny
  {
    hide LastVerdict;
    hide PubRule;
    hide NamesOf;
    PubTable();
    var rules := PubRules();
    assert |rules| == 4 && rules[0].pubType == rules[1].pubType == Allow && rules[3].pubType == Deny;
    PubVerdict(PubRules(), GROUPS, "m", T());
    PubVerdict(PubRules(), GROUPS, "s", T());
    PubVerdict(PubRules(), GROUPS, "s", X());
    PubVerdict(PubRules(), GROUPS, "u", T());
  }

  /** A member of the group may publish to "t" and nobody else; "@any" takes everybody; the last rule decides. */
  method Publishers() returns (member: AuthType, stranger: AuthType, anybody: AuthType, last: AuthType)
    ensures member == Allow && stranger == Deny && anybody == Allow && last == Deny
  {
    hide SubscriptionMap.Stands;
    hide LastVerdict;
    hide Effective;
    hide Index;
    hide PubRule;
    hide NamesOf;
    Initials();
    var sec := Loaded(PubRules(), GROUPS, USERS);
    PubDecided();
    member := sec.AuthPub(T(), "m");
    stranger := sec.AuthPub(T(), "s");
    anybody := sec.AuthPub(X(), "s");
    last := sec.AuthPub(T(), "u");
  }

  // ----- delivering

  const TWO_GROUPS: map<string, seq<string>> := map["@a" := ["u", "m"], "@b" := ["u"]]

  /** On "t" the first group is denied and the second allowed; on "x" the first is allowed and "u" itself denied. */
  function SubRules(): seq<Rule> {
    [Rule(T(), 1, Deny, {"@a"}, Allow, {"s"}), Rule(T(), 2, Allow, {"@b"}, NoType, {}),
     Rule(X(), 3, Allow, {"@a"}, NoType, {}), Rule(X(), 4, Deny, {"u"}, NoType, {})]
  }

  lemma SubTable()
    ensures forall n :: SubRule(SubRules()[0], n, T()) <==> n == "@a"
    ensures forall n :: SubRule(SubRules()[1], n, T()) <==> n == "@b"
    ensures forall n :: !SubRule(SubRules()[2], n, T()) && !SubRule(SubRules()[3], n, T())
    ensures forall n :: !SubRule(SubRules()[0], n, X()) && !SubRule(SubRules()[1], n, X())
    ensures forall n :: SubRule(SubRules()[2], n, X()) <==> n == "@a"
    ensures forall n :: SubRule(SubRules()[3], n, X()) <==> n == "u"
  {
    Exactly(T(), T());
    Exactly(X(), X());
    Exactly(X(), T());
    Exactly(T(), X());
    hide Matches;
  }

  /** The rule that is the last one for each name. */
  lemma LastTable()
    ensures var rules := SubRules();
            && |rules| == 4
            && SubRule(rules[0], "@a", T()) && (forall j | 0 < j < 4 :: !SubRule(rules[j], "@a", T()))
            && SubRule(rules[2], "@a", X()) && (forall j | 2 < j < 4 :: !SubRule(rules[j], "@a", X()))
            && SubRule(rules[3], "u", X())
            && rules[0].subType == Deny && rules[2].subType == Allow && rules[3].subType == Deny
  {
    SubTable();
    hide SubRule;
  }

  lemma HasRules()
    ensures forall n :: HasRule(SubRules(), T(), n) <==> n == "@a" || n == "@b"
    ensures forall n :: HasRule(SubRules(), X(), n) <==> n == "@a" || n == "u"
  {
    SubTable();
    hide SubRule;
    assert |SubRules()| == 4;
    forall n ensures HasRule(SubRules(), T(), n) <==> n == "@a" || n == "@b" {
      assert n == "@a" ==> SubRule(SubRules()[0], n, T());
      assert n == "@b" ==> SubRule(SubRules()[1], n, T());
    }
    forall n ensures HasRule(SubRules(), X(), n) <==> n == "@a" || n == "u" {
      assert n == "@a" ==> SubRule(SubRules()[2], n, X());
      assert n == "u" ==> SubRule(SubRules()[3], n, X());
    }
  }

  lemma AskedTable()
    ensures AskedName(SubRules(), TWO_GROUPS, T(), "u", "@a") && AskedName(SubRules(), TWO_GROUPS, X(), "u", "u")
    ensures AskedName(SubRules(), TWO_GROUPS, X(), "m", "@a")
    ensures forall n :: !AskedName(SubRules(), TWO_GROUPS, T(), "s", n)
    ensures forall n :: !AskedName(SubRules(), TWO_GROUPS, X(), "s", n)
  {
    HasRules();
    hide HasRule;
    NameOrder.UpToExact("@a", "@b");
    assert "@a"[..1] == "@b"[..1] && "@a"[1] < "@b"[1];
    NameOrder.Total("@a", "@a");
    hide NameOrder.UpTo;
    assert InGroup(TWO_GROUPS, "u", "@a") && InGroup(TWO_GROUPS, "m", "@a");
  }

  /**
   * The first group that has a verdict counts although the other one is allowed later; the user's own name counts
   * before any group; nobody else is allowed.
   */
  method Subscribers() returns (first: AuthType, own: AuthType, member: AuthType, none: AuthType)
    ensures first == Deny && own == Deny && member == Allow && none == Deny
  {
    hide SubscriptionMap.Stands;
    hide LastVerdict;
    hide Effective;
    hide Index;
    hide SubRule;
    hide NamesOf;
    hide AskedName;
    hide PerName;
    hide MayReceive;
    hide Asked;
    hide Mentioned;
    hide FromRuleOf;
    Initials();
    assert "@a"[..1] == "@" && "@b"[..1] == "@";
    var sec := Loaded(SubRules(), TWO_GROUPS, USERS);
    var t := sec.AuthSub(T());
    var x := sec.AuthSub(X());
    LastTable();
    AskedTable();
    hide SubRules;
    first := sec.AuthSubUser(t, "u", T(), SubRules());
    own := sec.AuthSubUser(x, "u", X(), SubRules());
    member := sec.AuthSubUser(x, "m", X(), SubRules());
    none := sec.AuthSubUser(x, "s", X(), SubRules());
  }

  // ----- subscribing

  /** "u" and the group on "t", "u" denied "x" after it was allowed, and a rule for publishers only. */
  function FilterRules(): seq<Rule> {
    [Rule(T(), 1, Allow, {"u", "@g"}, NoType, {}), Rule(X(), 2, Allow, {"u"}, NoType, {}),
     Rule(X(), 3, Deny, {"u"}, NoType, {}), Rule(T(), 4, NoType, {}, Allow, {"s"})]
  }

  lemma FilterTable()
    ensures FilterAlgebra.Overlap(FilterAlgebra.UpToHash(T()), FilterAlgebra.UpToHash(T()))
    ensures !FilterAlgebra.Overlap(FilterAlgebra.UpToHash(X()), FilterAlgebra.UpToHash(T()))
    ensures !FilterAlgebra.Overlap(FilterAlgebra.UpToHash(T()), FilterAlgebra.UpToHash(X()))
    ensures FilterAlgebra.Suppresses(X(), X()) && !FilterAlgebra.Suppresses(X(), T())
  {
    FilterAlgebra.UpToHashIs(T());
    FilterAlgebra.UpToHashIs(X());
    assert IsTopic(T()) && LevelMatches(T(), T());
    assert T()[0] != X()[0];
    forall t ensures !(LevelMatches(X(), t) && LevelMatches(T(), t)) {
      assert LevelMatches(X(), t) ==> t[0] == X()[0];
    }
  }

  lemma RequestTable()
    ensures GrantsUser(FilterRules(), 0, GROUPS, "u", T()) && GrantsUser(FilterRules(), 0, GROUPS, "m", T())
    ensures forall i: nat :: !GrantsUser(FilterRules(), i, GROUPS, "s", T())
    ensures forall i: nat :: !GrantsUser(FilterRules(), i, GROUPS, "u", X())
  {
    ReachedBy();
    FilterTable();
    hide Reaches;
    hide FilterAlgebra.Overlap;
    hide FilterAlgebra.Suppresses;
    hide FilterAlgebra.UpToHash;
    var rules := FilterRules();
    assert |rules| == 4 && rules[1].subType == rules[0].subType == Allow && rules[2].subType == Deny;
    forall i: nat ensures !GrantsUser(rules, i, GROUPS, "u", X()) {
      if i == 1 {
        assert rules[2].subType == Deny && Reaches(rules[2].sub, GROUPS, "u");
      }
    }
  }

  /**
   * A named user and a member of a named group may subscribe; a stranger that may only publish may not, nor may a user
   * that is denied later.
   */
  method Requests() returns (named: bool, member: bool, publisher: bool, denied: bool)
    ensures named && member && !publisher && !denied
  {
    hide SubscriptionMap.Stands;
    hide Index;
    hide NamesOf;
    hide Grants;
    hide GrantsTopics;
    hide GrantsUser;
    hide AllValid;
    Initials();
    RequestTable();
    var sec := Loaded(FilterRules(), GROUPS, USERS);
    named := sec.AuthorizeSubscribe("u", T());
    member := sec.AuthorizeSubscribe("m", T());
    publisher := sec.AuthorizeSubscribe("s", T());
    denied := sec.AuthorizeSubscribe("u", X());
  }

  // ----- adding and removing rules

  /** Known users and groups are accepted and numbered in turn. */
  method Accepted() returns (user: Option<nat>, group: Option<nat>)
    ensures user == Some(1) && group == Some(2)
  {
    hide SubscriptionMap.Stands;
    hide Index;
    hide PairsOf;
    Initials();
    var sec := new Security(GROUPS, USERS);
    user := sec.AddAuth(T(), {"u"}, Allow, {}, NoType);
    assert |sec.rules| == 1 && sec.rules[0].nr == 1;
    group := sec.AddAuth(T(), {"u"}, Allow, {"@g"}, Allow);
  }

  /** A rule for one publisher, added to no others. */
  method AddFor(name: string) returns (nr: Option<nat>)
    ensures nr.Some? <==> if "@" <= name then name in GROUPS else name != "" && name in USERS
  {
    hide SubscriptionMap.Stands;
    hide Index;
    hide PairsOf;
    var sec := new Security(GROUPS, USERS);
    nr := sec.AddAuth(T(), {name}, Allow, {}, NoType);
    assert forall n :: n in {name} + {} <==> n == name;
  }

  /** An unknown user, an unknown group, the empty name, and a group without its '@' are refused. */
  method Refused() returns (refused: seq<Option<nat>>)
    ensures refused == [None, None, None, None]
  {
    assert "@"[0] == '@' && "@h"[..1] == "@" && "x"[0] == 'x' && "g"[0] == 'g';
    var stranger := AddFor("x");
    var noGroup := AddFor("@h");
    var noName := AddFor("");
    var bareGroup := AddFor("g");
    refused := [stranger, noGroup, noName, bareGroup];
  }

  function Twice(): seq<Rule> {
    [Rule(T(), 1, NoType, {}, Allow, {"u"}), Rule(T(), 2, NoType, {}, Allow, {"u"})]
  }

  lemma TwiceLost()
    ensures Without(Twice(), 1) == [Twice()[0]] && LostAfter(Twice(), Pub, 1, {}) == {Entry(T(), "u")}
  {
    var rules := Twice();
    assert NamedBy(rules[0], Pub) == NamedBy(rules[1], Pub) == {"u"};
    assert Init([rules[0]]) == [] && Index([rules[0]], Pub) == RuleEntries(rules[0], Pub);
    assert RuleEntries(rules[1], Pub).Keys == RuleEntries(rules[0], Pub).Keys == {Entry(T(), "u")};
  }

  lemma TwiceDecided()
    ensures LastVerdict(Twice(), Pub, NamesOf(GROUPS, "u"), T()) == Allow
    ensures LastVerdict(Effective([Twice()[0]], Pub, {Entry(T(), "u")}), Pub, NamesOf(GROUPS, "u"), T()) == Deny
  {
    var known := Effective([Twice()[0]], Pub, {Entry(T(), "u")});
    Exactly(T(), T());
    ReachedBy();
    hide LastVerdict;
    hide Reaches;
    assert {"u"} - {""} == {"u"} && {} - {""} == {};
    PubVerdict(Twice(), GROUPS, "u", T());
    assert PubRule(Twice()[1], GROUPS, "u", T());
    assert known[0].pub == {} && |known| == 1;
    PubVerdict(known, GROUPS, "u", T());
    assert !PubRule(known[0], GROUPS, "u", T());
  }

  /** Two rules allow "u" to publish to "t"; when the second is removed, "u" may not any more. */
  method Forgotten() returns (before: AuthType, after: AuthType)
    ensures before == Allow && after == Deny
  {
    hide SubscriptionMap.Stands;
    hide LastVerdict;
    hide Effective;
    hide NamesOf;
    hide PubRule;
    hide Index;
    hide LostAfter;
    hide Without;
    hide Removable;
    Initials();
    TwiceDecided();
    TwiceLost();
    var sec := Loaded(Twice(), GROUPS, USERS);
    before := sec.AuthPub(T(), "u");
    assert sec.rules[1].nr == 2;
    ghost var removed := sec.RemoveAuth(2);
    assert removed == Some(1);
    hide Twice;
    after := sec.AuthPub(T(), "u");
  }
}
