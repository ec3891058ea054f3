/** Searches of both maps on literal texts: which levels the wildcards take, and what a leading '$' does. */
module MatchingRuns {
  import opened TopicFilter
  import opened TrieModel
  import SubscriptionMap
  import RetainedTopicMap
  import FilterAlgebra

  // ----- the subscription map

  type Subs = SubscriptionMap.MultipleSubscriptionMap<string, nat>

  /** Stores each text under itself. */
  method StoreAll(texts: seq<string>) returns (m: Subs)
    ensures fresh(m) && m.Valid()
    ensures forall e :: e in m.view.store <==> e.key in texts && e.filter == Tokenize(e.key)
  {
    hide SubscriptionMap.Stands;
    hide Tokenize;
    m := new SubscriptionMap.MultipleSubscriptionMap();
    for i := 0 to |texts|
      invariant m.Valid() && fresh(m)
      invariant forall e :: e in m.view.store <==> e.key in texts[..i] && e.filter == Tokenize(e.key)
    {
      TakeSnoc(texts, i);
      var _, _ := m.InsertOrAssign(Tokenize(texts[i]), texts[i], 0);
    }
    assert texts[..|texts|] == texts;
  }

  /** The texts that a search calls back with. */
  method Hits(m: Subs, topic: string) returns (hits: set<string>)
    requires m.Valid()
    ensures hits == set e | e in m.view.store && Matches(e.filter, Tokenize(topic)) :: e.key
  {
    hide SubscriptionMap.Stands;
    hide Matches;
    hide Accepts;
    hide Tokenize;
    var calls, from := m.Find(Tokenize(topic));
    hits := set c | c in calls :: c.0;
    forall e | e in m.view.store && Matches(e.filter, Tokenize(topic)) ensures e.key in hits {
      var i :| 0 <= i < |from| && from[i] == e;
      assert calls[i] in calls;
    }
    forall k | k in hits
      ensures k in set e | e in m.view.store && Matches(e.filter, Tokenize(topic)) :: e.key
    {
      var i :| 0 <= i < |calls| && calls[i].0 == k;
      assert from[i] in from;
    }
  }

  /** What a search of a map of these filters calls back with. */
  method Search(texts: seq<string>, topic: string) returns (hits: set<string>)
    ensures hits == set k | k in texts && Matches(Tokenize(k), Tokenize(topic))
  {
    hide SubscriptionMap.Stands;
    hide Matches;
    hide Tokenize;
    var m := StoreAll(texts);
    hits := Hits(m, topic);
    forall k | k in texts ensures Entry(Tokenize(k), k) in m.view.store {
    }
    forall k | k in texts && Matches(Tokenize(k), Tokenize(topic)) ensures k in hits {
      assert Entry(Tokenize(k), k) in m.view.store;
    }
  }

  lemma Parsed()
    ensures Tokenize("a/b") == [Name("a"), Name("b")] && Tokenize("a/+") == [Name("a"), Plus]
    ensures Tokenize("a/#") == [Name("a"), Hash] && Tokenize("+/b") == [Plus, Name("b")]
    ensures Tokenize("+") == [Plus] && Tokenize("a") == [Name("a")]
    ensures Tokenize("a/b/c") == [Name("a"), Name("b"), Name("c")]
  {
    hide Tokenize;
    TwoLevels(Name("a"), Name("b"));
    assert "a" + "/" + "b" == "a/b";
    TwoLevels(Name("a"), Plus);
    assert "a" + "/" + "+" == "a/+";
    TwoLevels(Name("a"), Hash);
    assert "a" + "/" + "#" == "a/#";
    TwoLevels(Plus, Name("b"));
    assert "+" + "/" + "b" == "+/b";
    OneLevel(Plus);
    OneLevel(Name("a"));
    ThreeLevels(Name("a"), Name("b"), Name("c"));
    assert "a" + "/" + "b" + "/" + "c" == "a/b/c";
  }

  lemma LevelCases()
    ensures var t := Tokenize("a/b");
            && Matches(Tokenize("a/b"), t) && Matches(Tokenize("a/+"), t) && Matches(Tokenize("a/#"), t)
            && Matches(Tokenize("+/b"), t) && Matches(Tokenize("#"), t) && !Matches(Tokenize("+"), t)
            && !Matches(Tokenize("a"), t) && !Matches(Tokenize("a/b/c"), t)
  {
    hide Tokenize;
    Texts();
    Parsed();
  }

  /** '+' takes one level and '#' the rest; levels that are missing or left over do not match. */
  method LevelRules() returns (hits: set<string>)
    ensures hits == {"a/b", "a/+", "a/#", "+/b", "#"}
  {
    hide Tokenize;
    hide Matches;
    hide SubscriptionMap.Stands;
    LevelCases();
    hits := Search(["a/b", "a/+", "a/#", "+/b", "#", "+", "a", "a/b/c"], "a/b");
  }

  lemma DollarCases()
    ensures var t := Tokenize("/x");
            Matches(Tokenize("#"), t) && Matches(Tokenize("+/x"), t) && !Matches(Tokenize("$aws/x"), t)
    ensures var t := Tokenize("$aws/x");
            !Matches(Tokenize("#"), t) && !Matches(Tokenize("+/x"), t) && Matches(Tokenize("$aws/x"), t)
  {
    hide Tokenize;
    Texts();
  }

  /** A wildcard at the beginning takes an empty first level, and no first level that begins with '$'. */
  method LeadingDollar() returns (empty: set<string>, system: set<string>)
    ensures empty == {"#", "+/x"} && system == {"$aws/x"}
  {
    hide Tokenize;
    hide Matches;
    DollarCases();
    empty := Search(["#", "+/x", "$aws/x"], "/x");
    system := Search(["#", "+/x", "$aws/x"], "$aws/x");
  }

  // ----- the retained topics

  type Retained = RetainedTopicMap.RetainedTopicMap<string>

  ghost predicate Stored(topics: set<Path>, texts: seq<string>) {
    && (forall t | t in topics :: exists k :: k in texts && Tokenize(k) == t)
    && (forall k | k in texts :: Tokenize(k) in topics)
  }

  lemma StoredSnoc(topics: set<Path>, texts: seq<string>, text: string)
    requires Stored(topics, texts)
    ensures Stored(topics + {Tokenize(text)}, texts + [text])
  {
    hide Tokenize;
    forall t | t in topics + {Tokenize(text)} ensures exists k :: k in texts + [text] && Tokenize(k) == t {
      if t in topics {
        var k :| k in texts && Tokenize(k) == t;
        assert k in texts + [text];
      } else {
        assert text in texts + [text];
      }
    }
  }

  /** Stores each topic under itself. */
  method RetainAll(texts: seq<string>) returns (m: Retained)
    requires forall k | k in texts :: IsTopic(Tokenize(k))
    ensures fresh(m) && m.Valid() && m.view.leaks == []
    ensures Stored(m.view.store.Keys, texts)
    ensures forall t | t in m.view.store :: Tokenize(m.view.store[t]) == t && m.view.store[t] in texts
  {
    hide RetainedTopicMap.Stands;
    hide Tokenize;
    m := new RetainedTopicMap.RetainedTopicMap();
    for i := 0 to |texts|
      invariant m.Valid() && fresh(m) && m.view.leaks == []
      invariant Stored(m.view.store.Keys, texts[..i])
      invariant forall t | t in m.view.store :: Tokenize(m.view.store[t]) == t && m.view.store[t] in texts[..i]
    {
      TakeSnoc(texts, i);
      assert texts[i] in texts;
      ghost var store0 := m.view.store;
      var _ := m.InsertOrAssign(Tokenize(texts[i]), texts[i]);
      assert m.view.store.Keys == store0.Keys + {Tokenize(texts[i])};
      StoredSnoc(store0.Keys, texts[..i], texts[i]);
    }
    assert texts[..|texts|] == texts;
  }

  /** What a filter takes of a text: the level rules, and no wildcard over a leading '$'. */
  predicate Takes(f: Filter, k: string) {
    AcceptsParent(f, Tokenize(k)) && (f[0].Name? || !("$" <= k))
  }

  /** What a search of a map of these topics reports, where no early exit can cut anything off. */
  method SearchRetained(texts: seq<string>, f: Filter) returns (hits: set<string>)
    requires (forall k | k in texts :: IsTopic(Tokenize(k))) && FilterAlgebra.HashLast(f)
    requires (f[|f| - 1] == Hash ==> Plus !in f) && (f[0] == Plus ==> forall k | k in texts :: !("$" <= k))
    ensures hits == set k | k in texts && Takes(f, k)
  {
    hide RetainedTopicMap.Stands;
    hide Tokenize;
    hide AcceptsParent;
    hide Join;
    hide RetainedTopicMap.Found;
    FilterAlgebra.UpToHashIs(f);
    var m := RetainAll(texts);
    var calls, from := m.Find(f);
    hits := set c | c in calls;
    forall k | k in texts ensures Join(Tokenize(k)) == k && Tokenize(k) in m.view.store {
      JoinTokenize(k);
    }
    forall t | t in m.view.store ensures Join(t) == m.view.store[t] {
      assert Tokenize(m.view.store[t]) == t;
    }
    assert RetainedTopicMap.Plain(m.view.store, m.view.leaks, f);
    forall k | k in texts && Takes(f, k) ensures k in hits {
      assert Tokenize(k) in from;
      var i :| 0 <= i < |from| && from[i] == Tokenize(k);
      assert calls[i] in calls && Join(from[i]) == calls[i];
    }
    forall k | k in hits ensures k in texts && Takes(f, k) {
      var i :| 0 <= i < |calls| && calls[i] == k;
      assert from[i] in from;
    }
  }

  lemma NoDollar()
    ensures !("$" <= "/x") && !("$" <= "a/b") && !("$" <= "a") && !("$" <= "a/b/c") && "$" <= "$aws/x"
  {
    assert "$"[0] == '$' && "/x"[0] == '/' && "a/b"[0] == "a"[0] == "a/b/c"[0] == 'a';
    assert "$aws/x"[..1] == "$";
  }

  lemma RetainedCases()
    ensures IsTopic(Tokenize("a")) && IsTopic(Tokenize("a/b")) && IsTopic(Tokenize("a/b/c"))
    ensures IsTopic(Tokenize("/x")) && IsTopic(Tokenize("$aws/x"))
    ensures var f := [Name("a"), Hash]; Takes(f, "a") && Takes(f, "a/b") && Takes(f, "a/b/c") && !Takes(f, "/x")
    ensures var f := [Name("a"), Plus]; !Takes(f, "a") && Takes(f, "a/b") && !Takes(f, "a/b/c") && !Takes(f, "/x")
    ensures Takes([Hash], "/x") && !Takes([Hash], "$aws/x") && Takes([Plus, Name("x")], "/x")
    ensures Takes([Name("$aws"), Hash], "$aws/x") && !Takes([Name("$aws"), Hash], "/x")
    ensures Takes([Hash], "a/b") && !Takes([Plus, Name("x")], "a/b")
  {
    hide Tokenize;
    Texts();
    Parsed();
    assert [Name("a"), Name("b"), Name("c")][1..] == [Name("b"), Name("c")];
    NoDollar();
  }

  /** '+' takes one level; '#' takes the rest and, here, the level above it too. */
  method RetainedLevelRules() returns (below: set<string>, one: set<string>)
    ensures below == {"a", "a/b", "a/b/c"} && one == {"a/b"}
  {
    hide Tokenize;
    hide Takes;
    RetainedCases();
    below := SearchRetained(["a", "a/b", "a/b/c", "/x"], [Name("a"), Hash]);
    one := SearchRetained(["a", "a/b", "a/b/c", "/x"], [Name("a"), Plus]);
  }

  /** A wildcard at the beginning takes an empty first level, and no first level that begins with '$'. */
  method RetainedLeadingDollar() returns (all: set<string>, plus: set<string>, system: set<string>)
    ensures all == {"/x", "a/b"} && plus == {"/x"} && system == {"$aws/x"}
  {
    hide Tokenize;
    hide Takes;
    RetainedCases();
    NoDollar();
    all := SearchRetained(["/x", "$aws/x", "a/b"], [Hash]);
    plus := SearchRetained(["/x", "a/b"], [Plus, Name("x")]);
    system := SearchRetained(["/x", "$aws/x"], [Name("$aws"), Hash]);
  }
}
