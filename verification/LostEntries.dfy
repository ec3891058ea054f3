/**
 * Removing a rule erases its names from the index although another rule may have entered them too. The entries that
 * are missing then are kept track of here, and so is what the index still decides.
 */
module LostEntries {
  import opened TopicFilter
  import opened TrieModel
  import opened Authorization

  type Pairs = set<Entry<string>>

  /** The names of a rule whose entry is not lost. */
  function Kept(r: Rule, names: set<string>, lost: Pairs): set<string> {
    set n | n in names && Entry(r.filter, n) !in lost
  }

  function Silenced(r: Rule, side: Side, lost: Pairs): Rule {
    if side.Pub? then r.(pub := Kept(r, r.pub, lost)) else r.(sub := Kept(r, r.sub, lost))
  }

  /** The rule list as the index knows it: every rule without the names whose entry is lost. */
  function Effective(rules: seq<Rule>, side: Side, lost: Pairs): seq<Rule> {
    seq(|rules|, i requires 0 <= i < |rules| => Silenced(rules[i], side, lost))
  }

  /** A silenced rule applies through a name whose entry is not lost. */
  lemma SilencedApplies(r: Rule, side: Side, lost: Pairs, names: set<string>, topic: seq<Level>)
    ensures Applies(Silenced(r, side, lost), side, names, topic)
       <==> Matches(r.filter, topic) && exists n :: n in NamedBy(r, side) && n in names && Entry(r.filter, n) !in lost
  {
    assert NamedBy(Silenced(r, side, lost), side) == Kept(r, NamedBy(r, side), lost);
  }

  lemma NothingLost(rules: seq<Rule>, side: Side)
    ensures Effective(rules, side, {}) == rules
  {
    forall i | 0 <= i < |rules| ensures Silenced(rules[i], side, {}) == rules[i] {
      assert Kept(rules[i], rules[i].pub, {}) == rules[i].pub && Kept(rules[i], rules[i].sub, {}) == rules[i].sub;
    }
  }

  lemma EffectiveOrdered(rules: seq<Rule>, side: Side, lost: Pairs)
    requires Ordered(rules)
    ensures Ordered(Effective(rules, side, lost))
  {
  }

  lemma SilencedEntries(r: Rule, side: Side, lost: Pairs)
    ensures RuleEntries(Silenced(r, side, lost), side) == RuleEntries(r, side) - lost
  {
    var s := Silenced(r, side, lost);
    assert NamedBy(s, side) == Kept(r, NamedBy(r, side), lost);
    forall e ensures SameAt(RuleEntries(s, side), RuleEntries(r, side) - lost, e) {
      RuleEntriesAt(s, side, e);
      RuleEntriesAt(r, side, e);
    }
    SameEverywhere(RuleEntries(s, side), RuleEntries(r, side) - lost);
  }

  /** An index less some entries is the index of the silenced rules. */
  lemma {:induction false} IndexEffective(rules: seq<Rule>, side: Side, lost: Pairs)
    ensures Index(Effective(rules, side, lost), side) == Index(rules, side) - lost
    decreases |rules|
  {
    if rules != [] {
      var all := Effective(rules, side, lost);
      assert Init(all) == Effective(Init(rules), side, lost) && Last(all) == Silenced(Last(rules), side, lost);
      IndexEffective(Init(rules), side, lost);
      SilencedEntries(Last(rules), side, lost);
      MinusPlus(Index(Init(rules), side), RuleEntries(Last(rules), side), lost);
    }
  }

  lemma MinusPlus(a: Verdicts, b: Verdicts, lost: Pairs)
    ensures (a - lost) + (b - lost) == (a + b) - lost
  {
  }

  /** Entering a rule's names brings back the lost entries among them. */
  lemma AdditionLost(index: Verdicts, entries: Verdicts, lost: Pairs)
    ensures (index - lost) + entries == (index + entries) - (lost - entries.Keys)
  {
  }

  /** Lost after a removal: what was lost before or is erased now, as far as a remaining rule is due to have it. */
  function LostAfter(rules: seq<Rule>, side: Side, i: nat, lost: Pairs): Pairs
    requires i < |rules|
  {
    (lost + RuleEntries(rules[i], side).Keys) * Index(Without(rules, i), side).Keys
  }

  lemma RemovalLost(rules: seq<Rule>, side: Side, i: nat, lost: Pairs)
    requires i < |rules|
    ensures (Index(rules, side) - lost) - RuleEntries(rules[i], side).Keys
            == Index(Without(rules, i), side) - LostAfter(rules, side, i, lost)
  {
    hide Index;
    hide RuleEntries;
    var left := (Index(rules, side) - lost) - RuleEntries(rules[i], side).Keys;
    var due := Index(Without(rules, i), side) - LostAfter(rules, side, i, lost);
    forall e ensures SameAt(left, due, e) {
      RuleEntriesAt(rules[i], side, e);
      if !Names(rules[i], side, e) {
        IndexWithout(rules, side, i, e);
      }
    }
    SameEverywhere(left, due);
  }

  /** From an exact index, a removal loses nothing exactly when no other rule shares an entry with the removed one. */
  lemma NothingLostExact(rules: seq<Rule>, side: Side, i: nat)
    requires i < |rules|
    ensures LostAfter(rules, side, i, {}) == {} <==> Removable(rules, side, i)
  {
    hide Index;
    hide Removable;
    RemovalLost(rules, side, i, {});
    RemovalExact(rules, side, i);
    var after, lost := Index(Without(rules, i), side), LostAfter(rules, side, i, {});
    assert Index(rules, side) - {} == Index(rules, side);
    assert lost == {} ==> after - lost == after;
    assert lost != {} ==> after - lost != after by {
      if e :| e in lost {
        assert e in after && e !in after - lost;
      }
    }
  }
}
