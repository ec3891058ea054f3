/** Rules added and removed while the broker runs: which entries the indexes lack after any history of it. */
module SecurityRuns {
  import opened Wrappers
  import opened TopicFilter
  import opened TrieModel
  import opened Authorization
  import opened LostEntries
  import opened Security
  import SubscriptionMap

  datatype Change =
    | Add(filter: Filter, pub: set<string>, pubType: AuthType, sub: set<string>, subType: AuthType)
    | Remove(nr: nat)

  /** What a change came to. */
  datatype Event = Added(rule: Rule) | Removed(rule: Rule, at: nat) | Refused

  /** A rule is added iff all its names are known, and removed iff there is one with the number. */
  ghost predicate Happens(groups: map<string, seq<string>>, users: set<string>, rules: seq<Rule>, c: Change,
                          ev: Event) {
    match c
    case Add(f, pub, pubType, sub, subType) =>
      if forall n | n in pub + sub :: KnownName(groups, users, n)
      then ev.Added? && ev.rule == Rule(f, ev.rule.nr, subType, sub, pubType, pub)
      else ev.Refused?
    case Remove(nr) =>
      if exists i :: 0 <= i < |rules| && rules[i].nr == nr
      then ev.Removed? && ev.at < |rules| && ev.rule == rules[ev.at] && ev.rule.nr == nr
      else ev.Refused?
  }

  ghost function RulesAfter(rules: seq<Rule>, ev: Event): seq<Rule> {
    match ev
    case Added(r) => rules + [r]
    case Removed(_, at) => if at < |rules| then Without(rules, at) else rules
    case Refused => rules
  }

  /** The rule list after a history of events. */
  ghost function RulesOf(rules: seq<Rule>, events: seq<Event>): seq<Rule> {
    if events == [] then rules else RulesAfter(RulesOf(rules, Init(events)), Last(events))
  }

  lemma RulesSnoc(rules: seq<Rule>, events: seq<Event>, ev: Event)
    ensures RulesOf(rules, events + [ev]) == RulesAfter(RulesOf(rules, events), ev)
  {
    assert Init(events + [ev]) == events;
  }

  /** The history of a run of changes, one event for each. */
  ghost predicate HistoryOf(groups: map<string, seq<string>>, users: set<string>, rules: seq<Rule>,
                            changes: seq<Change>, events: seq<Event>) {
    && |events| == |changes|
    && forall i | 0 <= i < |events| :: Happens(groups, users, RulesOf(rules, events[..i]), changes[i], events[i])
  }

  /** The entry was erased with a removed rule that has it, and no rule that has it was added since. */
  ghost predicate ErasedSince(events: seq<Event>, side: Side, e: Entry<string>) {
    exists k ::
      0 <= k < |events| && events[k].Removed? && Names(events[k].rule, side, e) && NotAdded(events, k, side, e)
  }

  ghost predicate NotAdded(events: seq<Event>, k: nat, side: Side, e: Entry<string>) {
    forall j | k < j < |events| && events[j].Added? :: !Names(events[j].rule, side, e)
  }

  lemma NotAddedSnoc(events: seq<Event>, ev: Event, k: nat, side: Side, e: Entry<string>)
    requires k < |events|
    ensures NotAdded(events + [ev], k, side, e)
       <==> NotAdded(events, k, side, e) && !(ev.Added? && Names(ev.rule, side, e))
  {
    hide Names;
    var more := events + [ev];
    assert forall j | 0 <= j < |events| :: more[j] == events[j];
    assert more[|events|] == ev;
  }

  lemma ErasedSnoc(events: seq<Event>, ev: Event, side: Side, e: Entry<string>)
    ensures ErasedSince(events + [ev], side, e)
         == match ev
            case Added(r) => ErasedSince(events, side, e) && !Names(r, side, e)
            case Removed(r, _) => ErasedSince(events, side, e) || Names(r, side, e)
            case Refused => ErasedSince(events, side, e)
  {
    hide Names;
    hide NotAdded;
    var more, n := events + [ev], |events|;
    forall k | 0 <= k < n
      ensures NotAdded(more, k, side, e) <==> NotAdded(events, k, side, e) && !(ev.Added? && Names(ev.rule, side, e))
    {
      NotAddedSnoc(events, ev, k, side, e);
    }
    LastNotAdded(more, side, e);
    if k :| 0 <= k < n && events[k].Removed? && Names(events[k].rule, side, e) && NotAdded(events, k, side, e) {
      assert more[k] == events[k];
    }
    assert ev.Removed? && Names(ev.rule, side, e) ==> more[n] == ev;
  }

  lemma LastNotAdded(events: seq<Event>, side: Side, e: Entry<string>)
    ensures events != [] ==> NotAdded(events, |events| - 1, side, e)
  {
  }

  /** Some rule of the list has the entry. */
  ghost predicate Due(rules: seq<Rule>, side: Side, e: Entry<string>) {
    exists i :: 0 <= i < |rules| && Names(rules[i], side, e)
  }

  /** The lost entries: those that a rule of the list is due to have, and that were erased since one was added. */
  ghost predicate LostExactly(lost: Pairs, rules: seq<Rule>, events: seq<Event>, side: Side) {
    forall e :: e in lost <==> ErasedSince(events, side, e) && Due(rules, side, e)
  }

  lemma LostSnoc(lost: Pairs, rules: seq<Rule>, events: seq<Event>, side: Side, ev: Event, lost': Pairs)
    requires LostExactly(lost, rules, events, side)
    requires ev.Removed? ==> ev.at < |rules| && ev.rule == rules[ev.at]
    requires match ev
             case Added(r) => lost' == lost - RuleEntries(r, side).Keys
             case Removed(_, at) => lost' == LostAfter(rules, side, at, lost)
             case Refused => lost' == lost
    ensures LostExactly(lost', RulesAfter(rules, ev), events + [ev], side)
  {
    var rules' := RulesAfter(rules, ev);
    forall e ensures e in lost' <==> ErasedSince(events + [ev], side, e) && Due(rules', side, e) {
      LostAt(lost, rules, events, side, ev, lost', e);
    }
  }

  lemma LostAt(lost: Pairs, rules: seq<Rule>, events: seq<Event>, side: Side, ev: Event, lost': Pairs, e: Entry<string>)
    requires LostExactly(lost, rules, events, side)
    requires ev.Removed? ==> ev.at < |rules| && ev.rule == rules[ev.at]
    requires match ev
             case Added(r) => lost' == lost - RuleEntries(r, side).Keys
             case Removed(_, at) => lost' == LostAfter(rules, side, at, lost)
             case Refused => lost' == lost
    ensures e in lost' <==> ErasedSince(events + [ev], side, e) && Due(RulesAfter(rules, ev), side, e)
  {
    hide Names;
    hide ErasedSince;
    hide RuleEntries;
    hide Index;
    ErasedSnoc(events, ev, side, e);
    var rules' := RulesAfter(rules, ev);
    IndexKeys(rules, side, e);
    IndexKeys(rules', side, e);
    match ev
    case Added(r) =>
      RuleEntriesAt(r, side, e);
      AddedNames(rules, r, side, e);
    case Removed(r, at) =>
      RuleEntriesAt(r, side, e);
      StillDueThen(rules, at, side, e);
    case Refused =>
  }

  lemma AddedNames(rules: seq<Rule>, r: Rule, side: Side, e: Entry<string>)
    ensures Due(rules + [r], side, e) <==> Due(rules, side, e) || Names(r, side, e)
  {
    hide Names;
    var more := rules + [r];
    if i :| 0 <= i < |rules| && Names(rules[i], side, e) {
      assert more[i] == rules[i];
    }
    assert more[|rules|] == r;
  }

  /** Who is named after a removal was named before it. */
  lemma StillDueThen(rules: seq<Rule>, at: nat, side: Side, e: Entry<string>)
    requires at < |rules|
    ensures Due(Without(rules, at), side, e) ==> Due(rules, side, e)
  {
    hide Names;
    if i :| 0 <= i < |Without(rules, at)| && Names(Without(rules, at)[i], side, e) {
      assert Without(rules, at)[i] == rules[if i < at then i else i + 1];
    }
  }

  lemma NothingLostYet(rules: seq<Rule>, side: Side)
    ensures LostExactly({}, rules, [], side)
  {
  }

  /** One change of the rules. */
  method Perform(sec: Security, c: Change, ghost rules0: seq<Rule>, ghost events: seq<Event>)
    returns (ghost ev: Event)
    requires sec.Intact() && sec.rules == RulesOf(rules0, events)
    requires LostExactly(sec.lostPub, sec.rules, events, Pub) && LostExactly(sec.lostSub, sec.rules, events, Sub)
    modifies sec`rules, sec`lostPub, sec`lostSub, sec.authPubMap, sec.authSubMap
    ensures sec.Intact() && sec.rules == RulesOf(rules0, events + [ev])
    ensures Happens(sec.groups, sec.users, old(sec.rules), c, ev)
    ensures LostExactly(sec.lostPub, sec.rules, events + [ev], Pub)
    ensures LostExactly(sec.lostSub, sec.rules, events + [ev], Sub)
  {
    hide SubscriptionMap.Stands;
    hide LostExactly;
    hide Index;
    hide LostAfter;
    hide RuleEntries;
    hide RulesOf;
    ghost var rules, lostPub, lostSub := sec.rules, sec.lostPub, sec.lostSub;
    match c {
      case Add(f, pub, pubType, sub, subType) =>
        var nr := sec.AddAuth(f, pub, pubType, sub, subType);
        if nr.Some? {
          ev := Added(Rule(f, nr.value, subType, sub, pubType, pub));
          AddedEntries(ev.rule, sec.groups, sec.users);
        } else {
          ev := Refused;
        }
      case Remove(nr) =>
        ghost var removed := sec.RemoveAuth(nr);
        ev := if removed.Some? then Removed(rules[removed.value], removed.value) else Refused;
    }
    LostSnoc(lostPub, rules, events, Pub, ev, sec.lostPub);
    LostSnoc(lostSub, rules, events, Sub, ev, sec.lostSub);
    RulesSnoc(rules0, events, ev);
  }

  lemma AddedEntries(r: Rule, groups: map<string, seq<string>>, users: set<string>)
    requires forall n | n in r.pub + r.sub :: KnownName(groups, users, n)
    ensures RuleEntries(r, Pub).Keys == PairsOf(r.filter, r.pub) && RuleEntries(r, Sub).Keys == PairsOf(r.filter, r.sub)
  {
    assert forall n | n in r.pub || n in r.sub :: n in r.pub + r.sub;
    assert NamedBy(r, Pub) == r.pub && NamedBy(r, Sub) == r.sub;
  }

  /**
   * Any run of changes on exact indexes: the rule list is that of the history, and an entry is lost exactly when a rule
   * of the list is due to have it and it was erased with a removed rule after the last addition of a rule that has it.
   * What is decided then is `Security.AuthPub` and `Security.AuthSub` for these lost entries.
   */
  method Run(sec: Security, changes: seq<Change>) returns (ghost events: seq<Event>)
    requires sec.Valid()
    modifies sec`rules, sec`lostPub, sec`lostSub, sec.authPubMap, sec.authSubMap
    ensures sec.Intact() && sec.rules == RulesOf(old(sec.rules), events)
    ensures HistoryOf(sec.groups, sec.users, old(sec.rules), changes, events)
    ensures LostExactly(sec.lostPub, sec.rules, events, Pub) && LostExactly(sec.lostSub, sec.rules, events, Sub)
  {
    hide SubscriptionMap.Stands;
    hide LostExactly;
    hide Index;
    hide RulesOf;
    hide Happens;
    ghost var rules0 := sec.rules;
    events := [];
    NothingLostYet(rules0, Pub);
    NothingLostYet(rules0, Sub);
    NoEvents(rules0);
    for i := 0 to |changes|
      invariant sec.Intact() && sec.rules == RulesOf(rules0, events) && |events| == i
      invariant HistoryOf(sec.groups, sec.users, rules0, changes[..i], events)
      invariant LostExactly(sec.lostPub, sec.rules, events, Pub) && LostExactly(sec.lostSub, sec.rules, events, Sub)
    {
      ghost var ev := Perform(sec, changes[i], rules0, events);
      TakeSnoc(changes, i);
      HistorySnoc(sec.groups, sec.users, rules0, changes[..i], events, changes[i], ev);
      events := events + [ev];
    }
    assert changes[..|changes|] == changes;
  }

  lemma NoEvents(rules: seq<Rule>)
    ensures RulesOf(rules, []) == rules
  {
  }

  lemma HistorySnoc(groups: map<string, seq<string>>, users: set<string>, rules: seq<Rule>, changes: seq<Change>,
                    events: seq<Event>, c: Change, ev: Event)
    requires HistoryOf(groups, users, rules, changes, events)
    requires Happens(groups, users, RulesOf(rules, events), c, ev)
    ensures HistoryOf(groups, users, rules, changes + [c], events + [ev])
  {
    hide Happens;
    hide RulesOf;
    var n, changes', events' := |events|, changes + [c], events + [ev];
    forall i | 0 <= i <= n ensures Happens(groups, users, RulesOf(rules, events'[..i]), changes'[i], events'[i]) {
      assert events'[..i] == events[..i];
      assert events[..n] == events;
    }
  }
}
