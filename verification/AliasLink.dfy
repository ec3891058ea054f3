/** A sender and a receiver of topic aliases joined by a first-in first-out channel. */
module AliasLink {
  import opened Wrappers
  import opened TopicFilter
  import opened ValueAllocator
  import opened TopicAlias

  /** The parts of a PUBLISH packet that matter here; an empty topic stands for "use the alias". */
  datatype Packet = Packet(topic: string, alias: Option<nat>)

  datatype Mode = Manual | AutoMap | AutoReplace

  // ----- the receiver as a function of its table

  predicate InBounds(alias: nat, max: nat) {
    1 <= alias <= max
  }

  /** The topic a packet resolves to, None where the receiver disconnects with "topic alias invalid". */
  function Resolve(table: map<nat, string>, p: Packet, max: nat): Option<string> {
    if p.topic == "" then
      if p.alias.Some? && InBounds(p.alias.value, max) && p.alias.value in table && table[p.alias.value] != ""
      then Some(table[p.alias.value]) else None
    else if p.alias.Some? && !InBounds(p.alias.value, max) then None
    else Some(p.topic)
  }

  function Learn(table: map<nat, string>, p: Packet, max: nat): map<nat, string> {
    if p.topic != "" && p.alias.Some? && InBounds(p.alias.value, max) then table[p.alias.value := p.topic] else table
  }

  /** The receiver's table once it has taken everything from the channel. */
  function LearnAll(table: map<nat, string>, channel: seq<Packet>, max: nat): map<nat, string>
    decreases |channel|
  {
    if channel == [] then table else LearnAll(Learn(table, channel[0], max), channel[1..], max)
  }

  function ResolveAll(table: map<nat, string>, channel: seq<Packet>, max: nat): seq<Option<string>>
    decreases |channel|
  {
    if channel == [] then []
    else [Resolve(table, channel[0], max)] + ResolveAll(Learn(table, channel[0], max), channel[1..], max)
  }

  /** A packet that would bind the alias again. */
  predicate Rebinds(p: Packet, a: nat) {
    p.topic != "" && p.alias == Some(a)
  }

  /** Once bound, an alias resolves to its topic through everything that does not bind it again. */
  lemma {:induction false} BindingLasts(table: map<nat, string>, channel: seq<Packet>, max: nat, a: nat)
    requires InBounds(a, max) && a in table && table[a] != "" && forall i | 0 <= i < |channel| ::
             !Rebinds(channel[i], a)
    ensures Resolve(LearnAll(table, channel, max), Packet("", Some(a)), max) == Some(table[a])
    decreases |channel|
  {
    if channel != [] {
      assert !Rebinds(channel[0], a);
      BindingLasts(Learn(table, channel[0], max), channel[1..], max, a);
    }
  }

  /** The last packet that binds an alias decides what the alias resolves to. */
  lemma {:induction false} LastBindingResolves(table: map<nat, string>, channel: seq<Packet>, max: nat, k: nat)
    requires k < |channel| && channel[k].topic != "" && channel[k].alias.Some? && InBounds(channel[k].alias.value, max)
    requires forall i | k < i < |channel| :: !Rebinds(channel[i], channel[k].alias.value)
    ensures Resolve(LearnAll(table, channel, max), Packet("", channel[k].alias), max) == Some(channel[k].topic)
    decreases |channel|
  {
    var next := Learn(table, channel[0], max);
    if k == 0 {
      BindingLasts(next, channel[1..], max, channel[0].alias.value);
    } else {
      assert channel[1..][k - 1] == channel[k];
      LastBindingResolves(next, channel[1..], max, k - 1);
    }
  }

  lemma {:induction false} SendOne(table: map<nat, string>, channel: seq<Packet>, p: Packet, max: nat)
    ensures LearnAll(table, channel + [p], max) == Learn(LearnAll(table, channel, max), p, max)
    ensures ResolveAll(table, channel + [p], max) == ResolveAll(table, channel, max)
            + [Resolve(LearnAll(table, channel, max), p, max)]
    decreases |channel|
  {
    if channel == [] {
      assert channel + [p] == [p];
    } else {
      assert (channel + [p])[0] == channel[0] && (channel + [p])[1..] == channel[1..] + [p];
      SendOne(Learn(table, channel[0], max), channel[1..], p, max);
    }
  }

  function Meant(topics: seq<string>): seq<Option<string>> {
    seq(|topics|, i requires 0 <= i < |topics| => Some(topics[i]))
  }

  lemma MeantSnoc(topics: seq<string>, t: string)
    ensures Meant(topics + [t]) == Meant(topics) + [Some(t)]
  {
  }

  lemma {:induction false} ResolveAllLength(table: map<nat, string>, channel: seq<Packet>, max: nat)
    ensures |ResolveAll(table, channel, max)| == |channel|
    decreases |channel|
  {
    if channel != [] {
      ResolveAllLength(Learn(table, channel[0], max), channel[1..], max);
    }
  }

  // ----- the sender as a relation on its table

  /** Whether a publication makes the sender bind an alias. */
  predicate Registers(aliases: Aliases, topic: string, alias: Option<nat>, mode: Mode) {
    topic != "" && (alias.Some? || (mode == AutoMap && forall a | a in aliases :: aliases[a].topic != topic))
  }

  /**
   * Whether the alias rules admit a publication: an empty topic needs a bound alias, and any alias must be in range.
   */
  predicate Sendable(aliases: Aliases, topic: string, alias: Option<nat>, max: nat) {
    && (alias.Some? ==> InBounds(alias.value, max))
    && (topic == "" ==> alias.Some? && alias.value in aliases)
  }

  /** Whether the packet goes out without its topic. */
  predicate Replaced(aliases: Aliases, topic: string, alias: Option<nat>, mode: Mode) {
    topic == "" || (alias.None? && mode != Manual && exists a :: a in aliases && aliases[a].topic == topic)
  }

  /** The topic that a publication is about. */
  function TopicMeant(aliases: Aliases, topic: string, alias: Option<nat>): string
    requires topic == "" ==> alias.Some? && alias.value in aliases
  {
    if topic == "" then aliases[alias.value].topic else topic
  }

  /** The least vacant alias while there is one, and then a bound one that was used no later than any other. */
  predicate LruChoice(aliases: Aliases, vacant: set<nat>, a: nat) {
    if vacant != {} then a in vacant && forall b | b in vacant :: a <= b
    else a in aliases && forall b | b in aliases :: aliases[a].tp <= aliases[b].tp
  }

  /** The packet made of an admitted publication, and the table and the vacant aliases it leaves. */
  ghost predicate Prepared(before: Aliases, vacant: set<nat>, after: Aliases, left: set<nat>, topic: string,
                           alias: Option<nat>, mode: Mode, now: nat, max: nat, p: Packet)
    requires Sendable(before, topic, alias, max)
  {
    if topic == "" then
      && p == Packet("", alias) && after == before[alias.value := before[alias.value].(tp := now)] && left == vacant
    else if Registers(before, topic, alias, mode) then
      && p.topic == topic && p.alias.Some? && InBounds(p.alias.value, max)
      && (if alias.Some? then p.alias == alias else LruChoice(before, vacant, p.alias.value))
      && after == Rebound(before, topic, p.alias.value, now) && left == vacant - {p.alias.value}
    else if Replaced(before, topic, alias, mode) then
      && p.topic == "" && p.alias.Some? && p.alias.value in before && before[p.alias.value].topic == topic
      && after == before && left == vacant
    else p == Packet(topic, None) && after == before && left == vacant
  }

  // ----- both ends

  /** The sender's table with its vacant aliases, and the receiver's once it has taken everything from the channel. */
  datatype Ends = Ends(sender: Aliases, vacant: set<nat>, settled: map<nat, string>)

  /** Every binding of the sender is one the receiver will have. */
  ghost predicate InStep(ends: Ends) {
    forall a | a in ends.sender :: a in ends.settled && ends.settled[a] == ends.sender[a].topic
  }

  /** Aliases are in range and stand for topics, one each. */
  predicate Proper(aliases: Aliases, max: nat) {
    OneToOne(aliases) && forall a | a in aliases :: InBounds(a, max) && aliases[a].topic != ""
  }

  /** In step means that every alias the sender could use for a topic resolves to that topic. */
  lemma InStepExact(ends: Ends, max: nat)
    requires Proper(ends.sender, max)
    ensures InStep(ends) <==> forall a | a in ends.sender ::
              Resolve(ends.settled, Packet("", Some(a)), max) == Some(ends.sender[a].topic)
  {
    forall a | a in ends.sender
      ensures Resolve(ends.settled, Packet("", Some(a)), max) == Some(ends.sender[a].topic)
         <==> a in ends.settled && ends.settled[a] == ends.sender[a].topic
    {
    }
  }

  datatype Event = Pub(topic: string, alias: Option<nat>, mode: Mode, quota: bool, now: nat) | Take

  /** Whether the event is a publication that the alias rules admit. */
  predicate Admitted(aliases: Aliases, e: Event, max: nat) {
    e.Pub? && Sendable(aliases, e.topic, e.alias, max)
  }

  /** One event: an admitted publication changes the sender, and the receiver too when the packet is sent. */
  ghost predicate Steps(before: Ends, e: Event, after: Ends, p: Packet, max: nat) {
    if Admitted(before.sender, e, max) then
      && Prepared(before.sender, before.vacant, after.sender, after.vacant, e.topic, e.alias, e.mode, e.now, max, p)
      && after.settled == if e.quota then Learn(before.settled, p, max) else before.settled
    else after == before
  }

  /**
   * A refusal does no harm when it made no binding, when the topic already had another alias, so that the new one was
   * dropped, or when the receiver will have the binding anyway.
   */
  predicate Harmless(ends: Ends, e: Event, p: Packet, max: nat) {
    Admitted(ends.sender, e, max) && !e.quota && Registers(ends.sender, e.topic, e.alias, e.mode) && p.alias.Some? ==>
      || BoundElsewhere(ends.sender, e.topic, p.alias.value)
      || (p.alias.value in ends.settled && ends.settled[p.alias.value] == e.topic)
  }

  /** A binding for a packet that is then not sent keeps the ends in step exactly when it does no harm. */
  lemma RefusedRegistration(ends: Ends, topic: string, a: nat, now: nat)
    requires InStep(ends)
    ensures InStep(ends.(sender := Rebound(ends.sender, topic, a, now)))
       <==> BoundElsewhere(ends.sender, topic, a) || (a in ends.settled && ends.settled[a] == topic)
  {
    if !BoundElsewhere(ends.sender, topic, a) {
      assert a in Rebound(ends.sender, topic, a, now);
    }
  }

  /** A packet that is sent keeps the ends in step, and resolves to the topic that was meant. */
  lemma SendKeepsStep(before: Ends, e: Event, after: Ends, p: Packet, max: nat)
    requires Proper(before.sender, max) && InStep(before) && Steps(before, e, after, p, max)
    requires Admitted(before.sender, e, max) && e.quota
    ensures InStep(after) && Resolve(before.settled, p, max) == Some(TopicMeant(before.sender, e.topic, e.alias))
  {
  }

  /** Every event keeps the ends in step, harmful refusals excepted, and those never do. */
  lemma StepExact(before: Ends, e: Event, after: Ends, p: Packet, max: nat)
    requires Proper(before.sender, max) && InStep(before) && Steps(before, e, after, p, max)
    ensures InStep(after) <==> Harmless(before, e, p, max)
  {
    if Admitted(before.sender, e, max) {
      if e.quota {
        SendKeepsStep(before, e, after, p, max);
      } else if Registers(before.sender, e.topic, e.alias, e.mode) {
        RefusedRegistration(before, e.topic, p.alias.value, e.now);
      }
    }
  }

  lemma StepProper(before: Ends, e: Event, after: Ends, p: Packet, max: nat)
    requires Proper(before.sender, max) && Steps(before, e, after, p, max)
    ensures Proper(after.sender, max)
  {
    if Admitted(before.sender, e, max) && Registers(before.sender, e.topic, e.alias, e.mode) {
      ReboundKeeps(before.sender, e.topic, p.alias.value, e.now);
    }
  }

  // ----- runs

  /** The states between the events of a run, and the packets that were made. */
  ghost predicate Trace(ends: seq<Ends>, events: seq<Event>, packets: seq<Packet>, max: nat) {
    && |ends| == |events| + 1 && |packets| == |events|
    && forall i | 0 <= i < |events| :: Steps(ends[i], events[i], ends[i + 1], packets[i], max)
  }

  lemma TraceSnoc(ends: seq<Ends>, events: seq<Event>, packets: seq<Packet>, max: nat, e: Event, after: Ends, p: Packet)
    requires Trace(ends, events, packets, max) && Steps(ends[|events|], e, after, p, max)
    ensures Trace(ends + [after], events + [e], packets + [p], max)
  {
    hide Steps;
    var ends', events', packets' := ends + [after], events + [e], packets + [p];
    forall i | 0 <= i < |events'| ensures Steps(ends'[i], events'[i], ends'[i + 1], packets'[i], max) {
      assert i < |events| ==> Steps(ends[i], events[i], ends[i + 1], packets[i], max);
    }
  }

  /** Through a whole run the ends are in step all along exactly when no refusal did harm. */
  lemma {:induction false} TraceExact(ends: seq<Ends>, events: seq<Event>, packets: seq<Packet>, max: nat)
    requires Trace(ends, events, packets, max) && Proper(ends[0].sender, max) && InStep(ends[0])
    ensures (forall i | 0 <= i < |ends| :: InStep(ends[i])) <==>
            (forall i | 0 <= i < |events| :: Harmless(ends[i], events[i], packets[i], max))
    decreases |events|
  {
    hide InStep;
    hide Harmless;
    hide Proper;
    if events != [] {
      assert Steps(ends[0], events[0], ends[0 + 1], packets[0], max);
      hide Steps;
      StepProper(ends[0], events[0], ends[1], packets[0], max);
      StepExact(ends[0], events[0], ends[1], packets[0], max);
      var ends', events', packets' := ends[1..], events[1..], packets[1..];
      forall i | 0 <= i < |events'| ensures Steps(ends'[i], events'[i], ends'[i + 1], packets'[i], max) {
        assert Steps(ends[i + 1], events[i + 1], ends[i + 1 + 1], packets[i + 1], max);
      }
      if InStep(ends[1]) {
        TraceExact(ends', events', packets', max);
        assert forall i | 0 < i < |ends| :: ends[i] == ends'[i - 1];
        assert forall i | 0 < i < |events| :: events[i] == events'[i - 1] && packets[i] == packets'[i - 1];
      }
    }
  }

  /** What an event publishes. */
  function Published(aliases: Aliases, e: Event, max: nat): seq<string> {
    if Admitted(aliases, e, max) && e.quota then [TopicMeant(aliases, e.topic, e.alias)] else []
  }

  /** What a run publishes, in order. */
  function PublishedBy(ends: seq<Ends>, events: seq<Event>, max: nat): seq<string>
    requires |ends| == |events| + 1
    decreases |events|
  {
    if events == [] then [] else
      var n := |events| - 1;
      PublishedBy(ends[..n + 1], events[..n], max) + Published(ends[n].sender, events[n], max)
  }

  /** How many packets are under way after an event: one less when one is taken, one more when one is sent. */
  function LeftAfter(n: nat, aliases: Aliases, e: Event, max: nat): nat {
    if e.Take? then (if n > 0 then n - 1 else 0) else n + |Published(aliases, e, max)|
  }

  /** How many packets are under way after a run that started with `n`. */
  function UnderWay(n: nat, ends: seq<Ends>, events: seq<Event>, max: nat): nat
    requires |ends| == |events| + 1
    decreases |events|
  {
    if events == [] then n else
      var k := |events| - 1;
      LeftAfter(UnderWay(n, ends[..k + 1], events[..k], max), ends[k].sender, events[k], max)
  }

  lemma RunSnoc(n: nat, ends: seq<Ends>, events: seq<Event>, max: nat, e: Event, after: Ends)
    requires |ends| == |events| + 1
    ensures PublishedBy(ends + [after], events + [e], max) == PublishedBy(ends, events, max)
            + Published(ends[|events|].sender, e, max)
    ensures UnderWay(n, ends + [after], events + [e], max)
         == LeftAfter(UnderWay(n, ends, events, max), ends[|events|].sender, e, max)
  {
    assert (ends + [after])[..|events| + 1] == ends && (events + [e])[..|events|] == events;
  }

  // ----- automatic aliases

  /** The aliases that can be given out are exactly those that are not bound. */
  ghost predicate Tidy(ends: Ends, max: nat) {
    forall a: nat :: a in ends.vacant <==> InBounds(a, max) && a !in ends.sender
  }

  /** Only publications without an alias of their own, which are mapped automatically. */
  predicate Automatic(e: Event) {
    e.Pub? ==> e.alias == None && e.mode == AutoMap
  }

  /** All topics, bound or published, are among the given ones. */
  ghost predicate Among(ends: Ends, topics: set<string>) {
    forall a | a in ends.sender :: ends.sender[a].topic in topics
  }

  ghost predicate StillBound(before: Ends, after: Ends) {
    forall a | a in before.sender :: a in after.sender && after.sender[a].topic == before.sender[a].topic
  }

  /** Different topics under the aliases 1 to n are n topics at least. */
  lemma {:induction false} Pigeonhole(n: nat, aliases: Aliases, topics: set<string>)
    requires OneToOne(aliases) && forall a | 1 <= a <= n :: a in aliases && aliases[a].topic in topics
    ensures n <= |topics|
    decreases n
  {
    if n > 0 {
      var t := aliases[n].topic;
      forall a | 1 <= a <= n - 1 ensures aliases[a].topic in topics - {t} {
        assert a in aliases && n in aliases;
      }
      Pigeonhole(n - 1, aliases, topics - {t});
    }
  }

  /** While there are aliases for all topics, an automatic publication takes one that nobody has. */
  lemma AutomaticStep(before: Ends, e: Event, after: Ends, p: Packet, max: nat, topics: set<string>)
    requires Proper(before.sender, max) && Tidy(before, max) && Steps(before, e, after, p, max) && Automatic(e)
    requires |topics| <= max && Among(before, topics) && (e.Pub? ==> e.topic in topics)
    ensures Tidy(after, max) && Among(after, topics) && StillBound(before, after)
    ensures Admitted(before.sender, e, max) ==>
              p.alias.Some? && p.alias.value in after.sender && after.sender[p.alias.value].topic == e.topic
  {
    if Admitted(before.sender, e, max) && Registers(before.sender, e.topic, e.alias, e.mode) {
      if before.vacant == {} {
        Pigeonhole(max, before.sender, topics - {e.topic});
      }
      assert p.alias.value !in before.sender;
    }
  }

  lemma {:induction false} NoEviction(ends: seq<Ends>, events: seq<Event>, packets: seq<Packet>, max: nat,
                                      topics: set<string>, i: nat, j: nat)
    requires Trace(ends, events, packets, max) && i <= j < |ends|
    requires Proper(ends[0].sender, max) && Tidy(ends[0], max) && Among(ends[0], topics) && |topics| <= max
    requires forall k | 0 <= k < |events| :: Automatic(events[k]) && (events[k].Pub? ==> events[k].topic in topics)
    ensures Proper(ends[j].sender, max) && Tidy(ends[j], max) && Among(ends[j], topics) && StillBound(ends[i], ends[j])
    decreases j
  {
    hide Steps;
    hide Proper;
    hide Tidy;
    hide Among;
    hide Automatic;
    if j > 0 {
      var k := j - 1;
      NoEviction(ends, events, packets, max, topics, if i < j then i else k, k);
      assert Steps(ends[k], events[k], ends[k + 1], packets[k], max);
      StepProper(ends[k], events[k], ends[j], packets[k], max);
      AutomaticStep(ends[k], events[k], ends[j], packets[k], max, topics);
    }
  }

  /**
   * Over a run of automatic publications with no more topics than aliases no binding is ever dropped, and whenever a
   * topic is published again the packet carries the alias of the first time alone.
   */
  lemma SpelledOutOnce(ends: seq<Ends>, events: seq<Event>, packets: seq<Packet>, max: nat, topics: set<string>, i: nat,
                       j: nat)
    requires Trace(ends, events, packets, max) && i < j < |events|
    requires Proper(ends[0].sender, max) && Tidy(ends[0], max) && Among(ends[0], topics) && |topics| <= max
    requires forall k | 0 <= k < |events| :: Automatic(events[k]) && (events[k].Pub? ==> events[k].topic in topics)
    requires events[i].Pub? && events[j].Pub? && events[i].topic == events[j].topic != ""
    ensures StillBound(ends[i], ends[j])
    ensures packets[i].alias.Some? && packets[j] == Packet("", packets[i].alias)
  {
    NoEviction(ends, events, packets, max, topics, i, i);
    NoEviction(ends, events, packets, max, topics, i, j);
    NoEviction(ends, events, packets, max, topics, i + 1, j);
    assert Steps(ends[i], events[i], ends[i + 1], packets[i], max);
    assert Steps(ends[j], events[j], ends[j + 1], packets[j], max);
    hide Trace;
    AutomaticStep(ends[i], events[i], ends[i + 1], packets[i], max, topics);
  }

  // ----- what is resolved

  /** Everything resolved so far, and everything still in the channel, is what was published, in order. */
  ghost predicate FaithfulTo(table: map<nat, string>, channel: seq<Packet>, resolved: seq<string>,
                             published: seq<string>, max: nat) {
    resolved <= published && ResolveAll(table, channel, max) == Meant(published[|resolved|..])
  }

  lemma FaithfulLength(table: map<nat, string>, channel: seq<Packet>, resolved: seq<string>, published: seq<string>,
                       max: nat)
    requires FaithfulTo(table, channel, resolved, published, max)
    ensures |published| == |resolved| + |channel| && resolved == published[..|published| - |channel|]
    ensures channel == [] ==> resolved == published
  {
    ResolveAllLength(table, channel, max);
  }

  lemma FaithfulSend(table: map<nat, string>, channel: seq<Packet>, resolved: seq<string>, published: seq<string>,
                     max: nat, p: Packet, t: string)
    requires FaithfulTo(table, channel, resolved, published, max)
             && Resolve(LearnAll(table, channel, max), p, max) == Some(t)
    ensures FaithfulTo(table, channel + [p], resolved, published + [t], max)
  {
    SendOne(table, channel, p, max);
    MeantSnoc(published[|resolved|..], t);
    assert (published + [t])[|resolved|..] == published[|resolved|..] + [t];
  }

  lemma FaithfulTake(table: map<nat, string>, channel: seq<Packet>, resolved: seq<string>, published: seq<string>,
                     max: nat)
    requires FaithfulTo(table, channel, resolved, published, max) && channel != []
    ensures |resolved| < |published| && Resolve(table, channel[0], max) == Some(published[|resolved|])
    ensures FaithfulTo(Learn(table, channel[0], max), channel[1..], resolved + [published[|resolved|]], published, max)
  {
    FaithfulLength(table, channel, resolved, published, max);
    var next := published[|resolved|..];
    assert ResolveAll(table, channel, max)[0] == Resolve(table, channel[0], max);
    assert Meant(next)[0] == Some(next[0]);
    assert Meant(next)[1..] == Meant(next[1..]);
    assert published[|resolved| + 1..] == next[1..];
    assert ResolveAll(table, channel, max)[1..] == ResolveAll(Learn(table, channel[0], max), channel[1..], max);
  }

  class Link {
    const sender: TopicAliasSend
    const receiver: TopicAliasRecv
    var channel: seq<Packet>
    ghost var published: seq<string>
    ghost var resolved: seq<string>

    ghost predicate Joined()
      reads this, sender, sender.va, receiver
    {
      sender.Valid() && receiver.Valid() && receiver.max == sender.max && |resolved| + |channel| <= |published|
    }

    ghost function Now(): Ends
      reads this, sender, sender.va, receiver
    {
      Ends(sender.aliases, sender.Vacant(), LearnAll(receiver.Bindings(), channel, sender.max))
    }

    ghost predicate Valid()
      reads this, sender, sender.va, receiver
    {
      Joined() && InStep(Now()) && FaithfulTo(receiver.Bindings(), channel, resolved, published, sender.max)
    }

    constructor (max: nat)
      requires max >= 1
      ensures Valid() && fresh(sender) && fresh(sender.va) && fresh(receiver)
      ensures published == [] && resolved == [] && channel == [] && sender.max == max && sender.aliases == map[]
              && receiver.Bindings() == map[] && Tidy(Now(), max)
    {
      sender := new TopicAliasSend(max);
      receiver := new TopicAliasRecv(max);
      channel, published, resolved := [], [], [];
    }

    /** The alias handling of sending a PUBLISH; None where the connection reports an error instead. */
    method Prepare(topic: string, alias: Option<nat>, mode: Mode, now: nat) returns (p: Option<Packet>)
      requires sender.Valid()
      modifies sender, sender.va
      ensures sender.Valid()
      ensures p.Some? <==> Sendable(old(sender.aliases), topic, alias, sender.max)
      ensures p.Some? ==> Prepared(old(sender.aliases), old(sender.Vacant()), sender.aliases, sender.Vacant(), topic,
                                   alias, mode, now, sender.max, p.value)
      ensures p.None? ==> sender.aliases == old(sender.aliases) && sender.Vacant() == old(sender.Vacant())
    {
      hide Canonical;
      hide Free;
      hide Within;
      hide OneToOne;
      if topic == "" {
        if alias.None? || !InBounds(alias.value, sender.max) {
          return None;
        }
        var registered := sender.Find(alias.value, now);
        if registered == "" {
          return None;
        }
        return Some(Packet("", alias));
      }
      if alias.Some? {
        if !InBounds(alias.value, sender.max) {
          return None;
        }
        sender.InsertOrUpdate(topic, alias.value, now);
        return Some(Packet(topic, alias));
      }
      if mode == Manual {
        return Some(Packet(topic, None));
      }
      var found := sender.FindTopic(topic);
      if found.Some? {
        return Some(Packet("", found));
      }
      if mode == AutoMap {
        var lru := sender.GetLruAlias();
        sender.InsertOrUpdate(topic, lru, now);
        return Some(Packet(topic, Some(lru)));
      }
      p := Some(Packet(topic, None));
    }

    /**
     * Publishes; a packet over the peer's receive maximum is refused after its alias has been handled. From a valid
     * state exactly the harmful refusals lead out of it.
     */
    method Publish(topic: string, alias: Option<nat>, mode: Mode, quota: bool, now: nat)
      returns (sent: bool, ghost p: Packet)
      requires Joined()
      modifies this, sender, sender.va
      ensures Joined() && resolved == old(resolved)
      ensures sent <==> quota && Sendable(old(sender.aliases), topic, alias, sender.max)
      ensures Steps(old(Now()), Pub(topic, alias, mode, quota, now), Now(), p, sender.max)
      ensures channel == if sent then old(channel) + [p] else old(channel)
      ensures var e := Pub(topic, alias, mode, quota, now);
              published == old(published) + Published(old(sender.aliases), e, sender.max)
      ensures old(Valid()) ==> (Valid() <==> Harmless(old(Now()), Pub(topic, alias, mode, quota, now), p, sender.max))
    {
      hide Canonical;
      hide Free;
      hide Prepared;
      hide ResolveAll;
      hide LearnAll;
      hide InStep;
      hide FaithfulTo;
      ghost var e, before := Pub(topic, alias, mode, quota, now), Now();
      ghost var channel0, published0, wasValid := channel, published, Valid();
      assert Proper(before.sender, sender.max);
      hide Proper;
      hide OneToOne;
      var made := Prepare(topic, alias, mode, now);
      p := if made.Some? then made.value else Packet("", None);
      sent := made.Some? && quota;
      if sent {
        SendOne(receiver.Bindings(), channel, p, sender.max);
        channel := channel + [made.value];
        published := published + [TopicMeant(before.sender, topic, alias)];
      }
      if wasValid {
        StepExact(before, e, Now(), p, sender.max);
        if sent {
          SendKeepsStep(before, e, Now(), p, sender.max);
          ghost var meant := TopicMeant(before.sender, topic, alias);
          FaithfulSend(receiver.Bindings(), channel0, resolved, published0, sender.max, p, meant);
        }
      }
    }

    /**
     * The receiver takes the next packet; in a valid state it resolves to the next published topic, never to an
     * error.
     */
    method Deliver() returns (topic: Option<string>)
      requires Joined() && channel != []
      modifies this, receiver
      ensures Joined() && published == old(published) && channel == old(channel)[1..] && Now() == old(Now())
      ensures topic == Resolve(old(receiver.Bindings()), old(channel)[0], sender.max)
      ensures resolved == old(resolved) + if topic.Some? then [topic.value] else []
      ensures old(Valid()) ==> Valid() && |old(resolved)| < |published| && topic == Some(published[|old(resolved)|])
    {
      hide InStep;
      hide FaithfulTo;
      hide TableOf;
      hide Canonical;
      hide Free;
      hide OneToOne;
      ghost var wasValid := Valid();
      if wasValid {
        FaithfulTake(receiver.Bindings(), channel, resolved, published, sender.max);
      }
      var p := channel[0];
      channel := channel[1..];
      topic := None;
      if p.topic == "" {
        if p.alias.Some? && InBounds(p.alias.value, receiver.max) {
          var found := receiver.Find(p.alias.value);
          if found != "" {
            topic := Some(found);
          }
        }
      } else if p.alias.None? {
        topic := Some(p.topic);
      } else if InBounds(p.alias.value, receiver.max) {
        receiver.InsertOrUpdate(p.topic, p.alias.value);
        topic := Some(p.topic);
      }
      resolved := resolved + if topic.Some? then [topic.value] else [];
    }
  }

  /**
   * Any interleaving of publications, refusals and deliveries, through any number of evictions. What is published
   * is what the events mean; as long as no refusal did harm, what is resolved is what was published, in order, less
   * what is still under way.
   */
  method Run(link: Link, events: seq<Event>) returns (ghost ends: seq<Ends>, ghost packets: seq<Packet>)
    requires link.Joined()
    modifies link, link.sender, link.sender.va, link.receiver
    ensures link.Joined() && Trace(ends, events, packets, link.sender.max) && ends[0] == old(link.Now())
            && ends[|events|] == link.Now()
    ensures link.published == old(link.published) + PublishedBy(ends, events, link.sender.max)
    ensures |link.channel| == UnderWay(|old(link.channel)|, ends, events, link.sender.max)
    ensures old(link.Valid()) ==>
              ((forall i | 0 <= i < |ends| :: InStep(ends[i]))
               <==> forall i | 0 <= i < |events| :: Harmless(ends[i], events[i], packets[i], link.sender.max))
    ensures old(link.Valid())
            && (forall i | 0 <= i < |events| :: Harmless(ends[i], events[i], packets[i], link.sender.max)) ==>
              && link.Valid() && link.resolved == link.published[..|link.published| - |link.channel|]
              && (link.channel == [] ==> link.resolved == link.published)
  {
    hide Trace;
    hide Steps;
    hide Harmless;
    hide InStep;
    hide FaithfulTo;
    hide LearnAll;
    hide PublishedBy;
    hide UnderWay;
    hide Published;
    hide LeftAfter;
    hide Canonical;
    hide Free;
    hide OneToOne;
    hide TableOf;
    ghost var max := link.sender.max;
    ends, packets := [link.Now()], [];
    StartTrace(link.Now(), |link.channel|, max);
    ghost var good := link.Valid();
    for i := 0 to |events|
      invariant link.Joined() && |ends| == i + 1 && |packets| == i
      invariant Trace(ends, events[..i], packets, max) && ends[0] == old(link.Now()) && ends[i] == link.Now()
      invariant link.published == old(link.published) + PublishedBy(ends, events[..i], max)
      invariant |link.channel| == UnderWay(|old(link.channel)|, ends, events[..i], max)
      invariant good ==> link.Valid()
      invariant good <==> old(link.Valid()) && forall j | 0 <= j < i :: Harmless(ends[j], events[j], packets[j], max)
    {
      ghost var p := Perform(link, events[i]);
      ghost var now := link.Now();
      TraceSnoc(ends, events[..i], packets, max, events[i], now, p);
      RunSnoc(|old(link.channel)|, ends, events[..i], max, events[i], now);
      good := good && Harmless(ends[i], events[i], p, max);
      TakeSnoc(events, i);
      ends, packets := ends + [now], packets + [p];
    }
    assert events[..|events|] == events;
    if old(link.Valid()) {
      TraceExact(ends, events, packets, max);
    }
    if link.Valid() {
      FaithfulLength(link.receiver.Bindings(), link.channel, link.resolved, link.published, max);
    }
  }

  /** One event at the two ends. */
  method Perform(link: Link, e: Event) returns (ghost p: Packet)
    requires link.Joined()
    modifies link, link.sender, link.sender.va, link.receiver
    ensures link.Joined() && Steps(old(link.Now()), e, link.Now(), p, link.sender.max)
    ensures link.published == old(link.published) + Published(old(link.sender.aliases), e, link.sender.max)
    ensures |link.channel| == LeftAfter(|old(link.channel)|, old(link.sender.aliases), e, link.sender.max)
    ensures old(link.Valid()) && Harmless(old(link.Now()), e, p, link.sender.max) ==> link.Valid()
  {
    hide Steps;
    hide Harmless;
    hide InStep;
    hide FaithfulTo;
    hide LearnAll;
    hide Published;
    hide Canonical;
    hide Free;
    hide OneToOne;
    hide TableOf;
    ghost var before, max := link.Now(), link.sender.max;
    match e {
      case Pub(topic, alias, mode, quota, now) =>
        var _, q := link.Publish(topic, alias, mode, quota, now);
        p := q;
        PublishedCount(before.sender, e, max);
      case Take =>
        p := Packet("", None);
        if link.channel != [] {
          var _ := link.Deliver();
        }
        NothingPublished(before, p, max);
    }
  }

  lemma StartTrace(now: Ends, n: nat, max: nat)
    ensures Trace([now], [], [], max) && PublishedBy([now], [], max) == [] && UnderWay(n, [now], [], max) == n
  {
  }

  lemma NothingPublished(now: Ends, p: Packet, max: nat)
    ensures Steps(now, Take, now, p, max) && Harmless(now, Take, p, max) && Published(now.sender, Take, max) == []
  {
  }

  lemma PublishedCount(aliases: Aliases, e: Event, max: nat)
    ensures |Published(aliases, e, max)| == if Admitted(aliases, e, max) && e.quota then 1 else 0
  {
  }

  /**
   * With one alias: a publication is refused for want of quota, the next one of the same topic is sent without its
   * topic, and the receiver cannot resolve it.
   */
  method RefusedRun() returns (first: bool, second: bool, topic: Option<string>)
    ensures !first && second && topic == None
  {
    hide Canonical;
    hide Free;
    var link := new Link(1);
    ghost var p, q;
    first, p := link.Publish("t", None, AutoMap, false, 0);
    second, q := link.Publish("t", None, AutoMap, true, 1);
    assert q == Packet("", Some(1));
    topic := link.Deliver();
  }

  /** What goes out, and what the sender remembers, while "a" has alias 1 of two; where the first alias is 1. */
  lemma SenderCases(settled: map<nat, string>, after: Ends, p: Packet, now: nat)
    ensures var t := map[1 := Bound("a", 0)];
            var before := Ends(t, {2}, settled);
            && (Steps(before, Pub("a", None, Manual, true, now), after, p, 2) ==>
                  p == Packet("a", None) && after.sender == t)
            && (Steps(before, Pub("a", None, AutoReplace, true, now), after, p, 2) ==>
                  p == Packet("", Some(1)) && after.sender == t)
            && (Steps(before, Pub("b", None, AutoReplace, true, now), after, p, 2) ==>
                  p == Packet("b", None) && after.sender == t)
            && (Steps(before, Pub("b", Some(2), Manual, true, now), after, p, 2) ==>
                  p == Packet("b", Some(2)) && after.sender == t[2 := Bound("b", now)] && after.vacant == {})
            && (Steps(before, Pub("b", Some(1), AutoMap, true, now), after, p, 2) ==>
                  p == Packet("b", Some(1)) && after.sender == map[1 := Bound("b", now)])
            && (Steps(before, Pub("", Some(1), Manual, true, now), after, p, 2) ==>
                  p == Packet("", Some(1)) && after.sender == map[1 := Bound("a", now)])
            && !Sendable(t, "", Some(2), 2) && !Sendable(t, "", None, 2) && !Sendable(t, "b", Some(3), 2)
            && !Sendable(t, "b", Some(0), 2)
  {
    var t := map[1 := Bound("a", 0)];
    assert 1 in t && t[1].topic == "a";
    assert "a" != "b";
  }

  /** What the receiver makes of a packet, and what it remembers, while alias 1 of two is bound to "a". */
  lemma ReceiverCases()
    ensures var t := map[1 := "a"];
            && Resolve(t, Packet("", Some(1)), 2) == Some("a") && Resolve(t, Packet("", Some(2)), 2) == None
            && Resolve(t, Packet("", None), 2) == None && Resolve(t, Packet("b", None), 2) == Some("b")
            && Resolve(t, Packet("b", Some(2)), 2) == Some("b") && Resolve(t, Packet("b", Some(3)), 2) == None
            && Resolve(t, Packet("b", Some(0)), 2) == None && Resolve(t, Packet("", Some(0)), 2) == None
            && Learn(t, Packet("b", Some(2)), 2) == t[2 := "b"] && Learn(t, Packet("b", Some(1)), 2) == map[1 := "b"]
            && Learn(t, Packet("b", Some(3)), 2) == t && Learn(t, Packet("b", None), 2) == t
            && Learn(t, Packet("", Some(2)), 2) == t
  {
    assert "b" != "";
  }

  /** An automatic publication of a topic without an alias takes the least vacant one, or else the oldest. */
  lemma TakesAlias(before: Ends, topic: string, now: nat, after: Ends, p: Packet, max: nat, a: nat)
    requires Steps(before, Pub(topic, None, AutoMap, true, now), after, p, max) && topic != ""
    requires forall b | b in before.sender :: before.sender[b].topic != topic
    requires if before.vacant != {} then a in before.vacant && forall b | b in before.vacant :: a <= b
             else
               && a in before.sender
               && forall b | b in before.sender && b != a :: before.sender[a].tp < before.sender[b].tp
    ensures p == Packet(topic, Some(a)) && after.sender == before.sender[a := Bound(topic, now)]
    ensures after.vacant == before.vacant - {a}
  {
  }

  lemma ReusesAlias(before: Ends, topic: string, now: nat, after: Ends, p: Packet, max: nat, a: nat)
    requires Steps(before, Pub(topic, None, AutoMap, true, now), after, p, max) && topic != ""
    requires a in before.sender && forall b | b in before.sender :: before.sender[b].topic == topic <==> b == a
    ensures p == Packet("", Some(a)) && after.sender == before.sender && after.vacant == before.vacant
  {
  }

  /**
   * With two aliases, mapped automatically: "a" and "b" take 1 and 2, the next "a" is sent by alias alone, and "c"
   * takes the alias of "a", which was bound before that of "b".
   */
  method AutomaticRun() returns (ghost packets: seq<Packet>, sent: seq<bool>)
    ensures packets == [Packet("a", Some(1)), Packet("b", Some(2)), Packet("", Some(1)), Packet("c", Some(1))]
    ensures sent == [true, true, true, true]
  {
    hide Canonical;
    hide Free;
    hide Steps;
    hide LearnAll;
    hide InStep;
    hide FaithfulTo;
    hide Harmless;
    hide OneToOne;
    hide Published;
    var link := new Link(2);
    ghost var s0 := link.Now();
    assert s0.sender == map[] && s0.vacant == {1, 2};
    hide Link.Joined;
    hide Link.Valid;
    hide Link.Now;
    hide Prepared;
    hide Rebound;
    hide LruChoice;
    ghost var a, b, again, c;
    var ok1, ok2, ok3, ok4;
    ok1, a := link.Publish("a", None, AutoMap, true, 0);
    ghost var s1 := link.Now();
    TakesAlias(s0, "a", 0, s1, a, 2, 1);
    assert s1.sender == map[1 := Bound("a", 0)] && s1.vacant == {2};
    ok2, b := link.Publish("b", None, AutoMap, true, 1);
    ghost var s2 := link.Now();
    TakesAlias(s1, "b", 1, s2, b, 2, 2);
    assert s2.sender == map[1 := Bound("a", 0), 2 := Bound("b", 1)] && s2.vacant == {};
    ok3, again := link.Publish("a", None, AutoMap, true, 2);
    ghost var s3 := link.Now();
    ReusesAlias(s2, "a", 2, s3, again, 2, 1);
    ok4, c := link.Publish("c", None, AutoMap, true, 3);
    TakesAlias(s3, "c", 3, link.Now(), c, 2, 1);
    packets, sent := [a, b, again, c], [ok1, ok2, ok3, ok4];
  }
}
