/** Topic aliases: the sender's two-way index over an allocator, and the receiver's plain table. */
module TopicAlias {
  import opened Wrappers
  import opened ValueAllocator

  datatype Bound = Bound(topic: string, tp: nat)

  type Aliases = map<nat, Bound>

  /** The alias a topic is bound to, other than `alias` itself. */
  predicate BoundElsewhere(aliases: Aliases, topic: string, alias: nat) {
    exists a :: a in aliases && a != alias && aliases[a].topic == topic
  }

  predicate OneToOne(aliases: Aliases) {
    forall a, b | a in aliases && b in aliases && aliases[a].topic == aliases[b].topic :: a == b
  }

  lemma BindOneToOne(aliases: Aliases, topic: string, alias: nat, now: nat)
    requires OneToOne(aliases)
    ensures OneToOne(aliases - {alias})
    ensures !BoundElsewhere(aliases, topic, alias) ==> OneToOne(aliases[alias := Bound(topic, now)])
  {
  }

  /** The table after binding `alias` to `topic`. */
  function Rebound(aliases: Aliases, topic: string, alias: nat, now: nat): Aliases {
    if BoundElsewhere(aliases, topic, alias) then aliases - {alias} else aliases[alias := Bound(topic, now)]
  }

  lemma ReboundKeeps(aliases: Aliases, topic: string, alias: nat, now: nat)
    requires OneToOne(aliases)
    ensures var after := Rebound(aliases, topic, alias, now);
            && OneToOne(after) && after != map[]
            && (forall a | a in after ::
                  if a == alias then after[a].topic == topic else a in aliases && after[a] == aliases[a])
            && (forall a | a in aliases && a != alias :: a in after)
            && (alias in after <==> !BoundElsewhere(aliases, topic, alias))
  {
    BindOneToOne(aliases, topic, alias, now);
    if BoundElsewhere(aliases, topic, alias) {
      var a :| a in aliases && a != alias && aliases[a].topic == topic;
      assert a in aliases - {alias};
    } else {
      assert alias in aliases[alias := Bound(topic, now)];
    }
  }

  /**
   * topic_alias_send. The clock reading of every call is a parameter. Both indexes are unique, so an insertion
   * whose topic is bound to another alias is refused by the container, and a modification to such a topic drops
   * the entry (with assertions compiled in, that call aborts instead).
   */
  class TopicAliasSend {
    const max: nat
    var aliases: Aliases
    const va: ValueAllocator

    ghost predicate Valid()
      reads this, va
    {
      && max >= 1 && va.Valid() && va.lowest == 1 && va.highest == max && va.modulus == None
      && OneToOne(aliases)
      && (forall a | a in aliases :: 1 <= a <= max && aliases[a].topic != "" && !Free(va.pool, a))
      && (forall a: nat | Free(va.pool, a) :: 1 <= a)
      && (aliases == map[] ==> forall a | 1 <= a <= max :: Free(va.pool, a))
    }

    /** The used values of the allocator are exactly the bound aliases. */
    ghost predicate Tight()
      reads this, va
    {
      forall a | 1 <= a <= max :: Free(va.pool, a) <==> a !in aliases
    }

    /** The aliases that the allocator can still give out. */
    ghost function Vacant(): set<nat>
      reads this, va
    {
      set a: nat | 1 <= a <= max && Free(va.pool, a)
    }

    constructor (max: nat)
      requires max >= 1
      ensures forall a: nat :: a in Vacant() <==> 1 <= a <= max
      ensures Valid() && Tight() && this.max == max && aliases == map[] && fresh(va)
    {
      this.max := max;
      aliases := map[];
      va := new ValueAllocator(1, max, None);
    }

    /** Binds `alias` to `topic`; when the topic has another alias, `alias` ends up unbound instead. */
    method InsertOrUpdate(topic: string, alias: nat, now: nat)
      requires Valid() && topic != "" && 1 <= alias <= max
      modifies this, va
      ensures Valid()
      ensures aliases == Rebound(old(aliases), topic, alias, now) && Vacant() == old(Vacant()) - {alias}
      ensures old(Tight()) ==> (Tight() <==> !BoundElsewhere(old(aliases), topic, alias))
    {
      hide Canonical;
      hide Free;
      hide Within;
      ghost var pool := va.pool;
      var taken := va.Use(alias);
      assert forall w: nat :: Free(va.pool, w) <==> Free(pool, w) && w != alias by {
        if taken {
          assert Lost(pool, va.pool, alias);
        }
      }
      var clash := BoundElsewhere(aliases, topic, alias);
      ReboundKeeps(aliases, topic, alias, now);
      hide OneToOne;
      var bound := aliases;
      if alias !in bound {
        if !clash {
          bound := bound[alias := Bound(topic, now)];
        }
      } else if clash {
        bound := bound - {alias};
      } else {
        bound := bound[alias := bound[alias].(topic := topic, tp := now)];
      }
      assert bound == Rebound(aliases, topic, alias, now);
      aliases := bound;
    }

    /** The topic of an alias, "" if there is none; the entry counts as used just now. */
    method Find(alias: nat, now: nat) returns (topic: string)
      requires Valid()
      modifies this
      ensures Valid() && (old(Tight()) ==> Tight()) && Vacant() == old(Vacant())
      ensures topic == if alias in old(aliases) then old(aliases)[alias].topic else ""
      ensures aliases == if alias in old(aliases) then old(aliases)[alias := Bound(topic, now)] else old(aliases)
    {
      if 1 <= alias <= max {
        if alias !in aliases {
          return "";
        }
        topic := aliases[alias].topic;
        aliases := aliases[alias := aliases[alias].(tp := now)];
      } else {
        topic := "";
      }
    }

    /** The alias of a topic; the entry is not touched. */
    method FindTopic(topic: string) returns (alias: Option<nat>)
      ensures alias.Some? <==> exists a :: a in aliases && aliases[a].topic == topic
      ensures alias.Some? ==> alias.value in aliases && aliases[alias.value].topic == topic
    {
      if a :| a in aliases && aliases[a].topic == topic {
        alias := Some(a);
      } else {
        alias := None;
      }
    }

    /** A vacant alias if there is one, else the one least recently bound or looked up. */
    method GetLruAlias() returns (alias: nat)
      requires Valid()
      ensures 1 <= alias <= max
      ensures Vacant() != {} ==> alias in Vacant() && alias !in aliases && forall a | a in Vacant() :: alias <= a
      ensures Vacant() == {} ==>
                alias in aliases && forall a | a in aliases :: aliases[alias].tp <= aliases[a].tp
    {
      hide Canonical;
      hide Free;
      var vacant := va.FirstVacant();
      if vacant.Some? {
        assert Free(va.pool, vacant.value);
        return vacant.value;
      }
      assert !Free(va.pool, 1);
      var first :| first in aliases;
      alias := first;
      var rest := aliases.Keys - {first};
      while rest != {}
        invariant rest <= aliases.Keys && alias in aliases
        invariant forall a | a in aliases && a !in rest :: aliases[alias].tp <= aliases[a].tp
      {
        var a :| a in rest;
        if aliases[a].tp < aliases[alias].tp {
          alias := a;
        }
        rest := rest - {a};
      }
    }

    method Clear()
      requires Valid()
      modifies this, va
      ensures Valid() && Tight() && aliases == map[]
    {
      aliases := map[];
      va.Clear();
    }
  }

  // ----- the receiver

  datatype Item = Item(alias: nat, topic: string)

  /** The order of the container: by alias, each once. */
  predicate ByAlias(items: seq<Item>) {
    forall i, j | 0 <= i < j < |items| :: items[i].alias < items[j].alias
  }

  /** The table that a list of items stands for. */
  ghost predicate Lists(items: seq<Item>, table: map<nat, string>) {
    && ByAlias(items)
    && (forall i | 0 <= i < |items| :: items[i].alias in table && table[items[i].alias] == items[i].topic)
    && (forall a | a in table :: Has(items, a))
  }

  predicate Has(items: seq<Item>, alias: nat) {
    exists i :: 0 <= i < |items| && items[i].alias == alias
  }

  /** The first item whose alias is not less. */
  method LowerBound(items: seq<Item>, alias: nat) returns (n: nat)
    requires ByAlias(items)
    ensures n <= |items|
    ensures (forall i | 0 <= i < n :: items[i].alias < alias)
            && (forall i | n <= i < |items| :: alias <= items[i].alias)
  {
    n := 0;
    while n < |items| && items[n].alias < alias
      invariant n <= |items| && forall i | 0 <= i < n :: items[i].alias < alias
    {
      n := n + 1;
    }
  }

  lemma HasInsert(items: seq<Item>, n: nat, item: Item, a: nat)
    requires n <= |items| && (Has(items, a) || item.alias == a)
    ensures Has(items[..n] + [item] + items[n..], a)
  {
    var after := items[..n] + [item] + items[n..];
    assert after[n] == item;
    if i :| 0 <= i < |items| && items[i].alias == a {
      assert after[if i < n then i else i + 1] == items[i];
    }
  }

  lemma ListsInsert(items: seq<Item>, table: map<nat, string>, n: nat, alias: nat, topic: string)
    requires Lists(items, table) && n <= |items|
    requires (forall i | 0 <= i < n :: items[i].alias < alias)
             && (forall i | n <= i < |items| :: alias < items[i].alias)
    ensures Lists(items[..n] + [Item(alias, topic)] + items[n..], table[alias := topic])
  {
    hide Has;
    forall a | a in table || a == alias ensures Has(items[..n] + [Item(alias, topic)] + items[n..], a) {
      HasInsert(items, n, Item(alias, topic), a);
    }
  }

  lemma HasModify(items: seq<Item>, n: nat, topic: string, a: nat)
    requires n < |items| && Has(items, a)
    ensures Has(items[n := items[n].(topic := topic)], a)
  {
    var i :| 0 <= i < |items| && items[i].alias == a;
    assert items[n := items[n].(topic := topic)][i].alias == a;
  }

  lemma ListsModify(items: seq<Item>, table: map<nat, string>, n: nat, topic: string)
    requires Lists(items, table) && n < |items|
    ensures Lists(items[n := items[n].(topic := topic)], table[items[n].alias := topic])
  {
    hide Has;
    forall a | a in table ensures Has(items[n := items[n].(topic := topic)], a) {
      HasModify(items, n, topic, a);
    }
  }

  /** What a list of items says: the last one of an alias counts. */
  function TableOf(items: seq<Item>): map<nat, string> {
    if items == [] then map[] else
      var n := |items| - 1;
      TableOf(items[..n])[items[n].alias := items[n].topic]
  }

  lemma {:induction false} ListsTable(items: seq<Item>)
    requires ByAlias(items)
    ensures Lists(items, TableOf(items))
  {
    if items != [] {
      hide Lists;
      var n := |items| - 1;
      ListsTable(items[..n]);
      ListsAppend(items[..n], TableOf(items[..n]), items[n]);
      assert items[..n] + [items[n]] == items;
    }
  }

  lemma ListsAppend(items: seq<Item>, table: map<nat, string>, item: Item)
    requires Lists(items, table) && ByAlias(items + [item])
    ensures Lists(items + [item], table[item.alias := item.topic])
  {
    var n := |items|;
    assert (items + [item])[n] == item;
    forall i | 0 <= i < n ensures items[i].alias < item.alias {
      assert (items + [item])[i] == items[i];
    }
    ListsInsert(items, table, n, item.alias, item.topic);
    assert items[..n] + [Item(item.alias, item.topic)] + items[n..] == items + [item];
  }

  lemma ListsUnique(items: seq<Item>, t: map<nat, string>, u: map<nat, string>)
    requires Lists(items, t) && Lists(items, u)
    ensures t == u
  {
    forall a | a in t ensures a in u && t[a] == u[a] {
      assert Has(items, a);
    }
    forall a | a in u ensures a in t {
      assert Has(items, a);
    }
  }

  /** topic_alias_recv: a list of items ordered by alias. */
  class TopicAliasRecv {
    const max: nat
    var items: seq<Item>

    ghost predicate Valid()
      reads this
    {
      ByAlias(items)
    }

    /** The bindings that the list stands for. */
    ghost function Bindings(): map<nat, string>
      reads this
    {
      TableOf(items)
    }

    constructor (max: nat)
      ensures Valid() && this.max == max && Bindings() == map[]
    {
      this.max := max;
      items := [];
    }

    /** Inserted in order, or modified in place where the alias is there already. */
    method InsertOrUpdate(topic: string, alias: nat)
      requires Valid() && topic != "" && 1 <= alias <= max
      modifies this
      ensures Valid() && Bindings() == old(Bindings())[alias := topic]
    {
      hide TableOf;
      ghost var table := Bindings();
      ListsTable(items);
      var n := LowerBound(items, alias);
      if n == |items| || items[n].alias != alias {
        ListsInsert(items, table, n, alias, topic);
        items := items[..n] + [Item(alias, topic)] + items[n..];
      } else {
        ListsModify(items, table, n, topic);
        items := items[n := items[n].(topic := topic)];
      }
      ListsTable(items);
      ListsUnique(items, Bindings(), table[alias := topic]);
    }

    /** The topic of an alias, "" if it is out of range or unbound. */
    method Find(alias: nat) returns (topic: string)
      requires Valid()
      ensures topic == if 1 <= alias <= max && alias in Bindings() then Bindings()[alias] else ""
    {
      ListsTable(items);
      hide TableOf;
      topic := "";
      if 1 <= alias <= max {
        var n := LowerBound(items, alias);
        if n < |items| && items[n].alias == alias {
          topic := items[n].topic;
        } else {
          assert !Has(items, alias);
        }
      }
    }

    method Clear()
      modifies this
      ensures Valid() && Bindings() == map[]
    {
      items := [];
    }
  }
}
