/** A cache that evicts what was used longest ago: a list in order of use, and a table into it. */
module LruCache {
  import opened Bytes
  import opened Options

  // ----- contents -----

  /** What the cache holds under a key, and what it costs. */
  datatype Entry<V> = Entry(key: string, value: V, size: int)

  function Sum<V>(s: seq<Entry<V>>): (r: int) {
    if s == [] then 0 else Sum(s[..|s| - 1]) + s[|s| - 1].size
  }

  lemma {:induction false} SumConcat<V>(s: seq<Entry<V>>, t: seq<Entry<V>>)
    ensures Sum(s + t) == Sum(s) + Sum(t)
  {
    if t == [] {
      assert s + t == s;
    } else {
      SumConcat(s, t[..|t| - 1]);
      assert (s + t)[..|s + t| - 1] == s + t[..|t| - 1];
    }
  }

  lemma SumOne<V>(e: Entry<V>)
    ensures Sum([e]) == e.size
  {
  }

  function Removed<T>(s: seq<T>, i: nat): (r: seq<T>)
    requires i < |s|
    ensures |r| == |s| - 1
  {
    s[..i] + s[i + 1..]
  }

  lemma SumRemoved<V>(s: seq<Entry<V>>, i: nat)
    requires i < |s|
    ensures Sum(Removed(s, i)) == Sum(s) - s[i].size
  {
    Around(s, i);
    SumConcat(s[..i] + [s[i]], s[i + 1..]);
    SumConcat(s[..i], [s[i]]);
    SumConcat(s[..i], s[i + 1..]);
    SumOne(s[i]);
  }

  /** What is left once the entries used longest ago are evicted, one by one, until the rest fits. */
  function Evicted<V>(s: seq<Entry<V>>, capacity: int): (r: seq<Entry<V>>)
    requires capacity >= 0
    ensures r <= s && Sum(r) <= capacity
    decreases |s|
  {
    if Sum(s) <= capacity then s else Evicted(s[..|s| - 1], capacity)
  }

  /** Eviction removes the shortest tail that restores the bound: no longer part of the list fits. */
  lemma {:induction false} EvictsShortest<V>(s: seq<Entry<V>>, capacity: int, n: nat)
    requires capacity >= 0 && |Evicted(s, capacity)| < n <= |s|
    ensures Sum(s[..n]) > capacity
    decreases |s|
  {
    if n < |s| {
      EvictsShortest(s[..|s| - 1], capacity, n);
      assert s[..|s| - 1][..n] == s[..n];
    } else {
      WholePrefix(s);
    }
  }

  // ----- order of use -----

  /** The last time `key` was used. */
  function LastUse(log: seq<string>, key: string): (r: nat)
    requires key in log
    ensures r < |log|
  {
    if log[|log| - 1] == key then |log| - 1 else LastUse(log[..|log| - 1], key)
  }

  lemma LastUseMore(log: seq<string>, key: string, other: string)
    ensures LastUse(log + [key], key) == |log|
    ensures other in log && other != key ==> LastUse(log + [key], other) == LastUse(log, other)
  {
    assert (log + [key])[..|log|] == log;
  }

  /** Keys in order of use, the latest first. */
  ghost predicate Recent(keys: seq<string>, log: seq<string>) {
    && (forall i :: 0 <= i < |keys| ==> keys[i] in log)
    && (forall i, j :: 0 <= i < j < |keys| ==> LastUse(log, keys[i]) > LastUse(log, keys[j]))
  }

  /** Using a key that is not on the list, or is taken off it first, puts it in front. */
  lemma RecentUse(keys: seq<string>, log: seq<string>, key: string)
    requires Recent(keys, log) && key !in keys
    ensures Recent([key] + keys, log + [key])
  {
    var all, longer := [key] + keys, log + [key];
    forall k | k in keys
      ensures k in longer && LastUse(longer, k) == LastUse(log, k) < |log|
    {
      LastUseMore(log, key, k);
    }
    LastUseMore(log, key, key);
    forall i, j | 0 <= i < j < |all|
      ensures LastUse(longer, all[i]) > LastUse(longer, all[j])
    {
      assert all[j] == keys[j - 1];
      assert i > 0 ==> all[i] == keys[i - 1];
    }
  }

  lemma RecentRemoved(keys: seq<string>, log: seq<string>, i: nat)
    requires Recent(keys, log) && i < |keys|
    ensures Recent(Removed(keys, i), log) && keys[i] !in Removed(keys, i)
  {
    var r := Removed(keys, i);
    forall k | 0 <= k < |r|
      ensures r[k] in log && r[k] != keys[i]
    {
      assert r[k] == if k < i then keys[k] else keys[k + 1];
    }
    forall k, l | 0 <= k < l < |r|
      ensures LastUse(log, r[k]) > LastUse(log, r[l])
    {
      assert r[k] == if k < i then keys[k] else keys[k + 1];
      assert r[l] == if l < i then keys[l] else keys[l + 1];
    }
  }

  /** Keys in order of use are all different. */
  lemma RecentDistinct(keys: seq<string>, log: seq<string>, i: nat, j: nat)
    requires Recent(keys, log) && i < |keys| && j < |keys| && keys[i] == keys[j]
    ensures i == j
  {
  }

  // ----- the list and the table -----

  /** An element of the list; the table refers to the same objects. */
  class Element<V> {
    const key: string
    var value: V
    var size: int

    constructor (key: string, value: V, size: int)
      ensures this.key == key && this.value == value && this.size == size
    {
      this.key := key;
      this.value := value;
      this.size := size;
    }
  }

  function Keys<V>(list: seq<Element<V>>): (r: seq<string>)
    ensures |r| == |list|
  {
    seq(|list|, i requires 0 <= i < |list| => list[i].key)
  }

  /** The entries of a list as values. */
  ghost function Entries<V>(list: seq<Element<V>>): (r: seq<Entry<V>>)
    reads list
    ensures |r| == |list|
  {
    if list == [] then []
    else Entries(list[..|list| - 1]) + [Entry(list[|list| - 1].key, list[|list| - 1].value, list[|list| - 1].size)]
  }

  lemma {:induction false} EntriesAt<V>(list: seq<Element<V>>, i: nat)
    requires i < |list|
    ensures Entries(list)[i] == Entry(list[i].key, list[i].value, list[i].size)
    decreases |list|
  {
    if i == |list| - 1 {
    } else {
      EntriesAt(list[..|list| - 1], i);
    }
  }

  /** The table holds exactly the elements of the list, by their keys. */
  ghost predicate Indexed<V>(list: seq<Element<V>>, table: map<string, Element<V>>) {
    && (forall i :: 0 <= i < |list| ==> list[i].key in table && table[list[i].key] == list[i])
    && (forall k :: k in table ==> table[k] in list && table[k].key == k)
  }

  /** Where `x` first stands. */
  function Position<T(==)>(s: seq<T>, x: T): (i: nat)
    requires x in s
    ensures i < |s| && s[i] == x
  {
    if s[0] == x then 0 else 1 + Position(s[1..], x)
  }

  lemma KeysAt<V>(list: seq<Element<V>>, table: map<string, Element<V>>, key: string)
    requires Indexed(list, table)
    ensures key in table <==> key in Keys(list)
  {
    if key in table {
      var i := Position(list, table[key]);
      assert Keys(list)[i] == key;
    }
  }

  /** The element under a key is the only one with that key. */
  lemma ElementAt<V>(list: seq<Element<V>>, table: map<string, Element<V>>, log: seq<string>, key: string)
    requires Indexed(list, table) && Recent(Keys(list), log) && key in table
    ensures key in Keys(list) && Position(list, table[key]) == Position(Keys(list), key)
  {
    KeysAt(list, table, key);
    var i, j := Position(list, table[key]), Position(Keys(list), key);
    assert Keys(list)[i] == key;
    RecentDistinct(Keys(list), log, i, j);
  }

  lemma KeysRemoved<V>(list: seq<Element<V>>, i: nat)
    requires i < |list|
    ensures Keys(Removed(list, i)) == Removed(Keys(list), i)
  {
  }

  lemma KeysFront<V>(e: Element<V>, list: seq<Element<V>>)
    ensures Keys([e] + list) == [e.key] + Keys(list)
  {
  }

  lemma EntriesRemoved<V>(list: seq<Element<V>>, i: nat)
    requires i < |list|
    ensures Entries(Removed(list, i)) == Removed(Entries(list), i)
  {
    var r, es := Removed(list, i), Removed(Entries(list), i);
    forall k | 0 <= k < |r|
      ensures Entries(r)[k] == es[k]
    {
      assert r[k] == if k < i then list[k] else list[k + 1];
      assert es[k] == if k < i then Entries(list)[k] else Entries(list)[k + 1];
      EntriesAt(r, k);
      EntriesAt(list, if k < i then k else k + 1);
    }
  }

  lemma EntriesFront<V>(e: Element<V>, list: seq<Element<V>>)
    ensures Entries([e] + list) == [Entry(e.key, e.value, e.size)] + Entries(list)
  {
    var l, es := [e] + list, [Entry(e.key, e.value, e.size)] + Entries(list);
    forall k | 0 <= k < |l|
      ensures Entries(l)[k] == es[k]
    {
      EntriesAt(l, k);
      if k > 0 {
        EntriesAt(list, k - 1);
      }
    }
  }

  /** List, table, log of use and total size agree. */
  ghost predicate Agree<V>(list: seq<Element<V>>, table: map<string, Element<V>>, log: seq<string>, size: int)
    reads list
  {
    Indexed(list, table) && Recent(Keys(list), log) && size == Sum(Entries(list))
  }

  /** Moving an element to the front. */
  lemma AgreeMoved<V>(list: seq<Element<V>>, table: map<string, Element<V>>, log: seq<string>, size: int, i: nat)
    requires Agree(list, table, log, size) && i < |list|
    ensures Agree([list[i]] + Removed(list, i), table, log + [list[i].key], size)
  {
    var e, r := list[i], Removed(list, i);
    IndexedMoved(list, table, i);
    hide Indexed, Recent, Keys, Entries, Sum, Removed;
    RecentRemoved(Keys(list), log, i);
    KeysRemoved(list, i);
    KeysAre(list, i);
    KeysFront(e, r);
    RecentUse(Keys(r), log, e.key);
    EntriesRemoved(list, i);
    EntriesAt(list, i);
    EntriesFront(e, r);
    SumRemoved(Entries(list), i);
    SumConcat([Entries(list)[i]], Entries(r));
    SumOne(Entries(list)[i]);
  }

  lemma KeysAre<V>(list: seq<Element<V>>, i: nat)
    requires i < |list|
    ensures Keys(list)[i] == list[i].key
  {
  }

  /** Taking an element out. */
  lemma AgreeRemoved<V>(list: seq<Element<V>>, table: map<string, Element<V>>, log: seq<string>, size: int, i: nat)
    requires Agree(list, table, log, size) && i < |list|
    ensures Agree(Removed(list, i), table - {list[i].key}, log, size - list[i].size)
  {
    IndexedRemoved(list, table, log, i);
    hide Indexed, Recent, Keys, Entries, Sum, Removed;
    RecentRemoved(Keys(list), log, i);
    KeysRemoved(list, i);
    EntriesRemoved(list, i);
    EntriesAt(list, i);
    SumRemoved(Entries(list), i);
  }

  /** Putting a new element in front. */
  lemma AgreeAdded<V>(list: seq<Element<V>>, table: map<string, Element<V>>, log: seq<string>, size: int, e: Element<V>)
    requires Agree(list, table, log, size) && e.key !in table
    ensures Agree([e] + list, table[e.key := e], log + [e.key], size + e.size)
  {
    IndexedFront(e, list, table);
    KeysAt(list, table, e.key);
    hide Indexed, Recent, Keys, Entries, Sum;
    KeysFront(e, list);
    RecentUse(Keys(list), log, e.key);
    EntriesFront(e, list);
    SumConcat([Entry(e.key, e.value, e.size)], Entries(list));
    SumOne(Entry(e.key, e.value, e.size));
  }

  /** Taking an element out of the list and its key out of the table. */
  lemma IndexedRemoved<V>(list: seq<Element<V>>, table: map<string, Element<V>>, log: seq<string>, i: nat)
    requires Indexed(list, table) && Recent(Keys(list), log) && i < |list|
    ensures Indexed(Removed(list, i), table - {list[i].key})
  {
    var r, t := Removed(list, i), table - {list[i].key};
    RecentRemoved(Keys(list), log, i);
    KeysRemoved(list, i);
    forall k | 0 <= k < |r|
      ensures r[k].key in t && t[r[k].key] == r[k]
    {
      assert r[k] == if k < i then list[k] else list[k + 1];
      assert Keys(r)[k] == r[k].key;
    }
    forall k | k in t
      ensures t[k] in r && t[k].key == k
    {
      var j := Position(list, table[k]);
      assert list[j] == r[if j < i then j else j - 1];
    }
  }

  lemma IndexedFront<V>(e: Element<V>, list: seq<Element<V>>, table: map<string, Element<V>>)
    requires Indexed(list, table) && e.key !in table
    ensures Indexed([e] + list, table[e.key := e])
  {
    var l, t := [e] + list, table[e.key := e];
    forall k | k in t
      ensures t[k] in l && t[k].key == k
    {
      if k != e.key {
        var j := Position(list, table[k]);
        assert l[j + 1] == table[k];
      } else {
        assert l[0] == e;
      }
    }
  }

  /** The order of the list does not matter to the table. */
  lemma IndexedMoved<V>(list: seq<Element<V>>, table: map<string, Element<V>>, i: nat)
    requires Indexed(list, table) && i < |list|
    ensures Indexed([list[i]] + Removed(list, i), table)
  {
    var l := [list[i]] + Removed(list, i);
    forall k | k in table
      ensures table[k] in l
    {
      var j := Position(list, table[k]);
      assert table[k] == l[if j == i then 0 else if j < i then j + 1 else j];
    }
    forall k | 0 <= k < |l|
      ensures l[k].key in table && table[l[k].key] == l[k]
    {
      assert l[k] == list[if k == 0 then i else if k <= i then k - 1 else k];
    }
  }

  /** A list that costs more than the capacity has a last element, and eviction takes it. */
  lemma EvictsLast<V>(list: seq<Element<V>>, table: map<string, Element<V>>, log: seq<string>, size: int, capacity: int)
    requires Agree(list, table, log, size) && 0 <= capacity < size
    ensures list != []
    ensures var last, rest := list[|list| - 1], list[..|list| - 1];
            && Agree(rest, table - {last.key}, log, size - last.size)
            && Evicted(Entries(rest), capacity) == Evicted(Entries(list), capacity)
  {
    assert list != [] by { assert Sum(Entries<V>([])) == 0; }
    var i := |list| - 1;
    AgreeRemoved(list, table, log, size, i);
    DropLast(list);
    EntriesRemoved(list, i);
    DropLast(Entries(list));
    hide Indexed, Recent, Keys, Entries, Sum, Removed;
  }

  lemma DropLast<T>(s: seq<T>)
    requires s != []
    ensures Removed(s, |s| - 1) == s[..|s| - 1]
  {
  }

  // ----- the cache -----

  /** `LRUCache`; times of use are kept as the log of keys used. */
  class LRUCache<V> {
    var list: seq<Element<V>>
    var table: map<string, Element<V>>
    var size: int
    var capacity: int
    var evictions: nat
    var hits: nat
    var misses: nat
    ghost var log: seq<string>
    const cost: V -> int

    /** What the cache holds, what was used last first. */
    ghost function Contents(): (r: seq<Entry<V>>)
      reads this, list
    {
      Entries(list)
    }

    /** List, table, size and order of use agree, and the size is within the capacity. */
    ghost predicate Valid()
      reads this, list
    {
      Agree(list, table, log, size) && 0 <= capacity && size <= capacity
    }

    /** `NewLRUCache` */
    constructor (capacity: int, cost: V -> int)
      requires capacity >= 0
      ensures Valid() && Contents() == [] && log == [] && this.capacity == capacity && this.cost == cost
    {
      this.list := [];
      this.table := map[];
      this.size := 0;
      this.capacity := capacity;
      this.evictions := 0;
      this.hits := 0;
      this.misses := 0;
      this.log := [];
      this.cost := cost;
    }

    /** `checkCapacity` */
    method CheckCapacity()
      requires Agree(list, table, log, size) && capacity >= 0
      modifies this`list, this`table, this`size, this`evictions
      ensures Valid() && Contents() == Evicted(old(Contents()), capacity) && list <= old(list)
      ensures evictions == old(evictions) + |old(list)| - |list|
    {
      hide Agree, Entries, Evicted, Sum;
      while size > capacity
        invariant Agree(list, table, log, size) && list <= old(list)
        invariant evictions == old(evictions) + |old(list)| - |list|
        invariant Evicted(Contents(), capacity) == Evicted(old(Contents()), capacity)
        decreases |list|
      {
        EvictsLast(list, table, log, size, capacity);
        var delElem := list[|list| - 1];
        table := table - {delElem.key};
        list := list[..|list| - 1];
        size := size - delElem.size;
        evictions := evictions + 1;
      }
      EnoughEvicted(list, table, log, size, capacity);
    }

    /** `moveToFront` */
    method MoveToFront(e: Element<V>)
      requires Agree(list, table, log, size) && e in list
      modifies this`list, this`log
      ensures Agree(list, table, log, size) && log == old(log) + [e.key]
      ensures list == [e] + Removed(old(list), Position(old(list), e))
    {
      hide Agree;
      var i := Position(list, e);
      AgreeMoved(list, table, log, size, i);
      list := [e] + (list[..i] + list[i + 1..]);
      log := log + [e.key];
    }

    /** `Get` */
    method Get(key: string) returns (r: Option<V>)
      requires Valid()
      modifies this`list, this`log, this`hits, this`misses
      ensures Valid()
      ensures key !in old(Keys(list)) ==>
                r == None && list == old(list) && log == old(log) && hits == old(hits) && misses == old(misses) + 1
      ensures key in old(Keys(list)) ==>
                var i := Position(old(Keys(list)), key);
                && r == Some(old(Contents())[i].value) && log == old(log) + [key]
                && Contents() == [old(Contents())[i]] + Removed(old(Contents()), i)
                && hits == old(hits) + 1 && misses == old(misses)
    {
      hide Agree, Entries, Keys, Removed, Position;
      Found(list, table, log, size, key);
      if key !in table {
        misses := misses + 1;
        return None;
      }
      var element := table[key];
      EntriesMoved(list, Position(list, element));
      ghost var moved := [element] + Removed(list, Position(list, element));
      ghost var after := Entries(moved);
      MoveToFront(element);
      hits := hits + 1;
      assert Entries(moved) == after;
      return Some(element.value);
    }

    /** `updateInplace`, up to the check of the capacity */
    method UpdateInplace(e: Element<V>, value: V)
      requires Agree(list, table, log, size) && e in list
      modifies this`list, this`log, this`size, e
      ensures Agree(list, table, log, size) && log == old(log) + [e.key] && e.value == value && e.size == cost(value)
      ensures list == [e] + Removed(old(list), Position(old(list), e))
    {
      hide Agree, Removed, Position;
      var valueSize := cost(value);
      ghost var i := Position(list, e);
      ghost var before := Entries(list);
      Parts(list, table, log, size);
      SizesUnder(list, i);
      NotRemoved(list, i);
      ghost var others := Entries(Removed(list, i));
      var sizeDiff := valueSize - e.size;
      e.value := value;
      e.size := valueSize;
      size := size + sizeDiff;
      assert Entries(Removed(list, i)) == others;
      Updated(list, table, log, size, i, before);
      MoveToFront(e);
    }

    /** `addNew`, up to the check of the capacity */
    method AddNew(key: string, value: V)
      requires Agree(list, table, log, size) && key !in table
      modifies this`list, this`table, this`log, this`size
      ensures Agree(list, table, log, size) && log == old(log) + [key]
      ensures |list| == |old(list)| + 1 && list[1..] == old(list) && fresh(list[0])
      ensures list[0].key == key && list[0].value == value && list[0].size == cost(value)
    {
      hide Agree;
      var element := new Element(key, value, cost(value));
      AgreeAdded(list, table, log, size, element);
      list := [element] + list;
      table := table[key := element];
      log := log + [key];
      size := size + element.size;
    }

    /** `Set` */
    method Set(key: string, value: V)
      requires Valid()
      modifies this, list
      ensures Valid() && log == old(log) + [key] && capacity == old(capacity)
      ensures hits == old(hits) && misses == old(misses)
      ensures var all := WithEntry(old(Contents()), old(Keys(list)), Entry(key, value, cost(value)));
              Contents() == Evicted(all, capacity) && evictions == old(evictions) + |all| - |Contents()|
    {
      hide Agree, Entries, Evicted, Keys, Removed, Position;
      Found(list, table, log, size, key);
      if key in table {
        var element := table[key];
        ghost var i := Position(list, element);
        Parts(list, table, log, size);
        NotRemoved(list, i);
        EntriesRemoved(list, i);
        ghost var others := Entries(Removed(list, i));
        UpdateInplace(element, value);
        assert Entries(Removed(old(list), i)) == others;
        EntriesFront(element, Removed(old(list), i));
      } else {
        AddNew(key, value);
        assert list == [list[0]] + old(list);
        EntriesFront(list[0], old(list));
        assert Entries(old(list)) == old(Contents());
      }
      CheckCapacity();
    }

    /** `delete` */
    method Delete(key: string) returns (existed: bool)
      requires Valid()
      modifies this`list, this`table, this`size
      ensures existed <==> key in old(Keys(list))
      ensures !existed ==> Valid() && list == old(list)
      ensures existed ==>
                var i := Position(old(Keys(list)), key);
                && Agree(list, table, log, size) && size == old(size) - old(Contents())[i].size
                && Contents() == Removed(old(Contents()), i)
                && (Valid() <==> old(size) - old(Contents())[i].size <= capacity)
    {
      hide Agree, Entries, Keys, Removed, Position;
      Found(list, table, log, size, key);
      if key !in table {
        return false;
      }
      var element := table[key];
      var i := Position(list, element);
      AgreeRemoved(list, table, log, size, i);
      EntriesRemoved(list, i);
      ghost var shorter := Removed(list, i);
      ghost var after := Entries(shorter);
      list := Removed(list, i);
      table := table - {key};
      size := size - element.size;
      assert Entries(shorter) == after;
      return true;
    }

    /** `SetCapacity` */
    method SetCapacity(capacity: int)
      requires Valid() && capacity >= 0
      modifies this`list, this`table, this`size, this`evictions, this`capacity
      ensures Valid() && this.capacity == capacity && Contents() == Evicted(old(Contents()), capacity)
    {
      hide Agree, Entries, Evicted;
      this.capacity := capacity;
      CheckCapacity();
    }
  }

  /** What a list of entries becomes when `key` is set: the new entry in front, and the old one gone. */
  function WithEntry<V>(s: seq<Entry<V>>, keys: seq<string>, e: Entry<V>): (r: seq<Entry<V>>)
    requires |s| == |keys|
  {
    [e] + if e.key in keys then Removed(s, Position(keys, e.key)) else s
  }

  /** The table finds the element under a key, if the list has one. */
  lemma Found<V>(list: seq<Element<V>>, table: map<string, Element<V>>, log: seq<string>, size: int, key: string)
    requires Agree(list, table, log, size)
    ensures key in table <==> key in Keys(list)
    ensures key in table ==>
              && table[key] in list && table[key].key == key
              && var i := Position(list, table[key]);
              i == Position(Keys(list), key) && Entries(list)[i] == Entry(key, table[key].value, table[key].size)
  {
    KeysAt(list, table, key);
    if key in table {
      ElementAt(list, table, log, key);
      EntriesAt(list, Position(list, table[key]));
    }
  }

  lemma EntriesMoved<V>(list: seq<Element<V>>, i: nat)
    requires i < |list|
    ensures Entries([list[i]] + Removed(list, i)) == [Entries(list)[i]] + Removed(Entries(list), i)
  {
    hide Entries, Removed;
    EntriesRemoved(list, i);
    EntriesAt(list, i);
    EntriesFront(list[i], Removed(list, i));
  }

  lemma Parts<V>(list: seq<Element<V>>, table: map<string, Element<V>>, log: seq<string>, size: int)
    requires Agree(list, table, log, size)
    ensures Indexed(list, table) && Recent(Keys(list), log) && size == Sum(Entries(list))
    ensures forall i, j :: 0 <= i < j < |list| ==> list[i] != list[j]
  {
    forall i, j | 0 <= i < j < |list|
      ensures list[i] != list[j]
    {
      KeysAre(list, i);
      KeysAre(list, j);
      assert Keys(list)[i] != Keys(list)[j];
    }
  }

  lemma NotRemoved<T>(s: seq<T>, i: nat)
    requires i < |s| && forall j, k :: 0 <= j < k < |s| ==> s[j] != s[k]
    ensures s[i] !in Removed(s, i)
  {
  }

  /** The sizes other than that of element `i`, summed. */
  lemma SizesUnder<V>(list: seq<Element<V>>, i: nat)
    requires i < |list|
    ensures Sum(Removed(Entries(list), i)) == Sum(Entries(list)) - list[i].size
    ensures Entries(Removed(list, i)) == Removed(Entries(list), i)
  {
    EntriesAt(list, i);
    EntriesRemoved(list, i);
    SumRemoved(Entries(list), i);
  }

  /** After element `i` alone has changed, the total is right again. */
  lemma Updated<V>(list: seq<Element<V>>, table: map<string, Element<V>>, log: seq<string>, size: int, i: nat,
                   before: seq<Entry<V>>)
    requires Indexed(list, table) && Recent(Keys(list), log) && i < |list| == |before|
    requires Entries(Removed(list, i)) == Removed(before, i) && size == Sum(Removed(before, i)) + list[i].size
    ensures Agree(list, table, log, size)
  {
    SizesUnder(list, i);
  }

  lemma EnoughEvicted<V>(list: seq<Element<V>>, table: map<string, Element<V>>, log: seq<string>, size: int,
                         capacity: int)
    requires Agree(list, table, log, size) && 0 <= capacity && size <= capacity
    ensures Evicted(Entries(list), capacity) == Entries(list)
  {
  }
}
