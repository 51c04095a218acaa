/**
 * The linked hash table of linked-hash-table.c.
 *
 * A table owns a fixed array of INIT_HASH slots indexed by the djb2 hash of a
 * key, an intrusive doubly-linked list of its nodes in insertion order
 * (first/last, prev/next) and one stored iteration cursor.  This revision has
 * no collision handling: an insert whose slot is already taken is refused, and
 * a lookup returns whatever sits in the key's slot without comparing keys.
 *
 * The abstract view of a table is the sequence of its entries in insertion
 * order; `Lookup` says what a lookup answers on that view, and the class
 * methods are proved against it.
 */
module LinkedHashTable {
  import opened Wrappers
  import opened CStrings

  /** Number of slots of every table: a prime (linked-hash-table.h). */
  const INIT_HASH: nat := 65537
  /** `unsigned long` arithmetic wraps modulo 2^64. */
  const ULONG_MODULUS: nat := 0x1_0000_0000_0000_0000
  /** Starting value of the djb2 hash. */
  const DJB2_SEED: nat := 5381

  /** One djb2 step, `hash = ((hash << 5) + hash) + c`, in `unsigned long`:
      the shift multiplies by 32 and every wrap-around is modulo 2^64, so the
      whole step is one multiplication by 33 and one addition modulo 2^64. */
  function Djb2Step(hash: nat, c: char): nat {
    (hash * 33 + c as int) % ULONG_MODULUS
  }

  /** The `unsigned long` accumulated over all characters of a key. */
  function Djb2(key: string): nat {
    if key == [] then DJB2_SEED else Djb2Step(Djb2(key[..|key| - 1]), key[|key| - 1])
  }

  /** The slot that calculate_hash selects for a key. */
  function HashIndex(key: string): nat {
    Djb2(key) % INIT_HASH
  }

  /** calculate_hash: the djb2 loop over the key, reduced to a slot index. */
  method CalculateHash(key: string) returns (index: nat)
    requires IsCString(key)
    ensures index == HashIndex(key)
    ensures index < INIT_HASH
  {
    var hash: nat := DJB2_SEED;
    var i := 0;
    while i < |key|
      invariant 0 <= i <= |key|
      invariant hash == Djb2(key[..i])
    {
      assert key[..i + 1][..i] == key[..i];
      hash := Djb2Step(hash, key[i]);
      i := i + 1;
    }
    assert key[..i] == key;
    index := hash % INIT_HASH;
  }

  /** A stored key/value pair, as the abstract view of a node. */
  datatype Entry<V> = Entry(key: string, value: V)

  /** What lht_get_element answers for `key` on a table holding `entries`:
      the value of the entry that sits in the key's slot, that is, the first
      entry whose key selects the same slot.  Keys are not compared. */
  function Lookup<V>(entries: seq<Entry<V>>, key: string): Option<V> {
    if entries == [] then None
    else if HashIndex(entries[0].key) == HashIndex(key) then Some(entries[0].value)
    else Lookup(entries[1..], key)
  }

  /** A lookup misses exactly when no entry selects the key's slot. */
  lemma {:induction false} LookupMissIff<V>(entries: seq<Entry<V>>, key: string)
    ensures Lookup(entries, key).None? <==>
            forall i :: 0 <= i < |entries| ==> HashIndex(entries[i].key) != HashIndex(key)
  {
    if entries != [] && HashIndex(entries[0].key) != HashIndex(key) {
      LookupMissIff(entries[1..], key);
      assert forall i :: 1 <= i < |entries| ==> entries[i] == entries[1..][i - 1];
    }
  }

  /** The first entry that selects the key's slot is the one a lookup returns. */
  lemma {:induction false} LookupFinds<V>(entries: seq<Entry<V>>, key: string, i: nat)
    requires i < |entries| && HashIndex(entries[i].key) == HashIndex(key)
    requires forall j :: 0 <= j < i ==> HashIndex(entries[j].key) != HashIndex(key)
    ensures Lookup(entries, key) == Some(entries[i].value)
  {
    if i > 0 {
      assert entries[1..][i - 1] == entries[i];
      assert forall j :: 0 <= j < i - 1 ==> entries[1..][j] == entries[j + 1];
      LookupFinds(entries[1..], key, i - 1);
    }
  }

  /** A lookup only ever returns the value of a stored entry whose key
      selects the same slot. */
  lemma {:induction false} LookupStored<V>(entries: seq<Entry<V>>, key: string)
    requires Lookup(entries, key).Some?
    ensures exists i :: 0 <= i < |entries| && HashIndex(entries[i].key) == HashIndex(key) &&
                        entries[i].value == Lookup(entries, key).value
  {
    if HashIndex(entries[0].key) != HashIndex(key) {
      LookupStored(entries[1..], key);
      var i :| 0 <= i < |entries[1..]| && HashIndex(entries[1..][i].key) == HashIndex(key) &&
               entries[1..][i].value == Lookup(entries, key).value;
      assert entries[i + 1] == entries[1..][i];
    }
  }

  /** Appending an entry leaves every answer that was already there alone, and
      makes the new entry the answer for the keys of its slot otherwise. */
  lemma {:induction false} LookupAppend<V>(entries: seq<Entry<V>>, e: Entry<V>, key: string)
    ensures Lookup(entries + [e], key) ==
            if Lookup(entries, key).Some? then Lookup(entries, key)
            else if HashIndex(e.key) == HashIndex(key) then Some(e.value)
            else None
  {
    if entries == [] {
      assert [] + [e] == [e];
    } else {
      assert (entries + [e])[1..] == entries[1..] + [e];
      if HashIndex(entries[0].key) != HashIndex(key) {
        LookupAppend(entries[1..], e, key);
      }
    }
  }

  /** Keys that select the same slot get the same answer. */
  lemma {:induction false} LookupSameSlot<V>(entries: seq<Entry<V>>, k1: string, k2: string)
    requires HashIndex(k1) == HashIndex(k2)
    ensures Lookup(entries, k1) == Lookup(entries, k2)
  {
    if entries != [] && HashIndex(entries[0].key) != HashIndex(k1) {
      LookupSameSlot(entries[1..], k1, k2);
    }
  }

  /** Nothing ever leaves a table, so once a lookup finds a value, it finds
      the same value however many entries are appended later. */
  lemma {:induction false} LookupStable<V>(entries: seq<Entry<V>>, more: seq<Entry<V>>, key: string)
    requires Lookup(entries, key).Some?
    ensures Lookup(entries + more, key) == Lookup(entries, key)
  {
    assert (entries + more)[0] == entries[0];
    if HashIndex(entries[0].key) != HashIndex(key) {
      assert (entries + more)[1..] == entries[1..] + more;
      LookupStable(entries[1..], more, key);
    }
  }

  /** The values of a run of entries, in order. */
  function Values<V>(entries: seq<Entry<V>>): seq<V> {
    seq(|entries|, i requires 0 <= i < |entries| => entries[i].value)
  }

  /** The values stored among the entries. */
  ghost function ValueSet<V>(entries: seq<Entry<V>>): set<V> {
    set e | e in entries :: e.value
  }

  /** The abstract view of a run of nodes. */
  function EntriesOf<V>(nodes: seq<Node<V>>): seq<Entry<V>> {
    seq(|nodes|, i requires 0 <= i < |nodes| => Entry(nodes[i].key, nodes[i].value))
  }

  /** The slots agree with an order list: every node of the list sits in the
      slot its key selects, and every occupied slot holds the node of the list
      at the position `pos` records for that slot.  Only keys are read, and
      keys never change, so this is a statement about values. */
  ghost predicate SlotsAgreeOn<V>(order: seq<Node<V>>, slots: seq<Node?<V>>, pos: map<nat, nat>) {
    && (forall i {:trigger HashIndex(order[i].key)} :: 0 <= i < |order| ==>
          && HashIndex(order[i].key) < |slots| && slots[HashIndex(order[i].key)] == order[i]
          && HashIndex(order[i].key) in pos && pos[HashIndex(order[i].key)] == i)
    && (forall h :: 0 <= h < |slots| && slots[h] != null ==>
          h in pos && pos[h] < |order| && order[pos[h]] == slots[h] && HashIndex(slots[h].key) == h)
  }

  /** Storing a node in the empty slot its key selects and appending it to the
      order list keeps the two in agreement; the node was not in the list, and
      no earlier node equals the last one. */
  lemma SlotsAgreeAppend<V>(order: seq<Node<V>>, slots: seq<Node?<V>>, pos: map<nat, nat>,
                            node: Node<V>, index: nat)
    requires SlotsAgreeOn(order, slots, pos)
    requires index == HashIndex(node.key) && index < |slots| && slots[index] == null
    ensures SlotsAgreeOn(order + [node], slots[index := node], pos[index := |order|])
    ensures forall i :: 0 <= i < |order| ==> order[i] != node
    ensures forall i :: 0 <= i < |order| - 1 ==> order[i] != order[|order| - 1]
  {
    var order', slots', pos' := order + [node], slots[index := node], pos[index := |order|];
    forall i | 0 <= i < |order|
      ensures order[i] != node && HashIndex(order[i].key) != index
      ensures i < |order| - 1 ==> order[i] != order[|order| - 1]
    {
      assert pos[HashIndex(order[i].key)] == i;
    }
    forall i | 0 <= i < |order'|
      ensures HashIndex(order'[i].key) < |slots'| && slots'[HashIndex(order'[i].key)] == order'[i]
      ensures HashIndex(order'[i].key) in pos' && pos'[HashIndex(order'[i].key)] == i
    {
      if i < |order| {
        assert order'[i] == order[i];
      }
    }
  }

  /** The number of occupied slots. */
  function Occupied<V>(slots: seq<Node?<V>>): nat {
    if slots == [] then 0
    else Occupied(slots[..|slots| - 1]) + (if slots[|slots| - 1] != null then 1 else 0)
  }

  /** The occupied slots, as a set of slot indices. */
  ghost function OccupiedSet<V>(slots: seq<Node?<V>>): set<nat> {
    set h: nat | h < |slots| && slots[h] != null
  }

  /** Occupied counts the occupied slots. */
  lemma {:induction false} OccupiedIsCount<V>(slots: seq<Node?<V>>)
    ensures Occupied(slots) == |OccupiedSet(slots)|
    decreases |slots|
  {
    if slots != [] {
      var n := |slots| - 1;
      OccupiedIsCount(slots[..n]);
      if slots[n] != null {
        assert OccupiedSet(slots) == OccupiedSet(slots[..n]) + {n};
      } else {
        assert OccupiedSet(slots) == OccupiedSet(slots[..n]);
      }
    }
  }

  /** A set mapped one-to-one into another set is no larger than it. */
  lemma {:induction false} InjectionBound(a: set<nat>, b: set<nat>, f: map<nat, nat>)
    requires forall x :: x in a ==> x in f && f[x] in b
    requires forall x, y :: x in a && y in a && f[x] == f[y] ==> x == y
    ensures |a| <= |b|
    decreases |a|
  {
    if a != {} {
      var x :| x in a;
      InjectionBound(a - {x}, b - {f[x]}, f);
    }
  }

  /** A set of numbers below n has at most n members. */
  lemma {:induction false} BoundedSetSize(s: set<nat>, n: nat)
    requires forall p :: p in s ==> p < n
    ensures |s| <= n
    decreases n
  {
    if n == 0 {
      assert s == {};
    } else {
      BoundedSetSize(s - {n - 1}, n - 1);
      if n - 1 in s {
        assert s == (s - {n - 1}) + {n - 1};
      } else {
        assert s == s - {n - 1};
      }
    }
  }

  /** Slots that agree with an order list hold no more nodes than the list:
      each occupied slot names its own position in the list. */
  lemma OccupiedAtMostOrder<V>(order: seq<Node<V>>, slots: seq<Node?<V>>, pos: map<nat, nat>)
    requires SlotsAgreeOn(order, slots, pos)
    ensures Occupied(slots) <= |order|
  {
    OccupiedIsCount(slots);
    var used := set h | h in OccupiedSet(slots) :: pos[h];
    InjectionBound(OccupiedSet(slots), used, pos);
    BoundedSetSize(used, |order|);
  }

  /** lht_node_t: a key and a value fixed at insertion, and the order links. */
  class Node<V> {
    const key: string
    const value: V
    var next: Node?<V>
    var prev: Node?<V>

    constructor (key: string, value: V)
      ensures this.key == key && this.value == value
      ensures next == null && prev == null
    {
      this.key := key;
      this.value := value;
      next := null;
      prev := null;
    }
  }

  /** The two modes of lht_iter. */
  datatype IterSetting = Begin | Keep

  /** lht_t. */
  class Table<V> {
    const raw: array<Node?<V>>
    const capacity: nat
    var size: int
    var first: Node?<V>
    var last: Node?<V>
    /** lht_iterator_current. */
    var current: Node?<V>

    /** The nodes in insertion order. */
    ghost var Order: seq<Node<V>>
    /** For each occupied slot, the position of its node in Order. */
    ghost var pos: map<nat, nat>
    /** The position of `current` in Order; |Order| once the cursor has run off the end. */
    ghost var cursor: nat
    /** The nodes. */
    ghost var Nodes: set<Node<V>>

    /** The entries in insertion order. */
    ghost function Entries(): seq<Entry<V>>
      reads this`Order
    {
      EntriesOf(Order)
    }

    /** The slot array agrees with the order list (SlotsAgreeOn). */
    ghost predicate SlotsAgree()
      reads this`Order, this`pos, raw
    {
      SlotsAgreeOn(Order, raw[..], pos)
    }

    /** first/last and the prev/next links thread Order from end to end. */
    ghost predicate Linked()
      reads this`Order, this`Nodes, this`first, this`last, Nodes
      requires forall i :: 0 <= i < |Order| ==> Order[i] in Nodes
    {
      && (Order == [] ==> first == null && last == null)
      && (Order != [] ==> first == Order[0] && last == Order[|Order| - 1])
      && (Order != [] ==> Order[0].prev == null && Order[|Order| - 1].next == null)
      && (forall i {:trigger Order[i].next} :: 0 <= i < |Order| - 1 ==> Order[i].next == Order[i + 1])
      && (forall i {:trigger Order[i].prev} :: 0 < i < |Order| ==> Order[i].prev == Order[i - 1])
    }

    ghost predicate Valid()
      reads this`first, this`last, this`current, this`Order, this`pos, this`cursor, this`Nodes, raw, Nodes
    {
      && raw.Length == INIT_HASH && capacity == INIT_HASH
      && (forall i :: 0 <= i < |Order| ==> Order[i] in Nodes && IsCString(Order[i].key))
      && SlotsAgree()
      && Linked()
      && cursor <= |Order|
      && current == (if cursor < |Order| then Order[cursor] else null)
    }

    /** lht_init: every slot empty, size 0, capacity INIT_HASH, empty order
        list.  The C code leaves the iteration cursor uninitialised; here it
        starts past the end, so KEEP is not allowed before a BEGIN. */
    constructor ()
      ensures Valid() && fresh(raw) && Nodes == {}
      ensures Entries() == []
      ensures forall h :: 0 <= h < raw.Length ==> raw[h] == null
      ensures size == 0 && capacity == INIT_HASH
      ensures first == null && last == null && current == null
    {
      raw := new Node?<V>[INIT_HASH](_ => null);
      capacity := INIT_HASH;
      size := 0;
      first := null;
      last := null;
      current := null;
      Order := [];
      pos := map[];
      cursor := 0;
      Nodes := {};
    }

    /** The slot array answers a lookup exactly as the abstract view does. */
    lemma SlotAnswersLookup(key: string)
      requires Valid()
      ensures Lookup(Entries(), key) ==
              if raw[HashIndex(key)] != null then Some(raw[HashIndex(key)].value) else None
    {
      var h := HashIndex(key);
      if raw[h] != null {
        LookupFinds(Entries(), key, pos[h]);
      } else {
        LookupMissIff(Entries(), key);
      }
    }

    /** lht_get_element: the value in the key's slot, or nothing when the
        slot is empty.  Keys are not compared, so any key selecting that slot
        gets the same answer (LookupSameSlot). */
    function Get(key: string): (r: Option<V>)
      requires Valid()
      reads this, raw, Nodes
      ensures r == Lookup(Entries(), key)
      ensures r.None? <==> raw[HashIndex(key)] == null
      ensures r.Some? ==> r.value in ValueSet(Entries())
    {
      SlotAnswersLookup(key);
      if raw[HashIndex(key)] != null then
        assert Entries()[pos[HashIndex(key)]] in Entries();
        Some(raw[HashIndex(key)].value)
      else None
    }

    /** lht_insert_new_element: refused with -1 when the key's slot is taken,
        leaving everything as it was; otherwise the new node is stored in the
        key's slot, appended to the order list, and 0 is returned. */
    method Insert(key: string, value: V) returns (status: int)
      requires Valid() && IsCString(key)
      modifies this, raw, Nodes
      ensures Valid() && fresh(Nodes - old(Nodes))
      ensures status == 0 || status == -1
      ensures status == -1 <==> old(raw[HashIndex(key)]) != null
      ensures status == -1 <==> old(Lookup(Entries(), key)).Some?
      ensures Entries() == if status == 0 then old(Entries()) + [Entry(key, value)] else old(Entries())
      ensures status == 0 ==> Lookup(Entries(), key) == Some(value)
      ensures status == -1 ==> unchanged(this) && unchanged(raw)
      ensures status == 0 ==> last != null && last.key == key && last.value == value
      ensures status == 0 ==> raw[..] == old(raw[..])[HashIndex(key) := last]
      ensures status == 0 ==> first == if old(first) == null then last else old(first)
      ensures size == old(size) && current == old(current)
    {
      ghost var before := Entries();
      SlotAnswersLookup(key);
      var index := CalculateHash(key);
      var node := new Node(key, value);
      if raw[index] != null {
        return -1;
      }

      Link(node, index);
      assert Entries() == before + [Entry(key, value)];
      LookupAppend(before, Entry(key, value), key);
      status := 0;
    }

    /** The second half of lht_insert_new_element: store a new node in its
        empty slot and append it to the order list. */
    method Link(node: Node<V>, index: nat)
      requires Valid() && node !in Nodes && IsCString(node.key)
      requires index == HashIndex(node.key) && raw[index] == null
      requires node.next == null && node.prev == null
      modifies this, raw, Nodes, node
      ensures Valid() && Nodes == old(Nodes) + {node}
      ensures Order == old(Order) + [node]
      ensures raw[..] == old(raw[..])[index := node]
      ensures last == node && first == if old(first) == null then node else old(first)
      ensures size == old(size) && current == old(current)
    {
      SlotsAgreeAppend(Order, raw[..], pos, node, index);
      raw[index] := node;
      assert raw[..] == old(raw[..])[index := node];
      pos := pos[index := |Order|];
      Nodes := Nodes + {node};
      Append(node);
      cursor := if current == null then |Order| else cursor;
      assert SlotsAgree();
    }

    /** The list half of lht_insert_new_element: thread `node` after the last
        node, or make it the only node of an empty list. */
    method Append(node: Node<V>)
      requires forall i :: 0 <= i < |Order| ==> Order[i] in Nodes
      requires Linked() && node in Nodes && node.next == null && node.prev == null
      requires forall i :: 0 <= i < |Order| ==> Order[i] != node
      requires forall i :: 0 <= i < |Order| - 1 ==> Order[i] != Order[|Order| - 1]
      modifies this`first, this`last, this`Order, last, node
      ensures Order == old(Order) + [node] && Linked()
      ensures last == node && first == if old(first) == null then node else old(first)
    {
      if first == null {
        first, last := node, node;
        node.prev := null;
      } else {
        last.next := node;
        node.prev := last;
        last := node;
      }
      node.next := null;
      Order := Order + [node];

      ghost var n := |old(Order)|;
      forall i {:trigger Order[i].next} | 0 <= i < |Order| - 1
        ensures Order[i].next == Order[i + 1]
      {
        if i < n - 1 {
          assert Order[i].next == old(Order[i].next);
        }
      }
      forall i {:trigger Order[i].prev} | 0 < i < |Order|
        ensures Order[i].prev == Order[i - 1]
      {
        if i < n {
          assert Order[i].prev == old(Order[i].prev);
        }
      }
    }

    /** lht_iter: BEGIN moves the cursor to the first node, KEEP to the node
        after the current one (the C code dereferences the cursor, so KEEP
        needs one); the value under the new cursor is returned, or nothing
        once it has run off the end. */
    method Iter(setting: IterSetting) returns (r: Option<V>)
      requires Valid()
      requires setting == Keep ==> current != null
      modifies this`current, this`cursor
      ensures Valid()
      ensures cursor == if setting == Begin then 0 else old(cursor) + 1
      ensures r == if cursor < |Entries()| then Some(Entries()[cursor].value) else None
    {
      var next: Node?<V>;
      if setting == Keep {
        next := current.next;
        cursor := cursor + 1;
      } else {
        next := first;
        cursor := 0;
      }
      current := next;
      r := if next != null then Some(next.value) else None;
    }
  }
}
