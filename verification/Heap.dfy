/** HeapBase of heap.h: a binary heap whose nodes are handles. A handle names a node of the pool; the
    slot array permutes the pool. `key` is the feature, negated for a max-heap. */
module Heap {
  import opened Options
  import opened HeapOrder
  import opened HeapSift

  /** What the heap holds: the value of every live handle. */
  function Held<V>(t: Slots, nodes: seq<HeapItem<V>>, num: nat): (m: map<nat, V>)
    requires |nodes| == |t| && num < |t| && Permutation(t)
    ensures m.Keys == Nodes(t, num)
  {
    map n | n in Nodes(t, num) :: nodes[n].val
  }

  // ---------- facts about the steps before and after a sift ----------

  lemma KeysUpdate<V>(nodes: seq<HeapItem<V>>, n: nat, item: HeapItem<V>, key: V -> int)
    requires n < |nodes|
    ensures Keys(nodes[n := item], key) == Keys(nodes, key)[n := key(item.val)]
  {
  }

  /** Changing one key breaks the order only around its slot. */
  lemma OrderedElsewhere(t: Slots, ks: seq<int>, num: nat, p: nat, k: int)
    requires Sized(t, ks, num) && Ordered(t, ks, num) && 1 <= p <= num
    ensures Sized(t, ks[t[p] := k], num) && ExceptAt(t, ks[t[p] := k], num, p)
  {
    var ks' := ks[t[p] := k];
    assert forall i | 0 <= i < |t| && i != p :: Key(t, ks', i) == Key(t, ks, i);
    hide Key, Permutation;
    if p >= 2 {
      assert Key(t, ks, p / 2) <= Key(t, ks, p);
    }
  }

  /** A new value in a live node. */
  lemma NewValue<V>(t: Slots, nodes: seq<HeapItem<V>>, num: nat, key: V -> int, p: nat, val: V)
    requires Indexed(t, nodes, num, 0) && Ordered(t, Keys(nodes, key), num) && 1 <= p <= num
    ensures var nodes' := nodes[t[p] := nodes[t[p]].(val := val)];
      Indexed(t, nodes', num, p) && ExceptAt(t, Keys(nodes', key), num, p)
      && Held(t, nodes', num) == Held(t, nodes, num)[t[p] := val]
  {
    KeysUpdate(nodes, t[p], nodes[t[p]].(val := val), key);
    OrderedElsewhere(t, Keys(nodes, key), num, p, key(val));
    hide Keys, Ordered, ExceptAt;
    var nodes' := nodes[t[p] := nodes[t[p]].(val := val)];
    assert t[p] in Nodes(t, num);
    assert Held(t, nodes', num).Keys == Held(t, nodes, num)[t[p] := val].Keys;
  }

  lemma LeafOrder(t: Slots, ks: seq<int>, num: nat, k: int)
    requires Sized(t, ks, num) && Ordered(t, ks, num) && num + 1 < |t|
    ensures var ks' := ks[t[num + 1] := k];
      Sized(t, ks', num + 1) && ExceptAt(t, ks', num + 1, num + 1) && FitsBelow(t, ks', num + 1, num + 1)
  {
    var ks' := ks[t[num + 1] := k];
    assert forall i | 0 <= i <= num :: Key(t, ks', i) == Key(t, ks, i);
    hide Key, Permutation;
  }

  lemma LeafHeld<V>(t: Slots, nodes: seq<HeapItem<V>>, num: nat, val: V)
    requires |nodes| == |t| && Permutation(t) && num + 1 < |t|
    ensures var nodes' := nodes[t[num + 1] := nodes[t[num + 1]].(val := val)];
      Held(t, nodes', num + 1) == Held(t, nodes, num)[t[num + 1] := val] && t[num + 1] !in Nodes(t, num)
  {
    var nodes' := nodes[t[num + 1] := nodes[t[num + 1]].(val := val)];
    assert t[num + 1] in Nodes(t, num + 1);
    assert Held(t, nodes', num + 1).Keys == Held(t, nodes, num)[t[num + 1] := val].Keys;
  }

  /** A new value in the first slot after the heap. */
  lemma NewLeaf<V>(t: Slots, nodes: seq<HeapItem<V>>, num: nat, key: V -> int, val: V)
    requires Indexed(t, nodes, num, 0) && Ordered(t, Keys(nodes, key), num) && num + 1 < |t|
    ensures var nodes' := nodes[t[num + 1] := nodes[t[num + 1]].(val := val)];
      Indexed(t, nodes', num + 1, num + 1)
      && ExceptAt(t, Keys(nodes', key), num + 1, num + 1) && FitsBelow(t, Keys(nodes', key), num + 1, num + 1)
      && Held(t, nodes', num + 1) == Held(t, nodes, num)[t[num + 1] := val]
      && t[num + 1] !in Nodes(t, num)
  {
    hide Keys, Ordered, ExceptAt, FitsBelow, Held, Nodes;
    var item := nodes[t[num + 1]].(val := val);
    KeysUpdate(nodes, t[num + 1], item, key);
    LeafOrder(t, Keys(nodes, key), num, key(val));
    LeafHeld(t, nodes, num, val);
  }

  /** Slot `p` takes the last node and leaves the heap with its own. */
  lemma LastInOrder(t: Slots, ks: seq<int>, num: nat, p: nat)
    requires Sized(t, ks, num) && Ordered(t, ks, num) && 1 <= p < num
    ensures Sized(Swap(t, p, num), ks, num - 1) && ExceptAt(Swap(t, p, num), ks, num - 1, p)
    ensures p > 1 ==> RootNotAbove(Swap(t, p, num), ks, p)
  {
    SwapKeys(t, ks, p, num, num);
    RootIsLeast(t, ks, num, num);
    var s := Swap(t, p, num);
    assert p > 1 ==> RootNotAbove(s, ks, p);
    hide Key, Swap, Permutation;
    if p >= 2 {
      assert Key(t, ks, p / 2) <= Key(t, ks, p);
    }
  }

  lemma LastIndexed<V>(t: Slots, nodes: seq<HeapItem<V>>, num: nat, p: nat)
    requires Indexed(t, nodes, num, 0) && 1 <= p <= num
    ensures var s := Swap(t, p, num);
      var nodes' := nodes[s[p] := nodes[s[p]].(index := p)];
      SameVals(nodes, nodes') && Indexed(s, nodes', num - 1, if p == num then 0 else p)
  {
    if p == num {
      assert Swap(t, p, num) == t;
    } else {
      SwapKeeps(t, p, num, num);
    }
  }

  lemma NodesWithout(t: Slots, num: nat, p: nat)
    requires Permutation(t) && num < |t| && 1 <= p <= num
    ensures Nodes(Swap(t, p, num), num - 1) == Nodes(t, num) - {t[p]}
  {
    var s := Swap(t, p, num);
    forall n | n in Nodes(t, num) && n != t[p] ensures n in Nodes(s, num - 1) {
      var x :| 1 <= x <= num && t[x] == n;
      assert s[if x == num then p else x] == n;
    }
    forall n | n in Nodes(s, num - 1) ensures n in Nodes(t, num) && n != t[p] {
      var x :| 1 <= x <= num - 1 && s[x] == n;
      assert t[if x == p then num else x] == n;
    }
  }

  lemma HeldWithout<V>(t: Slots, nodes: seq<HeapItem<V>>, nodes': seq<HeapItem<V>>, num: nat, p: nat)
    requires |nodes| == |t| && num < |t| && 1 <= p <= num && Permutation(t) && Permutation(Swap(t, p, num))
      && SameVals(nodes, nodes')
    ensures Held(Swap(t, p, num), nodes', num - 1) == Held(t, nodes, num) - {t[p]}
  {
    NodesWithout(t, num, p);
    hide Nodes, Swap;
  }

  /** The last node takes the place of the one in slot `p`, which leaves the heap. */
  lemma LastFills<V>(t: Slots, nodes: seq<HeapItem<V>>, num: nat, key: V -> int, p: nat)
    requires Indexed(t, nodes, num, 0) && Ordered(t, Keys(nodes, key), num) && 1 <= p <= num
    ensures var s := Swap(t, p, num);
      var nodes' := nodes[s[p] := nodes[s[p]].(index := p)];
      SameVals(nodes, nodes')
      && (if p == num then Indexed(s, nodes', num - 1, 0) && Ordered(s, Keys(nodes', key), num - 1)
          else Indexed(s, nodes', num - 1, p) && ExceptAt(s, Keys(nodes', key), num - 1, p))
      && Held(s, nodes', num - 1) == Held(t, nodes, num) - {t[p]}
      && (p > 1 ==> s[1] == t[1] && (p < num ==> RootNotAbove(s, Keys(nodes', key), p)))
  {
    var ks, s := Keys(nodes, key), Swap(t, p, num);
    var nodes' := nodes[s[p] := nodes[s[p]].(index := p)];
    IndexedSized(t, nodes, num, 0, ks);
    LastIndexed(t, nodes, num, p);
    IndexedSized(s, nodes', num - 1, if p == num then 0 else p, ks);
    SameKeys(nodes, nodes', key);
    HeldWithout(t, nodes, nodes', num, p);
    if p == num {
      assert s == t;
    } else {
      LastInOrder(t, ks, num, p);
    }
    hide Indexed, Held, ExceptAt, Permutation, Keys, RootNotAbove, SameVals;
  }

  /** Only where the nodes stand changes in a sift, not what is held. */
  lemma SameHeld<V>(t: Slots, nodes: seq<HeapItem<V>>, s: Slots, nodes': seq<HeapItem<V>>, num: nat)
    requires |nodes| == |t| == |s| && num < |t| && Permutation(t) && Permutation(s)
    requires SameVals(nodes, nodes') && Nodes(s, num) == Nodes(t, num)
    ensures Held(s, nodes', num) == Held(t, nodes, num)
  {
  }

  /** The handle in slot 1 is live, and no live handle has a smaller key. */
  lemma TopIsLeast<V>(t: Slots, nodes: seq<HeapItem<V>>, num: nat, key: V -> int)
    requires Indexed(t, nodes, num, 0) && Ordered(t, Keys(nodes, key), num) && num > 0
    ensures var m := Held(t, nodes, num);
      t[1] in m && forall n | n in m :: key(m[t[1]]) <= key(m[n])
  {
    var m := Held(t, nodes, num);
    assert t[1] in Nodes(t, num);
    forall n | n in m ensures key(m[t[1]]) <= key(m[n]) {
      var i :| 1 <= i <= num && t[i] == n;
      RootIsLeast(t, Keys(nodes, key), num, i);
    }
  }

  /** realloc to twice the size, and a new node for each new slot. */
  method Reallocated<V(0)>(items: array<nat>, nodes: array<HeapItem<V>>) returns (slots: array<nat>, pool: array<HeapItem<V>>)
    requires items.Length == nodes.Length
    ensures fresh(slots) && fresh(pool) && slots.Length == pool.Length == 2 * items.Length
    ensures slots[..][..items.Length] == items[..] && pool[..][..items.Length] == nodes[..]
    ensures forall i | items.Length <= i < slots.Length :: slots[i] == i
  {
    var n := items.Length;
    slots := new nat[2 * n](i => i);
    pool := new HeapItem<V>[2 * n];
    forall i | 0 <= i < n {
      slots[i] := items[i];
    }
    forall i | 0 <= i < n {
      pool[i] := nodes[i];
    }
  }

  class HeapBase<V(0)> {
    const key: V -> int
    var numItems: nat
    var sizeContainer: nat
    var heapItems: array<nat>
    var nodes: array<HeapItem<V>>

    /** Heap order, every live node's index is its slot, the slot array permutes the pool. */
    ghost predicate Valid()
      reads this, heapItems, nodes
    {
      heapItems.Length == nodes.Length == sizeContainer
      && Indexed(heapItems[..], nodes[..], numItems, 0)
      && Ordered(heapItems[..], Keys(nodes[..], key), numItems)
    }

    ghost function Contents(): map<nat, V>
      requires Valid()
      reads this, heapItems, nodes
    {
      Held(heapItems[..], nodes[..], numItems)
    }

    /** The handle Top and Pop speak of. */
    ghost function TopHandle(): nat
      requires Valid()
      reads this, heapItems, nodes
    {
      if numItems > 0 then heapItems[1] else 0
    }

    /** The constructor followed by InitHeap. */
    constructor (initSize: nat, feature: V -> int)
      requires initSize >= 1
      ensures Valid() && Contents() == map[] && key == feature && sizeContainer == initSize
      ensures fresh(heapItems) && fresh(nodes)
    {
      key := feature;
      numItems, sizeContainer := 0, initSize;
      heapItems := new nat[initSize](i => i);
      nodes := new HeapItem<V>[initSize];
    }

    /** Resize: the slot array and the pool double; new slots hold the new nodes. */
    method Resize()
      requires Valid()
      modifies this
      ensures Valid() && Contents() == old(Contents()) && numItems == old(numItems)
      ensures sizeContainer == 2 * old(sizeContainer) && fresh(heapItems) && fresh(nodes)
      ensures numItems > 0 ==> heapItems[1] == old(heapItems[1])
    {
      hide Indexed, Ordered, Held, Keys, Permutation;
      var slots, pool := Reallocated(heapItems, nodes);
      Doubled(heapItems[..], nodes[..], slots[..], pool[..], numItems, key);
      assert forall i | 0 <= i < sizeContainer :: slots[i] == slots[..][..sizeContainer][i];
      Room(heapItems[..], nodes[..], numItems);
      heapItems, nodes, sizeContainer := slots, pool, 2 * sizeContainer;
    }

    /** Insert: the value gets a handle that was not live. */
    method Insert(val: V) returns (sign: nat)
      requires Valid()
      modifies this, heapItems, nodes
      ensures Valid() && (heapItems == old(heapItems) || fresh(heapItems)) && (nodes == old(nodes) || fresh(nodes))
      ensures sign !in old(Contents()) && Contents() == old(Contents())[sign := val]
      ensures numItems == old(numItems) + 1 && sizeContainer >= old(sizeContainer)
      ensures old(numItems) > 0 && key(val) >= key(old(Contents()[TopHandle()])) ==> TopHandle() == old(TopHandle())
    {
      hide Indexed, Ordered, Held, Keys, Permutation, Nodes;
      Room(heapItems[..], nodes[..], numItems);
      if numItems + 1 == sizeContainer {
        Resize();
      }
      sign := Place(val);
    }

    /** Insert, once there is room. */
    method Place(val: V) returns (sign: nat)
      requires Valid() && numItems + 1 < sizeContainer
      modifies this, heapItems, nodes
      ensures Valid() && heapItems == old(heapItems) && nodes == old(nodes)
      ensures sign !in old(Contents()) && Contents() == old(Contents())[sign := val]
      ensures numItems == old(numItems) + 1 && sizeContainer >= old(sizeContainer)
      ensures old(numItems) > 0 && key(val) >= key(old(Contents()[TopHandle()])) ==> TopHandle() == old(TopHandle())
    {
      hide Indexed, Ordered, Held, Keys, Permutation, Nodes, ExceptAt, FitsBelow, SameVals;
      ghost var t, start, num := heapItems[..], nodes[..], numItems;
      Room(t, start, num);
      numItems := numItems + 1;
      sign := heapItems[numItems];
      NewLeaf(t, start, num, key, val);
      nodes[sign] := nodes[sign].(val := val);
      assert t[numItems := sign] == t;
      ghost var ready := nodes[..];
      assert ready == start[sign := start[sign].(val := val)];
      SiftUp(heapItems, nodes, key, numItems, sign, numItems);
      Sifted(t, ready, heapItems[..], nodes[..], numItems);
      if num > 0 {
        RootHeld(t, start, num);
        SameKeys(ready, nodes[..], key);
      }
    }

    /** Update: a live handle gets another value. */
    method Update(sign: nat, val: V)
      requires Valid() && sign in Contents()
      modifies heapItems, nodes
      ensures Valid() && Contents() == old(Contents())[sign := val]
    {
      hide Indexed, Ordered, Held, Keys, Permutation, Nodes, ExceptAt, SameVals, Swap, RootNotAbove;
      ghost var t, start := heapItems[..], nodes[..];
      Room(t, start, numItems);
      Located(t, start, numItems, sign);
      NewValue(t, start, numItems, key, nodes[sign].index, val);
      nodes[sign] := nodes[sign].(val := val);
      ghost var ready := nodes[..];
      assert ready == start[sign := start[sign].(val := val)];
      AdjustNode(heapItems, nodes, key, numItems, nodes[sign].index);
      Sifted(t, ready, heapItems[..], nodes[..], numItems);
    }

    /** UpdateTop: the same for the handle at the root, if there is one. */
    method UpdateTop(val: V)
      requires Valid()
      modifies heapItems, nodes
      ensures Valid()
      ensures Contents() == if numItems == 0 then old(Contents()) else old(Contents())[old(TopHandle()) := val]
    {
      hide Indexed, Ordered, Held, Keys, Permutation, Nodes, ExceptAt, SameVals, Swap, RootNotAbove;
      if numItems == 0 {
        return;
      }
      ghost var t, start := heapItems[..], nodes[..];
      Room(t, start, numItems);
      NewValue(t, start, numItems, key, 1, val);
      var top := heapItems[1];
      nodes[top] := nodes[top].(val := val);
      ghost var ready := nodes[..];
      assert ready == start[top := start[top].(val := val)];
      AdjustNode(heapItems, nodes, key, numItems, 1);
      Sifted(t, ready, heapItems[..], nodes[..], numItems);
    }

    /** Erase: a live handle leaves the heap, and the root stays unless it is the one that leaves. */
    method Erase(sign: nat)
      requires Valid() && (numItems > 0 ==> sign in Contents())
      modifies this`numItems, heapItems, nodes
      ensures Valid() && Contents() == old(Contents()) - {sign}
      ensures numItems == if old(numItems) > 0 then old(numItems) - 1 else 0
      ensures old(numItems) > 0 && sign != old(TopHandle()) ==> TopHandle() == old(TopHandle())
    {
      if numItems == 0 {
        return;
      }
      hide Indexed, Ordered, Held, Keys, Permutation, Nodes, ExceptAt, SameVals, RootNotAbove;
      var num := numItems;
      ghost var t, start := heapItems[..], nodes[..];
      Located(t, start, num, sign);
      var p := nodes[sign].index;
      LastFills(t, start, num, key, p);
      heapItems[p] := heapItems[num];
      heapItems[num] := sign;
      numItems := num - 1;
      nodes[heapItems[p]] := nodes[heapItems[p]].(index := p);
      ghost var s, ready := heapItems[..], nodes[..];
      assert s == Swap(t, p, num);
      AdjustNode(heapItems, nodes, key, numItems, nodes[sign].index);
      Sifted(s, ready, heapItems[..], nodes[..], numItems);
      if p == 1 {
        RootHeld(t, start, num);
      }
    }

    /** Top: the value at the root, a minimum. */
    method Top() returns (top: Option<V>)
      requires Valid()
      ensures top.None? <==> Contents() == map[]
      ensures top.Some? ==> TopHandle() in Contents() && Contents()[TopHandle()] == top.value
      ensures top.Some? ==> forall n | n in Contents() :: key(top.value) <= key(Contents()[n])
    {
      if numItems == 0 {
        return None;
      }
      Room(heapItems[..], nodes[..], numItems);
      TopIsLeast(heapItems[..], nodes[..], numItems, key);
      RootHeld(heapItems[..], nodes[..], numItems);
      hide Indexed, Ordered, Held, Keys, Permutation, Nodes;
      top := Some(nodes[heapItems[1]].val);
    }

    /** Pop: a handle with a smallest value leaves the heap. */
    method Pop() returns (sign: nat)
      requires Valid() && sizeContainer > 1
      modifies this`numItems, heapItems, nodes
      ensures Valid() && Contents() == old(Contents()) - {sign}
      ensures old(numItems) > 0 ==> sign == old(TopHandle()) && sign in old(Contents())
      ensures forall n | n in old(Contents()) && old(numItems) > 0 :: key(old(Contents())[sign]) <= key(old(Contents())[n])
    {
      Room(heapItems[..], nodes[..], numItems);
      if numItems > 0 {
        TopIsLeast(heapItems[..], nodes[..], numItems, key);
        RootHeld(heapItems[..], nodes[..], numItems);
      }
      hide Indexed, Ordered, Held, Keys, Permutation, Nodes;
      sign := heapItems[1];
      Erase(sign);
    }
  }

  /** A live handle is found at the slot its node names. */
  lemma Located<V>(t: Slots, nodes: seq<HeapItem<V>>, num: nat, sign: nat)
    requires Indexed(t, nodes, num, 0) && sign in Nodes(t, num)
    ensures sign < |nodes| && 1 <= nodes[sign].index <= num && t[nodes[sign].index] == sign && InPool(t) && Permutation(t)
  {
  }

  lemma RootHeld<V>(t: Slots, nodes: seq<HeapItem<V>>, num: nat)
    requires Indexed(t, nodes, num, 0) && num > 0
    ensures Permutation(t) && num < |t| && t[1] in Held(t, nodes, num) && Held(t, nodes, num)[t[1]] == nodes[t[1]].val
  {
    assert t[1] in Nodes(t, num);
  }

  lemma Room<V>(t: Slots, nodes: seq<HeapItem<V>>, num: nat)
    requires Indexed(t, nodes, num, 0)
    ensures num < |t| == |nodes| && InPool(t) && Permutation(t)
  {
  }

  lemma Sifted<V>(t: Slots, nodes: seq<HeapItem<V>>, s: Slots, nodes': seq<HeapItem<V>>, num: nat)
    requires Indexed(s, nodes', num, 0) && |nodes| == |t| && num < |t| && Permutation(t)
    requires SameVals(nodes, nodes') && Nodes(s, num) == Nodes(t, num) && |s| == |t|
    ensures Permutation(s) && Held(s, nodes', num) == Held(t, nodes, num)
  {
    SameHeld(t, nodes, s, nodes', num);
  }

  lemma DoubledSlots<V>(t: Slots, nodes: seq<HeapItem<V>>, t': Slots, nodes': seq<HeapItem<V>>, num: nat)
    requires Indexed(t, nodes, num, 0)
    requires |t'| == |nodes'| == 2 * |t| && t'[..|t|] == t && nodes'[..|t|] == nodes
    requires forall i | |t| <= i < |t'| :: t'[i] == i
    ensures Indexed(t', nodes', num, 0) && Nodes(t', num) == Nodes(t, num)
  {
    assert forall i | 0 <= i < |t| :: t'[i] == t'[..|t|][i] && nodes'[i] == nodes'[..|t|][i];
  }

  lemma DoubledKeys<V>(t: Slots, nodes: seq<HeapItem<V>>, t': Slots, nodes': seq<HeapItem<V>>, key: V -> int)
    requires |t'| == |nodes'| == 2 * |t| == 2 * |nodes| && t'[..|t|] == t && nodes'[..|t|] == nodes
    requires Permutation(t) && Permutation(t')
    ensures forall i | 0 <= i < |t| :: Key(t', Keys(nodes', key), i) == Key(t, Keys(nodes, key), i)
  {
    assert forall i | 0 <= i < |t| :: t'[i] == t'[..|t|][i] && nodes'[i] == nodes'[..|t|][i];
  }

  lemma Doubled<V>(t: Slots, nodes: seq<HeapItem<V>>, t': Slots, nodes': seq<HeapItem<V>>, num: nat, key: V -> int)
    requires Indexed(t, nodes, num, 0) && Ordered(t, Keys(nodes, key), num)
    requires |t'| == |nodes'| == 2 * |t| && t'[..|t|] == t && nodes'[..|t|] == nodes
    requires forall i | |t| <= i < |t'| :: t'[i] == i
    ensures Indexed(t', nodes', num, 0) && Ordered(t', Keys(nodes', key), num)
    ensures Held(t', nodes', num) == Held(t, nodes, num)
  {
    hide Key, Keys, Nodes;
    DoubledSlots(t, nodes, t', nodes', num);
    assert Permutation(t) && Permutation(t');
    DoubledKeys(t, nodes, t', nodes', key);
    assert forall i | 0 <= i < |t| :: nodes'[i] == nodes'[..|t|][i];
    hide Indexed, Permutation;
  }
}
