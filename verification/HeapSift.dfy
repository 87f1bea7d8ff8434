/** The two loops of AdjustNode, on the slot array and the node pool. */
module HeapSift {
  import opened HeapOrder

  /** HeapItem: a node of the pool. */
  datatype HeapItem<V> = HeapItem(index: nat, val: V)

  function Keys<V>(nodes: seq<HeapItem<V>>, key: V -> int): (ks: seq<int>)
    ensures |ks| == |nodes| && forall n | 0 <= n < |nodes| :: ks[n] == key(nodes[n].val)
  {
    seq(|nodes|, n requires 0 <= n < |nodes| => key(nodes[n].val))
  }

  /** The nodes in slots 1 to num know their slots, slot `hole` apart. */
  predicate Indexed<V>(t: Slots, nodes: seq<HeapItem<V>>, num: nat, hole: nat) {
    |nodes| == |t| && num < |t| && Permutation(t)
    && forall i | 1 <= i <= num && i != hole :: nodes[t[i]].index == i
  }

  predicate SameVals<V(==)>(a: seq<HeapItem<V>>, b: seq<HeapItem<V>>) {
    |a| == |b| && forall n | 0 <= n < |a| :: a[n].val == b[n].val
  }

  lemma SameKeys<V>(a: seq<HeapItem<V>>, b: seq<HeapItem<V>>, key: V -> int)
    requires SameVals(a, b)
    ensures Keys(a, key) == Keys(b, key)
  {
  }

  /** Slots outside the heap keep their nodes. */
  predicate SameOutside(s: Slots, t: Slots, num: nat) {
    |s| == |t| && num < |t| && (forall i | num < i < |t| :: s[i] == t[i]) && s[0] == t[0]
  }

  /** The parent's node moves into the hole, the hole moves up. */
  lemma HoleMoves<V>(t: Slots, nodes: seq<HeapItem<V>>, nodes': seq<HeapItem<V>>, num: nat, hole: nat, to: nat)
    requires Indexed(t, nodes, num, hole) && 1 <= hole <= num && 1 <= to <= num && hole != to
    requires nodes' == nodes[t[to] := nodes[t[to]].(index := hole)]
    ensures Indexed(Swap(t, hole, to), nodes', num, to) && SameVals(nodes, nodes')
  {
    SwapKeeps(t, hole, to, num);
  }

  lemma HoleCloses<V>(t: Slots, nodes: seq<HeapItem<V>>, nodes': seq<HeapItem<V>>, num: nat, hole: nat)
    requires Indexed(t, nodes, num, hole) && 1 <= hole <= num
    requires nodes' == nodes[t[hole] := nodes[t[hole]].(index := hole)]
    ensures Indexed(t, nodes', num, 0) && SameVals(nodes, nodes')
  {
  }

  /** `node` is to be put into slot `from` and moves up while it is smaller than its parent. */
  method SiftUp<V>(items: array<nat>, nodes: array<HeapItem<V>>, key: V -> int, num: nat, node: nat, from: nat)
    requires 1 <= from <= num < items.Length == nodes.Length && node < nodes.Length
    requires var t := items[..][from := node];
      Indexed(t, nodes[..], num, from)
      && ExceptAt(t, Keys(nodes[..], key), num, from) && FitsBelow(t, Keys(nodes[..], key), num, from)
    modifies items, nodes
    ensures Indexed(items[..], nodes[..], num, 0) && SameVals(old(nodes[..]), nodes[..])
    ensures Ordered(items[..], Keys(nodes[..], key), num)
    ensures var t := old(items[..])[from := node];
      Nodes(items[..], num) == Nodes(t, num) && SameOutside(t, items[..], num)
      && t[1] < nodes.Length
      && (Keys(nodes[..], key)[t[1]] <= Keys(nodes[..], key)[node] ==> items[1] == t[1])
  {
    hide ExceptAt, FitsBelow, FitsAbove, Indexed, Nodes, Permutation, SameVals, Ordered;
    var at := from;
    ghost var t := items[..][from := node];
    ghost var t0 := t;
    ghost var ks := Keys(nodes[..], key);
    IndexedSized(t, nodes[..], num, from, ks);
    SameValsRefl(nodes[..]);
    PermutationInPool(t);
    while at > 1 && key(nodes[node].val) < key(nodes[items[at / 2]].val)
      invariant 1 <= at <= from && t == items[..][at := node] && t[at] == node && |t| == items.Length
      invariant InPool(t) && InPool(t0) && forall i | 0 <= i < |t| && i != at :: items[i] == t[i]
      invariant Sized(t, ks, num) && Keys(nodes[..], key) == ks && SameVals(old(nodes[..]), nodes[..])
      invariant Indexed(t, nodes[..], num, at) && ExceptAt(t, ks, num, at) && FitsBelow(t, ks, num, at)
      invariant Nodes(t, num) == Nodes(t0, num) && SameOutside(t0, t, num)
      invariant ks[t0[1]] <= ks[node] ==> t[1] == t0[1]
    {
      var parent := at / 2;
      ghost var before := nodes[..];
      UpStep(t, ks, num, at);
      SwapKeeps(t, at, parent, num);
      PermutationInPool(Swap(t, at, parent));
      items[at] := items[parent];
      nodes[items[at]] := nodes[items[at]].(index := at);
      HoleMoves(t, before, nodes[..], num, at, parent);
      SameKeys(before, nodes[..], key);
      SameValsTrans(old(nodes[..]), before, nodes[..]);
      t := Swap(t, at, parent);
      at := parent;
    }
    ghost var before := nodes[..];
    assert at >= 2 ==> ks[t[at / 2]] <= ks[t[at]];
    Stops(t, ks, num, at);
    items[at] := node;
    assert items[..] == t;
    nodes[node] := nodes[node].(index := at);
    HoleCloses(t, before, nodes[..], num, at);
    SameKeys(before, nodes[..], key);
    SameValsTrans(old(nodes[..]), before, nodes[..]);
  }

  predicate InPool(t: Slots) { forall i | 0 <= i < |t| :: t[i] < |t| }

  lemma PermutationInPool(t: Slots)
    requires Permutation(t)
    ensures InPool(t)
  {
  }

  lemma Stops(t: Slots, ks: seq<int>, num: nat, at: nat)
    requires Sized(t, ks, num) && 1 <= at <= num && ExceptAt(t, ks, num, at) && FitsBelow(t, ks, num, at)
    requires at >= 2 ==> ks[t[at / 2]] <= ks[t[at]]
    ensures Ordered(t, ks, num)
  {
  }

  lemma IndexedSized<V>(t: Slots, nodes: seq<HeapItem<V>>, num: nat, hole: nat, ks: seq<int>)
    requires Indexed(t, nodes, num, hole) && |ks| == |nodes|
    ensures Sized(t, ks, num)
  {
  }

  lemma SameValsRefl<V>(a: seq<HeapItem<V>>)
    ensures SameVals(a, a)
  {
  }

  lemma SameValsTrans<V>(a: seq<HeapItem<V>>, b: seq<HeapItem<V>>, c: seq<HeapItem<V>>)
    requires SameVals(a, b) && SameVals(b, c)
    ensures SameVals(a, c)
  {
  }

  /** The node in slot `from` moves down while it is not smaller than its smaller child. */
  method SiftDown<V>(items: array<nat>, nodes: array<HeapItem<V>>, key: V -> int, num: nat, from: nat)
    requires 1 <= from <= num < items.Length == nodes.Length
    requires Indexed(items[..], nodes[..], num, from)
    requires ExceptAt(items[..], Keys(nodes[..], key), num, from) && FitsAbove(items[..], Keys(nodes[..], key), num, from)
    modifies items, nodes
    ensures Indexed(items[..], nodes[..], num, 0) && SameVals(old(nodes[..]), nodes[..])
    ensures Ordered(items[..], Keys(nodes[..], key), num)
    ensures Nodes(items[..], num) == Nodes(old(items[..]), num) && SameOutside(old(items[..]), items[..], num)
    ensures from > 1 ==> items[1] == old(items[1])
  {
    hide ExceptAt, FitsBelow, FitsAbove, Indexed, Nodes, Permutation, SameVals, Ordered;
    var pos, iter := from, from * 2;
    var node := items[from];
    ghost var t := items[..];
    ghost var t0 := t;
    ghost var ks := Keys(nodes[..], key);
    IndexedSized(t, nodes[..], num, from, ks);
    SameValsRefl(nodes[..]);
    PermutationInPool(t);
    while iter <= num
      invariant from <= pos <= num && iter == 2 * pos && t == items[..][pos := node] && t[pos] == node && |t| == items.Length
      invariant InPool(t) && forall i | 0 <= i < |t| && i != pos :: items[i] == t[i]
      invariant Sized(t, ks, num) && Keys(nodes[..], key) == ks && SameVals(old(nodes[..]), nodes[..])
      invariant Indexed(t, nodes[..], num, pos) && ExceptAt(t, ks, num, pos) && FitsAbove(t, ks, num, pos)
      invariant Nodes(t, num) == Nodes(t0, num) && SameOutside(t0, t, num)
      invariant from > 1 ==> t[1] == t0[1]
    {
      var min := Smaller(items, nodes, key, num, iter, t, ks);
      if key(nodes[node].val) < key(nodes[items[min]].val) {
        FitsHere(t, ks, num, pos, min);
        break;
      }
      ghost var before := nodes[..];
      DownStep(t, ks, num, pos, min);
      SwapKeeps(t, pos, min, num);
      PermutationInPool(Swap(t, pos, min));
      items[pos] := items[min];
      nodes[items[pos]] := nodes[items[pos]].(index := pos);
      HoleMoves(t, before, nodes[..], num, pos, min);
      SameKeys(before, nodes[..], key);
      SameValsTrans(old(nodes[..]), before, nodes[..]);
      t := Swap(t, pos, min);
      pos := min;
      iter := pos * 2;
    }
    if iter > num {
      NoChildren(t, ks, num, pos);
    }
    ghost var before := nodes[..];
    FitsIsOrdered(t, ks, num, pos);
    items[pos] := node;
    assert items[..] == t;
    nodes[node] := nodes[node].(index := pos);
    HoleCloses(t, before, nodes[..], num, pos);
    SameKeys(before, nodes[..], key);
    SameValsTrans(old(nodes[..]), before, nodes[..]);
  }

  /** The smaller child of slot `iter / 2`, the right one when they are equal. */
  method Smaller<V>(items: array<nat>, nodes: array<HeapItem<V>>, key: V -> int, num: nat, iter: nat,
                    ghost t: Slots, ghost ks: seq<int>) returns (min: nat)
    requires 2 <= iter <= num < items.Length == nodes.Length && iter % 2 == 0
    requires Sized(t, ks, num) && Keys(nodes[..], key) == ks && |t| == items.Length
    requires forall i | iter <= i <= num :: items[i] == t[i]
    ensures iter <= min <= num && min / 2 == iter / 2
    ensures forall d | 2 <= d <= num && d / 2 == iter / 2 :: Key(t, ks, min) <= Key(t, ks, d)
  {
    if iter == num || key(nodes[items[iter]].val) < key(nodes[items[iter + 1]].val) {
      min := iter;
    } else {
      min := iter + 1;
    }
    assert forall d | 2 <= d <= num && d / 2 == iter / 2 :: d == iter || d == iter + 1;
  }

  lemma FitsHere(t: Slots, ks: seq<int>, num: nat, pos: nat, min: nat)
    requires Sized(t, ks, num) && 1 <= pos && 2 <= min <= num && min / 2 == pos && Key(t, ks, pos) <= Key(t, ks, min)
    requires forall d | 2 <= d <= num && d / 2 == pos :: Key(t, ks, min) <= Key(t, ks, d)
    ensures FitsBelow(t, ks, num, pos)
  {
  }

  lemma NoChildren(t: Slots, ks: seq<int>, num: nat, pos: nat)
    requires Sized(t, ks, num) && 1 <= pos <= num < 2 * pos
    ensures FitsBelow(t, ks, num, pos)
  {
  }

  /** AdjustNode: the node in slot `index` finds its place; a slot outside the heap is left alone. */
  method AdjustNode<V>(items: array<nat>, nodes: array<HeapItem<V>>, key: V -> int, num: nat, index: nat)
    requires 1 <= index && num < items.Length == nodes.Length
    requires if index > num then Indexed(items[..], nodes[..], num, 0) && Ordered(items[..], Keys(nodes[..], key), num)
      else Indexed(items[..], nodes[..], num, index) && ExceptAt(items[..], Keys(nodes[..], key), num, index)
    modifies items, nodes
    ensures Indexed(items[..], nodes[..], num, 0) && SameVals(old(nodes[..]), nodes[..])
    ensures Ordered(items[..], Keys(nodes[..], key), num)
    ensures Nodes(items[..], num) == Nodes(old(items[..]), num) && SameOutside(old(items[..]), items[..], num)
    ensures (index > num >= 1 || (index > 1 && RootNotAbove(old(items[..]), Keys(old(nodes[..]), key), index)))
            ==> items[1] == old(items[1])
  {
    hide ExceptAt, FitsBelow, FitsAbove, Nodes, SameVals, Ordered;
    SameValsRefl(nodes[..]);
    if index > num {
      return;
    }
    var node := items[index];
    assert items[..][index := node] == items[..];
    ghost var ks := Keys(nodes[..], key);
    if index > 1 && key(nodes[node].val) < key(nodes[items[index / 2]].val) {
      BelowParent(items[..], ks, num, index);
      hide Indexed;
      SiftUp(items, nodes, key, num, node, index);
      SameKeys(old(nodes[..]), nodes[..], key);
    } else {
      NotAbove(items[..], ks, num, index);
      hide Indexed;
      SiftDown(items, nodes, key, num, index);
    }
  }

  /** The root's key is at most that of the node in slot `index`. */
  predicate RootNotAbove(t: Slots, ks: seq<int>, index: nat) {
    1 < |t| && index < |t| && t[1] < |ks| && t[index] < |ks| && ks[t[1]] <= ks[t[index]]
  }

  lemma BelowParent(t: Slots, ks: seq<int>, num: nat, index: nat)
    requires Sized(t, ks, num) && 2 <= index <= num && ExceptAt(t, ks, num, index) && Key(t, ks, index) < Key(t, ks, index / 2)
    ensures FitsBelow(t, ks, num, index)
  {
  }

  lemma NotAbove(t: Slots, ks: seq<int>, num: nat, index: nat)
    requires Sized(t, ks, num) && 1 <= index <= num && (index == 1 || Key(t, ks, index) >= Key(t, ks, index / 2))
    ensures FitsAbove(t, ks, num, index)
  {
  }
}
