/** Binary heaps as sequences of node names: slot 0 is not in use, the live nodes are in slots
    1 to num, and `ks` gives the key of every node. */
module HeapOrder {

  type Slots = seq<nat>

  /** Every slot holds another node of the pool. */
  predicate Permutation(t: Slots) {
    (forall i | 0 <= i < |t| :: t[i] < |t|)
    && forall i, j | 0 <= i < j < |t| :: t[i] != t[j]
  }

  predicate Sized(t: Slots, ks: seq<int>, num: nat) {
    |ks| == |t| && num < |t| && Permutation(t)
  }

  function Key(t: Slots, ks: seq<int>, i: nat): int
    requires |ks| == |t| && i < |t| && Permutation(t)
  {
    ks[t[i]]
  }

  predicate Ordered(t: Slots, ks: seq<int>, num: nat)
    requires Sized(t, ks, num)
  {
    forall i | 2 <= i <= num :: Key(t, ks, i / 2) <= Key(t, ks, i)
  }

  /** Ordered but for slot `p`, whose children are not below its parent. */
  predicate ExceptAt(t: Slots, ks: seq<int>, num: nat, p: nat)
    requires Sized(t, ks, num) && 1 <= p <= num
  {
    (forall i | 2 <= i <= num && i != p && i / 2 != p :: Key(t, ks, i / 2) <= Key(t, ks, i))
    && (p >= 2 ==> forall c | 2 <= c <= num && c / 2 == p :: Key(t, ks, p / 2) <= Key(t, ks, c))
  }

  /** The node in slot `p` is not above its children; not below its parent. */
  predicate FitsBelow(t: Slots, ks: seq<int>, num: nat, p: nat)
    requires Sized(t, ks, num) && 1 <= p <= num
  {
    forall c | 2 <= c <= num && c / 2 == p :: Key(t, ks, p) <= Key(t, ks, c)
  }

  predicate FitsAbove(t: Slots, ks: seq<int>, num: nat, p: nat)
    requires Sized(t, ks, num) && 1 <= p <= num
  {
    p >= 2 ==> Key(t, ks, p / 2) <= Key(t, ks, p)
  }

  function Swap(t: Slots, i: nat, j: nat): (s: Slots)
    requires i < |t| && j < |t|
  {
    t[i := t[j]][j := t[i]]
  }

  function Nodes(t: Slots, num: nat): (ns: set<nat>)
    requires num < |t|
    ensures forall n :: n in ns <==> exists i :: 1 <= i <= num && t[i] == n
  {
    set i | 1 <= i <= num :: t[i]
  }

  lemma SwapKeeps(t: Slots, i: nat, j: nat, num: nat)
    requires Permutation(t) && num < |t| && 1 <= i <= num && 1 <= j <= num && i != j
    ensures Permutation(Swap(t, i, j)) && Nodes(Swap(t, i, j), num) == Nodes(t, num)
  {
    var s := Swap(t, i, j);
    forall n | n in Nodes(t, num) ensures n in Nodes(s, num) {
      var x :| 1 <= x <= num && t[x] == n;
      assert s[if x == i then j else if x == j then i else x] == n;
    }
    forall n | n in Nodes(s, num) ensures n in Nodes(t, num) {
      var x :| 1 <= x <= num && s[x] == n;
      assert t[if x == i then j else if x == j then i else x] == n;
    }
  }

  lemma FitsIsOrdered(t: Slots, ks: seq<int>, num: nat, p: nat)
    requires Sized(t, ks, num) && 1 <= p <= num && ExceptAt(t, ks, num, p)
    requires FitsBelow(t, ks, num, p) && FitsAbove(t, ks, num, p)
    ensures Ordered(t, ks, num)
  {
  }

  function Other(x: nat, i: nat, j: nat): nat { if x == i then j else if x == j then i else x }

  lemma SwapKeys(t: Slots, ks: seq<int>, i: nat, j: nat, num: nat)
    requires Sized(t, ks, num) && 1 <= i <= num && 1 <= j <= num && i != j
    ensures Sized(Swap(t, i, j), ks, num)
    ensures forall x | 0 <= x < |t| :: Key(Swap(t, i, j), ks, x) == Key(t, ks, Other(x, i, j))
  {
    SwapKeeps(t, i, j, num);
  }

  /** A node smaller than its parent changes places with it. */
  lemma UpStep(t: Slots, ks: seq<int>, num: nat, p: nat)
    requires Sized(t, ks, num) && 2 <= p <= num && ExceptAt(t, ks, num, p) && FitsBelow(t, ks, num, p)
    requires Key(t, ks, p) < Key(t, ks, p / 2)
    ensures var s := Swap(t, p, p / 2);
      Sized(s, ks, num) && ExceptAt(s, ks, num, p / 2) && FitsBelow(s, ks, num, p / 2)
  {
    hide Key, Swap, Permutation;
    var q, s := p / 2, Swap(t, p, p / 2);
    SwapKeys(t, ks, p, q, num);
    forall i | 2 <= i <= num && i != q && i / 2 != q ensures Key(s, ks, i / 2) <= Key(s, ks, i) {
      assert i != p;
      assert Key(s, ks, i) == Key(t, ks, i);
      if i / 2 == p {
        assert Key(s, ks, p) == Key(t, ks, q);
      } else {
        assert Key(s, ks, i / 2) == Key(t, ks, i / 2);
      }
    }
    if q >= 2 {
      assert Key(t, ks, q / 2) <= Key(t, ks, q);
    }
  }

  /** A node not smaller than its smallest child changes places with it. */
  lemma DownStep(t: Slots, ks: seq<int>, num: nat, p: nat, c: nat)
    requires Sized(t, ks, num) && 1 <= p <= num && ExceptAt(t, ks, num, p) && FitsAbove(t, ks, num, p)
    requires 2 <= c <= num && c / 2 == p && Key(t, ks, c) <= Key(t, ks, p)
    requires forall d | 2 <= d <= num && d / 2 == p :: Key(t, ks, c) <= Key(t, ks, d)
    ensures var s := Swap(t, p, c);
      Sized(s, ks, num) && ExceptAt(s, ks, num, c) && FitsAbove(s, ks, num, c)
  {
    hide Key, Swap, Permutation;
    SwapKeys(t, ks, p, c, num);
  }

  /** The root of an ordered heap is a minimum. */
  lemma {:induction false} RootIsLeast(t: Slots, ks: seq<int>, num: nat, i: nat)
    requires Sized(t, ks, num) && Ordered(t, ks, num) && 1 <= i <= num
    ensures Key(t, ks, 1) <= Key(t, ks, i)
    decreases i
  {
    if i > 1 {
      RootIsLeast(t, ks, num, i / 2);
    }
  }
}
