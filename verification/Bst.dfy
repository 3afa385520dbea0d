/** The binary search tree of bst_func.c: nodes in one array, linked by index, the free ones chained
    through their `right` fields. Insert-only runs. */
module Bst {

  const MAX_NUM: nat := 100000

  /** `NODE` */
  datatype Cell = Cell(key: int, data: int, left: int, right: int, parent: int, depth: int)

  /** The tree that the links describe; `key` is the index of a node. */
  datatype Tree = Leaf | Node(left: Tree, key: nat, right: Tree)

  function Keys(t: Tree): (ks: set<nat>) {
    match t
    case Leaf => {}
    case Node(l, k, r) => Keys(l) + {k} + Keys(r)
  }

  function Height(t: Tree): (h: nat) {
    match t
    case Leaf => 0
    case Node(l, _, r) => 1 + if Height(l) < Height(r) then Height(r) else Height(l)
  }

  /** From index `i`, the links describe `t`, no node being reached twice; parents point back. */
  predicate Describes(ns: seq<Cell>, i: int, t: Tree, parent: int)
    decreases t
  {
    match t
    case Leaf => i == -1
    case Node(l, k, r) =>
      && i == k && k < |ns| && ns[k].key == k && ns[k].parent == parent
      && k !in Keys(l) && k !in Keys(r) && Keys(l) !! Keys(r)
      && Describes(ns, ns[k].left, l, k) && Describes(ns, ns[k].right, r, k)
  }

  /** All indices of `t` are in the array. */
  predicate Inside(ns: seq<Cell>, t: Tree)
    ensures Inside(ns, t) ==> forall k :: k in Keys(t) ==> k < |ns|
  {
    match t
    case Leaf => true
    case Node(l, k, r) => k < |ns| && Inside(ns, l) && Inside(ns, r)
  }

  function Values(ns: seq<Cell>, t: Tree): (vs: set<int>)
    requires Inside(ns, t)
  {
    match t
    case Leaf => {}
    case Node(l, k, r) => Values(ns, l) + {ns[k].data} + Values(ns, r)
  }

  /** The values are those of the nodes reached. */
  lemma {:induction false} ValuesAreData(ns: seq<Cell>, t: Tree, v: int)
    requires Inside(ns, t)
    ensures v in Values(ns, t) <==> exists k :: k in Keys(t) && ns[k].data == v
  {
    match t
    case Leaf =>
    case Node(l, k, r) =>
      ValuesAreData(ns, l, v);
      ValuesAreData(ns, r, v);
  }

  /** Strictly ordered by data. */
  predicate Ordered(ns: seq<Cell>, t: Tree)
    requires Inside(ns, t)
  {
    match t
    case Leaf => true
    case Node(l, k, r) =>
      && (forall v :: v in Values(ns, l) ==> v < ns[k].data)
      && (forall v :: v in Values(ns, r) ==> ns[k].data < v)
      && Ordered(ns, l) && Ordered(ns, r)
  }

  /** Every recorded depth is at least the true one, which starts at `d`, and at most `max`. */
  predicate DepthsCover(ns: seq<Cell>, t: Tree, d: int, max: int)
    requires Inside(ns, t)
  {
    match t
    case Leaf => true
    case Node(l, k, r) =>
      d <= ns[k].depth <= max && DepthsCover(ns, l, d + 1, max) && DepthsCover(ns, r, d + 1, max)
  }

  /** So no path is longer than the recorded depth of the tree allows. */
  lemma {:induction false} HeightBound(ns: seq<Cell>, t: Tree, d: int, max: int)
    requires Inside(ns, t) && DepthsCover(ns, t, d, max)
    ensures t.Node? ==> d + Height(t) <= max + 1
  {
    match t
    case Leaf =>
    case Node(l, k, r) =>
      HeightBound(ns, l, d + 1, max);
      HeightBound(ns, r, d + 1, max);
  }

  /** Where a search for `x` ends: at the node holding it, or at the node it would hang from. */
  function Target(ns: seq<Cell>, t: Tree, x: int): (k: nat)
    requires t.Node? && Inside(ns, t)
    ensures k in Keys(t)
  {
    if ns[t.key].data > x then if t.left.Leaf? then t.key else Target(ns, t.left, x)
    else if ns[t.key].data < x then if t.right.Leaf? then t.key else Target(ns, t.right, x)
    else t.key
  }

  /** The tree with a new leaf `n` for `x`. */
  function Grow(ns: seq<Cell>, t: Tree, x: int, n: nat): (r: Tree)
    requires Inside(ns, t)
    ensures x !in Values(ns, t) ==> Keys(r) == Keys(t) + {n}
  {
    match t
    case Leaf => Node(Leaf, n, Leaf)
    case Node(l, k, r) =>
      if ns[k].data > x then Node(Grow(ns, l, x, n), k, r)
      else if ns[k].data < x then Node(l, k, Grow(ns, r, x, n))
      else t
  }

  /** The search finds every value there is. */
  lemma {:induction false} TargetFinds(ns: seq<Cell>, t: Tree, x: int)
    requires t.Node? && Inside(ns, t) && Ordered(ns, t)
    ensures ns[Target(ns, t, x)].data == x <==> x in Values(ns, t)
  {
    if ns[t.key].data > x {
      if t.left.Node? {
        TargetFinds(ns, t.left, x);
      }
    } else if ns[t.key].data < x {
      if t.right.Node? {
        TargetFinds(ns, t.right, x);
      }
    }
  }

  // ---- one insertion ----

  lemma {:induction false} FrameOf(ns: seq<Cell>, ns': seq<Cell>, i: int, t: Tree, parent: int)
    requires |ns| == |ns'| && Inside(ns, t) && forall k :: k in Keys(t) ==> ns'[k] == ns[k]
    ensures Inside(ns', t)
    ensures Describes(ns, i, t, parent) ==> Describes(ns', i, t, parent)
    decreases t
  {
    match t
    case Leaf =>
    case Node(l, k, r) =>
      FrameOf(ns, ns', ns[k].left, l, k);
      FrameOf(ns, ns', ns[k].right, r, k);
  }

  lemma {:induction false} FrameDepths(ns: seq<Cell>, ns': seq<Cell>, t: Tree, d: int, max: int, max': int)
    requires |ns| == |ns'| && Inside(ns, t) && Inside(ns', t) && max <= max'
    requires forall k :: k in Keys(t) ==> ns'[k].depth == ns[k].depth
    ensures DepthsCover(ns, t, d, max) ==> DepthsCover(ns', t, d, max')
    decreases t
  {
    match t
    case Leaf =>
    case Node(l, k, r) =>
      FrameDepths(ns, ns', l, d + 1, max, max');
      FrameDepths(ns, ns', r, d + 1, max, max');
  }

  /** The side of the target that a new value goes to is free. */
  lemma {:induction false} TargetIsFree(ns: seq<Cell>, i: int, t: Tree, parent: int, x: int)
    requires t.Node? && Inside(ns, t) && Describes(ns, i, t, parent)
    ensures var p := ns[Target(ns, t, x)];
            (p.data > x ==> p.left == -1) && (p.data < x ==> p.right == -1)
    decreases t
  {
    var k := t.key;
    if ns[k].data > x {
      if t.left.Node? {
        TargetIsFree(ns, ns[k].left, t.left, k, x);
      }
    } else if ns[k].data < x {
      if t.right.Node? {
        TargetIsFree(ns, ns[k].right, t.right, k, x);
      }
    }
  }

  /** Growing the tree changes none of the indices but adds `n`. */
  lemma {:induction false} GrowKeys(ns: seq<Cell>, t: Tree, x: int, n: nat)
    requires Inside(ns, t) && n < |ns|
    ensures Keys(Grow(ns, t, x, n)) <= Keys(t) + {n}
    ensures Inside(ns, Grow(ns, t, x, n))
    ensures x !in Values(ns, t) ==> Keys(Grow(ns, t, x, n)) == Keys(t) + {n}
  {
    match t
    case Leaf =>
    case Node(l, k, r) =>
      GrowKeys(ns, l, x, n);
      GrowKeys(ns, r, x, n);
  }

  /** The links after the insertion describe the grown tree: no sharing, no cycle, parents right. */
  lemma {:induction false} HangDescribes(ns: seq<Cell>, i: int, t: Tree, parent: int, x: int, n: nat,
                                         ns': seq<Cell>, p: nat)
    requires t.Node? && Inside(ns, t) && n < |ns| == |ns'| && n !in Keys(t) && x !in Values(ns, t)
    requires Describes(ns, i, t, parent) && p == Target(ns, t, x)
    requires forall k :: k in Keys(t) && k != p ==> ns'[k] == ns[k]
    requires ns'[p] == if ns[p].data > x then ns[p].(left := n) else ns[p].(right := n)
    requires ns'[n].key == n && ns'[n].left == -1 && ns'[n].right == -1 && ns'[n].parent == p
    ensures Describes(ns', i, Grow(ns, t, x, n), parent)
    decreases t
  {
    var Node(l, k, r) := t;
    assert ns[k].data in Values(ns, t);
    if ns[k].data > x {
      GrowKeys(ns, l, x, n);
      FrameOf(ns, ns', ns[k].right, r, k);
      if l.Node? {
        HangDescribes(ns, ns[k].left, l, k, x, n, ns', p);
      }
    } else {
      GrowKeys(ns, r, x, n);
      FrameOf(ns, ns', ns[k].left, l, k);
      if r.Node? {
        HangDescribes(ns, ns[k].right, r, k, x, n, ns', p);
      }
    }
  }

  lemma {:induction false} SameOrder(ns: seq<Cell>, ns': seq<Cell>, t: Tree)
    requires |ns| == |ns'| && Inside(ns, t) && forall k :: k in Keys(t) ==> ns'[k].data == ns[k].data
    ensures Inside(ns', t) && (Ordered(ns, t) ==> Ordered(ns', t)) && Values(ns', t) == Values(ns, t)
  {
    match t
    case Leaf =>
    case Node(l, k, r) =>
      SameOrder(ns, ns', l);
      SameOrder(ns, ns', r);
  }

  /** The grown tree holds the new value and the old ones. */
  lemma {:induction false} GrowValues(ns: seq<Cell>, t: Tree, x: int, n: nat, ns': seq<Cell>)
    requires Inside(ns, t) && n < |ns| == |ns'| && n !in Keys(t)
    requires forall k :: k in Keys(t) ==> ns'[k].data == ns[k].data
    requires ns'[n].data == x
    ensures Inside(ns', Grow(ns, t, x, n))
    ensures Values(ns', Grow(ns, t, x, n)) == Values(ns, t) + {x}
  {
    match t
    case Leaf =>
    case Node(l, k, r) =>
      SameOrder(ns, ns', l);
      SameOrder(ns, ns', r);
      if ns[k].data > x {
        GrowValues(ns, l, x, n, ns');
      } else if ns[k].data < x {
        GrowValues(ns, r, x, n, ns');
      }
  }

  lemma OrderedParts(ns: seq<Cell>, t: Tree)
    requires t.Node? && Inside(ns, t) && Ordered(ns, t)
    ensures Ordered(ns, t.left) && Ordered(ns, t.right)
    ensures forall v :: v in Values(ns, t.left) ==> v < ns[t.key].data
    ensures forall v :: v in Values(ns, t.right) ==> ns[t.key].data < v
  {
  }

  lemma OrderedNode(ns: seq<Cell>, l: Tree, k: nat, r: Tree)
    requires Inside(ns, l) && Inside(ns, r) && Ordered(ns, l) && Ordered(ns, r) && k < |ns|
    requires forall v :: v in Values(ns, l) ==> v < ns[k].data
    requires forall v :: v in Values(ns, r) ==> ns[k].data < v
    ensures Inside(ns, Node(l, k, r)) && Ordered(ns, Node(l, k, r))
  {
  }

  /** The grown tree is still ordered. */
  lemma {:induction false} GrowOrdered(ns: seq<Cell>, t: Tree, x: int, n: nat, ns': seq<Cell>)
    requires Inside(ns, t) && n < |ns| == |ns'| && n !in Keys(t) && Ordered(ns, t)
    requires forall k :: k in Keys(t) ==> ns'[k].data == ns[k].data
    requires ns'[n].data == x
    ensures Inside(ns', Grow(ns, t, x, n)) && Ordered(ns', Grow(ns, t, x, n))
  {
    match t
    case Leaf =>
    case Node(l, k, r) =>
      OrderedParts(ns, t);
      hide Ordered, Values;
      SameOrder(ns, ns', l);
      SameOrder(ns, ns', r);
      if ns[k].data > x {
        GrowValues(ns, l, x, n, ns');
        GrowOrdered(ns, l, x, n, ns');
        OrderedNode(ns', Grow(ns, l, x, n), k, r);
      } else if ns[k].data < x {
        GrowValues(ns, r, x, n, ns');
        GrowOrdered(ns, r, x, n, ns');
        OrderedNode(ns', l, k, Grow(ns, r, x, n));
      } else {
        OrderedNode(ns', l, k, r);
      }
  }

  lemma {:induction false} InsideByKeys(ns: seq<Cell>, ns': seq<Cell>, t: Tree)
    requires |ns| == |ns'| && Inside(ns, t)
    ensures Inside(ns', t)
  {
    match t
    case Leaf =>
    case Node(l, k, r) =>
      InsideByKeys(ns, ns', l);
      InsideByKeys(ns, ns', r);
  }

  /** The depth rule of `bst_insert` keeps every recorded depth at least the true one. */
  lemma {:induction false} GrowDepths(ns: seq<Cell>, t: Tree, x: int, n: nat, ns': seq<Cell>,
                                      d: int, max: int, max': int)
    requires t.Node? && Inside(ns, t) && n < |ns| == |ns'| && n !in Keys(t) && x !in Values(ns, t)
    requires forall k :: k in Keys(t) ==> ns'[k].depth == ns[k].depth
    requires var q := ns[Target(ns, t, x)].depth;
             max' == (if q == max then q + 1 else max) && ns'[n].depth == max'
    requires DepthsCover(ns, t, d, max)
    ensures Inside(ns', Grow(ns, t, x, n)) && DepthsCover(ns', Grow(ns, t, x, n), d, max')
    decreases t
  {
    var Node(l, k, r) := t;
    assert ns[k].data != x;
    InsideByKeys(ns, ns', l);
    InsideByKeys(ns, ns', r);
    if ns[k].data > x {
      FrameDepths(ns, ns', r, d + 1, max, max');
      if l.Node? {
        GrowDepths(ns, l, x, n, ns', d + 1, max, max');
      }
    } else {
      FrameDepths(ns, ns', l, d + 1, max, max');
      if r.Node? {
        GrowDepths(ns, r, x, n, ns', d + 1, max, max');
      }
    }
  }

  // ---- the arena ----

  /** The first `n` nodes are in the tree, and no others. */
  ghost predicate Filled(t: Tree, n: nat) {
    forall k: nat :: k in Keys(t) <==> k < n
  }

  /** So the values of the tree stand in the first `n` nodes. */
  lemma FilledValues(ns: seq<Cell>, t: Tree, n: nat, v: int)
    requires Inside(ns, t) && Filled(t, n) && n <= |ns|
    ensures v in Values(ns, t) <==> exists k: nat :: k < n && ns[k].data == v
  {
    hide Values, Inside, Keys;
    ValuesAreData(ns, t, v);
  }

  /** The other nodes form the free chain. */
  ghost predicate FreeFrom(ns: seq<Cell>, n: nat) {
    forall k :: n <= k < |ns| ==> ns[k].left == -1 && ns[k].right == k + 1
  }

  /** Every node carries its own index as its key. */
  lemma {:induction false} KeysMatch(ns: seq<Cell>, i: int, t: Tree, parent: int, k: nat)
    requires Inside(ns, t) && Describes(ns, i, t, parent) && k in Keys(t)
    ensures ns[k].key == k
    decreases t
  {
    if k in Keys(t.left) {
      KeysMatch(ns, ns[t.key].left, t.left, t.key, k);
    } else if k in Keys(t.right) {
      KeysMatch(ns, ns[t.key].right, t.right, t.key, k);
    }
  }

  /** What the node to hang from is like. */
  lemma PivotFacts(ns: seq<Cell>, t: Tree, x: int, pivot: nat, n: nat)
    requires t.Node? && Inside(ns, t) && Describes(ns, 0, t, -1) && Ordered(ns, t) && Filled(t, n)
    requires x !in Values(ns, t) && pivot == Target(ns, t, x)
    ensures pivot in Keys(t) && pivot < n && pivot < |ns| && ns[pivot].key == pivot && ns[pivot].data != x
    ensures if ns[pivot].data > x then ns[pivot].left == -1 else ns[pivot].right == -1
  {
    hide Describes, Ordered, Values, Keys;
    TargetFinds(ns, t, x);
    TargetIsFree(ns, 0, t, -1, x);
    KeysMatch(ns, 0, t, -1, pivot);
  }

  /** All that an insertion keeps, in one place. */
  lemma Attached(ns: seq<Cell>, t: Tree, x: int, n: nat, ns': seq<Cell>, p: nat, max: int, max': int)
    requires t.Node? && Inside(ns, t) && n < |ns| == |ns'| && n !in Keys(t) && x !in Values(ns, t)
    requires Describes(ns, 0, t, -1) && Ordered(ns, t) && DepthsCover(ns, t, 0, max) && p == Target(ns, t, x)
    requires forall k :: 0 <= k < |ns| && k != n && k != p ==> ns'[k] == ns[k]
    requires Filled(t, n) && FreeFrom(ns, n)
    requires ns'[p] == if ns[p].data > x then ns[p].(left := n) else ns[p].(right := n)
    requires ns'[n] == Cell(n, x, -1, -1, p, max')
    requires max' == if ns[p].depth == max then max + 1 else max
    ensures var t' := Grow(ns, t, x, n);
            && Filled(t', n + 1) && FreeFrom(ns', n + 1) && Inside(ns', t') && Describes(ns', 0, t', -1)
            && Ordered(ns', t') && DepthsCover(ns', t', 0, max') && Values(ns', t') == Values(ns, t) + {x}
  {
    hide Grow, Describes, Ordered, DepthsCover, Values;
    HangDescribes(ns, 0, t, -1, x, n, ns', p);
    GrowKeys(ns, t, x, n);
    GrowValues(ns, t, x, n, ns');
    GrowOrdered(ns, t, x, n, ns');
    GrowDepths(ns, t, x, n, ns', 0, max, max');
  }

  /** Only the data on the way matters to where a tree grows. */
  lemma {:induction false} GrowSame(ns: seq<Cell>, ns': seq<Cell>, t: Tree, x: int, n: nat)
    requires |ns| == |ns'| && Inside(ns, t) && Inside(ns', t)
    requires forall k :: k in Keys(t) ==> ns'[k].data == ns[k].data
    ensures Grow(ns', t, x, n) == Grow(ns, t, x, n)
  {
    match t
    case Leaf =>
    case Node(l, k, r) =>
      GrowSame(ns, ns', l, x, n);
      GrowSame(ns, ns', r, x, n);
  }

  class Arena {
    var root: int
    var last: int
    var size: int
    var depth: int
    const list: array<Cell>

    /** The tree that has been built. */
    ghost var shape: Tree

    ghost predicate Valid()
      reads this, list
    {
      && list.Length == MAX_NUM && 0 <= size < MAX_NUM && last == size && root == 0
      && Filled(shape, size) && FreeFrom(list[..], size)
      && Inside(list[..], shape) && Describes(list[..], if size == 0 then -1 else 0, shape, -1)
      && Ordered(list[..], shape) && DepthsCover(list[..], shape, 0, depth)
      && (size == 0 ==> depth == -1 && list[0].parent == -1)
    }

    /** The values inserted so far. */
    ghost function Contents(): (vs: set<int>)
      requires Valid()
      reads this, list
    {
      Values(list[..], shape)
    }

    /** They are the data of the first `size` nodes of the array. */
    lemma InArray(v: int)
      requires Valid()
      ensures v in Contents() <==> exists k: nat :: k < size && list[k].data == v
    {
      hide Values, Inside, Filled;
      FilledValues(list[..], shape, size, v);
      assert forall k: nat :: k < size ==> list[..][k] == list[k];
    }

    /** `bst_init_tree` */
    constructor ()
      ensures Valid() && Contents() == {} && size == 0 && fresh(list)
    {
      list := new Cell[MAX_NUM](_ => Cell(0, 0, 0, 0, 0, 0));
      root, last, size, depth, shape := 0, 0, 0, -1, Leaf;
      new;
      var i := 0;
      while i < MAX_NUM
        modifies list
        invariant 0 <= i <= MAX_NUM
        invariant forall k :: 0 <= k < i ==> list[k] == Cell(-1, -1, -1, k + 1, k - 1, -1)
      {
        list[i] := Cell(-1, -1, -1, i + 1, i - 1, -1);
        i := i + 1;
      }
    }

    /** `seek_tree`: at most one more step than the recorded depth, -1 for the null result. On a tree that
        is not empty the steps never run out. */
    method Seek(x: int) returns (pivot: int)
      requires Valid()
      ensures if size == 0 then pivot == -1 else pivot == Target(list[..], shape, x)
    {
      ghost var ns := list[..];
      HeightBound(ns, shape, 0, depth);
      var cnt := depth + 1;
      pivot := root;
      ghost var t, parent := shape, -1;
      while cnt > 0
        invariant size > 0 ==> t.Node? && Inside(ns, t) && Describes(ns, pivot, t, parent) && Height(t) <= cnt
        invariant size > 0 ==> Target(ns, t, x) == Target(ns, shape, x)
        invariant size == 0 ==> cnt <= 0
      {
        if list[pivot].data > x {
          if list[pivot].left < 0 {
            return;
          }
          t, parent := t.left, pivot;
          pivot := list[pivot].left;
        } else if list[pivot].data < x {
          if list[pivot].right < 0 {
            return;
          }
          t, parent := t.right, pivot;
          pivot := list[pivot].right;
        } else {
          return;
        }
        cnt := cnt - 1;
      }
      pivot := -1;
    }

    /** The links, the recorded depth and the free chain. */
    method LinkUp(p: nat, pivot: nat)
      requires p < list.Length && pivot < list.Length && p != pivot && list[p].data != list[pivot].data
      modifies this`size, this`last, this`depth, list
      ensures size == old(size) + 1 && last == old(list[p].right)
      ensures depth == if old(list[pivot].depth) == old(depth) then old(depth) + 1 else old(depth)
      ensures list[p] == old(list[p]).(right := -1, parent := old(list[pivot].key), depth := depth)
      ensures list[pivot] == if old(list[pivot]).data > list[p].data then old(list[pivot]).(left := old(list[p].key))
                             else old(list[pivot]).(right := old(list[p].key))
      ensures forall k :: 0 <= k < list.Length && k != p && k != pivot ==> list[k] == old(list[k])
    {
      if list[pivot].data > list[p].data {
        list[pivot] := list[pivot].(left := list[p].key);
      } else {
        list[pivot] := list[pivot].(right := list[p].key);
      }
      if list[pivot].depth == depth {
        list[p] := list[p].(depth := list[pivot].depth + 1);
        depth := list[p].depth;
      } else {
        list[p] := list[p].(depth := depth);
      }
      list[p] := list[p].(parent := list[pivot].key);
      size := size + 1;
      last := list[p].right;
      list[p] := list[p].(right := -1);
    }

    /** Hangs the prepared node `p` under `pivot`. */
    method Attach(p: nat, pivot: nat, data: int)
      requires Valid() && 0 < size < MAX_NUM - 1 && p == last && list[p].key == p && list[p].data == data
      requires data !in Contents() && pivot == Target(list[..], shape, data)
      modifies this, list
      ensures Valid() && size == old(size) + 1 && shape == Grow(old(list[..]), old(shape), data, p)
      ensures Contents() == old(Contents()) + {data}
      ensures forall k :: 0 <= k <= p ==> list[k].data == old(list[k].data)
    {
      assert shape.Node?;
      hide Grow, Describes, Ordered, DepthsCover, Values, Inside, Target, Filled;
      ghost var ns, was, t := list[..], depth, shape;
      PivotFacts(ns, t, data, pivot, p);
      LinkUp(p, pivot);
      ghost var ns' := list[..];
      assert ns'[p] == Cell(p, data, -1, -1, pivot, depth);
      assert forall k :: 0 <= k < |ns| && k != p && k != pivot ==> ns'[k] == ns[k];
      Attached(ns, t, data, p, ns', pivot, was, depth);
      shape := Grow(ns, t, data, p);
    }

    /** Writing into the first free node does not disturb the tree. */
    lemma Touched(ns: seq<Cell>)
      requires |ns| == list.Length == MAX_NUM && 0 <= size < MAX_NUM && Inside(ns, shape)
      requires Filled(shape, size)
      requires forall k :: 0 <= k < MAX_NUM && k != size ==> list[k] == ns[k]
      requires Describes(ns, if size == 0 then -1 else 0, shape, -1) && Ordered(ns, shape)
      requires DepthsCover(ns, shape, 0, depth)
      ensures Inside(list[..], shape) && Describes(list[..], if size == 0 then -1 else 0, shape, -1)
      ensures Ordered(list[..], shape) && DepthsCover(list[..], shape, 0, depth)
      ensures Values(list[..], shape) == Values(ns, shape)
    {
      FrameOf(ns, list[..], if size == 0 then -1 else 0, shape, -1);
      SameOrder(ns, list[..], shape);
      FrameDepths(ns, list[..], shape, 0, depth, depth);
    }

    /** `bst_insert`: -1 when the arena is full, -2 for a value already there, else the new key. */
    method Insert(data: int) returns (key: int)
      requires Valid()
      modifies this, list
      ensures Valid()
      ensures old(size) >= MAX_NUM - 1 ==> key == -1 && unchanged(this) && unchanged(list)
      ensures old(size) < MAX_NUM - 1 && data in old(Contents()) ==>
                key == -2 && shape == old(shape) && size == old(size) && depth == old(depth)
                && (forall k :: 0 <= k < size ==> list[k] == old(list[k]))
      ensures old(size) < MAX_NUM - 1 && data !in old(Contents()) ==>
                key == old(size) && size == old(size) + 1
                && shape == Grow(old(list[..]), old(shape), data, key) && list[key].data == data
                && (forall k :: 0 <= k < key ==> list[k].data == old(list[k].data))
      ensures Contents() == if key < 0 then old(Contents()) else old(Contents()) + {data}
    {
      if size >= MAX_NUM - 1 {
        return -1;
      }
      ghost var ns, n := list[..], last;
      var p := last;
      list[p] := list[p].(data := data, key := p);
      Touched(ns);
      var pivot := Seek(data);
      if size != 0 {
        GrowSame(ns, list[..], shape, data, n);
        assert Contents() == old(Contents());
        TargetFinds(list[..], shape, data);
        if list[pivot].data == data {
          return -2;
        }
        Attach(p, pivot, data);
        key := p;
      } else {
        assert shape == Leaf && old(Contents()) == {};
        list[p] := list[p].(depth := 0);
        last := 0;
        depth := 0;
        size := size + 1;
        last := list[p].right;
        list[p] := list[p].(right := -1);
        shape := Node(Leaf, p, Leaf);
        key := p;
        assert Values(list[..], Leaf) == {} && Values(list[..], shape) == {data};
      }
    }
  }
}
