/** The binary search tree of btree.c, as nodes linked in the heap.  A node is deleted by cutting off its subtree and
    inserting its right and then its left child again, each with everything below it, by its own key. */
module BTree {
  import opened Common

  class Node<D> {
    var key: nat
    var data: D
    var left: Node?<D>
    var parent: Node?<D>
    var right: Node?<D>

    constructor (key: nat, data: D)
      ensures this.key == key && this.data == data && left == null && parent == null && right == null
    {
      this.key, this.data := key, data;
      left, parent, right := null, null, null;
    }
  }

  /** The shape of a linked tree: which node is where, and what it holds. */
  datatype Tree<D> = Leaf | Bin(left: Tree<D>, node: Node<D>, key: nat, data: D, right: Tree<D>)

  function Root<D>(t: Tree<D>): Node?<D> {
    if t.Leaf? then null else t.node
  }

  ghost function Nodes<D>(t: Tree<D>): set<Node<D>> {
    if t.Leaf? then {} else Nodes(t.left) + {t.node} + Nodes(t.right)
  }

  function Keys<D>(t: Tree<D>): set<nat> {
    if t.Leaf? then {} else Keys(t.left) + {t.key} + Keys(t.right)
  }

  ghost function Entries<D>(t: Tree<D>): map<nat, D> {
    if t.Leaf? then map[] else (Entries(t.left) + Entries(t.right))[t.key := t.data]
  }

  ghost function Pairs<D>(t: Tree<D>): iset<(nat, D)> {
    if t.Leaf? then iset{} else Pairs(t.left) + iset{(t.key, t.data)} + Pairs(t.right)
  }

  function Size<D>(t: Tree<D>): nat {
    if t.Leaf? then 0 else Size(t.left) + 1 + Size(t.right)
  }

  /** The fields of a node, and of a set of nodes at some moment. */
  datatype Cell<D> = Cell(key: nat, data: D, left: Node?<D>, parent: Node?<D>, right: Node?<D>)

  type Heap<!D> = map<Node<D>, Cell<D>>

  /** The nodes hold these fields now. */
  ghost predicate Current<D>(h: Heap<D>)
    reads h.Keys
  {
    forall n :: n in h ==> Kept(n, h[n])
  }

  ghost predicate Kept<D>(n: Node<D>, c: Cell<D>)
    reads n
  {
    c == Cell(n.key, n.data, n.left, n.parent, n.right)
  }

  /** Every node of the tree points where the shape says, and its root points back at `parent`. */
  ghost predicate Linked<D>(h: Heap<D>, t: Tree<D>, parent: Node?<D>) {
    t.Bin? ==>
      && t.node in h && h[t.node] == Cell(t.key, t.data, Root(t.left), parent, Root(t.right))
      && Linked(h, t.left, t.node) && Linked(h, t.right, t.node)
  }

  ghost predicate Ordered<D>(t: Tree<D>) {
    t.Bin? ==>
      && (forall k :: k in Keys(t.left) ==> k < t.key) && (forall k :: k in Keys(t.right) ==> t.key < k)
      && Ordered(t.left) && Ordered(t.right)
  }

  /** No node occurs twice. */
  ghost predicate Distinct<D>(t: Tree<D>) {
    t.Bin? ==>
      && t.node !in Nodes(t.left) && t.node !in Nodes(t.right) && Nodes(t.left) !! Nodes(t.right)
      && Distinct(t.left) && Distinct(t.right)
  }

  lemma {:induction false} KeyOfNode<D>(h: Heap<D>, t: Tree<D>, p: Node?<D>, n: Node<D>)
    requires Linked(h, t, p) && n in Nodes(t)
    ensures n in h && h[n].key in Keys(t)
  {
    if n in Nodes(t.left) {
      KeyOfNode(h, t.left, t.node, n);
    } else if n in Nodes(t.right) {
      KeyOfNode(h, t.right, t.node, n);
    }
  }

  /** Search order alone keeps nodes apart. */
  lemma {:induction false} OrderedIsDistinct<D>(h: Heap<D>, t: Tree<D>, p: Node?<D>)
    requires Linked(h, t, p) && Ordered(t)
    ensures Distinct(t)
  {
    if t.Leaf? {
    } else {
      OrderedIsDistinct(h, t.left, t.node);
      OrderedIsDistinct(h, t.right, t.node);
      forall n | n in Nodes(t.left) ensures n in h && h[n].key in Keys(t.left) {
        KeyOfNode(h, t.left, t.node, n);
      }
      forall n | n in Nodes(t.right) ensures n in h && h[n].key in Keys(t.right) {
        KeyOfNode(h, t.right, t.node, n);
      }
    }
  }

  lemma {:induction false} EntriesKeys<D>(t: Tree<D>)
    ensures Entries(t).Keys == Keys(t)
  {
    if t.Leaf? {
    } else {
      EntriesKeys(t.left);
      EntriesKeys(t.right);
    }
  }

  /** In search order a key has one datum, the one `Entries` gives. */
  lemma {:induction false} PairIsEntry<D>(t: Tree<D>, k: nat, d: D)
    requires Ordered(t)
    ensures (k, d) in Pairs(t) <==> k in Entries(t) && Entries(t)[k] == d
  {
    if t.Leaf? {
    } else {
      PairIsEntry(t.left, k, d);
      PairIsEntry(t.right, k, d);
      EntriesKeys(t.left);
      EntriesKeys(t.right);
    }
  }

  // ---------- inserting a whole subtree ----------

  /** `u` put where its root key belongs in `t`. */
  function Graft<D>(t: Tree<D>, u: Tree<D>): Tree<D>
    requires u.Bin?
  {
    if t.Leaf? then u
    else if u.key < t.key then t.(left := Graft(t.left, u))
    else if u.key > t.key then t.(right := Graft(t.right, u))
    else t
  }

  /** The last node on the way down to key `k`. */
  function Slot<D>(t: Tree<D>, k: nat): Node<D>
    requires t.Bin?
  {
    if k < t.key && t.left.Bin? then Slot(t.left, k)
    else if k > t.key && t.right.Bin? then Slot(t.right, k)
    else t.node
  }

  /** `x` is above all keys of `u`, or below all of them. */
  ghost predicate Beside<D>(x: nat, u: Tree<D>) {
    (forall k :: k in Keys(u) ==> k < x) || (forall k :: k in Keys(u) ==> x < k)
  }

  ghost predicate Apart<D>(t: Tree<D>, u: Tree<D>) {
    forall x :: x in Keys(t) ==> Beside(x, u)
  }

  /** Nothing is lost in placing `u`. */
  lemma {:induction false} GraftParts<D>(t: Tree<D>, u: Tree<D>)
    requires u.Bin? && u.key !in Keys(t)
    ensures Keys(Graft(t, u)) == Keys(t) + Keys(u) && Size(Graft(t, u)) == Size(t) + Size(u)
    ensures Nodes(Graft(t, u)) == Nodes(t) + Nodes(u) && Pairs(Graft(t, u)) == Pairs(t) + Pairs(u)
  {
    if t.Leaf? {
    } else {
      GraftParts(if u.key < t.key then t.left else t.right, u);
    }
  }

  /** Placing `u` by its root key alone keeps search order, for `u` as a whole. */
  lemma {:induction false} GraftKeepsOrder<D>(t: Tree<D>, u: Tree<D>)
    requires Ordered(t) && Ordered(u) && u.Bin? && Apart(t, u)
    ensures u.key !in Keys(t) && Ordered(Graft(t, u))
  {
    assert u.key in Keys(u);
    if t.Bin? {
      var c := if u.key < t.key then t.left else t.right;
      assert t.key in Keys(t) && Apart(c, u);
      GraftKeepsOrder(c, u);
      GraftParts(c, u);
    }
  }

  lemma {:induction false} SlotIsNode<D>(t: Tree<D>, k: nat)
    requires t.Bin?
    ensures Slot(t, k) in Nodes(t)
  {
    if k < t.key && t.left.Bin? {
      SlotIsNode(t.left, k);
    } else if k > t.key && t.right.Bin? {
      SlotIsNode(t.right, k);
    }
  }

  /** The two moments agree on the nodes `ns`. */
  ghost predicate Agree<D>(h: Heap<D>, h': Heap<D>, ns: set<Node<D>>) {
    forall n :: n in ns && n in h ==> n in h' && h'[n] == h[n]
  }

  /** Links survive as long as the nodes do not change. */
  lemma {:induction false} LinkedStays<D>(h: Heap<D>, h': Heap<D>, t: Tree<D>, p: Node?<D>)
    requires Linked(h, t, p) && Agree(h, h', Nodes(t))
    ensures Linked(h', t, p)
  {
    if t.Leaf? {
    } else {
      LinkedStays(h, h', t.left, t.node);
      LinkedStays(h, h', t.right, t.node);
    }
  }

  /** The cell of `n` with the child for key `k` replaced. */
  function WithChild<D>(c: Cell<D>, k: nat, v: Node?<D>): Cell<D> {
    if k < c.key then c.(left := v) else c.(right := v)
  }

  /** Hanging `u` into its slot, and changing nothing else in `t`, links the grafted tree. */
  lemma {:induction false} GraftLinks<D>(h: Heap<D>, h': Heap<D>, t: Tree<D>, p: Node?<D>, u: Tree<D>)
    requires t.Bin? && Linked(h, t, p) && Distinct(t) && u.Bin? && u.key !in Keys(t)
    requires Linked(h', u, Slot(t, u.key)) && Agree(h, h', Nodes(t) - {Slot(t, u.key)})
    requires Slot(t, u.key) in h && Slot(t, u.key) in h'
    requires h'[Slot(t, u.key)] == WithChild(h[Slot(t, u.key)], u.key, u.node)
    ensures Linked(h', Graft(t, u), p)
  {
    SlotIsNode(t, u.key);
    if u.key < t.key {
      if t.left.Bin? {
        SlotIsNode(t.left, u.key);
        GraftLinks(h, h', t.left, t.node, u);
      }
      LinkedStays(h, h', t.right, t.node);
    } else {
      if t.right.Bin? {
        SlotIsNode(t.right, u.key);
        GraftLinks(h, h', t.right, t.node, u);
      }
      LinkedStays(h, h', t.left, t.node);
    }
  }

  // ---------- cutting off a subtree ----------

  /** The subtree whose root has key `k`, or nothing. */
  function Sub<D>(t: Tree<D>, k: nat): Tree<D> {
    if t.Leaf? || k == t.key then t else if k < t.key then Sub(t.left, k) else Sub(t.right, k)
  }

  /** `t` without that subtree. */
  function Prune<D>(t: Tree<D>, k: nat): Tree<D> {
    if t.Leaf? || k == t.key then Leaf
    else if k < t.key then t.(left := Prune(t.left, k))
    else t.(right := Prune(t.right, k))
  }

  /** Walking down by the key finds it exactly when it is there. */
  lemma {:induction false} SubFinds<D>(t: Tree<D>, k: nat)
    requires Ordered(t)
    ensures Sub(t, k).Bin? <==> k in Keys(t)
    ensures Sub(t, k).Bin? ==> Sub(t, k).key == k && (k, Sub(t, k).data) in Pairs(t)
  {
    if t.Leaf? {
    } else {
      SubFinds(t.left, k);
      SubFinds(t.right, k);
    }
  }

  /** Nothing is lost between the two parts. */
  lemma {:induction false} SubParts<D>(t: Tree<D>, k: nat)
    ensures Size(t) == Size(Prune(t, k)) + Size(Sub(t, k))
    ensures Keys(t) == Keys(Prune(t, k)) + Keys(Sub(t, k))
    ensures Pairs(t) == Pairs(Prune(t, k)) + Pairs(Sub(t, k))
    ensures Nodes(t) == Nodes(Prune(t, k)) + Nodes(Sub(t, k))
  {
    if t.Bin? && k < t.key {
      SubParts(t.left, k);
    } else if t.Bin? && k > t.key {
      SubParts(t.right, k);
    }
  }

  lemma {:induction false} SubOrdered<D>(t: Tree<D>, k: nat)
    requires Ordered(t)
    ensures Ordered(Sub(t, k)) && Ordered(Prune(t, k))
  {
    if t.Bin? && k < t.key {
      SubOrdered(t.left, k);
      SubParts(t.left, k);
    } else if t.Bin? && k > t.key {
      SubOrdered(t.right, k);
      SubParts(t.right, k);
    }
  }

  /** The subtree has its place between two of the keys that remain. */
  lemma {:induction false} SubApart<D>(t: Tree<D>, k: nat)
    requires Ordered(t)
    ensures Apart(Prune(t, k), Sub(t, k))
  {
    if t.Bin? && k != t.key {
      var c, d := if k < t.key then t.left else t.right, if k < t.key then t.right else t.left;
      SubApart(c, k);
      SubParts(c, k);
      assert Keys(Prune(t, k)) == Keys(Prune(c, k)) + {t.key} + Keys(d);
      var ks := Keys(Sub(c, k));
      assert forall y :: y in ks ==> if k < t.key then y < t.key else t.key < y;
      forall x | x in Keys(Prune(t, k)) && x !in Keys(Prune(c, k)) ensures Beside(x, Sub(c, k)) {
        assert if k < t.key then t.key <= x else x <= t.key;
      }
    }
  }

  lemma {:induction false} SubDistinct<D>(t: Tree<D>, k: nat)
    requires Distinct(t)
    ensures Distinct(Sub(t, k)) && Distinct(Prune(t, k)) && Nodes(Prune(t, k)) !! Nodes(Sub(t, k))
  {
    SubParts(t, k);
    if t.Bin? && k < t.key {
      SubDistinct(t.left, k);
      SubParts(t.left, k);
    } else if t.Bin? && k > t.key {
      SubDistinct(t.right, k);
      SubParts(t.right, k);
    }
  }

  /** The subtree hangs below a node of the rest, on the side of its key alone, unless it is the whole tree. */
  lemma {:induction false} SubLinked<D>(h: Heap<D>, t: Tree<D>, p: Node?<D>, k: nat) returns (q: Node?<D>)
    requires t.Bin? && Sub(t, k).Bin? && Distinct(t) && Linked(h, t, p)
    ensures Linked(h, Sub(t, k), q)
    ensures k == t.key ==> q == p
    ensures k != t.key ==> q != null && q in Nodes(Prune(t, k)) && q in h && HangsOn(h[q], k, Sub(t, k).node)
  {
    if k == t.key {
      q := p;
    } else {
      q := SubLinked(h, if k < t.key then t.left else t.right, t.node, k);
    }
  }

  ghost predicate HangsOn<D>(c: Cell<D>, k: nat, node: Node<D>) {
    if k < c.key then c.left == node && c.right != node else c.right == node && c.key != k
  }

  /** Cutting the link to the subtree, and changing nothing else in the rest, links the rest. */
  lemma {:induction false} PruneLinks<D>(h: Heap<D>, h': Heap<D>, t: Tree<D>, p: Node?<D>, k: nat, q: Node<D>)
    requires t.Bin? && k != t.key && Sub(t, k).Bin? && Distinct(t) && Linked(h, t, p)
    requires Linked(h, Sub(t, k), q) && q in Nodes(Prune(t, k)) && q in h && q in h'
    requires Agree(h, h', Nodes(Prune(t, k)) - {q}) && h'[q] == WithChild(h[q], k, null)
    ensures Linked(h', Prune(t, k), p)
  {
    var c := if k < t.key then t.left else t.right;
    SubParts(c, k);
    if c.key != k {
      var r := SubLinked(h, c, t.node, k);
      PruneLinks(h, h', c, t.node, k, q);
    }
    LinkedStays(h, h', if k < t.key then t.right else t.left, t.node);
  }

  /** A subtree under a new parent. */
  lemma Reparented<D>(h: Heap<D>, h': Heap<D>, u: Tree<D>, p: Node?<D>, q: Node?<D>)
    requires u.Bin? && Linked(h, u, p) && Distinct(u) && Agree(h, h', Nodes(u) - {u.node})
    requires u.node in h' && h'[u.node] == h[u.node].(parent := q)
    ensures Linked(h', u, q)
  {
  }

  /** The heap after `node` is hung under `slot`. */
  ghost function Wired<D>(h: Heap<D>, slot: Node<D>, node: Node<D>): Heap<D>
    requires slot in h && node in h
  {
    h[node := h[node].(parent := slot)][slot := WithChild(h[slot], h[node].key, node)]
  }

  /** Hanging `u` under its slot links the grafted tree. */
  lemma HangLinks<D>(h: Heap<D>, t: Tree<D>, u: Tree<D>, p: Node?<D>, slot: Node<D>)
    requires t.Bin? && u.Bin? && Apart(t, u) && Ordered(t) && Ordered(u) && Nodes(t) !! Nodes(u)
    requires Linked(h, t, null) && Linked(h, u, p) && slot == Slot(t, u.key)
    ensures slot in Nodes(t) && slot in h && h[slot].key != u.key
    ensures Linked(Wired(h, slot, u.node), Graft(t, u), null)
  {
    assert u.key in Keys(u);
    SlotIsNode(t, u.key);
    KeyOfNode(h, t, null, slot);
    OrderedIsDistinct(h, t, null);
    OrderedIsDistinct(h, u, p);
    var h' := Wired(h, slot, u.node);
    Reparented(h, h', u, p, slot);
    GraftLinks(h, h', t, null, u);
  }

  /** The nodes of a tree in search order, and no others, hold it. */
  ghost predicate Holds<D>(h: Heap<D>, t: Tree<D>, p: Node?<D>) {
    Ordered(t) && h.Keys == Nodes(t) && Linked(h, t, p)
  }

  lemma HangHolds<D>(cells: Heap<D>, us: Heap<D>, t: Tree<D>, u: Tree<D>, p: Node?<D>, slot: Node<D>)
    requires t.Bin? && u.Bin? && Apart(t, u) && cells.Keys !! us.Keys && slot == Slot(t, u.key)
    requires Holds(cells, t, null) && Holds(us, u, p)
    ensures slot in cells && u.node in us && cells[slot].key != u.key && us[u.node].key == u.key
    ensures Holds(Wired(cells + us, slot, u.node), Graft(t, u), null)
  {
    var h := cells + us;
    LinkedStays(cells, h, t, null);
    LinkedStays(us, h, u, p);
    HangLinks(h, t, u, p, slot);
    GraftKeepsOrder(t, u);
    GraftParts(t, u);
  }

  lemma UnhookHolds<D>(us: Heap<D>, u: Tree<D>, p: Node?<D>)
    requires u.Bin? && Holds(us, u, p)
    ensures u.node in us && Holds(us[u.node := us[u.node].(parent := null)], u, null)
  {
    OrderedIsDistinct(us, u, p);
    Reparented(us, us[u.node := us[u.node].(parent := null)], u, p, null);
  }

  ghost function Restrict<D>(h: Heap<D>, ns: set<Node<D>>): (r: Heap<D>)
    ensures r.Keys == h.Keys * ns && forall n :: n in r ==> r[n] == h[n]
  {
    map n | n in h && n in ns :: h[n]
  }

  /** A part of a linked tree, held by the nodes of that part. */
  lemma PartLinked<D>(h: Heap<D>, t: Tree<D>, p: Node?<D>)
    requires Linked(h, t, p)
    ensures Linked(Restrict(h, Nodes(t)), t, p) && Restrict(h, Nodes(t)).Keys == Nodes(t)
  {
    LinkedNodes(h, t, p);
    LinkedStays(h, Restrict(h, Nodes(t)), t, p);
  }

  lemma {:induction false} LinkedNodes<D>(h: Heap<D>, t: Tree<D>, p: Node?<D>)
    requires Linked(h, t, p)
    ensures Nodes(t) <= h.Keys
  {
    if t.Leaf? {
    } else {
      LinkedNodes(h, t.left, t.node);
      LinkedNodes(h, t.right, t.node);
    }
  }

  /** The heap once the link from `q` to the subtree at `k` is gone. */
  ghost function CutHeap<D>(h: Heap<D>, k: nat, q: Node?<D>): (r: Heap<D>) {
    if q != null && q in h then h[q := WithChild(h[q], k, null)] else h
  }

  /** Cutting the link to the subtree links the rest, held by the nodes of the rest. */
  lemma CutLinks<D>(h: Heap<D>, t: Tree<D>, k: nat) returns (q: Node?<D>)
    requires t.Bin? && Sub(t, k).Bin? && Ordered(t) && Linked(h, t, null)
    ensures Linked(h, Sub(t, k), q) && (k == t.key <==> q == null)
    ensures q != null ==> q in Nodes(Prune(t, k)) && q in h && HangsOn(h[q], k, Sub(t, k).node)
    ensures Linked(CutHeap(h, k, q), Prune(t, k), null)
  {
    OrderedIsDistinct(h, t, null);
    SubParts(t, k);
    q := SubLinked(h, t, null, k);
    if k != t.key {
      PruneLinks(h, CutHeap(h, k, q), t, null, k, q);
    }
  }

  /** The rest and what is below the cut node, each held by nodes of its own. */
  lemma CutShaped<D>(h: Heap<D>, t: Tree<D>, k: nat) returns (q: Node?<D>)
    requires t.Bin? && Sub(t, k).Bin? && Holds(h, t, null)
    ensures Linked(h, Sub(t, k), q) && (Sub(t, k).node == t.node <==> q == null)
    ensures q != null ==> q in h && q != Sub(t, k).node && HangsOn(h[q], k, Sub(t, k).node)
    ensures Severed(CutHeap(h, k, q) - {Sub(t, k).node}, Sub(t, k), Prune(t, k))
  {
    q := CutLinks(h, t, k);
    OrderedIsDistinct(h, t, null);
    SubDistinct(t, k);
    SubOrdered(t, k);
    SubParts(t, k);
    CutApart(h, Sub(t, k), Prune(t, k), k, q);
  }

  lemma CutPart<D>(h: Heap<D>, k: nat, q: Node?<D>, node: Node<D>, t: Tree<D>, p: Node?<D>)
    requires node !in Nodes(t) && (q == null || q !in Nodes(t)) && Ordered(t) && Linked(h, t, p)
    ensures Holds(Restrict(CutHeap(h, k, q) - {node}, Nodes(t)), t, p)
  {
    LinkedStays(h, CutHeap(h, k, q) - {node}, t, p);
    PartLinked(CutHeap(h, k, q) - {node}, t, p);
  }

  lemma CutApart<D>(h: Heap<D>, s: Tree<D>, rest: Tree<D>, k: nat, q: Node?<D>)
    requires s.Bin? && Ordered(rest) && Ordered(s) && Distinct(s) && Nodes(rest) !! Nodes(s)
    requires Linked(h, s, q) && Linked(CutHeap(h, k, q), rest, null) && (q != null ==> q in Nodes(rest))
    ensures Severed(CutHeap(h, k, q) - {s.node}, s, rest)
  {
    CutPart(CutHeap(h, k, q), k, null, s.node, rest, null);
    CutPart(h, k, q, s.node, s.left, s.node);
    CutPart(h, k, q, s.node, s.right, s.node);
  }

  /** The parts of the heap that hold the rest and the two subtrees below the node cut out, apart from each other. */
  ghost predicate Severed<D>(h: Heap<D>, s: Tree<D>, rest: Tree<D>)
    requires s.Bin?
  {
    var held := Holds(Restrict(h, Nodes(rest)), rest, null);
    var below :=
      && Holds(Restrict(h, Nodes(s.left)), s.left, s.node)
      && Holds(Restrict(h, Nodes(s.right)), s.right, s.node);
    && held && below
    && Nodes(rest) !! Nodes(s.left) && Nodes(rest) !! Nodes(s.right) && Nodes(s.left) !! Nodes(s.right)
  }

  // ---------- deleting a key ----------

  function GraftAny<D>(t: Tree<D>, u: Tree<D>): Tree<D> {
    if u.Bin? then Graft(t, u) else t
  }

  /** What deletion leaves: the tree without the subtree at `k`, then its right child, then its left child. */
  function Deleted<D>(t: Tree<D>, k: nat): Tree<D> {
    var s := Sub(t, k);
    if s.Leaf? then t else GraftAny(GraftAny(Prune(t, k), s.right), s.left)
  }

  lemma SubtreesApart<D>(t: Tree<D>, s: Tree<D>)
    requires Apart(t, s) && s.Bin?
    ensures Apart(t, s.left) && Apart(t, s.right) && s.key !in Keys(t)
  {
    assert s.key in Keys(s);
    forall x | x in Keys(t) ensures Beside(x, s.right) && Beside(x, s.left) {
      assert Beside(x, s);
    }
  }

  /** Putting a subtree back keeps what was there and adds what it holds. */
  lemma GraftAnyKeeps<D>(t: Tree<D>, u: Tree<D>)
    requires Ordered(t) && Ordered(u) && Apart(t, u)
    ensures Ordered(GraftAny(t, u)) && Keys(GraftAny(t, u)) == Keys(t) + Keys(u)
    ensures Size(GraftAny(t, u)) == Size(t) + Size(u)
    ensures Nodes(GraftAny(t, u)) == Nodes(t) + Nodes(u) && Pairs(GraftAny(t, u)) == Pairs(t) + Pairs(u)
  {
    if u.Bin? {
      GraftKeepsOrder(t, u);
      GraftParts(t, u);
    }
  }

  /** After the right child is back in place, the left child still fits as a whole. */
  lemma LeftStillFits<D>(t: Tree<D>, s: Tree<D>)
    requires Ordered(t) && Ordered(s) && s.Bin? && Apart(t, s)
    ensures Apart(t, s.right) && Ordered(GraftAny(t, s.right)) && Apart(GraftAny(t, s.right), s.left)
  {
    SubtreesApart(t, s);
    GraftAnyKeeps(t, s.right);
    forall x | x in Keys(s.right) ensures Beside(x, s.left) {
      assert s.key < x;
    }
  }

  /** A key only the larger tree has. */
  lemma PairMore<D>(t: Tree<D>, t': Tree<D>, k: nat, d: D, x: nat)
    requires Ordered(t) && Ordered(t') && k !in Keys(t') && Pairs(t) == Pairs(t') + iset{(k, d)} && x != k
    ensures x in Entries(t) <==> x in Entries(t')
    ensures x in Entries(t) ==> Entries(t)[x] == Entries(t')[x]
  {
    if x in Entries(t) {
      PairIsEntry(t, x, Entries(t)[x]);
      PairIsEntry(t', x, Entries(t)[x]);
    }
    if x in Entries(t') {
      PairIsEntry(t, x, Entries(t')[x]);
      PairIsEntry(t', x, Entries(t')[x]);
    }
  }

  /** The children of a deleted node fit, the left one also after the right one is back. */
  lemma DeleteFits<D>(t: Tree<D>, k: nat)
    requires Ordered(t) && Sub(t, k).Bin?
    ensures var s, rest := Sub(t, k), Prune(t, k);
      && Ordered(s.left) && Ordered(s.right) && Apart(rest, s.right) && Apart(GraftAny(rest, s.right), s.left)
  {
    SubOrdered(t, k);
    SubApart(t, k);
    LeftStillFits(Prune(t, k), Sub(t, k));
  }

  lemma {:induction false} SubRoots<D>(h: Heap<D>, t: Tree<D>, p: Node?<D>, k: nat)
    requires Linked(h, t, p) && Sub(t, k).Bin?
    ensures var s := Sub(t, k);
      s.node in h && h[s.node].left == Root(s.left) && h[s.node].right == Root(s.right)
  {
    if k < t.key {
      SubRoots(h, t.left, t.node, k);
    } else if k > t.key {
      SubRoots(h, t.right, t.node, k);
    }
  }

  /** One pair more is one entry more. */
  lemma PairApart<D>(t: Tree<D>, t': Tree<D>, k: nat, d: D)
    requires Ordered(t) && Ordered(t') && k !in Keys(t') && Pairs(t) == Pairs(t') + iset{(k, d)}
    ensures Entries(t') == Entries(t) - {k} && Entries(t) == Entries(t')[k := d]
  {
    EntriesKeys(t');
    PairIsEntry(t, k, d);
    var m, m' := Entries(t), Entries(t');
    forall x: nat | x != k ensures (x in m <==> x in m') && (x in m ==> m[x] == m'[x]) {
      PairMore(t, t', k, d, x);
    }
    MinusKey(m, m', k, d);
  }

  lemma MinusKey<D>(m: map<nat, D>, m': map<nat, D>, k: nat, d: D)
    requires k in m && m[k] == d && k !in m'
    requires forall x: nat :: x != k ==> (x in m <==> x in m') && (x in m ==> m[x] == m'[x])
    ensures m' == m - {k} && m == m'[k := d]
  {
  }

  /** Both children back in place, in order. */
  lemma BothBack<D>(t: Tree<D>, s: Tree<D>)
    requires Ordered(t) && Ordered(s) && s.Bin? && Apart(t, s)
    ensures
      var u := GraftAny(GraftAny(t, s.right), s.left);
      && Ordered(u) && Keys(u) == Keys(t) + Keys(s.right) + Keys(s.left) && s.key !in Keys(u)
      && Size(u) == Size(t) + Size(s.right) + Size(s.left)
      && Pairs(u) == Pairs(t) + Pairs(s.right) + Pairs(s.left)
      && Nodes(u) == Nodes(t) + Nodes(s.right) + Nodes(s.left)
  {
    SubtreesApart(t, s);
    LeftStillFits(t, s);
    GraftAnyKeeps(t, s.right);
    GraftAnyKeeps(GraftAny(t, s.right), s.left);
  }

  lemma DeletedParts<D>(t: Tree<D>, k: nat)
    requires Ordered(t) && Sub(t, k).Bin?
    ensures Ordered(Deleted(t, k)) && k !in Keys(Deleted(t, k))
    ensures Size(t) == Size(Deleted(t, k)) + 1 && Nodes(Deleted(t, k)) <= Nodes(t)
    ensures Pairs(t) == Pairs(Deleted(t, k)) + iset{(k, Sub(t, k).data)}
  {
    var s := Sub(t, k);
    SubFinds(t, k);
    SubParts(t, k);
    SubOrdered(t, k);
    SubApart(t, k);
    BothBack(Prune(t, k), s);
    assert Pairs(s) == Pairs(s.left) + iset{(k, s.data)} + Pairs(s.right);
  }

  /** Deleting removes the one entry, keeps every other, and keeps search order. */
  lemma DeletedEntries<D>(t: Tree<D>, k: nat)
    requires Ordered(t)
    ensures Ordered(Deleted(t, k)) && Entries(Deleted(t, k)) == Entries(t) - {k}
    ensures Size(Deleted(t, k)) == Size(t) - (if k in Entries(t) then 1 else 0)
    ensures Nodes(Deleted(t, k)) <= Nodes(t)
  {
    SubFinds(t, k);
    EntriesKeys(t);
    if k in Keys(t) {
      DeletedParts(t, k);
      PairApart(t, Deleted(t, k), k, Sub(t, k).data);
    }
  }

  class BTree<D> {
    var root: Node?<D>
    var count: int
    ghost var tree: Tree<D>
    ghost var cells: Heap<D>

    ghost predicate Shaped()
      reads this`root, this`tree, this`cells, cells.Keys
    {
      var held := Holds(cells, tree, null);
      held && root == Root(tree) && Current(cells)
    }

    ghost predicate Valid()
      reads this, cells.Keys
    {
      Shaped() && count == Size(tree)
    }

    ghost function Contents(): map<nat, D>
      reads this`tree
    {
      Entries(tree)
    }

    constructor ()
      ensures Valid() && Contents() == map[] && cells == map[]
    {
      root, count, tree, cells := null, 0, Leaf, map[];
    }

    /** Walks down from the root; the node is the one holding the key. */
    method Lookup(key: nat) returns (node: Node?<D>)
      requires Shaped()
      ensures node == Root(Sub(tree, key))
      ensures node == null <==> key !in Contents()
      ensures node != null ==> node in cells && node.key == key && Contents()[key] == node.data
    {
      node := root;
      ghost var t, p := tree, null;
      while node != null
        invariant node == Root(t) && Linked(cells, t, p) && Sub(t, key) == Sub(tree, key)
        decreases t
      {
        if node.key == key {
          break;
        } else if key < node.key {
          node, t, p := node.left, t.left, t.node;
        } else {
          node, t, p := node.right, t.right, t.node;
        }
      }
      SubFinds(tree, key);
      EntriesKeys(tree);
      if node != null {
        PairIsEntry(tree, key, node.data);
      }
    }

    method Search(key: nat) returns (err: int, data: Option<D>)
      requires Shaped()
      ensures err == if key in Contents() then 0 else -ENOENT
      ensures data == if key in Contents() then Some(Contents()[key]) else None
    {
      var node := Lookup(key);
      if node == null {
        return -ENOENT, None;
      }
      return 0, Some(node.data);
    }

    /** The last node on the way down to a key that is not there. */
    method Descend(key: nat) returns (err: int, parent: Node<D>)
      requires Shaped() && tree.Bin?
      ensures err == if key in Keys(tree) then -EEXIST else 0
      ensures err == 0 ==> parent == Slot(tree, key)
    {
      var iter := root;
      ghost var t, p := tree, null;
      err, parent := 0, root;
      while iter != null
        invariant iter == Root(t) && Linked(cells, t, p) && Ordered(t)
        invariant key in Keys(t) <==> key in Keys(tree)
        invariant t.Bin? ==> Slot(t, key) == Slot(tree, key)
        invariant t.Leaf? ==> parent == Slot(tree, key)
        decreases t
      {
        parent := iter;
        if key < parent.key {
          iter, t, p := parent.left, t.left, t.node;
        } else if key > parent.key {
          iter, t, p := parent.right, t.right, t.node;
        } else {
          return -EEXIST, parent;
        }
      }
    }

    /** The two pointers that hang a node under another. */
    static method Wire(parent: Node<D>, node: Node<D>, ghost h: Heap<D>)
      requires Current(h) && parent in h && node in h && parent != node && node.key != parent.key
      modifies parent, node
      ensures Current(Wired(h, parent, node))
    {
      node.parent := parent;
      if node.key < parent.key {
        parent.left := node;
      } else if node.key > parent.key {
        parent.right := node;
      }
    }

    /** `u`, with the fields `us`, is a tree rooted at `node`, apart from this one. */
    ghost predicate Offered(u: Tree<D>, us: Heap<D>, node: Node<D>)
      reads this`cells, us.Keys, node
    {
      var held := Holds(us, u, node.parent);
      held && u.Bin? && u.node == node && us.Keys !! cells.Keys && Current(us)
    }

    /** Hangs the tree `u` where its root key belongs. */
    method Hang(parent: Node<D>, node: Node<D>, ghost u: Tree<D>, ghost us: Heap<D>)
      requires Shaped() && tree.Bin? && Offered(u, us, node) && Apart(tree, u) && parent == Slot(tree, u.key)
      modifies cells.Keys, node, this`tree, this`cells
      ensures tree == Graft(old(tree), u) && Shaped()
    {
      ghost var h := cells + us;
      HangHolds(cells, us, tree, u, node.parent, parent);
      tree, cells := Graft(tree, u), Wired(h, parent, node);
      Wire(parent, node, h);
    }

    method Unhook(node: Node<D>, ghost u: Tree<D>, ghost us: Heap<D>) returns (ghost us': Heap<D>)
      requires Shaped() && Offered(u, us, node)
      modifies node`parent
      ensures Shaped() && Offered(u, us', node) && node.parent == null
    {
      UnhookHolds(us, u, node.parent);
      us' := us[node := us[node].(parent := null)];
      node.parent := null;
    }

    method InsertBelow(node: Node<D>, ghost u: Tree<D>, ghost us: Heap<D>) returns (err: int)
      requires Shaped() && tree.Bin? && Offered(u, us, node) && (u.key !in Keys(tree) ==> Apart(tree, u))
      modifies cells.Keys, node, this`tree, this`cells
      ensures Shaped()
      ensures err == if u.key in old(Keys(tree)) then -EEXIST else 0
      ensures tree == if err == 0 then Graft(old(tree), u) else old(tree)
    {
      var parent;
      err, parent := Descend(node.key);
      if err == 0 {
        Hang(parent, node, u, us);
      }
    }

    /** The first node becomes the root. */
    method Plant(node: Node<D>, ghost u: Tree<D>, ghost us: Heap<D>)
      requires Shaped() && tree.Leaf? && Offered(u, us, node) && node.parent == null
      modifies this`root, this`tree, this`cells
      ensures Shaped() && tree == u
    {
      root, tree, cells := node, u, us;
    }

    method InsertNode(node: Node<D>, ghost u: Tree<D>, ghost us: Heap<D>) returns (err: int)
      requires Shaped() && Offered(u, us, node) && (u.key !in Keys(tree) ==> Apart(tree, u))
      modifies cells.Keys, node, this
      ensures Shaped()
      ensures err == if u.key in old(Keys(tree)) then -EEXIST else 0
      ensures tree == if err == 0 then Graft(old(tree), u) else old(tree)
      ensures count == if err == 0 then old(count) + 1 else old(count)
    {
      ghost var us' := Unhook(node, u, us);
      err := Place(node, u, us');
      if err == 0 {
        count := count + 1;
      }
    }

    method Place(node: Node<D>, ghost u: Tree<D>, ghost us: Heap<D>) returns (err: int)
      requires Shaped() && Offered(u, us, node) && node.parent == null && (u.key !in Keys(tree) ==> Apart(tree, u))
      modifies cells.Keys, node, this`root, this`tree, this`cells
      ensures Shaped()
      ensures err == if u.key in old(Keys(tree)) then -EEXIST else 0
      ensures tree == if err == 0 then Graft(old(tree), u) else old(tree)
    {
      if root == null {
        Plant(node, u, us);
        err := 0;
      } else {
        err := InsertBelow(node, u, us);
      }
    }

    static lemma LeafHolds(us: Heap<D>, u: Tree<D>)
      requires u.Bin? && u.left.Leaf? && u.right.Leaf? && us == map[u.node := Cell(u.key, u.data, null, null, null)]
      ensures Holds(us, u, null)
    {
    }

    /** A leaf of its own fits beside every other key. */
    static lemma LeafFits(t: Tree<D>, u: Tree<D>)
      requires u.Bin? && u.left.Leaf? && u.right.Leaf? && u.key !in Keys(t)
      ensures Apart(t, u)
    {
      forall x | x in Keys(t) ensures Beside(x, u) {
        assert Keys(u) == {u.key};
      }
    }

    method Insert(key: nat, data: D) returns (err: int)
      requires Valid()
      modifies cells.Keys, this
      ensures Valid() && fresh(cells.Keys - old(cells.Keys))
      ensures err == if key in old(Contents()) then -EEXIST else 0
      ensures Contents() == if err == 0 then old(Contents())[key := data] else old(Contents())
      ensures count == if err == 0 then old(count) + 1 else old(count)
    {
      var node := new Node(key, data);
      ghost var u, us := Bin(Leaf, node, key, data, Leaf), map[node := Cell(key, data, null, null, null)];
      ghost var t := tree;
      EntriesKeys(t);
      LeafHolds(us, u);
      if key !in Keys(t) {
        LeafFits(t, u);
      }
      err := InsertNode(node, u, us);
      if err == 0 {
        GraftParts(t, u);
        PairApart(tree, t, key, data);
      }
    }

    /** The pointer that goes when a child is cut off. */
    static method Cut(parent: Node<D>, node: Node<D>, key: nat, ghost h: Heap<D>)
      requires Current(h) && parent in h && HangsOn(h[parent], key, node)
      modifies parent
      ensures Current(CutHeap(h, key, parent))
    {
      if parent.right == node {
        parent.right := null;
      } else if parent.left == node {
        parent.left := null;
      }
    }

    /** Cuts off a node and clears it. */
    method Sever(node: Node<D>, key: nat, ghost h: Heap<D>)
      requires Current(h) && node in h && (node == root <==> node.parent == null)
      requires node.parent != null ==> node.parent in h && node.parent != node && HangsOn(h[node.parent], key, node)
      modifies h.Keys, this`root
      ensures Current(CutHeap(h, key, old(node.parent)) - {node})
      ensures root == if node == old(root) then null else old(root)
    {
      if node == root {
        root := null;
      } else {
        Cut(node.parent, node, key, h);
      }
      node.key, node.left, node.parent, node.right := 0, null, null, null;
    }

    /** Cuts off the subtree at a node and clears the node; what was below it stays as it was. */
    method Detach(node: Node<D>, key: nat) returns (ghost h: Heap<D>)
      requires Shaped() && node == Root(Sub(tree, key))
      modifies cells.Keys, this`tree, this`cells, this`root
      ensures Shaped() && tree == Prune(old(tree), key)
      ensures Current(h) && h.Keys <= old(cells.Keys) && Severed(h, old(Sub(tree, key)), tree)
    {
      ghost var q := CutShaped(cells, tree, key);
      h := CutHeap(cells, key, q) - {node};
      Sever(node, key, cells);
      tree := Prune(tree, key);
      cells := Restrict(h, Nodes(tree));
    }

    method CutOut(node: Node<D>, key: nat) returns (ghost ls: Heap<D>, ghost rs: Heap<D>)
      requires Shaped() && node == Root(Sub(tree, key))
      modifies cells.Keys, this`tree, this`cells, this`root
      ensures Shaped() && tree == Prune(old(tree), key)
      ensures Current(ls) && Holds(ls, old(Sub(tree, key)).left, node)
      ensures Current(rs) && Holds(rs, old(Sub(tree, key)).right, node)
      ensures cells.Keys !! rs.Keys && cells.Keys !! ls.Keys && rs.Keys !! ls.Keys
      ensures cells.Keys <= old(cells.Keys) && rs.Keys <= old(cells.Keys) && ls.Keys <= old(cells.Keys)
    {
      ghost var s := Sub(tree, key);
      ghost var h := Detach(node, key);
      ls, rs := Restrict(h, Nodes(s.left)), Restrict(h, Nodes(s.right));
    }

    /** Puts a subtree that was cut off back in, by its root key. */
    method PutBack(node: Node?<D>, ghost u: Tree<D>, ghost us: Heap<D>, ghost p: Node<D>)
      requires Shaped() && node == Root(u) && Apart(tree, u)
      requires Current(us) && Holds(us, u, p) && us.Keys !! cells.Keys
      modifies cells.Keys, node, this
      ensures Shaped() && tree == GraftAny(old(tree), u) && count == old(count)
      ensures cells.Keys == old(cells.Keys) + us.Keys
    {
      GraftAnyKeeps(tree, u);
      if node != null {
        count := count - 1;
        assert u.key in Keys(u);
        var err := InsertNode(node, u, us);
      }
    }

    /** Puts the two children of a node back in, the right one first. */
    method PutBoth(left: Node?<D>, right: Node?<D>, ghost s: Tree<D>, ghost ls: Heap<D>, ghost rs: Heap<D>)
      requires Shaped() && s.Bin? && left == Root(s.left) && right == Root(s.right)
      requires Apart(tree, s.right) && Apart(GraftAny(tree, s.right), s.left)
      requires Current(ls) && Holds(ls, s.left, s.node) && Current(rs) && Holds(rs, s.right, s.node)
      requires cells.Keys !! rs.Keys && cells.Keys !! ls.Keys && rs.Keys !! ls.Keys
      modifies cells.Keys, ls.Keys, rs.Keys, this
      ensures Shaped() && tree == GraftAny(GraftAny(old(tree), s.right), s.left) && count == old(count)
    {
      PutBack(right, s.right, rs, s.node);
      PutBack(left, s.left, ls, s.node);
    }

    method DeleteNode(node: Node<D>, key: nat)
      requires Shaped() && node == Root(Sub(tree, key))
      modifies cells.Keys, this
      ensures Shaped() && tree == Deleted(old(tree), key) && count == old(count) - 1
    {
      var left, right := node.left, node.right;
      ghost var s := Sub(tree, key);
      DeleteFits(tree, key);
      SubRoots(cells, tree, null, key);
      ghost var ls, rs := CutOut(node, key);
      count := count - 1;
      PutBoth(left, right, s, ls, rs);
    }

    method Delete(key: nat)
      requires Valid()
      modifies cells.Keys, this
      ensures Valid() && cells.Keys <= old(cells.Keys)
      ensures Contents() == old(Contents()) - {key}
      ensures count == if key in old(Contents()) then old(count) - 1 else old(count)
    {
      DeletedEntries(tree, key);
      EntriesKeys(tree);
      var node := Lookup(key);
      if node != null {
        DeleteNode(node, key);
      }
    }
  }
}
