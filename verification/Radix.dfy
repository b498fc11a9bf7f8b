/**
 * The shape shared by the two radix trees of the repository, the XArray and
 * the tree under the IDR.
 *
 * Node memory is a map from addresses to node records, so parent and child
 * pointers are addresses and an update in place is an update of the map.  The
 * `shift` of the source is always a multiple of the chunk shift 6; the model
 * keeps the quotient and calls it the level.
 */
module Radix {
  import opened Memory

  /** One slot or the head: the tagged pointers of the source as a datatype. */
  datatype Entry = Null | Ptr(id: nat) | Value(val: nat) | Zero | Retry | Child(addr: Addr)

  const TOP: nat := 10

  /** struct xa_node and struct radix_tree_node; a bitmap is the set of its bits. */
  datatype Node = Node(level: nat, offset: nat, count: nat, nrValues: nat,
                       parent: Option<Addr>, slots: seq<Entry>, marks: seq<set<nat>>)

  /**
   * A snapshot of a whole tree.  `pfx` and `dir` are the position of every
   * node: a node of level l and prefix p holds the indices i with
   * i >> 6(l+1) == p, and dir finds the node of a position.
   */
  datatype Tree = Tree(head: Entry, flags: set<nat>, nodes: map<Addr, Node>,
                       pfx: map<Addr, nat>, dir: map<(nat, nat), Addr>)

  // ---------------------------------------------------------------- indices

  /** i >> 6l */
  function Pfx(i: nat, l: nat): nat
  {
    if l == 0 then i else Pfx(i, l - 1) / 64
  }

  /** p << 6l, unbounded */
  function Shl(p: nat, l: nat): nat
  {
    if l == 0 then p else 64 * Shl(p, l - 1)
  }

  /** (i >> 6l) & 63 */
  function Digit(i: nat, l: nat): (o: nat)
    ensures o < 64
  {
    Pfx(i, l) % 64
  }

  lemma {:induction false} PfxMono(i: nat, j: nat, l: nat)
    requires i <= j
    ensures Pfx(i, l) <= Pfx(j, l)
  {
    if l > 0 {
      PfxMono(i, j, l - 1);
    }
  }

  lemma {:induction false} PfxBelowShl(i: nat, p: nat, l: nat)
    ensures Pfx(i, l) < p <==> i < Shl(p, l)
    decreases l
  {
    if l > 0 {
      PfxBelowShl(i, 64 * p, l - 1);
      ShlTimes(p, l - 1);
    }
  }

  lemma {:induction false} ShlTimes(p: nat, l: nat)
    ensures Shl(64 * p, l) == 64 * Shl(p, l)
  {
    if l > 0 {
      ShlTimes(p, l - 1);
    }
  }

  lemma {:induction false} PfxZero(i: nat, l: nat, k: nat)
    requires l <= k && Pfx(i, l) == 0
    ensures Pfx(i, k) == 0
    decreases k
  {
    if l < k {
      PfxZero(i, l, k - 1);
    }
  }

  // ------------------------------------------------------------------ links

  ghost predicate IsPosition(t: Tree, a: Addr)
    requires t.pfx.Keys == t.nodes.Keys && a in t.nodes
  {
    var k := (t.nodes[a].level, t.pfx[a]);
    k in t.dir && t.dir[k] == a
  }

  /** Positions and addresses correspond one to one. */
  ghost predicate DirOk(t: Tree)
  {
    && t.pfx.Keys == t.nodes.Keys
    && (forall a {:trigger IsPosition(t, a)} :: a in t.nodes ==> IsPosition(t, a))
    && (forall k {:trigger t.dir[k]} :: k in t.dir ==>
          t.dir[k] in t.nodes && t.nodes[t.dir[k]].level == k.0 && t.pfx[t.dir[k]] == k.1)
  }

  /** Slot o of node a: a child knows where it hangs, and user entries sit on level 0 only. */
  ghost predicate SlotOk(t: Tree, a: Addr, o: nat)
    requires t.pfx.Keys == t.nodes.Keys && a in t.nodes && o < |t.nodes[a].slots|
  {
    var n := t.nodes[a];
    match n.slots[o]
    case Null => true
    case Child(c) =>
      && n.level > 0 && c in t.nodes
      && t.nodes[c].level == n.level - 1 && t.nodes[c].parent == Some(a)
      && t.nodes[c].offset == o && t.pfx[c] == 64 * t.pfx[a] + o
    case _ => n.level == 0
  }

  /** The parent link of node a: the root has none, any other node hangs where it says. */
  ghost predicate UpOk(t: Tree, a: Addr)
    requires t.pfx.Keys == t.nodes.Keys && a in t.nodes
  {
    var n := t.nodes[a];
    match n.parent
    case None => t.head == Child(a) && t.pfx[a] == 0 && n.offset == 0
    case Some(p) =>
      && p in t.nodes && n.offset < |t.nodes[p].slots|
      && t.nodes[p].slots[n.offset] == Child(a)
  }

  ghost predicate NodeOk(t: Tree, a: Addr)
    requires t.pfx.Keys == t.nodes.Keys && a in t.nodes
  {
    && |t.nodes[a].slots| == 64 && t.nodes[a].level <= TOP
    && (forall o {:trigger SlotOk(t, a, o)} :: 0 <= o < 64 ==> SlotOk(t, a, o))
    && UpOk(t, a)
  }

  ghost predicate HeadOk(t: Tree)
  {
    if t.head.Child? then t.head.addr in t.nodes && t.nodes[t.head.addr].parent == None
    else t.nodes == map[]
  }

  ghost predicate Links(t: Tree)
  {
    && DirOk(t)
    && HeadOk(t)
    && forall a {:trigger NodeOk(t, a)} :: a in t.nodes ==> NodeOk(t, a)
  }

  // --------------------------------------------------------------- contents

  /** What the tree holds at index i, read off the leaf that covers it. */
  ghost function Get(t: Tree, i: nat): Entry
    requires Links(t)
  {
    if t.head.Child? then
      if (0, i / 64) in t.dir then
        assert NodeOk(t, t.dir[(0, i / 64)]);
        t.nodes[t.dir[(0, i / 64)]].slots[i % 64]
      else Null
    else if i == 0 then t.head else Null
  }

  ghost predicate OnPath(t: Tree, i: nat, l: nat)
  {
    (l, Pfx(i, l + 1)) in t.dir
  }

  ghost function RootLevel(t: Tree): nat
    requires HeadOk(t) && t.head.Child?
  {
    t.nodes[t.head.addr].level
  }

  /** What a node and its parent know of each other. */
  lemma ParentFacts(t: Tree, a: Addr)
    requires Links(t) && a in t.nodes && t.nodes[a].parent.Some?
    ensures var p := t.nodes[a].parent.value;
            && p in t.nodes && t.nodes[p].level == t.nodes[a].level + 1
            && t.nodes[a].offset < 64 && |t.nodes[p].slots| == 64
            && t.nodes[p].slots[t.nodes[a].offset] == Child(a)
            && t.pfx[a] == 64 * t.pfx[p] + t.nodes[a].offset
            && IsPosition(t, p)
  {
    assert NodeOk(t, a);
    var p := t.nodes[a].parent.value;
    assert NodeOk(t, p) && SlotOk(t, p, t.nodes[a].offset);
  }

  /** One step up: below the root, the node above a node of i's path is on the path too. */
  lemma PathStep(t: Tree, i: nat, l: nat)
    requires Links(t) && t.head.Child?
    requires OnPath(t, i, l)
    requires l != RootLevel(t)
    ensures OnPath(t, i, l + 1)
    ensures var a := t.dir[(l, Pfx(i, l + 1))];
            var p := t.dir[(l + 1, Pfx(i, l + 2))];
            && t.nodes[a].parent == Some(p)
            && |t.nodes[p].slots| == 64
            && t.nodes[p].slots[Digit(i, l + 1)] == Child(a)
  {
    var a := t.dir[(l, Pfx(i, l + 1))];
    assert NodeOk(t, a);
    ParentFacts(t, a);
  }

  lemma {:induction false} PathUp(t: Tree, i: nat, l: nat, k: nat)
    requires Links(t) && t.head.Child?
    requires OnPath(t, i, l)
    requires l <= k <= RootLevel(t)
    ensures OnPath(t, i, k)
    decreases k
  {
    if l < k {
      PathUp(t, i, l, k - 1);
      PathStep(t, i, k - 1);
    }
  }

  /** No node lies above the level of the root. */
  lemma {:induction false} LevelBound(t: Tree, a: Addr)
    requires Links(t) && a in t.nodes && t.head.Child?
    ensures t.nodes[a].level <= TOP && t.nodes[a].level <= RootLevel(t)
    decreases if a in t.nodes then TOP - t.nodes[a].level else 0
  {
    assert NodeOk(t, a);
    if t.nodes[a].parent.Some? {
      ParentFacts(t, a);
      LevelBound(t, t.nodes[a].parent.value);
    }
  }

  // ------------------------------------------------- the updates of the trees

  ghost predicate SameChildren(n: Node, n': Node)
  {
    && n'.level == n.level && n'.parent == n.parent && n'.offset == n.offset
    && |n.slots| == |n'.slots| == 64
    && (n.level > 0 ==> n'.slots == n.slots)
    && (n.level == 0 ==> forall o :: 0 <= o < 64 ==> !n'.slots[o].Child?)
  }

  ghost function WithNode(t: Tree, a: Addr, n: Node): Tree
  {
    t.(nodes := t.nodes[a := n])
  }

  /** Rewriting a node without touching its children keeps the links. */
  lemma WithNodeLinks(t: Tree, a: Addr, n: Node)
    requires Links(t) && a in t.nodes && SameChildren(t.nodes[a], n)
    ensures Links(WithNode(t, a, n))
  {
    var t' := WithNode(t, a, n);
    assert DirOk(t') by {
      forall x | x in t'.nodes ensures IsPosition(t', x) {
        assert IsPosition(t, x);
      }
    }
    forall x | x in t'.nodes ensures NodeOk(t', x) {
      assert NodeOk(t, x);
      if t.nodes[x].parent == Some(a) { ParentFacts(t, x); }
      forall o | 0 <= o < 64 ensures SlotOk(t', x, o) {
        assert SlotOk(t, x, o);
      }
    }
  }

  lemma WithNodeGet(t: Tree, a: Addr, n: Node, i: nat)
    requires Links(t) && a in t.nodes && SameChildren(t.nodes[a], n)
    requires Links(WithNode(t, a, n))
    ensures Get(WithNode(t, a, n), i) ==
            if n.level == 0 && t.pfx[a] == i / 64 then n.slots[i % 64] else Get(t, i)
  {
    assert NodeOk(t, a) && IsPosition(t, a);
  }

  ghost predicate Blank(n: Node)
  {
    |n.slots| == 64 && forall o :: 0 <= o < 64 ==> n.slots[o] == Null
  }

  /** Hang the new empty node c under slot o of node p; p becomes np. */
  ghost function AddChild(t: Tree, p: Addr, o: nat, np: Node, c: Addr, nc: Node): Tree
    requires p in t.pfx
  {
    var q := 64 * t.pfx[p] + o;
    t.(nodes := t.nodes[p := np][c := nc], pfx := t.pfx[c := q], dir := t.dir[(nc.level, q) := c])
  }

  /** An empty slot means that no node has the position below it. */
  lemma VacantChild(t: Tree, p: Addr, o: nat)
    requires Links(t) && p in t.nodes && t.nodes[p].level > 0
    requires o < 64 && |t.nodes[p].slots| == 64 && !t.nodes[p].slots[o].Child?
    ensures (t.nodes[p].level - 1, 64 * t.pfx[p] + o) !in t.dir
  {
    var k := (t.nodes[p].level - 1, 64 * t.pfx[p] + o);
    assert IsPosition(t, p);
    if k in t.dir {
      var d := t.dir[k];
      assert NodeOk(t, d);
      LevelBound(t, p);
      ParentFacts(t, d);
    }
  }

  /** np and nc are what hanging c under slot o of p makes of the two nodes. */
  ghost predicate Hangs(t: Tree, p: Addr, o: nat, np: Node, c: Addr, nc: Node)
  {
    && p in t.nodes && c !in t.nodes && t.nodes[p].level > 0
    && o < 64 && |t.nodes[p].slots| == 64 && t.nodes[p].slots[o] == Null
    && np.slots == t.nodes[p].slots[o := Child(c)]
    && np.level == t.nodes[p].level && np.parent == t.nodes[p].parent && np.offset == t.nodes[p].offset
    && Blank(nc) && nc.level == np.level - 1 && nc.parent == Some(p) && nc.offset == o
  }

  lemma AddChildDir(t: Tree, p: Addr, o: nat, np: Node, c: Addr, nc: Node)
    requires Links(t) && Hangs(t, p, o, np, c, nc)
    ensures DirOk(AddChild(t, p, o, np, c, nc))
    ensures (nc.level, 64 * t.pfx[p] + o) !in t.dir
  {
    var t' := AddChild(t, p, o, np, c, nc);
    VacantChild(t, p, o);
    forall x | x in t'.nodes ensures IsPosition(t', x) {
      if x != c { assert IsPosition(t, x); }
    }
  }

  lemma AddChildLinks(t: Tree, p: Addr, o: nat, np: Node, c: Addr, nc: Node)
    requires Links(t) && Hangs(t, p, o, np, c, nc)
    ensures Links(AddChild(t, p, o, np, c, nc))
  {
    var t' := AddChild(t, p, o, np, c, nc);
    AddChildDir(t, p, o, np, c, nc);
    assert NodeOk(t, p);
    assert NodeOk(t', c) by {
      forall j | 0 <= j < 64 ensures SlotOk(t', c, j) { }
    }
    forall x | x in t.nodes ensures NodeOk(t', x) {
      assert NodeOk(t, x);
      forall j | 0 <= j < 64 ensures SlotOk(t', x, j) {
        assert SlotOk(t, x, j);
      }
    }
  }

  lemma AddChildGet(t: Tree, p: Addr, o: nat, np: Node, c: Addr, nc: Node, i: nat)
    requires Links(t) && Hangs(t, p, o, np, c, nc)
    requires Links(AddChild(t, p, o, np, c, nc))
    ensures Get(AddChild(t, p, o, np, c, nc), i) == Get(t, i)
  {
    AddChildDir(t, p, o, np, c, nc);
  }

  /** Put the new root c above the present head; the head becomes its slot 0. */
  ghost function NewRoot(t: Tree, c: Addr, nc: Node): Tree
    requires HeadOk(t)
  {
    var ns := if t.head.Child? then
                t.nodes[t.head.addr := t.nodes[t.head.addr].(parent := Some(c), offset := 0)]
              else t.nodes;
    Tree(Child(c), t.flags, ns[c := nc], t.pfx[c := 0], t.dir[(nc.level, 0) := c])
  }

  ghost predicate RootOver(t: Tree, nc: Node)
    requires HeadOk(t)
  {
    && |nc.slots| == 64 && nc.slots[0] == t.head
    && (forall o :: 1 <= o < 64 ==> nc.slots[o] == Null)
    && nc.parent == None && nc.offset == 0
    && nc.level == (if t.head.Child? then RootLevel(t) + 1 else 0)
    && nc.level <= TOP
  }

  lemma NewRootLinks(t: Tree, c: Addr, nc: Node)
    requires Links(t) && c !in t.nodes && RootOver(t, nc)
    ensures Links(NewRoot(t, c, nc))
    ensures (nc.level, 0) !in t.dir
  {
    var t' := NewRoot(t, c, nc);
    if (nc.level, 0) in t.dir {
      LevelBound(t, t.dir[(nc.level, 0)]);
    }
    if t.head.Child? { assert NodeOk(t, t.head.addr); }
    assert DirOk(t') by {
      forall x | x in t'.nodes ensures IsPosition(t', x) {
        if x != c { assert IsPosition(t, x); }
      }
    }
    forall x | x in t'.nodes ensures NodeOk(t', x) { NewRootNode(t, c, nc, x); }
  }

  lemma NewRootNode(t: Tree, c: Addr, nc: Node, x: Addr)
    requires Links(t) && c !in t.nodes && RootOver(t, nc) && x in NewRoot(t, c, nc).nodes
    ensures NodeOk(NewRoot(t, c, nc), x)
  {
    var t' := NewRoot(t, c, nc);
    if t.head.Child? { assert NodeOk(t, t.head.addr); }
    if x != c { assert NodeOk(t, x); }
    forall j | 0 <= j < 64 ensures SlotOk(t', x, j) {
      if x != c { assert SlotOk(t, x, j); }
    }
  }

  lemma NewRootGet(t: Tree, c: Addr, nc: Node, i: nat)
    requires Links(t) && c !in t.nodes && RootOver(t, nc)
    requires (nc.level, 0) !in t.dir
    requires Links(NewRoot(t, c, nc))
    ensures Get(NewRoot(t, c, nc), i) == Get(t, i)
  {
  }

  /** The first node of an empty tree. */
  ghost function FirstRoot(t: Tree, c: Addr, nc: Node): Tree
  {
    Tree(Child(c), t.flags, map[c := nc], map[c := 0], map[(nc.level, 0) := c])
  }

  lemma FirstRootLinks(t: Tree, c: Addr, nc: Node)
    requires Links(t) && t.head == Null
    requires Blank(nc) && nc.parent == None && nc.offset == 0 && nc.level <= TOP
    ensures Links(FirstRoot(t, c, nc))
    ensures forall i :: Get(FirstRoot(t, c, nc), i) == Get(t, i)
  {
    var t' := FirstRoot(t, c, nc);
    assert NodeOk(t', c) by {
      forall j | 0 <= j < 64 ensures SlotOk(t', c, j) { }
    }
    assert IsPosition(t', c);
    forall i ensures Get(t', i) == Get(t, i) { }
  }

  /** Unhook the empty node a from its parent, which becomes np. */
  ghost function DropNode(t: Tree, a: Addr, np: Node): Tree
    requires DirOk(t) && a in t.nodes && t.nodes[a].parent.Some?
  {
    t.(nodes := t.nodes[t.nodes[a].parent.value := np] - {a},
       pfx := t.pfx - {a}, dir := t.dir - {(t.nodes[a].level, t.pfx[a])})
  }

  lemma DropNodeLinks(t: Tree, a: Addr, np: Node)
    requires Links(t) && a in t.nodes && t.nodes[a].parent.Some? && Blank(t.nodes[a])
    requires NodeOk(t, a)
    requires var p := t.nodes[t.nodes[a].parent.value];
             && |p.slots| == 64
             && np.slots == p.slots[t.nodes[a].offset := Null]
             && np.level == p.level && np.parent == p.parent && np.offset == p.offset
    ensures Links(DropNode(t, a, np))
  {
    var t' := DropNode(t, a, np);
    var p := t.nodes[a].parent.value;
    assert NodeOk(t, p) && SlotOk(t, p, t.nodes[a].offset) && IsPosition(t, a);
    assert DirOk(t') by {
      forall x | x in t'.nodes ensures IsPosition(t', x) {
        assert IsPosition(t, x);
      }
    }
    forall x | x in t'.nodes ensures NodeOk(t', x) {
      assert NodeOk(t, x);
      forall j | 0 <= j < 64 ensures SlotOk(t', x, j) {
        assert SlotOk(t, x, j);
      }
    }
  }

  lemma DropNodeGet(t: Tree, a: Addr, np: Node, i: nat)
    requires Links(t) && a in t.nodes && t.nodes[a].parent.Some? && Blank(t.nodes[a])
    requires NodeOk(t, a)
    requires np.level == t.nodes[t.nodes[a].parent.value].level
    requires np.level > 0
    requires Links(DropNode(t, a, np))
    ensures Get(DropNode(t, a, np), i) == Get(t, i)
  {
    assert IsPosition(t, a);
  }

  /** A tree without nodes. */
  ghost function Bare(t: Tree, e: Entry): Tree
  {
    Tree(e, t.flags, map[], map[], map[])
  }

  lemma BareLinks(t: Tree, e: Entry)
    requires !e.Child?
    ensures Links(Bare(t, e))
    ensures forall i :: Get(Bare(t, e), i) == if i == 0 then e else Null
  {
  }

  /** Replace the root, whose only entry is the child in slot 0, by that child. */
  ghost function PopRoot(t: Tree): Tree
    requires DirOk(t) && HeadOk(t) && t.head.Child?
    requires |t.nodes[t.head.addr].slots| == 64 && t.nodes[t.head.addr].slots[0].Child?
    requires t.nodes[t.head.addr].slots[0].addr in t.nodes
  {
    var r := t.head.addr;
    var c := t.nodes[r].slots[0].addr;
    Tree(Child(c), t.flags, t.nodes[c := t.nodes[c].(parent := None)] - {r},
         t.pfx - {r}, t.dir - {(t.nodes[r].level, t.pfx[r])})
  }

  ghost predicate OnlyFirst(n: Node)
  {
    |n.slots| == 64 && forall o :: 1 <= o < 64 ==> n.slots[o] == Null
  }

  ghost predicate Poppable(t: Tree)
  {
    && t.head.Child? && t.head.addr in t.nodes && OnlyFirst(t.nodes[t.head.addr])
    && t.nodes[t.head.addr].slots[0].Child?
  }

  lemma PopRootDir(t: Tree)
    requires Links(t) && Poppable(t)
    ensures var r, c := t.head.addr, t.nodes[t.head.addr].slots[0].addr;
            c in t.nodes && c != r && t.nodes[c].level == t.nodes[r].level - 1 && t.pfx[c] == 0
            && t.nodes[c].offset == 0
    ensures DirOk(PopRoot(t))
  {
    var r := t.head.addr;
    assert NodeOk(t, r) && SlotOk(t, r, 0) && IsPosition(t, r);
    var t' := PopRoot(t);
    forall x | x in t'.nodes ensures IsPosition(t', x) {
      assert IsPosition(t, x);
    }
  }

  lemma PopRootLinks(t: Tree)
    requires Links(t) && Poppable(t)
    ensures t.nodes[t.head.addr].slots[0].addr in t.nodes
    ensures Links(PopRoot(t))
  {
    PopRootDir(t);
    assert NodeOk(t, t.head.addr) && SlotOk(t, t.head.addr, 0);
    var t' := PopRoot(t);
    forall x | x in t'.nodes ensures NodeOk(t', x) {
      assert NodeOk(t, x);
      forall j | 0 <= j < 64 ensures SlotOk(t', x, j) {
        assert SlotOk(t, x, j);
      }
    }
  }

  lemma PopRootGet(t: Tree, i: nat)
    requires Links(t) && Poppable(t)
    ensures t.nodes[t.head.addr].slots[0].addr in t.nodes
    ensures Links(PopRoot(t)) && Get(PopRoot(t), i) == Get(t, i)
  {
    PopRootDir(t);
    PopRootLinks(t);
    assert NodeOk(t, t.head.addr);
  }

  /** A lone leaf holding only its slot 0 stands for that entry in the head. */
  lemma PopLeafRootGet(t: Tree)
    requires Links(t) && t.head.Child? && t.nodes[t.head.addr].level == 0
    requires OnlyFirst(t.nodes[t.head.addr])
    ensures forall i :: Get(t, i) == if i == 0 then t.nodes[t.head.addr].slots[0] else Null
    ensures !t.nodes[t.head.addr].slots[0].Child?
    ensures t.nodes.Keys == {t.head.addr}
  {
    var r := t.head.addr;
    assert NodeOk(t, r) && SlotOk(t, r, 0) && IsPosition(t, r);
    forall a | a in t.nodes ensures a == r {
      LevelBound(t, a);
      assert NodeOk(t, a);
      if t.nodes[a].parent.Some? {
        ParentFacts(t, a);
        LevelBound(t, t.nodes[a].parent.value);
      }
    }
    forall i ensures Get(t, i) == if i == 0 then t.nodes[r].slots[0] else Null { }
  }
}
