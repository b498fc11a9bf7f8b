/**
 * History independence of the XArray: the shape of a canonical tree is a
 * function of its entries and marks.
 */
module XShape {
  import opened Memory
  import opened Radix
  import opened XTree
  import opened XLook

  /** A tree without addresses: what is left of the nodes when memory is forgotten. */
  datatype Shape =
    | Leaf(entry: Entry)
    | Branch(level: nat, offset: nat, count: nat, nrValues: nat, kids: seq<Shape>, marks: seq<set<nat>>)

  ghost function EntryLevel(t: Tree, e: Entry): nat
  {
    if e.Child? && e.addr in t.nodes then t.nodes[e.addr].level + 1 else 0
  }

  /** The shape under an entry of the tree. */
  ghost function ShapeOf(t: Tree, e: Entry): Shape
    requires Links(t) && (e.Child? ==> e.addr in t.nodes)
    decreases EntryLevel(t, e)
  {
    if e.Child? then
      var n := t.nodes[e.addr];
      assert NodeOk(t, e.addr);
      Branch(n.level, n.offset, n.count, n.nrValues,
             seq(64, o requires 0 <= o < 64 => assert SlotOk(t, e.addr, o); ShapeOf(t, n.slots[o])), n.marks)
    else Leaf(e)
  }

  /** Equal shapes are equal trees: the same entries, or nodes with the same fields and equal shapes in every slot. */
  lemma SameShapeMeans(t: Tree, u: Tree, e: Entry, f: Entry)
    requires Links(t) && (e.Child? ==> e.addr in t.nodes) && Links(u) && (f.Child? ==> f.addr in u.nodes)
    requires ShapeOf(t, e) == ShapeOf(u, f)
    ensures !e.Child? || !f.Child? ==> e == f
    ensures e.Child? && f.Child? ==>
              var n, m := t.nodes[e.addr], u.nodes[f.addr];
              && n.level == m.level && n.offset == m.offset && n.count == m.count && n.nrValues == m.nrValues
              && n.marks == m.marks && |n.slots| == 64 == |m.slots|
              && forall o :: 0 <= o < 64 ==>
                   && (n.slots[o].Child? ==> n.slots[o].addr in t.nodes) && (m.slots[o].Child? ==> m.slots[o].addr in u.nodes)
                   && ShapeOf(t, n.slots[o]) == ShapeOf(u, m.slots[o])
  {
    if e.Child? && f.Child? {
      var n, m := t.nodes[e.addr], u.nodes[f.addr];
      assert NodeOk(t, e.addr) && NodeOk(u, f.addr);
      forall o | 0 <= o < 64
        ensures && (n.slots[o].Child? ==> n.slots[o].addr in t.nodes) && (m.slots[o].Child? ==> m.slots[o].addr in u.nodes)
                && ShapeOf(t, n.slots[o]) == ShapeOf(u, m.slots[o])
      {
        assert SlotOk(t, e.addr, o) && SlotOk(u, f.addr, o);
        assert ShapeOf(t, e).kids[o] == ShapeOf(u, f).kids[o];
      }
    }
  }

  ghost predicate Alike(t: Tree, u: Tree)
  {
    XInv(t) && XInv(u) && Canon(t) && Canon(u) && SameReads(t, u)
  }

  /** A node of a canonical tree has an entry below it. */
  lemma {:induction false} Inhabited(t: Tree, a: Addr, o: nat) returns (i: nat)
    requires XInv(t) && Canon(t) && a in t.nodes && o < 64 == |t.nodes[a].slots| && t.nodes[a].slots[o] != Null
    ensures Pfx(i, t.nodes[a].level) == 64 * t.pfx[a] + o && Get(t, i) != Null
    decreases if a in t.nodes then t.nodes[a].level else 0
  {
    assert NodeOk(t, a) && SlotOk(t, a, o);
    var e := t.nodes[a].slots[o];
    if e.Child? {
      assert NodeOk(t, e.addr) && XNode(t, e.addr);
      TallyZero(t.nodes[e.addr].slots, false);
      var o' :| 0 <= o' < 64 && t.nodes[e.addr].slots[o'] != Null;
      i := Inhabited(t, e.addr, o');
    } else {
      i := 64 * t.pfx[a] + o;
      assert Covers(t, a, i);
      Descend(t, a, i);
    }
  }

  /** Two alike trees have a child in the same places. */
  lemma SameKids(t: Tree, u: Tree, a: Addr, b: Addr, o: nat)
    requires Alike(t, u) && a in t.nodes && b in u.nodes && o < 64
    requires t.nodes[a].level == u.nodes[b].level && t.pfx[a] == u.pfx[b]
    ensures |t.nodes[a].slots| == 64 == |u.nodes[b].slots|
    ensures t.nodes[a].slots[o] != Null ==> u.nodes[b].slots[o] != Null
    ensures t.nodes[a].level == 0 ==> t.nodes[a].slots[o] == u.nodes[b].slots[o]
  {
    assert NodeOk(t, a) && NodeOk(u, b) && SlotOk(t, a, o) && SlotOk(u, b, o);
    if t.nodes[a].slots[o] != Null {
      var i := Inhabited(t, a, o);
      assert Covers(u, b, i);
      assert Get(u, i) == Get(t, i);
      PathSlot(u, b, i);
    }
    if t.nodes[a].level == 0 {
      var i := 64 * t.pfx[a] + o;
      assert Covers(u, b, i) && Covers(t, a, i);
      Descend(t, a, i);
      Descend(u, b, i);
      assert Get(u, i) == Get(t, i);
    }
  }

  lemma {:induction false} TallySame(s: seq<Entry>, s': seq<Entry>, values: bool)
    requires |s| == |s'| && forall o :: 0 <= o < |s| ==> (Counted(s[o], values) <==> Counted(s'[o], values))
    ensures Tally(s, values) == Tally(s', values)
  {
    if s != [] {
      assert forall o :: 0 <= o < |s| - 1 ==> s[1..][o] == s[o + 1] && s'[1..][o] == s'[o + 1];
      TallySame(s[1..], s'[1..], values);
    }
  }

  lemma SameBits(t: Tree, u: Tree, a: Addr, b: Addr, m: nat)
    requires Alike(t, u) && a in t.nodes && b in u.nodes && m < MARKS
    requires t.nodes[a].level == u.nodes[b].level && t.pfx[a] == u.pfx[b]
    ensures |t.nodes[a].marks| == MARKS && |u.nodes[b].marks| == MARKS
    ensures t.nodes[a].marks[m] <= u.nodes[b].marks[m]
  {
    assert XNode(t, a) && XNode(u, b);
    forall o | o in t.nodes[a].marks[m] ensures o in u.nodes[b].marks[m] {
      assert Bit(t, a, o, m);
      var j := MarkedSlot(t, a, o, m);
      assert MarkAt(u, j, m);
      if !Bit(u, b, o, m) { UnmarkedSlot(u, b, o, m, j); }
    }
  }

  /** Nodes at the same position of two alike trees have the same shape. */
  lemma {:induction false} SameShape(t: Tree, u: Tree, a: Addr, b: Addr)
    requires Alike(t, u) && Alike(u, t) && a in t.nodes && b in u.nodes
    requires t.nodes[a].level == u.nodes[b].level && t.pfx[a] == u.pfx[b]
    requires t.nodes[a].offset == u.nodes[b].offset
    ensures ShapeOf(t, Child(a)) == ShapeOf(u, Child(b))
    decreases if a in t.nodes then t.nodes[a].level else 0
  {
    assert NodeOk(t, a) && NodeOk(u, b) && XNode(t, a) && XNode(u, b);
    var n, k := t.nodes[a], u.nodes[b];
    forall o | 0 <= o < 64
      ensures n.slots[o] != Null <==> k.slots[o] != Null
      ensures n.slots[o].Value? <==> k.slots[o].Value?
      ensures (n.slots[o].Child? ==> n.slots[o].addr in t.nodes) && (k.slots[o].Child? ==> k.slots[o].addr in u.nodes)
      ensures ShapeOf(t, n.slots[o]) == ShapeOf(u, k.slots[o])
    {
      SameKids(t, u, a, b, o);
      SameKids(u, t, b, a, o);
      assert SlotOk(t, a, o) && SlotOk(u, b, o);
      if n.slots[o].Child? { SameShape(t, u, n.slots[o].addr, k.slots[o].addr); }
    }
    TallySame(n.slots, k.slots, false);
    TallySame(n.slots, k.slots, true);
    forall m | 0 <= m < MARKS ensures n.marks[m] == k.marks[m] {
      SameBits(t, u, a, b, m);
      SameBits(u, t, b, a, m);
    }
    assert n.marks == k.marks;
    var st, su := ShapeOf(t, Child(a)), ShapeOf(u, Child(b));
    forall o | 0 <= o < 64 ensures st.kids[o] == su.kids[o] { assert SlotOk(t, a, o) && SlotOk(u, b, o); }
    assert st.kids == su.kids;
  }

  /** A root with an entry besides slot 0 is needed in every alike tree. */
  lemma RootNeeded(t: Tree, u: Tree)
    requires Alike(t, u) && t.head.Child?
    ensures u.head.Child? && RootLevel(t) <= RootLevel(u)
  {
    var r := t.head.addr;
    assert NodeOk(t, r);
    var o :| 1 <= o < 64 && t.nodes[r].slots[o] != Null;
    var i := Inhabited(t, r, o);
    assert Get(u, i) == Get(t, i);
    if i == 0 { PfxZero(0, 0, RootLevel(t)); }
    if u.head.Child? && RootLevel(u) < RootLevel(t) {
      if Pfx(i, RootLevel(u) + 1) != 0 { BeyondRoot(u, i); }
      PfxZero(i, RootLevel(u) + 1, RootLevel(t));
    }
  }

  /**
   * Any two canonical arrays with the same entries and marks are the same up
   * to the addresses of their nodes, whatever stores, erasures and marks made them.
   */
  lemma HistoryIndependence(t: Tree, u: Tree)
    requires Alike(t, u)
    ensures HeadOk(t) && HeadOk(u) && ShapeOf(t, t.head) == ShapeOf(u, u.head)
    ensures forall m :: 0 <= m < MARKS ==> (m in t.flags <==> m in u.flags)
  {
    assert Alike(u, t);
    forall m | 0 <= m < MARKS ensures m in t.flags <==> m in u.flags {
      FlagSummary(t, m);
      FlagSummary(u, m);
      if m in t.flags {
        var j :| MarkAt(t, j, m);
        assert MarkAt(u, j, m);
      }
      if m in u.flags {
        var j :| MarkAt(u, j, m);
        assert MarkAt(t, j, m);
      }
    }
    if t.head.Child? || u.head.Child? {
      if t.head.Child? { RootNeeded(t, u); } else { RootNeeded(u, t); }
      RootNeeded(t, u);
      RootNeeded(u, t);
      assert NodeOk(t, t.head.addr) && NodeOk(u, u.head.addr);
      SameShape(t, u, t.head.addr, u.head.addr);
    } else {
      assert Get(t, 0) == Get(u, 0);
    }
  }

  /** The shape that the comment on struct xarray promises. */
  lemma CanonicalHead(t: Tree)
    requires XInv(t) && Canon(t)
    ensures t.head == Null <==> forall i: nat :: Get(t, i) == Null
    ensures !t.head.Child? <==> forall i: nat :: i > 0 ==> Get(t, i) == Null
    ensures t.head.Child? ==> (forall i: nat :: Get(t, i) != Null ==> Pfx(i, RootLevel(t) + 1) == 0)
                              && exists i: nat :: Get(t, i) != Null && Pfx(i, RootLevel(t)) > 0
  {
    if t.head.Child? {
      var r := t.head.addr;
      assert NodeOk(t, r);
      var o :| 1 <= o < 64 && t.nodes[r].slots[o] != Null;
      var i := Inhabited(t, r, o);
      if i == 0 { PfxZero(0, 0, RootLevel(t)); }
      forall i: nat | Pfx(i, RootLevel(t) + 1) != 0 ensures Get(t, i) == Null { BeyondRoot(t, i); }
    } else {
      assert Get(t, 0) == t.head;
    }
  }
}
