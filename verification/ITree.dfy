/**
 * The invariant of the ID allocator on snapshots of its radix tree.  Tag 0 of
 * a slot says that an ID is free there or below, so a leaf slot may hold NULL
 * and still be taken: tag and count together decide.
 */
module ITree {
  import opened Memory
  import opened Radix
  import opened XTree

  const FREE: nat := 0

  // ----------------------------------------------------------------- counts

  /** The number of offsets below n that are not free. */
  ghost function Taken(free: set<nat>, n: nat): nat
  {
    if n == 0 then 0 else Taken(free, n - 1) + (if n - 1 in free then 0 else 1)
  }

  lemma {:induction false} TakenIs(free: set<nat>, n: nat)
    ensures Taken(free, n) == |set o: nat | o < n && o !in free|
  {
    if n > 0 {
      TakenIs(free, n - 1);
      var a, b := set o: nat | o < n && o !in free, set o: nat | o < n - 1 && o !in free;
      assert a == if n - 1 in free then b else b + {n - 1};
    } else {
      assert (set o: nat | o < 0 && o !in free) == {};
    }
  }

  lemma {:induction false} TakenSame(free: set<nat>, free': set<nat>, n: nat)
    requires forall o :: 0 <= o < n ==> (o in free <==> o in free')
    ensures Taken(free, n) == Taken(free', n)
  {
    if n > 0 { TakenSame(free, free', n - 1); }
  }

  lemma {:induction false} TakenFlip(free: set<nat>, o: nat, n: nat)
    requires o < n && o in free
    ensures Taken(free - {o}, n) == Taken(free, n) + 1
  {
    if o < n - 1 {
      TakenFlip(free, o, n - 1);
    } else {
      TakenSame(free - {o}, free, n - 1);
    }
  }

  lemma {:induction false} TakenZero(free: set<nat>, n: nat)
    ensures Taken(free, n) <= n
    ensures Taken(free, n) == 0 <==> forall o :: 0 <= o < n ==> o in free
  {
    if n > 0 { TakenZero(free, n - 1); }
  }

  /** With the first slot taken, a count of 1 means that no other is. */
  lemma {:induction false} TakenOne(free: set<nat>, n: nat)
    requires n > 0 && 0 !in free
    ensures Taken(free, n) >= 1
    ensures Taken(free, n) == 1 <==> forall o :: 1 <= o < n ==> o in free
  {
    if n > 1 { TakenOne(free, n - 1); }
  }

  // -------------------------------------------------------------- invariant

  ghost predicate INode(n: Node)
  {
    && |n.slots| == 64 && |n.marks| == MARKS && n.level <= TOP
    && (forall o {:trigger o in n.marks[FREE]} :: o in n.marks[FREE] ==> o < 64)
    && n.nrValues == Tally(n.slots, true) && Retry !in n.slots
    && n.count == (if n.level == 0 then Taken(n.marks[FREE], 64) else Tally(n.slots, false))
    && (forall o {:trigger n.slots[o]} :: 0 <= o < 64 ==>
          if n.level == 0 then n.slots[o] != Null ==> o !in n.marks[FREE]
          else n.slots[o] == Null ==> o in n.marks[FREE])
  }

  lemma NodeTags(n: Node, o: nat)
    requires INode(n) && o < 64
    ensures |n.slots| == 64 && |n.marks| == MARKS
    ensures if n.level == 0 then n.slots[o] != Null ==> o !in n.marks[FREE]
            else n.slots[o] == Null ==> o in n.marks[FREE]
  {
    assert n.slots[o] == n.slots[o];
  }

  ghost predicate HasFree(t: Tree, a: Addr)
  {
    a in t.nodes && |t.nodes[a].marks| == MARKS && t.nodes[a].marks[FREE] != {}
  }

  ghost predicate FreeBit(t: Tree, a: Addr, o: nat)
  {
    a in t.nodes && |t.nodes[a].marks| == MARKS && o in t.nodes[a].marks[FREE]
  }

  /** The tag above a child says whether the child has a free slot. */
  ghost predicate FSum(t: Tree, a: Addr, o: nat)
    requires a in t.nodes && o < |t.nodes[a].slots|
  {
    t.nodes[a].slots[o].Child? ==> (FreeBit(t, a, o) <==> HasFree(t, t.nodes[a].slots[o].addr))
  }

  /** The tag of the root; an ID 0 kept in the head is live. */
  ghost predicate FFlag(t: Tree)
  {
    match t.head
    case Child(r) => FREE in t.flags <==> HasFree(t, r)
    case Null => true
    case _ => FREE !in t.flags
  }

  /** Every node is in order, except perhaps the leaf that an operation is changing. */
  ghost predicate INodesBut(t: Tree, hole: Option<Addr>)
  {
    forall a {:trigger INode(t.nodes[a])} :: a in t.nodes && hole != Some(a) ==> INode(t.nodes[a])
  }

  /** Every tag is right, except perhaps that of slot off of cur, or of the root for None. */
  ghost predicate FSumsBut(t: Tree, cur: Option<Addr>, off: nat)
    requires Links(t)
  {
    && (forall a, o {:trigger FSum(t, a, o)} :: a in t.nodes && 0 <= o < 64 ==>
          assert NodeOk(t, a); (cur == Some(a) && o == off) || FSum(t, a, o))
    && (cur == None || FFlag(t))
  }

  ghost predicate FSums(t: Tree)
    requires Links(t)
  {
    && (forall a, o {:trigger FSum(t, a, o)} :: a in t.nodes && 0 <= o < 64 ==> assert NodeOk(t, a); FSum(t, a, o))
    && FFlag(t)
  }

  /** Leaves hold at least one live ID. */
  ghost predicate LeavesLive(t: Tree)
  {
    forall a :: a in t.nodes && t.nodes[a].level == 0 ==> t.nodes[a].count > 0
  }

  ghost predicate IBase(t: Tree)
  {
    Links(t) && INodesBut(t, None) && FSums(t) && t.head != Retry
  }

  ghost predicate IInv(t: Tree)
  {
    IBase(t) && LeavesLive(t)
  }

  // ---------------------------------------------------------------- meaning

  /** Is ID i free? */
  ghost predicate Free(t: Tree, i: nat)
  {
    if t.head.Child? then (0, i / 64) in t.dir ==> FreeBit(t, t.dir[(0, i / 64)], i % 64)
    else i == 0 ==> FREE in t.flags
  }

  /** Two trees hold the same pointers and have the same IDs free. */
  ghost predicate SameIds(t: Tree, t': Tree)
  {
    && Links(t) && Links(t')
    && (forall i: nat :: Get(t', i) == Get(t, i))
    && (forall i: nat :: Free(t', i) <==> Free(t, i))
  }

  lemma SameIdsTrans(t0: Tree, t1: Tree, t2: Tree)
    requires SameIds(t0, t1) && SameIds(t1, t2)
    ensures SameIds(t0, t2)
  {
    forall i: nat ensures Get(t2, i) == Get(t0, i) { }
    forall i: nat ensures Free(t2, i) <==> Free(t0, i) { }
  }

  // ---------------------------------------------------------------- growing

  /** The bits below n. */
  function Bits(n: nat): (s: set<nat>)
    ensures forall o: nat {:trigger o in s} :: o in s <==> o < n
  {
    if n == 0 then {} else Bits(n - 1) + {n - 1}
  }

  function AllSlots(): (s: set<nat>)
    ensures forall o: nat {:trigger o in s} :: o in s <==> o < 64
  {
    Bits(64)
  }

  /** radix_tree_node_alloc and all_tag_set. */
  function FreeNode(level: nat, parent: Option<Addr>, offset: nat): (n: Node)
    ensures Blank(n) && (level <= TOP ==> INode(n)) && |n.marks| == MARKS && n.marks[FREE] != {}
  {
    var n := Node(level, offset, 0, 0, parent, seq(64, _ => Null), [AllSlots(), {}, {}]);
    assert 0 in n.marks[FREE];
    assert level <= TOP ==> INode(n) by {
      TallyZero(n.slots, true);
      TallyZero(n.slots, false);
      TakenZero(n.marks[FREE], 64);
    }
    n
  }

  ghost predicate CanHangFree(t: Tree, p: Addr, o: nat, c: Addr)
    requires Links(t)
  {
    && p in t.nodes && c !in t.nodes && t.nodes[p].level > 0
    && o < 64 && |t.nodes[p].slots| == 64 && t.nodes[p].slots[o] == Null
  }

  ghost function HangFree(t: Tree, p: Addr, o: nat, c: Addr): Tree
    requires Links(t) && CanHangFree(t, p, o, c)
  {
    AddChild(t, p, o, Grown(t.nodes[p], o, c), c, FreeNode(t.nodes[p].level - 1, Some(p), o))
  }

  lemma HangFreeNodes(t: Tree, p: Addr, o: nat, c: Addr)
    requires IBase(t) && CanHangFree(t, p, o, c)
    ensures Links(HangFree(t, p, o, c)) && INodesBut(HangFree(t, p, o, c), None)
  {
    var t' := HangFree(t, p, o, c);
    AddChildLinks(t, p, o, t'.nodes[p], c, t'.nodes[c]);
    assert INode(t.nodes[p]) && NodeOk(t, p);
    TallyUpdate(t.nodes[p].slots, o, Child(c), false);
    TallyUpdate(t.nodes[p].slots, o, Child(c), true);
    assert INode(t'.nodes[p]);
    forall x | x in t'.nodes ensures INode(t'.nodes[x]) {
      if x != c && x != p { assert INode(t.nodes[x]); }
    }
  }

  lemma HangFreeBase(t: Tree, p: Addr, o: nat, c: Addr)
    requires IBase(t) && CanHangFree(t, p, o, c)
    ensures IBase(HangFree(t, p, o, c))
  {
    hide INode, FreeNode;
    var t' := HangFree(t, p, o, c);
    HangFreeNodes(t, p, o, c);
    NodeTags(t.nodes[p], o);
    forall x, j | x in t'.nodes && 0 <= j < 64 ensures NodeOk(t', x) && FSum(t', x, j) {
      assert NodeOk(t', x);
      if x != c { assert NodeOk(t, x) && FSum(t, x, j) && SlotOk(t, x, j); }
    }
  }

  lemma HangFreeIds(t: Tree, p: Addr, o: nat, c: Addr)
    requires IBase(t) && CanHangFree(t, p, o, c) && Links(HangFree(t, p, o, c))
    ensures SameIds(t, HangFree(t, p, o, c))
  {
    var t' := HangFree(t, p, o, c);
    AddChildDir(t, p, o, t'.nodes[p], c, t'.nodes[c]);
    forall i: nat ensures Get(t', i) == Get(t, i) {
      AddChildGet(t, p, o, t'.nodes[p], c, t'.nodes[c], i);
    }
    forall i: nat ensures Free(t', i) <==> Free(t, i) { }
  }

  lemma FirstFree(t: Tree, c: Addr, level: nat)
    requires IBase(t) && t.head == Null && FREE in t.flags && level <= TOP
    ensures var t' := FirstRoot(t, c, FreeNode(level, None, 0)); IBase(t') && SameIds(t, t')
  {
    var nc := FreeNode(level, None, 0);
    var t' := FirstRoot(t, c, nc);
    FirstRootLinks(t, c, nc);
    assert INode(t'.nodes[c]);
    forall x, j | x in t'.nodes && 0 <= j < 64 ensures NodeOk(t', x) && FSum(t', x, j) { assert NodeOk(t', x); }
    forall i: nat ensures Free(t', i) <==> Free(t, i) { }
  }

  /** The node that radix_tree_extend puts above the head of an ID allocator. */
  function ExtendNode(head: Entry, flags: set<nat>, level: nat): Node
  {
    Node(level, 0, 1, if head.Value? then 1 else 0, None, [head] + seq(63, _ => Null),
         [if FREE in flags then AllSlots() else AllSlots() - {0}, {}, {}])
  }

  ghost function Extend(t: Tree, c: Addr, level: nat): Tree
    requires HeadOk(t)
  {
    NewRoot(t, c, ExtendNode(t.head, t.flags, level)).(flags := t.flags + {FREE})
  }

  ghost predicate CanExtend(t: Tree, c: Addr, level: nat)
    requires HeadOk(t)
  {
    && c !in t.nodes && level <= TOP
    && level == (if t.head.Child? then RootLevel(t) + 1 else 0)
    && (t.head == Null ==> FREE !in t.flags)
  }

  lemma ExtendNodeOk(head: Entry, flags: set<nat>, level: nat)
    requires level <= TOP && head != Retry
    requires if level == 0 then FREE !in flags && !head.Child? else head != Null
    ensures INode(ExtendNode(head, flags, level))
  {
    var n := ExtendNode(head, flags, level);
    assert n.slots[1..] == seq(63, _ => Null);
    TallyZero(n.slots[1..], false);
    TallyZero(n.slots[1..], true);
    if level == 0 {
      TakenOne(n.marks[FREE], 64);
    }
  }

  lemma ExtendNodes(t: Tree, c: Addr, level: nat)
    requires IBase(t) && CanExtend(t, c, level)
    ensures Links(Extend(t, c, level)) && INodesBut(Extend(t, c, level), None)
  {
    var t1 := NewRoot(t, c, ExtendNode(t.head, t.flags, level));
    var t' := Extend(t, c, level);
    NewRootLinks(t, c, t1.nodes[c]);
    FlagLinks(t1, FREE, true);
    assert t' == WithFlag(t1, FREE, true);
    ExtendNodeOk(t.head, t.flags, level);
    forall x | x in t'.nodes ensures INode(t'.nodes[x]) {
      if x != c { assert INode(t.nodes[x]); }
    }
  }

  lemma ExtendBase(t: Tree, c: Addr, level: nat)
    requires IBase(t) && CanExtend(t, c, level)
    ensures IBase(Extend(t, c, level))
  {
    hide INode, FSum, ExtendNode;
    var t' := Extend(t, c, level);
    ExtendNodes(t, c, level);
    forall x, j | x in t'.nodes && 0 <= j < 64 ensures NodeOk(t', x) && FSum(t', x, j) {
      assert NodeOk(t', x);
      ExtendSum(t, c, level, x, j);
    }
    ExtendFlag(t, c, level);
  }

  lemma ExtendSum(t: Tree, c: Addr, level: nat, x: Addr, j: nat)
    requires IBase(t) && CanExtend(t, c, level) && x in Extend(t, c, level).nodes && j < 64
    requires j < |Extend(t, c, level).nodes[x].slots|
    ensures FSum(Extend(t, c, level), x, j)
  {
    hide INode;
    if x != c { assert NodeOk(t, x) && FSum(t, x, j) && SlotOk(t, x, j); }
  }

  lemma ExtendFlag(t: Tree, c: Addr, level: nat)
    requires IBase(t) && CanExtend(t, c, level)
    ensures FFlag(Extend(t, c, level)) && Extend(t, c, level).head == Child(c)
  {
    hide INode;
    assert 1 in Extend(t, c, level).nodes[c].marks[FREE];
  }

  lemma ExtendIds(t: Tree, c: Addr, level: nat)
    requires IBase(t) && CanExtend(t, c, level) && Links(Extend(t, c, level))
    ensures SameIds(t, Extend(t, c, level))
  {
    var t1 := NewRoot(t, c, ExtendNode(t.head, t.flags, level));
    var t' := Extend(t, c, level);
    NewRootLinks(t, c, t1.nodes[c]);
    forall i: nat ensures Get(t', i) == Get(t, i) {
      NewRootGet(t, c, t1.nodes[c], i);
      assert Get(t', i) == Get(t1, i);
    }
    forall i: nat ensures Free(t', i) <==> Free(t, i) { }
  }

  // ------------------------------------------------------------------- tags

  /** The tag that may be wrong ought to be b. */
  ghost predicate FPending(t: Tree, hole: Option<Addr>, cur: Option<Addr>, off: nat, b: bool)
  {
    match cur
    case Some(a) =>
      && a in t.nodes && off < 64 == |t.nodes[a].slots| && |t.nodes[a].marks| == MARKS
      && (if t.nodes[a].slots[off].Child? then HasFree(t, t.nodes[a].slots[off].addr) <==> b else hole == cur)
    case None =>
      match t.head
      case Child(r) => HasFree(t, r) <==> b
      case Null => true
      case _ => !b
  }

  /** The leaf that an operation is changing. */
  ghost predicate HoleOk(t: Tree, hole: Option<Addr>)
  {
    hole.Some? ==>
      && hole.value in t.nodes && |t.nodes[hole.value].marks| == MARKS && t.nodes[hole.value].level == 0
      && forall o {:trigger o in t.nodes[hole.value].marks[FREE]} :: o in t.nodes[hole.value].marks[FREE] ==> o < 64
  }

  /** The state of the upward loops of node_tag_set and node_tag_clear. */
  ghost predicate FreeLoop(t: Tree, hole: Option<Addr>, cur: Option<Addr>, off: nat, b: bool)
  {
    && Links(t) && INodesBut(t, hole) && HoleOk(t, hole) && t.head != Retry
    && FSumsBut(t, cur, off) && FPending(t, hole, cur, off, b)
  }

  /** The tags are in order again; the leaf may still not be. */
  ghost predicate FDone(t: Tree, hole: Option<Addr>)
  {
    Links(t) && INodesBut(t, hole) && HoleOk(t, hole) && FSums(t) && t.head != Retry
  }

  lemma FreeLoopStop(t: Tree, hole: Option<Addr>, a: Addr, off: nat, b: bool)
    requires FreeLoop(t, hole, Some(a), off, b) && FreeBit(t, a, off) == b
    ensures FDone(t, hole)
  {
    forall x, j | x in t.nodes && 0 <= j < 64 ensures NodeOk(t, x) && FSum(t, x, j) { assert NodeOk(t, x); }
  }

  lemma FreeBitNodes(t: Tree, hole: Option<Addr>, a: Addr, off: nat, b: bool)
    requires FreeLoop(t, hole, Some(a), off, b)
    ensures |t.nodes[a].marks| == MARKS
    ensures Links(WithBit(t, a, off, FREE, b)) && INodesBut(WithBit(t, a, off, FREE, b), hole)
    ensures SameChildren(t.nodes[a], NodeBit(t.nodes[a], off, FREE, b))
  {
    var n' := NodeBit(t.nodes[a], off, FREE, b);
    assert NodeOk(t, a) && SlotOk(t, a, off);
    forall o | 0 <= o < 64 ensures t.nodes[a].level == 0 ==> !n'.slots[o].Child? { assert SlotOk(t, a, o); }
    WithNodeLinks(t, a, n');
    var t' := WithBit(t, a, off, FREE, b);
    forall x | x in t'.nodes && hole != Some(x) ensures INode(t'.nodes[x]) {
      assert INode(t.nodes[x]);
    }
  }

  lemma FreeBitSums(t: Tree, hole: Option<Addr>, a: Addr, off: nat, b: bool)
    requires FreeLoop(t, hole, Some(a), off, b) && |t.nodes[a].marks| == MARKS
    requires Links(WithBit(t, a, off, FREE, b))
    ensures FSumsBut(WithBit(t, a, off, FREE, b), t.nodes[a].parent, t.nodes[a].offset)
    ensures HasFree(WithBit(t, a, off, FREE, b), a) == HasFree(t, a) ==> FSums(WithBit(t, a, off, FREE, b))
  {
    hide INode;
    var t' := WithBit(t, a, off, FREE, b);
    assert NodeOk(t, a);
    forall x, j | x in t'.nodes && 0 <= j < 64
      ensures NodeOk(t', x)
      ensures (t.nodes[a].parent == Some(x) && j == t.nodes[a].offset) || FSum(t', x, j)
      ensures HasFree(t', a) == HasFree(t, a) ==> FSum(t', x, j)
    {
      assert NodeOk(t', x) && NodeOk(t, x) && SlotOk(t, x, j);
      if x != a || j != off { assert FSum(t, x, j); }
    }
  }

  /** One round of node_tag_set or node_tag_clear. */
  lemma FreeLoopStep(t: Tree, hole: Option<Addr>, a: Addr, off: nat, b: bool)
    requires FreeLoop(t, hole, Some(a), off, b)
    ensures |t.nodes[a].marks| == MARKS
    ensures var t' := WithBit(t, a, off, FREE, b);
            && (HasFree(t', a) == b ==> FreeLoop(t', hole, t.nodes[a].parent, t.nodes[a].offset, b))
            && (HasFree(t', a) == HasFree(t, a) ==> FDone(t', hole))
  {
    FreeBitNodes(t, hole, a, off, b);
    FreeBitSums(t, hole, a, off, b);
    assert NodeOk(t, a);
    var p := t.nodes[a].parent;
    if p.Some? {
      ParentFacts(t, a);
      if hole != p { assert INode(t.nodes[p.value]); }
    }
  }

  lemma FreeLoopFlag(t: Tree, hole: Option<Addr>, off: nat, b: bool)
    requires FreeLoop(t, hole, None, off, b)
    ensures FDone(WithFlag(t, FREE, b), hole)
  {
    hide INode;
    var t' := WithFlag(t, FREE, b);
    FlagLinks(t, FREE, b);
    forall x, j | x in t'.nodes && 0 <= j < 64 ensures NodeOk(t', x) && FSum(t', x, j) {
      assert NodeOk(t, x) && NodeOk(t', x) && FSum(t, x, j);
    }
  }

  /** The reads differ at most in whether ID i is free, which is b in the second. */
  ghost predicate FreedTo(t: Tree, t': Tree, i: nat, b: bool)
  {
    && Links(t) && Links(t')
    && (forall j: nat :: Get(t', j) == Get(t, j))
    && (forall j: nat :: Free(t', j) <==> if j == i then b else Free(t, j))
  }

  /** The place of an ID: slot off of a leaf, or the head. */
  ghost predicate IdSpot(t: Tree, cur: Option<Addr>, off: nat, i: nat)
  {
    match cur
    case Some(a) => a in t.nodes && a in t.pfx && t.nodes[a].level == 0 && off < 64 && i == 64 * t.pfx[a] + off
    case None => i == 0 && !t.head.Child?
  }

  ghost predicate FreeRun(t0: Tree, t: Tree, hole: Option<Addr>, cur: Option<Addr>, off: nat, b: bool, i: nat)
  {
    && Links(t0) && FreeLoop(t, hole, cur, off, b) && SameNodes(t0, t)
    && (if t == t0 && IdSpot(t0, cur, off, i) then true
        else t0.head.Child? && (cur.Some? ==> t.nodes[cur.value].level > 0) && FreedTo(t0, t, i, b))
  }

  lemma FreeRunStop(t0: Tree, t: Tree, hole: Option<Addr>, a: Addr, off: nat, b: bool, i: nat)
    requires FreeRun(t0, t, hole, Some(a), off, b, i) && FreeBit(t, a, off) == b
    ensures FDone(t, hole) && FreedTo(t0, t, i, b) && SameNodes(t0, t)
  {
    FreeLoopStop(t, hole, a, off, b);
    assert IsPosition(t, a);
  }

  lemma FreeRunReads(t0: Tree, t: Tree, hole: Option<Addr>, a: Addr, off: nat, b: bool, i: nat)
    requires FreeRun(t0, t, hole, Some(a), off, b, i) && |t.nodes[a].marks| == MARKS
    requires Links(WithBit(t, a, off, FREE, b)) && SameChildren(t.nodes[a], NodeBit(t.nodes[a], off, FREE, b))
    ensures FreedTo(t0, WithBit(t, a, off, FREE, b), i, b)
  {
    hide INode;
    var t' := WithBit(t, a, off, FREE, b);
    assert NodeOk(t, a) && IsPosition(t, a);
    forall j: nat ensures Get(t', j) == Get(t0, j) {
      WithNodeGet(t, a, NodeBit(t.nodes[a], off, FREE, b), j);
    }
    forall j: nat ensures Free(t', j) <==> if j == i then b else Free(t0, j) {
      assert t.head.Child?;
      if (0, j / 64) in t.dir {
        var x := t.dir[(0, j / 64)];
        if x == a {
          assert t == t0;
          assert FreeBit(t', a, j % 64) <==> if j % 64 == off then b else FreeBit(t, a, j % 64);
        } else {
          assert FreeBit(t', x, j % 64) <==> FreeBit(t, x, j % 64);
        }
      }
      if t == t0 && IdSpot(t0, Some(a), off, i) {
      } else {
        assert Free(t', j) <==> Free(t, j);
      }
    }
  }

  lemma FreeRunStep(t0: Tree, t: Tree, hole: Option<Addr>, a: Addr, off: nat, b: bool, i: nat)
    requires FreeRun(t0, t, hole, Some(a), off, b, i)
    ensures a in t.nodes && |t.nodes[a].marks| == MARKS && t.nodes[a].level <= TOP
    ensures var t', p := WithBit(t, a, off, FREE, b), t.nodes[a].parent;
            && (HasFree(t', a) == b ==> FreeRun(t0, t', hole, p, t.nodes[a].offset, b, i))
            && (HasFree(t', a) == HasFree(t, a) ==> FDone(t', hole) && FreedTo(t0, t', i, b) && SameNodes(t0, t'))
            && (p.Some? ==> p.value in t.nodes && t.nodes[p.value].level == t.nodes[a].level + 1)
  {
    hide FreedTo, FDone, INode;
    FreeLoopStep(t, hole, a, off, b);
    FreeBitNodes(t, hole, a, off, b);
    FreeRunReads(t0, t, hole, a, off, b, i);
    assert NodeOk(t, a);
    if t.nodes[a].parent.Some? { ParentFacts(t, a); }
  }

  lemma FreeRunFlag(t0: Tree, t: Tree, hole: Option<Addr>, off: nat, b: bool, i: nat)
    requires FreeRun(t0, t, hole, None, off, b, i)
    ensures var t' := WithFlag(t, FREE, b); FDone(t', hole) && FreedTo(t0, t', i, b) && SameNodes(t0, t')
  {
    hide INode;
    var t' := WithFlag(t, FREE, b);
    FreeLoopFlag(t, hole, off, b);
    forall j: nat ensures Get(t', j) == Get(t, j) { }
    forall j: nat ensures Free(t', j) <==> if j == i then b else Free(t0, j) {
      if t.head.Child? { assert Free(t', j) <==> Free(t, j); }
    }
  }

  // ------------------------------------------------ taking and freeing an ID

  /** Writing slot o of a leaf leaves the tags alone. */
  lemma LeafWrite(t: Tree, a: Addr, n: Node)
    requires FDone(t, Some(a)) && n.marks == t.nodes[a].marks && SameChildren(t.nodes[a], n)
    ensures FDone(WithNode(t, a, n), Some(a))
    ensures forall j: nat :: Free(WithNode(t, a, n), j) <==> Free(t, j)
    ensures forall j: nat :: Get(WithNode(t, a, n), j) ==
              if n.level == 0 && t.pfx[a] == j / 64 then n.slots[j % 64] else Get(t, j)
  {
    hide INode;
    var t' := WithNode(t, a, n);
    WithNodeLinks(t, a, n);
    assert NodeOk(t, a);
    forall x | x in t'.nodes && Some(x) != Some(a) ensures INode(t'.nodes[x]) { assert INode(t.nodes[x]); }
    forall x, j | x in t'.nodes && 0 <= j < 64 ensures NodeOk(t', x) && FSum(t', x, j) {
      assert NodeOk(t, x) && NodeOk(t', x) && FSum(t, x, j) && SlotOk(t, x, j) && SlotOk(t', x, j);
    }
    forall j: nat ensures Free(t', j) <==> Free(t, j) { }
    forall j: nat ensures Get(t', j) == if n.level == 0 && t.pfx[a] == j / 64 then n.slots[j % 64] else Get(t, j) {
      WithNodeGet(t, a, n, j);
    }
  }

  /** A tree whose leaf a is in order is in order. */
  lemma HoleFilled(t: Tree, a: Addr)
    requires FDone(t, Some(a)) && INode(t.nodes[a])
    ensures IBase(t)
  {
  }

  lemma MakeHole(t: Tree, a: Addr)
    requires IBase(t) && a in t.nodes && t.nodes[a].level == 0
    ensures FDone(t, Some(a))
  {
    assert INode(t.nodes[a]);
  }

  /** The bits of a leaf are what the reads say of its IDs. */
  lemma LeafBits(t: Tree, a: Addr, o: nat)
    requires Links(t) && a in t.nodes && t.nodes[a].level == 0 && |t.nodes[a].marks| == MARKS && o < 64
    ensures FreeBit(t, a, o) <==> Free(t, 64 * t.pfx[a] + o)
  {
    assert IsPosition(t, a);
  }

  /** After the tag loop, the bits of the leaf are the old ones but for the one of the ID. */
  lemma LeafBitsAfter(t: Tree, t': Tree, a: Addr, off: nat, b: bool)
    requires Links(t) && SameNodes(t, t') && HoleOk(t, Some(a)) && HoleOk(t', Some(a)) && off < 64
    requires FreedTo(t, t', 64 * t.pfx[a] + off, b)
    ensures t'.nodes[a].marks[FREE] == if b then t.nodes[a].marks[FREE] + {off} else t.nodes[a].marks[FREE] - {off}
  {
    var f, f' := t.nodes[a].marks[FREE], t'.nodes[a].marks[FREE];
    forall o: nat ensures o in f' <==> if o == off then b else o in f {
      if o < 64 {
        LeafBits(t, a, o);
        LeafBits(t', a, o);
      }
    }
  }

  /** The leaf after an ID in it was taken with pointer p. */
  lemma TakenLeaf(n: Node, n': Node, off: nat, p: Entry)
    requires INode(n) && n.level == 0 && off in n.marks[FREE] && UserEntry(p)
    requires n'.slots == n.slots[off := p] && n'.level == 0 && |n'.marks| == MARKS
    requires n'.marks[FREE] == n.marks[FREE] - {off} && n'.count == n.count + 1
    requires n'.nrValues == n.nrValues + (if p.Value? then 1 else 0)
    ensures INode(n')
  {
    TakenFlip(n.marks[FREE], off, 64);
    assert n.slots[off] == Null;
    TallyUpdate(n.slots, off, p, true);
  }

  /** The leaf after an ID in it was freed. */
  lemma FreedLeaf(n: Node, n': Node, off: nat)
    requires INode(n) && n.level == 0 && off < 64 && off !in n.marks[FREE]
    requires n'.slots == n.slots[off := Null] && n'.level == 0 && |n'.marks| == MARKS
    requires n'.marks[FREE] == n.marks[FREE] + {off} && n'.count == n.count - 1
    requires n'.nrValues == n.nrValues - (if n.slots[off].Value? then 1 else 0)
    ensures INode(n')
  {
    TakenFlip(n'.marks[FREE], off, 64);
    assert n'.marks[FREE] - {off} == n.marks[FREE];
    TallyUpdate(n.slots, off, Null, true);
  }

  lemma CountPositive(n: Node, off: nat)
    requires INode(n) && n.level == 0 && off < 64 && off !in n.marks[FREE]
    ensures n.count > 0 && (n.slots[off].Value? ==> n.nrValues > 0)
  {
    TakenZero(n.marks[FREE], 64);
    TallyZero(n.slots, true);
  }

  /** The leaf after the pointer of a live ID was replaced. */
  lemma ReplacedLeaf(n: Node, off: nat, p: Entry)
    requires INode(n) && n.level == 0 && off < 64 && off !in n.marks[FREE] && UserEntry(p)
    ensures n.nrValues + Delta(n.slots[off], p, true) >= 0
    ensures INode(n.(slots := n.slots[off := p], nrValues := n.nrValues + Delta(n.slots[off], p, true)))
  {
    TallyUpdate(n.slots, off, p, true);
  }

  // --------------------------------------------------------------- shrinking

  /** A node that counts nothing has only free, empty slots. */
  lemma EmptyNode(n: Node)
    requires INode(n) && n.count == 0
    ensures Blank(n) && n.marks[FREE] != {} && forall o :: 0 <= o < 64 ==> o in n.marks[FREE]
  {
    if n.level == 0 { TakenZero(n.marks[FREE], 64); } else { TallyZero(n.slots, false); }
    forall o | 0 <= o < 64 ensures o in n.marks[FREE] { assert n.slots[o] == Null; }
    assert 0 in n.marks[FREE];
  }

  lemma IPruneNodes(t: Tree, a: Addr)
    requires IBase(t) && a in t.nodes && t.nodes[a].parent.Some? && t.nodes[a].count == 0
    ensures CanPrune(t, a) && Links(Prune(t, a)) && INodesBut(Prune(t, a), None)
    ensures t.nodes[t.nodes[a].parent.value].level == t.nodes[a].level + 1
  {
    var n, p := t.nodes[a], t.nodes[a].parent.value;
    assert INode(n) && NodeOk(t, a);
    EmptyNode(n);
    ParentFacts(t, a);
    assert INode(t.nodes[p]) && NodeOk(t, p) && FSum(t, p, n.offset);
    TallyUpdate(t.nodes[p].slots, n.offset, Null, false);
    TallyUpdate(t.nodes[p].slots, n.offset, Null, true);
    var np := Pruned(t.nodes[p], n.offset);
    DropNodeLinks(t, a, np);
    assert INode(np);
    var t' := Prune(t, a);
    forall x | x in t'.nodes ensures INode(t'.nodes[x]) { if x != p { assert INode(t.nodes[x]); } }
  }

  lemma IPruneSums(t: Tree, a: Addr)
    requires IBase(t) && CanPrune(t, a) && Links(Prune(t, a))
    ensures FSums(Prune(t, a))
  {
    hide INode;
    var t' := Prune(t, a);
    ParentFacts(t, a);
    forall x, j | x in t'.nodes && 0 <= j < 64 ensures NodeOk(t', x) && FSum(t', x, j) {
      assert NodeOk(t', x) && NodeOk(t, x) && FSum(t, x, j) && SlotOk(t, x, j);
    }
  }

  /** One round of delete_node below the root. */
  lemma IPrune(t: Tree, a: Addr)
    requires IBase(t) && a in t.nodes && t.nodes[a].parent.Some? && t.nodes[a].count == 0
    ensures CanPrune(t, a) && IBase(Prune(t, a)) && SameIds(t, Prune(t, a))
    ensures t.nodes[t.nodes[a].parent.value].level == t.nodes[a].level + 1
  {
    IPruneNodes(t, a);
    IPruneSums(t, a);
    var t' := Prune(t, a);
    assert INode(t.nodes[a]) && NodeOk(t, a) && IsPosition(t, a);
    EmptyNode(t.nodes[a]);
    hide INode;
    forall i: nat ensures Get(t', i) == Get(t, i) {
      DropNodeGet(t, a, Pruned(t.nodes[t.nodes[a].parent.value], t.nodes[a].offset), i);
    }
    forall i: nat ensures Free(t', i) <==> Free(t, i) { }
  }

  /** The last round of delete_node. */
  lemma IDropRoot(t: Tree)
    requires IBase(t) && t.head.Child? && t.nodes[t.head.addr].count == 0
    ensures IBase(Bare(t, Null)) && SameIds(t, Bare(t, Null))
    ensures t.nodes.Keys == {t.head.addr} && t.pfx.Keys == {t.head.addr}
    ensures t.dir.Keys == {(t.nodes[t.head.addr].level, 0)}
  {
    var r := t.head.addr;
    assert INode(t.nodes[r]) && NodeOk(t, r);
    EmptyNode(t.nodes[r]);
    BareLinks(t, Null);
    LoneRoot(t);
    forall i: nat ensures Free(Bare(t, Null), i) <==> Free(t, i) { }
  }

  ghost function IPop(t: Tree): Tree
    requires Links(t) && CanPop(t)
  {
    PopRoot(t).(flags := if FreeBit(t, t.head.addr, 0) then t.flags else t.flags - {FREE})
  }

  lemma IPopSums(t: Tree)
    requires IBase(t) && CanPop(t) && Links(PopRoot(t)) && Links(IPop(t))
    ensures FSums(IPop(t))
  {
    var r, t' := t.head.addr, IPop(t);
    assert NodeOk(t, r) && SlotOk(t, r, 0) && INode(t.nodes[r]) && FSum(t, r, 0);
    assert t.nodes[r].slots[1] == Null;
    assert 1 in t.nodes[r].marks[FREE];
    hide INode;
    forall x, j | x in t'.nodes && 0 <= j < 64 ensures NodeOk(t', x) && FSum(t', x, j) {
      assert NodeOk(t', x) && NodeOk(t, x) && FSum(t, x, j) && SlotOk(t, x, j);
    }
  }

  /** One round of radix_tree_shrink on a root above another node. */
  lemma IPopRoot(t: Tree)
    requires IBase(t) && t.head.Child?
    requires var n := t.nodes[t.head.addr]; n.count == 1 && |n.slots| == 64 && n.slots[0].Child?
    ensures CanPop(t) && IBase(IPop(t)) && SameIds(t, IPop(t))
    ensures var r, c := t.head.addr, t.nodes[t.head.addr].slots[0].addr; c != r && t.nodes[c].level < t.nodes[r].level
  {
    var r := t.head.addr;
    assert INode(t.nodes[r]) && NodeOk(t, r) && SlotOk(t, r, 0);
    TallyOne(t.nodes[r].slots);
    PopRootLinks(t);
    if !FreeBit(t, r, 0) { FlagLinks(PopRoot(t), FREE, false); }
    var t' := IPop(t);
    forall x | x in t'.nodes ensures INode(t'.nodes[x]) { assert INode(t.nodes[x]); }
    hide INode;
    IPopSums(t);
    PopRootDir(t);
    forall i: nat ensures Get(t', i) == Get(t, i) { PopRootGet(t, i); assert Get(t', i) == Get(PopRoot(t), i); }
    forall i: nat ensures Free(t', i) <==> Free(t, i) { }
  }

  ghost function IPopHead(t: Tree): Tree
    requires HeadOk(t) && t.head.Child? && |t.nodes[t.head.addr].slots| == 64
  {
    Bare(t, t.nodes[t.head.addr].slots[0]).(flags := t.flags - {FREE})
  }

  /** The last round of radix_tree_shrink: the only live ID is 0 and moves into the head. */
  lemma IPopLeaf(t: Tree)
    requires IBase(t) && t.head.Child?
    requires var n := t.nodes[t.head.addr]; n.count == 1 && |n.slots| == 64 && n.level == 0 && n.slots[0] != Null
    ensures IBase(IPopHead(t)) && SameIds(t, IPopHead(t)) && !FreeBit(t, t.head.addr, 0)
    ensures t.nodes.Keys == {t.head.addr} && t.pfx.Keys == {t.head.addr} && t.dir.Keys == {(0, 0)}
  {
    var r := t.head.addr;
    var n, e := t.nodes[r], t.nodes[r].slots[0];
    assert INode(n) && NodeOk(t, r) && SlotOk(t, r, 0) && IsPosition(t, r);
    TakenOne(n.marks[FREE], 64);
    assert OnlyFirst(n) && e in n.slots;
    PopLeafRootGet(t);
    BareLinks(t, e);
    FlagLinks(Bare(t, e), FREE, false);
    forall o | 0 <= o < 64 ensures !n.slots[o].Child? { assert SlotOk(t, r, o); }
    LoneRoot(t);
    var t' := IPopHead(t);
    forall i: nat ensures Get(t', i) == Get(t, i) { }
    forall i: nat ensures Free(t', i) <==> Free(t, i) { }
  }
}
