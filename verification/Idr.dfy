/**
 * The ID allocator and the operations of its radix tree, as a class that
 * updates the tree in place.
 */
module IdrCode {
  import opened Memory
  import opened Radix
  import opened XTree
  import opened XLook
  import opened ITree
  import opened ILook

  const U32_MAX: nat := 0xFFFF_FFFF

  /** How a search for a free ID ends. */
  datatype Hunt =
    | Found(index: nat, node: Option<Addr>, offset: nat)
    | Grow(start: nat)
    | NoSpace
    | NoMemory

  // ------------------------------------------------------------ small lemmas

  /** radix_tree_load_root: the height of the tree in levels. */
  ghost predicate AtHeight(t: Tree, h: nat)
  {
    HeadOk(t) && h == if t.head.Child? then RootLevel(t) + 1 else 0
  }

  /** shift_maxindex; the source gives all ones for a tree that spans more than a word. */
  function MaxIndexOf(level: nat): nat
    requires Shl(64, level) >= 1
  {
    Shl(64, level) - 1
  }

  lemma {:induction false} ShlPositive(p: nat, l: nat)
    requires p > 0
    ensures Shl(p, l) >= p
  {
    if l > 0 { ShlPositive(p, l - 1); }
  }

  /** An index is within shift_maxindex iff its prefix above the level is 0. */
  lemma FitsLevel(i: nat, l: nat)
    ensures Shl(64, l) >= 1 && (i > MaxIndexOf(l) <==> Pfx(i, l + 1) != 0)
  {
    ShlPositive(64, l);
    PfxBelowShl(i, 64, l);
  }

  lemma IdLevels(i: nat)
    requires i <= MAX_INDEX
    ensures Pfx(i, TOP + 1) == 0
  {
    PfxTop(i);
  }

  lemma HeadFacts(t: Tree)
    requires IBase(t)
    ensures Links(t) && HeadOk(t) && DirOk(t) && SameIds(t, t) && t.head != Retry
    ensures t.head.Child? ==> t.nodes[t.head.addr].level <= TOP && |t.nodes[t.head.addr].slots| == 64
    ensures !t.head.Child? && t.head != Null ==> FREE !in t.flags
    ensures !t.head.Child? ==> t.nodes == map[] && t.pfx == map[] && t.dir == map[]
  {
    if t.head.Child? { assert INode(t.nodes[t.head.addr]); }
  }

  lemma FreeNodeLevel(level: nat, parent: Option<Addr>, offset: nat)
    ensures FreeNode(level, parent, offset).level == level
  {
  }

  lemma LinkFacts(t: Tree, node: Option<Addr>)
    requires Links(t) && if node.Some? then node.value in t.nodes else t.head == Null
    ensures node.None? ==> t.nodes == map[] && t.pfx == map[] && t.dir == map[]
    ensures node.Some? ==> node.value in t.pfx
  {
  }

  lemma AllLiveSame(t: Tree, t': Tree, lo: nat, hi: nat)
    requires SameIds(t, t') && AllLive(t, lo, hi)
    ensures AllLive(t', lo, hi)
  {
  }

  lemma ExtendStep(t0: Tree, t: Tree, c: Addr, level: nat)
    requires IInv(t) && SameIds(t0, t) && CanExtend(t, c, level)
    ensures var t' := Extend(t, c, level);
            && IInv(t') && SameIds(t0, t') && t'.head == Child(c) && t'.nodes[c].level == level
            && AtHeight(t', level + 1)
  {
    ExtendBase(t, c, level);
    ExtendIds(t, c, level);
    SameIdsTrans(t0, t, Extend(t, c, level));
  }

  ghost predicate LeavesBut(t: Tree, a: Addr)
  {
    forall x :: x in t.nodes && t.nodes[x].level == 0 && x != a ==> t.nodes[x].count > 0
  }

  /** The root, if there is one, is no taller than its IDs need. */
  ghost predicate Snug(t: Tree)
  {
    t.head.Child? ==> t.head.addr in t.nodes && Settled(t.nodes[t.head.addr])
  }

  /** Nodes that are still there have the counts they had. */
  ghost predicate KeepsCounts(t: Tree, t': Tree)
  {
    forall a :: a in t'.nodes ==> a in t.nodes && t'.nodes[a].count == t.nodes[a].count
  }

  lemma KeepsSame(t: Tree)
    ensures KeepsCounts(t, t)
  {
  }

  lemma KeepsPopped(t0: Tree, t: Tree, t': Tree)
    requires KeepsCounts(t0, t)
    requires t'.nodes == map[] || (Links(t) && CanPop(t) && t' == IPop(t))
    ensures KeepsCounts(t0, t')
  {
  }

  /** Only nodes that were empty before are empty now, and node x is not. */
  ghost predicate NoneEmptied(t: Tree, t': Tree, x: Addr)
  {
    forall a :: a in t'.nodes && t'.nodes[a].count == 0 ==> a != x && a in t.nodes && t.nodes[a].count == 0
  }

  /** start lies in a part of the tree that is empty so far. */
  ghost predicate Vacant(t: Tree, node: Option<Addr>, o: nat, start: nat)
    decreases node.None?
  {
    match node
    case Some(a) => a in t.nodes && o < |t.nodes[a].slots| && FreeBit(t, a, o) && (t.nodes[a].level > 0 ==> t.nodes[a].slots[o] == Null)
    case None =>
      t.head == Null
      || (t.head.Child? && t.head.addr in t.nodes
          && Vacant(t, Some(t.head.addr), Digit(start, t.nodes[t.head.addr].level), start))
  }

  /** Where the inner loop of idr_get_free is: at the head, or at slot o of a node. */
  ghost predicate HuntAt(t: Tree, node: Option<Addr>, o: nat, child: Entry, height: nat, start: nat, lo: nat)
  {
    && AllLive(t, lo, start) && lo <= start && height <= TOP + 1
    && match node
       case None =>
         && child == t.head && Pfx(start, height) == 0
         && (if t.head.Child? then AtHeight(t, height) else t.head == Null && FREE in t.flags && start > 0 && height > 0)
       case Some(a) =>
         && Hunting(t, a, o, start, lo) && height == t.nodes[a].level && child == t.nodes[a].slots[o]
         && (height == 0 ==> FreeBit(t, a, o))
  }

  /** What a fresh node c at the given level leaves the search with. */
  ghost predicate Filled(t0: Tree, t': Tree, c: Addr, height: nat, start: nat, lo: nat)
  {
    && IBase(t') && SameIds(t0, t') && LeavesBut(t', c) && Covers(t', c, start) && AllLive(t', lo, start)
    && t'.nodes[c].level == height && t'.nodes[c].count == 0
    && (t'.head == Child(c) ==> start > 0)
  }

  lemma FillSlotHunt(t0: Tree, t: Tree, a: Addr, o: nat, c: Addr, height: nat, start: nat, lo: nat)
    requires IInv(t) && SameIds(t0, t) && c !in t.nodes && HuntAt(t, Some(a), o, Null, height + 1, start, lo)
    ensures CanHangFree(t, a, o, c) && Filled(t0, HangFree(t, a, o, c), c, height, start, lo)
  {
    hide INode, Free, SameIds, FSums, AllLive;
    var t' := HangFree(t, a, o, c);
    InSlot(t, a, o, start);
    HangFreeBase(t, a, o, c);
    HangFreeIds(t, a, o, c);
    SameIdsTrans(t0, t, t');
    AllLiveSame(t, t', lo, start);
  }

  lemma FillHeadHunt(t0: Tree, t: Tree, c: Addr, height: nat, start: nat, lo: nat)
    requires IInv(t) && SameIds(t0, t) && HuntAt(t, None, 0, Null, height + 1, start, lo)
    ensures Filled(t0, FirstRoot(t, c, FreeNode(height, None, 0)), c, height, start, lo)
  {
    hide INode, Free, SameIds, FSums, AllLive;
    var t' := FirstRoot(t, c, FreeNode(height, None, 0));
    FirstFree(t, c, height);
    SameIdsTrans(t0, t, t');
    AllLiveSame(t, t', lo, start);
  }

  /** A fresh node in the empty slot on the way to start. */
  lemma FillHunt(t0: Tree, t: Tree, node: Option<Addr>, o: nat, c: Addr, height: nat, start: nat, lo: nat)
    requires IInv(t) && SameIds(t0, t) && c !in t.nodes && HuntAt(t, node, o, Null, height + 1, start, lo)
    ensures node.Some? ==> CanHangFree(t, node.value, o, c)
    ensures var t' := if node.Some? then HangFree(t, node.value, o, c) else FirstRoot(t, c, FreeNode(height, None, 0));
            Filled(t0, t', c, height, start, lo)
  {
    hide IInv, SameIds, Filled, AllLive, CanHangFree;
    if node.Some? { FillSlotHunt(t0, t, node.value, o, c, height, start, lo); } else { FillHeadHunt(t0, t, c, height, start, lo); }
  }

  /** The existing node on the way to start. */
  lemma StepHunt(t: Tree, node: Option<Addr>, o: nat, child: Entry, height: nat, start: nat, lo: nat)
    requires IInv(t) && child != Null && HuntAt(t, node, o, child, height + 1, start, lo)
    ensures child.Child? && Covers(t, child.addr, start) && t.nodes[child.addr].level == height
    ensures t.nodes[child.addr].level == 0 ==> t.nodes[child.addr].count > 0
    ensures Vacant(t, node, o, start) ==> node.None? && Vacant(t, Some(child.addr), Digit(start, height), start)
  {
    if node.Some? { HuntDown(t, node.value, o, start, lo); } else { RootCovers(t, start); }
  }

  /** Everything in a node that counts nothing is vacant. */
  lemma FreshVacant(t: Tree, a: Addr, o: nat, start: nat)
    requires IBase(t) && a in t.nodes && t.nodes[a].count == 0 && o < 64
    ensures Vacant(t, Some(a), o, start)
  {
    assert INode(t.nodes[a]);
    EmptyNode(t.nodes[a]);
  }

  lemma NullVacant(t: Tree, start: nat)
    requires t.head == Null
    ensures Vacant(t, None, 0, start)
  {
  }

  /** After the tree was extended for start, start lies in the empty part. */
  lemma ExtendedVacant(t: Tree, c: Addr, level: nat, start: nat)
    requires Links(t) && CanExtend(t, c, level) && Pfx(start, level + 1) == 0 && Pfx(start, level) != 0
    ensures Vacant(Extend(t, c, level), None, 0, start)
  {
    var t', o := Extend(t, c, level), Digit(start, level);
    assert o > 0;
    assert t'.nodes[c].slots[o] == Null && o in t'.nodes[c].marks[FREE];
  }

  /** Nothing is free in node a any more, and s is where it ends. */
  ghost predicate Full(t: Tree, a: Addr, lo: nat, s: nat)
  {
    a in t.nodes && a in t.pfx && s == Start(t, a, 64) && lo <= s && AllLive(t, lo, s)
  }

  lemma PopHunt(t: Tree, a: Addr, lo: nat, s: nat)
    requires IBase(t) && Full(t, a, lo, s)
    ensures match t.nodes[a].parent
            case Some(p) =>
              && p in t.nodes && t.nodes[p].level == t.nodes[a].level + 1 <= TOP && t.nodes[a].offset < 64
              && (if t.nodes[a].offset + 1 < 64 then Hunting(t, p, t.nodes[a].offset + 1, s, lo) else Full(t, p, lo, s))
            case None => t.head.Child? && HeadOk(t) && s == Shl(64, RootLevel(t))
  {
    HuntPop(t, a, lo);
  }

  /** Slot o of leaf a is the place of i, the least free ID from lo on. */
  ghost predicate FoundAt(t: Tree, a: Addr, o: nat, i: nat, lo: nat)
  {
    && IBase(t) && a in t.nodes && t.nodes[a].level == 0 && o < 64 && FreeBit(t, a, o) && LeavesBut(t, a)
    && i == 64 * t.pfx[a] + o && Free(t, i) && AllLive(t, lo, i) && lo <= i
    && (t.nodes[a].count == 0 && t.head == Child(a) ==> o > 0)
  }

  lemma HuntEnter(t: Tree, a: Addr, height: nat, start: nat, lo: nat)
    requires IBase(t) && Covers(t, a, start) && t.nodes[a].level == height && lo <= start && AllLive(t, lo, start)
    ensures a in t.nodes && |t.nodes[a].slots| == 64 && |t.nodes[a].marks| == MARKS && height <= TOP
    ensures Digit(start, height) < 64 && Hunting(t, a, Digit(start, height), start, lo)
  {
    HuntIn(t, a, start, lo);
  }

  /** A slot that is not tagged belongs to a node that was there before. */
  lemma StillCalm(t: Tree, a: Addr, o: nat, start: nat)
    requires IBase(t) && a in t.nodes && o < 64 && !FreeBit(t, a, o)
    ensures t.nodes[a].count > 0 && !Vacant(t, Some(a), o, start)
  {
    assert INode(t.nodes[a]);
    if t.nodes[a].count == 0 { EmptyNode(t.nodes[a]); }
  }

  lemma AllLeavesBack(t: Tree, a: Addr)
    requires IBase(t) && LeavesBut(t, a) && a in t.nodes && (t.nodes[a].count > 0 || t.nodes[a].level > 0)
    ensures IInv(t)
  {
  }

  lemma SkipHunt(t: Tree, a: Addr, o: nat, next: nat, start: nat, lo: nat)
    requires IBase(t) && Hunting(t, a, o, start, lo) && o < next <= 64 && |t.nodes[a].marks| == MARKS
    requires forall k :: o <= k < next ==> k !in t.nodes[a].marks[FREE]
    ensures var s := NextIndex(start, t.nodes[a].level, next);
            && s > start && AllLive(t, lo, s)
            && (if next < 64 then Hunting(t, a, next, s, lo) else Full(t, a, lo, s))
  {
    HuntSkip(t, a, o, next, start, lo);
  }

  lemma AllLiveLess(t: Tree, lo: nat, hi: nat, hi': nat)
    requires AllLive(t, lo, hi) && hi' <= hi
    ensures AllLive(t, lo, hi')
  {
  }

  lemma HuntSlot(t: Tree, a: Addr, o: nat, start: nat, lo: nat)
    requires Hunting(t, a, o, start, lo)
    ensures a in t.nodes && o < 64 == |t.nodes[a].slots|
  {
  }

  lemma HuntReady(t: Tree, a: Addr, o: nat, height: nat, start: nat, lo: nat)
    requires IBase(t) && Hunting(t, a, o, start, lo) && height == t.nodes[a].level <= TOP
    requires height == 0 ==> FreeBit(t, a, o) && LeavesBut(t, a)
    requires height == 0 && t.nodes[a].count == 0 && t.head == Child(a) ==> start > 0
    ensures o < |t.nodes[a].slots| && HuntAt(t, Some(a), o, t.nodes[a].slots[o], height, start, lo)
    ensures height == 0 ==> FoundAt(t, a, o, start, lo)
  {
    if height == 0 {
      HuntEnd(t, a, o, start, lo);
      assert NodeOk(t, a);
    }
  }

  lemma NoneYet(t: Tree, lo: nat)
    ensures AllLive(t, lo, lo)
  {
  }

  /** Where the tree ends: past it, or, in a full tree, before it, the search goes on at the end. */
  lemma TreeEnd(t: Tree, start: nat, lo: nat)
    requires IInv(t) && AllLive(t, lo, start) && lo <= start
    ensures HeadOk(t)
    ensures var end := if t.head.Child? then Shl(64, RootLevel(t)) else 1;
            && end >= 1
            && (start >= end <==> if t.head.Child? then Pfx(start, RootLevel(t) + 1) != 0 else start > 0)
            && (FREE !in t.flags ==> AllLive(t, lo, if start > end then start else end))
  {
    var end := if t.head.Child? then Shl(64, RootLevel(t)) else 1;
    if t.head.Child? { FitsLevel(start, RootLevel(t)); }
    if FREE !in t.flags { FullTree(t, lo, start, end); }
  }

  /** An ID on the way to which a node is missing is free. */
  lemma MissingFree(t: Tree, node: Option<Addr>, o: nat, height: nat, start: nat, lo: nat)
    requires IInv(t) && HuntAt(t, node, o, Null, height + 1, start, lo)
    ensures Free(t, start)
  {
    if node.Some? {
      InSlot(t, node.value, o, start);
      NoPath(t, node.value, start);
    }
  }

  lemma BeyondFree(t: Tree, start: nat)
    requires IInv(t) && if t.head.Child? then Pfx(start, RootLevel(t) + 1) != 0 else start > 0
    ensures Free(t, start)
  {
    if t.head.Child? { BeyondRoot(t, start); }
  }

  lemma NotAllLive(t0: Tree, t: Tree, lo: nat, hi: nat, i: nat)
    requires SameIds(t0, t) && Free(t, i) && lo <= i < hi
    ensures !AllLive(t0, lo, hi)
  {
    assert Free(t0, i);
  }

  lemma FoundFrom(t: Tree, r: Hunt, lo: nat)
    requires r.Found? ==> r.node.Some? && FoundAt(t, r.node.value, r.offset, r.index, lo)
    ensures r.Found? ==> lo <= r.index
  {
  }

  lemma PopLeaves(t: Tree)
    requires IBase(t) && t.head.Child? && LeavesLive(t) && |t.nodes[t.head.addr].slots| == 64
    ensures CanPop(t) ==> LeavesLive(IPop(t))
    ensures LeavesLive(IPopHead(t))
  {
  }

  lemma INodeFacts(t: Tree, a: Addr)
    requires IBase(t) && a in t.nodes
    ensures DirOk(t) && a in t.pfx && t.nodes[a].level <= TOP && |t.nodes[a].slots| == 64
    ensures |t.nodes[a].marks| == MARKS
    ensures var p := t.nodes[a].parent;
            if p.Some? then p.value in t.nodes && p.value != a && t.nodes[p.value].level == t.nodes[a].level + 1
            else t.head == Child(a) && t.pfx[a] == 0
  {
    assert INode(t.nodes[a]) && NodeOk(t, a);
    if t.nodes[a].parent.Some? { ParentFacts(t, a); }
  }

  lemma LeavesAll(t: Tree, a: Addr)
    requires LeavesBut(t, a) && a in t.nodes && t.nodes[a].count > 0
    ensures LeavesLive(t)
  {
  }

  lemma BareLeaves(t: Tree)
    requires t.nodes == map[]
    ensures LeavesLive(t)
  {
  }

  lemma PruneLeaves(t: Tree, a: Addr)
    requires IBase(t) && CanPrune(t, a) && LeavesBut(t, a)
    requires t.nodes[t.nodes[a].parent.value].level == t.nodes[a].level + 1
    ensures LeavesBut(Prune(t, a), t.nodes[a].parent.value)
  {
  }

  /** How far freeing empty nodes has got from node up to n, from tree t0 to t. */
  ghost predicate Clearing(t0: Tree, t: Tree, node: Addr, n: Addr)
  {
    && n in t.nodes && t.nodes.Keys <= t0.nodes.Keys && (n != node ==> node !in t.nodes) && t.head == t0.head
    && (forall a :: a in t.nodes && a != n && t.nodes[a].count == 0 ==> a != node && t0.nodes[a].count == 0)
    && (t.head != Child(n) && t.head != Child(node) && Snug(t0) ==> Snug(t))
  }

  lemma ClearFirst(t: Tree, node: Addr)
    requires node in t.nodes
    ensures Clearing(t, t, node, node)
  {
  }

  lemma ClearMore(t0: Tree, t: Tree, node: Addr, n: Addr)
    requires Clearing(t0, t, node, n) && IBase(t) && CanPrune(t, n) && t.nodes[n].parent.value != n
    ensures Clearing(t0, Prune(t, n), node, t.nodes[n].parent.value)
  {
  }

  lemma Cleared(t0: Tree, t: Tree, node: Addr, n: Addr)
    requires Clearing(t0, t, node, n) && IBase(t) && t.nodes[n].count > 0
    ensures NoneEmptied(t0, t, node)
    ensures t.head != Child(n) && (t0.head == Child(node) || Snug(t0)) ==> Snug(t)
  {
  }

  lemma BareCleared(t0: Tree, t: Tree, node: Addr)
    requires t.nodes == map[] && t.head == Null
    ensures NoneEmptied(t0, t, node) && Snug(t)
  {
  }

  lemma ClearedShrunk(t0: Tree, t: Tree, t': Tree, node: Addr)
    requires NoneEmptied(t0, t, node) && KeepsCounts(t, t')
    ensures NoneEmptied(t0, t', node)
  {
  }

  /** Exactly the IDs of ids are live, with their pointers. */
  ghost predicate Binds(t: Tree, ids: map<nat, Entry>)
  {
    && Links(t)
    && (forall i: nat :: i in ids <==> !Free(t, i))
    && (forall i: nat :: Get(t, i) == if i in ids then ids[i] else Null)
    && (forall i: nat :: i in ids ==> UserEntry(ids[i]) && i <= MAX_INDEX)
  }

  lemma EmptyIdr(t: Tree)
    requires t == Tree(Null, {FREE}, map[], map[], map[])
    ensures IInv(t) && Binds(t, map[])
  {
  }

  /** ID i is now live with pointer p; nothing else changed. */
  ghost predicate Bound(t: Tree, t': Tree, i: nat, p: Entry)
  {
    && Links(t) && Links(t')
    && (forall j: nat :: Get(t', j) == if j == i then p else Get(t, j))
    && (forall j: nat :: Free(t', j) <==> j != i && Free(t, j))
  }

  lemma TakeHead(t: Tree, p: Entry)
    requires IInv(t) && t.head == Null && FREE in t.flags && UserEntry(p)
    ensures FreeRun(t.(head := p), t.(head := p), None, None, 0, false, 0)
  {
  }

  lemma TakeHeadEnd(t: Tree, t': Tree, p: Entry)
    requires IInv(t) && t.head == Null && UserEntry(p)
    requires FDone(t', None) && FreedTo(t.(head := p), t', 0, false) && SameNodes(t.(head := p), t')
    ensures IInv(t') && Bound(t, t', 0, p)
  {
    var t1 := t.(head := p);
    forall j: nat ensures Get(t', j) == if j == 0 then p else Get(t, j) { assert Get(t', j) == Get(t1, j); }
    forall j: nat ensures Free(t', j) <==> j != 0 && Free(t, j) { assert Free(t1, j) <==> Free(t, j); }
  }

  /** The place found by GetFree, and why delete_node leaves it alone: a root leaf has another live ID or keeps slot 0 empty. */
  lemma TakeLeaf(t: Tree, a: Addr, off: nat, i: nat, p: Entry)
    requires FoundAt(t, a, off, i, i) && UserEntry(p)
    ensures a in t.nodes && |t.nodes[a].slots| == 64 && off < 64
    ensures var n := t.nodes[a];
            var n' := n.(slots := n.slots[off := p], count := n.count + 1, nrValues := n.nrValues + (if p.Value? then 1 else 0));
            && FreeRun(WithNode(t, a, n'), WithNode(t, a, n'), Some(a), Some(a), off, false, i)
            && (t.head == Child(a) ==> Settled(n'))
  {
    var n := t.nodes[a];
    assert INode(n) && NodeOk(t, a);
    var n' := n.(slots := n.slots[off := p], count := n.count + 1, nrValues := n.nrValues + (if p.Value? then 1 else 0));
    forall o | 0 <= o < 64 ensures !n'.slots[o].Child? { assert SlotOk(t, a, o); }
    MakeHole(t, a);
    LeafWrite(t, a, n');
    if n.count == 0 { EmptyNode(n); }
  }

  lemma TakeEnd(t0: Tree, t1: Tree, t2: Tree, a: Addr, off: nat, i: nat, p: Entry)
    requires FoundAt(t0, a, off, i, i) && UserEntry(p) && off < |t0.nodes[a].slots|
    requires var n := t0.nodes[a];
             t1 == WithNode(t0, a, n.(slots := n.slots[off := p], count := n.count + 1,
                                      nrValues := n.nrValues + (if p.Value? then 1 else 0)))
    requires FDone(t2, Some(a)) && FreedTo(t1, t2, i, false) && SameNodes(t1, t2)
    ensures IInv(t2) && Bound(t0, t2, i, p)
  {
    var n, n1, n2 := t0.nodes[a], t1.nodes[a], t2.nodes[a];
    assert INode(n) && NodeOk(t0, a);
    assert |n.slots| == 64;
    hide INode;
    forall o | 0 <= o < 64 ensures !n1.slots[o].Child? { assert SlotOk(t0, a, o); }
    MakeHole(t0, a);
    LeafWrite(t0, a, n1);
    LeafBitsAfter(t1, t2, a, off, false);
    TakenLeaf(n, n2, off, p);
    HoleFilled(t2, a);
    assert LeavesLive(t2) by {
      forall x | x in t2.nodes && t2.nodes[x].level == 0 ensures t2.nodes[x].count > 0 { }
    }
    TakeReads(t0, t1, t2, a, off, i, p);
  }

  lemma TakeReads(t0: Tree, t1: Tree, t2: Tree, a: Addr, off: nat, i: nat, p: Entry)
    requires FoundAt(t0, a, off, i, i) && off < |t0.nodes[a].slots| == 64
    requires var n := t0.nodes[a];
             t1 == WithNode(t0, a, n.(slots := n.slots[off := p], count := n.count + 1,
                                      nrValues := n.nrValues + (if p.Value? then 1 else 0)))
    requires Links(t0) && FreedTo(t1, t2, i, false) && (forall j: nat :: Free(t1, j) <==> Free(t0, j))
    requires forall j: nat :: Get(t1, j) == if t0.pfx[a] == j / 64 then t1.nodes[a].slots[j % 64] else Get(t0, j)
    ensures Bound(t0, t2, i, p)
  {
    hide INode;
    forall j: nat ensures Get(t2, j) == if j == i then p else Get(t0, j) {
      assert Get(t2, j) == Get(t1, j);
      InLeaf(t0, a, j);
    }
    forall j: nat ensures Free(t2, j) <==> j != i && Free(t0, j) { assert Free(t1, j) <==> Free(t0, j); }
  }

  lemma InLeaf(t: Tree, a: Addr, j: nat)
    requires Links(t) && a in t.nodes && t.nodes[a].level == 0
    ensures |t.nodes[a].slots| == 64 && (t.pfx[a] == j / 64 ==> Get(t, j) == t.nodes[a].slots[j % 64])
  {
    assert NodeOk(t, a) && IsPosition(t, a);
  }

  /** The slot that a walk to the index ends at: an empty interior slot, a leaf slot, or the head. */
  ghost predicate SlotAt(t: Tree, node: Option<Addr>, o: nat, i: nat)
  {
    match node
    case Some(a) =>
      && Covers(t, a, i) && o == Digit(i, t.nodes[a].level) && |t.nodes[a].slots| == 64 && !t.nodes[a].slots[o].Child?
    case None => i == 0 && !t.head.Child?
  }

  lemma OutOfTree(t: Tree, i: nat)
    requires IBase(t) && if t.head.Child? then Pfx(i, RootLevel(t) + 1) != 0 else i > 0
    ensures Get(t, i) == Null && Free(t, i)
  {
    if t.head.Child? { BeyondRoot(t, i); }
  }

  lemma LookupStart(t: Tree, i: nat)
    requires IBase(t) && if t.head.Child? then Pfx(i, RootLevel(t) + 1) == 0 else i == 0
    ensures if t.head.Child? then Covers(t, t.head.addr, i) else t.head == Get(t, i) && SlotAt(t, None, 0, i)
  {
    if t.head.Child? { RootCovers(t, i); }
  }

  lemma LookupStep(t: Tree, a: Addr, i: nat)
    requires IBase(t) && Covers(t, a, i)
    ensures a in t.nodes && |t.nodes[a].slots| == 64 && Digit(i, t.nodes[a].level) < 64
    ensures var e := t.nodes[a].slots[Digit(i, t.nodes[a].level)];
            if e.Child? then Covers(t, e.addr, i) && t.nodes[e.addr].level < t.nodes[a].level
            else e == Get(t, i) && SlotAt(t, Some(a), Digit(i, t.nodes[a].level), i)
  {
    Descend(t, a, i);
  }

  /** ID i is free now; nothing else changed. */
  ghost predicate Released(t: Tree, t': Tree, i: nat)
  {
    && Links(t) && Links(t')
    && (forall j: nat :: Get(t', j) == if j == i then Null else Get(t, j))
    && (forall j: nat :: Free(t', j) <==> j == i || Free(t, j))
  }

  lemma NotLive(t: Tree, i: nat)
    requires IInv(t) && Free(t, i)
    ensures Released(t, t, i) && Get(t, i) == Null
  {
    if Get(t, i) != Null { PresentIsLive(t, i); }
  }

  /** The tag that radix_tree_delete_item looks at tells whether the ID is free; a live ID has a leaf slot or the head. */
  lemma SlotTag(t: Tree, node: Option<Addr>, o: nat, i: nat)
    requires IInv(t) && SlotAt(t, node, o, i)
    ensures node.Some? ==> node.value in t.nodes && |t.nodes[node.value].slots| == 64 && o < 64 && |t.nodes[node.value].marks| == MARKS
    ensures Free(t, i) <==> (if node.Some? then o in t.nodes[node.value].marks[FREE] else FREE in t.flags)
    ensures Get(t, i) != Null ==> !Free(t, i)
    ensures !Free(t, i) && node.Some? ==> t.nodes[node.value].level == 0
    ensures node.Some? && t.nodes[node.value].level == 0 ==> Get(t, i) == t.nodes[node.value].slots[o]
    ensures node.None? ==> Get(t, i) == t.head
  {
    if Get(t, i) != Null { PresentIsLive(t, i); }
    if node.Some? {
      var a := node.value;
      Descend(t, a, i);
      assert INode(t.nodes[a]) && NodeOk(t, a) && IsPosition(t, a);
      if t.nodes[a].level > 0 {
        NoPath(t, a, i);
        assert t.nodes[a].slots[o] == Null;
      } else {
        assert Pfx(i, 1) == i / 64;
      }
    }
  }

  lemma ReleaseHead(t: Tree)
    requires IInv(t) && !t.head.Child?
    ensures var t' := t.(head := Null, flags := t.flags + {FREE}); IInv(t') && Released(t, t', 0)
  {
  }

  lemma ReleaseStart(t: Tree, a: Addr, off: nat, i: nat)
    requires IInv(t) && SlotAt(t, Some(a), off, i) && t.nodes[a].level == 0 && !Free(t, i)
    ensures FreeRun(t, t, Some(a), Some(a), off, true, i)
  {
    Descend(t, a, i);
    MakeHole(t, a);
  }

  lemma ReleaseCounts(t0: Tree, t1: Tree, a: Addr, off: nat, i: nat)
    requires IInv(t0) && SlotAt(t0, Some(a), off, i) && t0.nodes[a].level == 0 && !Free(t0, i)
    requires FDone(t1, Some(a)) && FreedTo(t0, t1, i, true) && SameNodes(t0, t1)
    ensures a in t1.nodes && off < |t1.nodes[a].slots| && t1.nodes[a].count > 0
    ensures t1.nodes[a].slots[off].Value? ==> t1.nodes[a].nrValues > 0
  {
    SlotTag(t0, Some(a), off, i);
    assert INode(t0.nodes[a]);
    CountPositive(t0.nodes[a], off);
  }

  /** One leaf has a count less; the root, if it is another node, is as it was. */
  lemma ReleaseSnug(t0: Tree, t1: Tree, t2: Tree, a: Addr, off: nat)
    requires SameNodes(t0, t1) && a in t1.nodes && off < |t1.nodes[a].slots| && t1.nodes[a].count > 0
    requires t1.nodes[a].slots[off].Value? ==> t1.nodes[a].nrValues > 0
    requires var n := t1.nodes[a];
             t2 == WithNode(t1, a, n.(slots := n.slots[off := Null], count := n.count - 1,
                                      nrValues := n.nrValues - (if n.slots[off].Value? then 1 else 0)))
    ensures t2.head == t0.head && (t2.head == Child(a) || (Snug(t0) ==> Snug(t2)))
    ensures forall x :: x in t2.nodes && x != a ==> x in t0.nodes && t2.nodes[x].count == t0.nodes[x].count
  {
  }

  lemma ReleaseEnd(t0: Tree, t1: Tree, t2: Tree, a: Addr, off: nat, i: nat)
    requires IInv(t0) && SlotAt(t0, Some(a), off, i) && t0.nodes[a].level == 0 && !Free(t0, i)
    requires FDone(t1, Some(a)) && FreedTo(t0, t1, i, true) && SameNodes(t0, t1)
    requires a in t1.nodes && off < |t1.nodes[a].slots| && t1.nodes[a].count > 0
    requires t1.nodes[a].slots[off].Value? ==> t1.nodes[a].nrValues > 0
    requires var n := t1.nodes[a];
             t2 == WithNode(t1, a, n.(slots := n.slots[off := Null], count := n.count - 1,
                                      nrValues := n.nrValues - (if n.slots[off].Value? then 1 else 0)))
    ensures IBase(t2) && Released(t0, t2, i) && LeavesBut(t2, a) && a in t2.nodes
  {
    SlotTag(t0, Some(a), off, i);
    Descend(t0, a, i);
    var n0, n1, n2 := t0.nodes[a], t1.nodes[a], t2.nodes[a];
    assert INode(n0) && NodeOk(t1, a);
    forall o | 0 <= o < 64 ensures !n2.slots[o].Child? { assert SlotOk(t1, a, o); }
    LeafWrite(t1, a, n2);
    MakeHole(t0, a);
    LeafBitsAfter(t0, t1, a, off, true);
    FreedLeaf(n0, n2, off);
    HoleFilled(t2, a);
    forall j: nat ensures Get(t2, j) == if j == i then Null else Get(t0, j) {
      assert Get(t1, j) == Get(t0, j);
      InLeaf(t1, a, j);
    }
    forall j: nat ensures Free(t2, j) <==> j == i || Free(t0, j) { assert Free(t2, j) <==> Free(t1, j); }
  }

  lemma ReleaseIds(t0: Tree, t1: Tree, t2: Tree, i: nat)
    requires Released(t0, t1, i) && SameIds(t1, t2)
    ensures Released(t0, t2, i)
  {
    forall j: nat ensures Get(t2, j) == if j == i then Null else Get(t0, j) { }
    forall j: nat ensures Free(t2, j) <==> j == i || Free(t0, j) { }
  }

  datatype Errno = EINVAL | ENOMEM | ENOSPC | ENOENT
  /** The ID as the caller gets it: unsigned from AllocU32, an int from Alloc and AllocCyclic. */
  datatype IdReply = Id(id: int) | Fail(errno: Errno)
  datatype ReplaceReply = Old(entry: Entry) | Refused(errno: Errno)

  const INT_MAX: int := 0x7FFF_FFFF

  predicate IsInt(x: int)
  {
    -INT_MAX - 1 <= x <= INT_MAX
  }

  /** The C conversions between int and unsigned int. */
  function AsInt(u: nat): (x: int)
    ensures u < 0x1_0000_0000 ==> -0x8000_0000 <= x < 0x8000_0000 && (x - u) % 0x1_0000_0000 == 0
  {
    if u <= INT_MAX then u else u - U32_MAX - 1
  }

  function AsU32(x: int): (u: nat)
    requires IsInt(x)
    ensures u <= U32_MAX && AsInt(u) == x
  {
    if x < 0 then x + U32_MAX + 1 else x
  }

  /** An int as an unsigned long. */
  function AsUlong(x: int): (u: nat)
    requires IsInt(x)
    ensures u < 0x1_0000_0000_0000_0000 && (u - x) % 0x1_0000_0000_0000_0000 == 0
  {
    if x < 0 then x + WORD else x
  }

  /** end > 0 ? end - 1 : INT_MAX */
  function LastId(end: int): nat
  {
    if end > 0 then end - 1 else INT_MAX
  }

  /** The tree index at which a search for an ID starts. */
  lemma LastIdFits(end: int)
    requires IsInt(end)
    ensures LastId(end) <= INT_MAX
  {
  }

  function From(base: nat, id: nat): (i: nat)
    ensures i + base >= id && (i > 0 ==> i + base == id)
  {
    if id < base then 0 else id - base
  }

  /** Subtraction of unsigned longs. */
  function Minus(id: nat, base: nat): (r: nat)
    requires id <= MAX_INDEX && base <= U32_MAX
    ensures r <= MAX_INDEX && r == if id >= base then id - base else id - base + WORD
  {
    (id + WORD - base) % WORD
  }

  ghost predicate LeastFree(ids: map<nat, Entry>, lo: nat, i: int)
  {
    lo <= i && i !in ids && forall j: nat :: lo <= j < i ==> j in ids
  }

  /** The least free index from lo on, at most hi, was bound to ptr. */
  ghost predicate Allotted(ids: map<nat, Entry>, ids': map<nat, Entry>, lo: nat, hi: nat, ptr: Entry, index: nat)
  {
    LeastFree(ids, lo, index) && index <= hi && ids' == ids[index := ptr]
  }

  /** The ID of an index, as an unsigned int. */
  function Named(base: nat, index: nat): (id: nat)
    ensures id < 0x1_0000_0000 && (index + base - id) % 0x1_0000_0000 == 0
  {
    (index + base) % (U32_MAX + 1)
  }

  /** Where a cyclic allocation begins: at the cursor, unless that is before start. */
  function Cursor(next: nat, start: int): (c: nat)
    requires IsInt(start) && next <= U32_MAX
    ensures c <= U32_MAX && AsInt(c) == if AsInt(next) < start then start else AsInt(next)
  {
    if AsInt(next) < start then AsU32(start) else next
  }

  lemma CursorFrom(next: nat, start: int)
    requires 0 <= start && IsInt(start) && next <= U32_MAX
    ensures AsU32(start) == start && Cursor(next, start) == if start <= next < 0x8000_0000 then next else start
  {
  }

  /** An ID that is an int is named as it is. */
  lemma NamedFits(base: nat, index: nat)
    ensures index + base <= INT_MAX ==> AsInt(Named(base, index)) == index + base
  {
  }

  /** Every ID from lo up to hi - 1 is live. */
  ghost predicate AllTaken(ids: map<nat, Entry>, base: nat, lo: int, hi: int)
  {
    forall i: nat :: lo - base <= i < hi - base ==> i in ids
  }

  /** The least free index, and the absence of one, in terms of the IDs start, ..., lim - 1. */
  lemma InIds(ids: map<nat, Entry>, base: nat, start: nat, lim: nat, index: nat)
    requires base < lim <= WORD && base <= U32_MAX
    ensures LeastFree(ids, From(base, start), index) <==>
              index + base >= start && index !in ids && AllTaken(ids, base, start, index + base)
    ensures NoneFree(ids, From(base, start), Minus(lim - 1, base)) <==> AllTaken(ids, base, start, lim)
  {
  }

  lemma AllottedIds(ids: map<nat, Entry>, ids': map<nat, Entry>, base: nat, start: nat, lim: nat, ptr: Entry, index: nat)
    requires base < lim <= WORD && base <= U32_MAX && Allotted(ids, ids', From(base, start), Minus(lim - 1, base), ptr, index)
    ensures start <= index + base < lim && index !in ids && ids' == ids[index := ptr]
    ensures AllTaken(ids, base, start, index + base)
  {
  }

  /** What a cyclic allocation answers and changes, by tree index. */
  ghost predicate CyclicAnswer(ids: map<nat, Entry>, ids': map<nat, Entry>, base: nat, next: nat, next': nat,
                               start: int, end: int, ptr: Entry, r: IdReply, index: nat)
    requires IsInt(start) && IsInt(end) && next <= U32_MAX && base <= U32_MAX
  {
    var cursor, bound := Cursor(next, start), Minus(LastId(end), base);
    var again := NoneFree(ids, From(base, cursor), bound) && cursor > AsU32(start);
    && (r.Id? ==> r.id == AsInt(Named(base, index))
                  && Allotted(ids, ids', From(base, if again then AsU32(start) else cursor), bound, ptr, index))
    && (ptr != Retry ==>
          (r == Fail(ENOSPC) <==> NoneFree(ids, From(base, cursor), bound)
                                  && (again ==> NoneFree(ids, From(base, AsU32(start)), bound))))
    && next' == if r.Id? then (Named(base, index) + 1) % (U32_MAX + 1) else next
  }

  /** The same in terms of IDs, for a range that does not lie below the base. */
  lemma CyclicIds(ids: map<nat, Entry>, ids': map<nat, Entry>, base: nat, next: nat, next': nat,
                  start: int, end: int, ptr: Entry, r: IdReply, index: nat)
    requires 0 <= start && IsInt(start) && IsInt(end) && next <= U32_MAX && base < if end > 0 then end else 0x8000_0000
    requires CyclicAnswer(ids, ids', base, next, next', start, end, ptr, r, index)
    ensures var lim := if end > 0 then end else 0x8000_0000;
            var from := if start <= next < 0x8000_0000 then next else start;
            var full := AllTaken(ids, base, from, lim);
            var lo := if full then start else from;
            && (r.Id? ==>
                  && lo <= r.id && base <= r.id < lim && r.id - base !in ids && ids' == ids[r.id - base := ptr]
                  && AllTaken(ids, base, lo, r.id)
                  && next' == r.id + 1)
            && (ptr != Retry ==>
                  (r == Fail(ENOSPC) <==> full && AllTaken(ids, base, start, lim)))
  {
    var lim := LastId(end) + 1;
    CyclicNone(ids, base, next, start, lim);
    hide AllTaken, Allotted, NoneFree, Named, AsInt, Minus, From, LastId;
    if r.Id? {
      var again := AllTaken(ids, base, Cursor(next, start), lim) && Cursor(next, start) > start;
      CyclicGot(ids, ids', base, if again then start else Cursor(next, start), lim, ptr, r.id, index);
    }
    hide Cursor;
  }

  lemma CyclicGot(ids: map<nat, Entry>, ids': map<nat, Entry>, base: nat, lo: nat, lim: nat, ptr: Entry, id: int, index: nat)
    requires base < lim <= 0x8000_0000 && Allotted(ids, ids', From(base, lo), Minus(lim - 1, base), ptr, index)
    requires id == AsInt(Named(base, index))
    ensures lo <= id && base <= id < lim && id == index + base && index !in ids && ids' == ids[index := ptr]
    ensures AllTaken(ids, base, lo, id) && (Named(base, index) + 1) % (U32_MAX + 1) == id + 1
  {
    hide AllTaken, From, Allotted, Minus;
    AllottedIds(ids, ids', base, lo, lim, ptr, index);
    NamedFits(base, index);
  }

  lemma CyclicNone(ids: map<nat, Entry>, base: nat, next: nat, start: int, lim: nat)
    requires 0 <= start && IsInt(start) && next <= U32_MAX && base < lim <= WORD && base <= U32_MAX
    ensures AsU32(start) == start
    ensures var from := if start <= next < 0x8000_0000 then next else start;
            && Cursor(next, start) == from
            && (NoneFree(ids, From(base, from), Minus(lim - 1, base)) <==> AllTaken(ids, base, from, lim))
            && (NoneFree(ids, From(base, start), Minus(lim - 1, base)) <==> AllTaken(ids, base, start, lim))
  {
    hide AllTaken, NoneFree, Minus, From;
    CursorFrom(next, start);
    InIds(ids, base, Cursor(next, start), lim, 0);
    InIds(ids, base, start, lim, 0);
  }

  ghost predicate NoneFree(ids: map<nat, Entry>, lo: nat, hi: int)
  {
    forall j: nat :: lo <= j <= hi ==> j in ids
  }

  lemma BindsAt(t: Tree, ids: map<nat, Entry>, i: nat)
    requires Binds(t, ids)
    ensures (i in ids <==> !Free(t, i)) && (i in ids ==> i <= MAX_INDEX)
    ensures Links(t) && Get(t, i) == if i in ids then ids[i] else Null
  {
  }

  lemma BindsSame(t: Tree, t': Tree, ids: map<nat, Entry>)
    requires Binds(t, ids) && SameIds(t, t')
    ensures Binds(t', ids)
  {
    forall i: nat ensures i in ids <==> !Free(t', i) { assert Free(t', i) <==> Free(t, i); }
    forall i: nat ensures Get(t', i) == if i in ids then ids[i] else Null { assert Get(t', i) == Get(t, i); }
  }

  lemma FoundPlace(t: Tree, ids: map<nat, Entry>, node: Option<Addr>, o: nat, i: nat, lo: nat)
    requires Binds(t, ids)
    requires if node.Some? then FoundAt(t, node.value, o, i, lo) else IInv(t) && i == 0 && lo <= i && t.head == Null && FREE in t.flags
    ensures LeastFree(ids, lo, i)
    ensures node.Some? ==> FoundAt(t, node.value, o, i, i)
  {
    forall j: nat | lo <= j < i ensures j in ids { assert !Free(t, j); }
    assert Free(t, i);
  }

  lemma BindsTaken(t: Tree, t': Tree, ids: map<nat, Entry>, i: nat, p: Entry)
    requires Binds(t, ids) && Bound(t, t', i, p) && UserEntry(p) && i <= MAX_INDEX
    ensures Binds(t', ids[i := p])
  {
    forall j: nat ensures j in ids[i := p] <==> !Free(t', j) { assert Free(t', j) <==> j != i && Free(t, j); }
    forall j: nat ensures Get(t', j) == if j in ids[i := p] then ids[i := p][j] else Null {
      assert Get(t', j) == if j == i then p else Get(t, j);
    }
  }

  lemma SomeFreeOf(t: Tree, ids: map<nat, Entry>, lo: nat, hi: nat)
    requires Binds(t, ids) && !AllLive(t, lo, hi + 1)
    ensures !NoneFree(ids, lo, hi)
  {
    var j: nat :| lo <= j < hi + 1 && Free(t, j);
    BindsAt(t, ids, j);
  }

  lemma NoneFreeOf(t: Tree, ids: map<nat, Entry>, lo: nat, hi: nat)
    requires Binds(t, ids) && AllLive(t, lo, hi + 1)
    ensures NoneFree(ids, lo, hi)
  {
    forall j: nat | lo <= j <= hi ensures j in ids { assert !Free(t, j); }
  }

  lemma BindsReleased(t: Tree, t': Tree, ids: map<nat, Entry>, i: nat)
    requires Binds(t, ids) && Released(t, t', i)
    ensures Binds(t', ids - {i}) && Get(t, i) == if i in ids then ids[i] else Null
  {
    forall j: nat ensures j in ids - {i} <==> !Free(t', j) { assert Free(t', j) <==> j == i || Free(t, j); }
    forall j: nat ensures Get(t', j) == if j in ids - {i} then (ids - {i})[j] else Null {
      assert Get(t', j) == if j == i then Null else Get(t, j);
    }
  }

  /** Does the tree reach as far as the index? */
  ghost predicate InTree(t: Tree, i: nat)
  {
    HeadOk(t) && if t.head.Child? then Pfx(i, RootLevel(t) + 1) == 0 else i == 0
  }

  lemma RootTaken(t: Tree, i: nat)
    requires IInv(t) && FREE !in t.flags
    ensures InTree(t, i) ==> !Free(t, i)
  {
    RootSummary(t);
  }

  lemma HeadTag(t: Tree, i: nat)
    requires IBase(t) && FREE in t.flags && InTree(t, i) && !t.head.Child?
    ensures Free(t, i)
  {
  }

  /** One step of the descent along the tags. */
  lemma TagStep(t: Tree, a: Addr, i: nat)
    requires IBase(t) && Covers(t, a, i)
    ensures a in t.nodes && |t.nodes[a].marks| == MARKS && |t.nodes[a].slots| == 64
    ensures var o := Digit(i, t.nodes[a].level);
            && (o !in t.nodes[a].marks[FREE] ==> !Free(t, i))
            && (o in t.nodes[a].marks[FREE] && !t.nodes[a].slots[o].Child? ==> Free(t, i))
  {
    var o := Digit(i, t.nodes[a].level);
    Descend(t, a, i);
    assert INode(t.nodes[a]) && NodeOk(t, a) && IsPosition(t, a) && SlotOk(t, a, o);
    if o !in t.nodes[a].marks[FREE] {
      TakenSlot(t, a, o, i);
    } else if !t.nodes[a].slots[o].Child? {
      if t.nodes[a].level > 0 { NoPath(t, a, i); } else { assert Pfx(i, 1) == i / 64; }
    }
  }

  lemma SlotInTree(t: Tree, node: Option<Addr>, o: nat, i: nat)
    requires IInv(t) && SlotAt(t, node, o, i)
    ensures InTree(t, i)
  {
    if node.Some? {
      if Pfx(i, RootLevel(t) + 1) != 0 { CoveredBelow(t, node.value, i); }
    }
  }

  lemma {:induction false} CoveredBelow(t: Tree, a: Addr, i: nat)
    requires Links(t) && Covers(t, a, i) && t.head.Child?
    ensures Pfx(i, RootLevel(t) + 1) == 0
    decreases if a in t.nodes then TOP - t.nodes[a].level else 0
  {
    assert NodeOk(t, a);
    if t.nodes[a].parent.Some? {
      ParentFacts(t, a);
      LevelBound(t, t.nodes[a].parent.value);
      CoveredBelow(t, t.nodes[a].parent.value, i);
    }
  }

  lemma ReplaceHead(t: Tree, p: Entry)
    requires IInv(t) && !t.head.Child? && !Free(t, 0) && UserEntry(p)
    ensures IInv(t.(head := p)) && Bound(t, t.(head := p), 0, p)
  {
  }

  lemma ReplaceLeaf(t: Tree, a: Addr, off: nat, i: nat, p: Entry)
    requires IInv(t) && SlotAt(t, Some(a), off, i) && !Free(t, i) && UserEntry(p)
    ensures a in t.nodes && off < |t.nodes[a].slots|
    ensures t.nodes[a].nrValues + Delta(t.nodes[a].slots[off], p, true) >= 0
    ensures var n := t.nodes[a];
            var t' := WithNode(t, a, n.(slots := n.slots[off := p], nrValues := n.nrValues + Delta(n.slots[off], p, true)));
            IBase(t') && Bound(t, t', i, p) && LeavesBut(t', a) && a in t'.nodes
  {
    SlotTag(t, Some(a), off, i);
    Descend(t, a, i);
    var n := t.nodes[a];
    assert INode(n) && NodeOk(t, a);
    ReplacedLeaf(n, off, p);
    hide INode;
    var n' := n.(slots := n.slots[off := p], nrValues := n.nrValues + Delta(n.slots[off], p, true));
    forall o | 0 <= o < 64 ensures !n'.slots[o].Child? { assert SlotOk(t, a, o); }
    MakeHole(t, a);
    LeafWrite(t, a, n');
    var t' := WithNode(t, a, n');
    HoleFilled(t', a);
    forall j: nat ensures Get(t', j) == if j == i then p else Get(t, j) { InLeaf(t, a, j); }
    forall j: nat ensures Free(t', j) <==> j != i && Free(t, j) { }
  }

  lemma BoundSame(t0: Tree, t1: Tree, t2: Tree, i: nat, p: Entry)
    requires Bound(t0, t1, i, p) && SameIds(t1, t2)
    ensures Bound(t0, t2, i, p)
  {
    forall j: nat ensures Get(t2, j) == if j == i then p else Get(t0, j) { }
    forall j: nat ensures Free(t2, j) <==> j != i && Free(t0, j) { }
  }

  /** The chunk of an iterator: the rest of a leaf, or the head alone. */
  ghost predicate ChunkAt(t: Tree, node: Option<Addr>, i: nat, end: nat)
  {
    match node
    case Some(a) => a in t.nodes && a in t.pfx && t.nodes[a].level == 0 && t.pfx[a] == i / 64 && end == i / 64 * 64 + 64
    case None => i == 0 && end == 1 && !t.head.Child?
  }

  ghost predicate LeafAt(t: Tree, a: Addr, i: nat, e: Entry)
  {
    Covers(t, a, i) && t.nodes[a].level == 0 && |t.nodes[a].slots| == 64 && e == t.nodes[a].slots[Digit(i, 0)]
  }

  lemma NonePresentStart(t: Tree, i: nat)
    requires IInv(t)
    ensures NonePresent(t, i, i)
  {
  }

  lemma EndOfTree(t: Tree, lo: nat, i: nat)
    requires IInv(t) && NonePresent(t, lo, i) && lo <= i
    ensures HeadOk(t)
    ensures var end := if t.head.Child? then Shl(64, RootLevel(t)) else 1;
            if i >= end || t.head == Null then NoneLeft(t, lo)
            else t.head.Child? ==> Covers(t, t.head.addr, i)
  {
    var end := if t.head.Child? then Shl(64, RootLevel(t)) else 1;
    if t.head.Child? { FitsLevel(i, RootLevel(t)); }
    if i >= end || t.head == Null {
      forall j: nat | j >= lo ensures Get(t, j) == Null { NoneBehind(t, lo, i, j + 1); }
    } else if t.head.Child? {
      RootCovers(t, i);
    }
  }

  lemma HeadPresent(t: Tree, lo: nat)
    requires IInv(t) && !t.head.Child? && t.head != Null && NonePresent(t, lo, 0)
    ensures lo == 0 ==> LeastPresent(t, lo, 0)
  {
  }

  lemma ChunkStep(t: Tree, a: Addr, i: nat)
    requires IInv(t) && Covers(t, a, i)
    ensures a in t.nodes && |t.nodes[a].slots| == 64 && Digit(i, t.nodes[a].level) < 64
    ensures var e := t.nodes[a].slots[Digit(i, t.nodes[a].level)];
            && (e.Child? ==> Covers(t, e.addr, i) && e.addr in t.nodes && t.nodes[e.addr].level < t.nodes[a].level)
            && (!e.Child? && e != Null ==> LeafAt(t, a, i, e))
  {
    Descend(t, a, i);
  }

  lemma ChunkEnd(t: Tree, a: Addr, i: nat, e: Entry, lo: nat)
    requires IInv(t) && LeafAt(t, a, i, e) && e != Null && NonePresent(t, lo, i) && lo <= i
    ensures LeastPresent(t, lo, i) && ChunkAt(t, Some(a), i, i / 64 * 64 + 64)
  {
    Descend(t, a, i);
    assert Pfx(i, 1) == i / 64;
  }

  /** The iterators see live IDs that hold a pointer and fit an int. */
  ghost predicate Used(ids: map<nat, Entry>, base: nat, i: nat)
  {
    i in ids && ids[i] != Null && i + base <= INT_MAX
  }

  ghost predicate LeastUsed(ids: map<nat, Entry>, base: nat, lo: nat, i: int)
  {
    lo <= i && Used(ids, base, i) && forall j: nat :: lo <= j < i ==> !Used(ids, base, j)
  }

  /** What NextChunk says of the used IDs. */
  lemma UsedFrom(t: Tree, ids: map<nat, Entry>, base: nat, lo: nat, found: bool, i: nat)
    requires Binds(t, ids)
    requires if found then LeastPresent(t, lo, i) else NoneLeft(t, lo)
    ensures found ==> i in ids && ids[i] != Null && lo <= i <= MAX_INDEX && forall j: nat :: lo <= j < i ==> !Used(ids, base, j)
    ensures found && i + base <= INT_MAX ==> LeastUsed(ids, base, lo, i)
    ensures !found || i + base > INT_MAX ==> forall j: nat :: j >= lo ==> !Used(ids, base, j)
  {
    forall j: nat | j >= lo && (!found || j < i) ensures !Used(ids, base, j) {
      assert Get(t, j) == Null;
    }
    if found { assert Get(t, i) != Null; }
  }

  /** The used IDs from nextid on. */
  lemma UsedIds(ids: map<nat, Entry>, base: nat, nextid: nat, index: nat)
    ensures LeastUsed(ids, base, From(base, nextid), index) ==>
              && nextid <= index + base && ids[index] != Null
              && forall i :: i in ids && ids[i] != Null ==> i + base < nextid || i + base >= index + base
    ensures (forall j: nat :: j >= From(base, nextid) ==> !Used(ids, base, j)) ==>
              forall i :: i in ids && ids[i] != Null ==> i + base < nextid || i + base > 0x7FFF_FFFF
  {
    if LeastUsed(ids, base, From(base, nextid), index) {
      forall i | i in ids && ids[i] != Null ensures i + base < nextid || i + base >= index + base {
        assert Used(ids, base, i) || i + base > INT_MAX;
      }
    }
    if forall j: nat :: j >= From(base, nextid) ==> !Used(ids, base, j) {
      forall i | i in ids && ids[i] != Null ensures i + base < nextid || i + base > 0x7FFF_FFFF {
        assert Used(ids, base, i) || i + base > INT_MAX;
      }
    }
  }

  ghost predicate Increasing(seen: seq<nat>)
  {
    forall p, q :: 0 <= p < q < |seen| ==> seen[p] < seen[q]
  }

  lemma NextSeen(ids: map<nat, Entry>, base: nat, seen: seq<nat>, lo: nat, index: nat)
    requires Increasing(seen) && (forall i: nat :: i in seen <==> i < lo && Used(ids, base, i)) && LeastUsed(ids, base, lo, index)
    ensures Increasing(seen + [index])
    ensures forall i: nat :: i in seen + [index] <==> i < index + 1 && Used(ids, base, i)
  {
    var more := seen + [index];
    forall p | 0 <= p < |seen| ensures more[p] < lo { assert seen[p] in seen; }
    forall i: nat ensures i in more <==> i < index + 1 && Used(ids, base, i) {
      assert i in more <==> i in seen || i == index;
    }
  }

  lemma NoneAbove(ids: map<nat, Entry>, base: nat, index: nat)
    requires index + base == INT_MAX
    ensures forall j: nat :: j > index ==> !Used(ids, base, j)
  {
  }

  ghost predicate Present(ids: map<nat, Entry>, i: nat)
  {
    i in ids && ids[i] != Null
  }

  /** The ID idr_for_each passes: it adds the base as an int, and the sum is an unsigned long. */
  function WalkId(base: nat, i: nat): nat
  {
    (i + AsInt(base)) % WORD
  }

  /** Before idr_for_each meets an ID that is no int. */
  ghost predicate Reached(ids: map<nat, Entry>, base: nat, i: nat)
  {
    Present(ids, i) && forall j: nat :: j <= i && Present(ids, j) ==> WalkId(base, j) <= INT_MAX
  }

  /** With a base that is an int, the walk reaches exactly the IDs that are ints. */
  lemma ReachedIsUsed(ids: map<nat, Entry>, base: nat, i: nat)
    requires base <= INT_MAX && forall j :: j in ids ==> j + base < WORD
    ensures Reached(ids, base, i) <==> Used(ids, base, i)
  {
    if Used(ids, base, i) {
      forall j: nat | j <= i && Present(ids, j) ensures WalkId(base, j) <= INT_MAX { }
    }
  }

  /** seen is every index reached below hi, in order; each call answered 0, except that the last answered ret. */
  ghost predicate Visits(ids: map<nat, Entry>, base: nat, fn: (nat, Entry) -> int, seen: seq<nat>, hi: nat, ret: int)
  {
    && Increasing(seen)
    && (forall i: nat :: i in seen <==> i < hi && Reached(ids, base, i))
    && (forall i: nat :: i < hi && Present(ids, i) ==> WalkId(base, i) <= INT_MAX)
    && (forall p :: 0 <= p < |seen| ==>
          seen[p] in ids && fn(WalkId(base, seen[p]), ids[seen[p]]) == if p == |seen| - 1 then ret else 0)
    && (ret != 0 ==> |seen| > 0 && hi == seen[|seen| - 1] + 1)
  }

  /** fn was called in increasing order on every index reached, up to the first answer ret that is not 0. */
  ghost predicate Called(ids: map<nat, Entry>, base: nat, fn: (nat, Entry) -> int, seen: seq<nat>, ret: int)
  {
    && Increasing(seen)
    && (forall i: nat :: i in seen <==> Reached(ids, base, i) && (ret == 0 || (|seen| > 0 && i <= seen[|seen| - 1])))
    && (forall p :: 0 <= p < |seen| ==>
          seen[p] in ids && fn(WalkId(base, seen[p]), ids[seen[p]]) == if p == |seen| - 1 then ret else 0)
    && (ret != 0 ==> |seen| > 0)
  }

  /** The IDs in the calls. */
  lemma CalledIds(ids: map<nat, Entry>, base: nat, fn: (nat, Entry) -> int, seen: seq<nat>, ret: int)
    requires Called(ids, base, fn, seen, ret) && base <= U32_MAX
    ensures forall p :: 0 <= p < |seen| && seen[p] + base < WORD ==>
              && seen[p] in ids
              && var id := seen[p] + base - (if base < 0x8000_0000 then 0 else 0x1_0000_0000);
                 0 <= id < 0x8000_0000 && fn(id, ids[seen[p]]) == if p == |seen| - 1 then ret else 0
  {
    forall p | 0 <= p < |seen| && seen[p] + base < WORD
      ensures WalkId(base, seen[p]) == seen[p] + base - (if base < 0x8000_0000 then 0 else 0x1_0000_0000) <= INT_MAX
    {
      assert seen[p] in seen;
    }
  }

  lemma VisitsNone(ids: map<nat, Entry>, base: nat, fn: (nat, Entry) -> int)
    ensures Visits(ids, base, fn, [], 0, 0)
  {
  }

  lemma VisitsMore(ids: map<nat, Entry>, base: nat, fn: (nat, Entry) -> int, seen: seq<nat>, lo: nat, index: nat)
    requires Visits(ids, base, fn, seen, lo, 0) && lo <= index && Present(ids, index) && WalkId(base, index) <= INT_MAX
    requires forall j: nat :: lo <= j < index ==> !Present(ids, j)
    ensures Visits(ids, base, fn, seen + [index], index + 1, fn(WalkId(base, index), ids[index]))
  {
    hide WalkId;
    var more := seen + [index];
    forall p | 0 <= p < |seen| ensures more[p] < lo { assert seen[p] in seen; }
    forall i: nat | i < index + 1 && Present(ids, i) ensures WalkId(base, i) <= INT_MAX { }
    forall i: nat ensures i in more <==> i < index + 1 && Reached(ids, base, i) {
      assert i in more <==> i in seen || i == index;
    }
  }

  /** The walk ends: nothing is left, or the next ID is no int. */
  lemma VisitsEnd(ids: map<nat, Entry>, base: nat, fn: (nat, Entry) -> int, seen: seq<nat>, lo: nat, index: nat)
    requires Visits(ids, base, fn, seen, lo, 0)
    requires (forall j: nat :: j >= lo ==> !Present(ids, j)) || (lo <= index && Present(ids, index) && WalkId(base, index) > INT_MAX
                && forall j: nat :: lo <= j < index ==> !Present(ids, j))
    ensures Called(ids, base, fn, seen, 0)
  {
    hide WalkId;
    forall i: nat ensures i in seen <==> Reached(ids, base, i) { }
  }

  lemma VisitsStop(ids: map<nat, Entry>, base: nat, fn: (nat, Entry) -> int, seen: seq<nat>, hi: nat, ret: int)
    requires Visits(ids, base, fn, seen, hi, ret) && ret != 0
    ensures Called(ids, base, fn, seen, ret)
  {
  }

  /** What NextChunk says of the present entries. */
  lemma PresentFrom(t: Tree, ids: map<nat, Entry>, lo: nat, found: bool, i: nat)
    requires Binds(t, ids)
    requires if found then LeastPresent(t, lo, i) else NoneLeft(t, lo)
    ensures found ==> Present(ids, i) && lo <= i <= MAX_INDEX && forall j: nat :: lo <= j < i ==> !Present(ids, j)
    ensures !found ==> forall j: nat :: j >= lo ==> !Present(ids, j)
  {
    forall j: nat | j >= lo && (!found || j < i) ensures !Present(ids, j) {
      assert Get(t, j) == Null;
    }
    if found { assert Get(t, i) != Null; }
  }

  /** An increasing sequence is determined by its elements. */
  lemma {:induction false} SamePrefix(a: seq<nat>, b: seq<nat>, hi: nat)
    requires Increasing(a) && Increasing(b) && forall i: nat :: i in a <==> i in b && i < hi
    ensures |a| <= |b| && a == b[..|a|]
    decreases |b|
  {
    if b == [] {
      NoElements(a);
    } else if b[|b| - 1] >= hi {
      hide Increasing;
      Front(b);
      SamePrefix(a, b[..|b| - 1], hi);
    } else {
      hide Increasing;
      IsIn(b, |b| - 1);
      LastOf(a, b);
      Front(a);
      Front(b);
      var a', b' := a[..|a| - 1], b[..|b| - 1];
      forall i: nat ensures i in a' <==> i in b' && i < b[|b| - 1] {
        InFront(a, i);
        InFront(b, i);
      }
      SamePrefix(a', b', b[|b| - 1]);
      if |a'| < |b'| {
        IsIn(b', |a'|);
        NotTwice(a', b');
      }
      assert a == a' + [b[|b| - 1]] && b == b' + [b[|b| - 1]];
    }
  }

  lemma Front(b: seq<nat>)
    requires b != [] && Increasing(b)
    ensures Increasing(b[..|b| - 1]) && forall i: nat :: i in b[..|b| - 1] <==> i in b && i < b[|b| - 1]
  {
    forall i: nat ensures i in b[..|b| - 1] <==> i in b && i < b[|b| - 1] { InFront(b, i); }
  }

  lemma LastOf(a: seq<nat>, b: seq<nat>)
    requires Increasing(a) && Increasing(b) && b != [] && b[|b| - 1] in a && forall i :: i in a ==> i in b
    ensures a != [] && a[|a| - 1] == b[|b| - 1]
  {
    var q :| 0 <= q < |a| && a[q] == b[|b| - 1];
    IsIn(a, |a| - 1);
    var p :| 0 <= p < |b| && b[p] == a[|a| - 1];
  }

  lemma NoElements(a: seq<nat>)
    requires forall i: nat :: i !in a
    ensures a == []
  {
    if a != [] { IsIn(a, 0); }
  }

  lemma IsIn(b: seq<nat>, k: nat)
    requires k < |b|
    ensures b[k] in b
  {
  }

  lemma InFront(b: seq<nat>, i: nat)
    requires b != [] && Increasing(b)
    ensures i in b[..|b| - 1] <==> i in b && i < b[|b| - 1]
  {
    if i in b && i < b[|b| - 1] {
      var q :| 0 <= q < |b| && b[q] == i;
      assert b[..|b| - 1][q] == i;
    }
  }

  lemma ChunkEntry(t: Tree, ids: map<nat, Entry>, node: Option<Addr>, lo: nat, i: nat, next: nat)
    requires IInv(t) && Binds(t, ids) && LeastPresent(t, lo, i) && ChunkAt(t, node, i, next)
    ensures node.Some? ==> node.value in t.nodes && |t.nodes[node.value].slots| == 64
    ensures i in ids && ids[i] == (if node.Some? then t.nodes[node.value].slots[i % 64] else t.head) && i < next
  {
    assert Get(t, i) != Null;
    if node.Some? { InLeaf(t, node.value, i); }
  }

  lemma SlotsOfChunk(t: Tree, node: Option<Addr>, i: nat, next: nat, o: nat)
    requires IInv(t) && ChunkAt(t, node, i, next)
    ensures node.Some? ==> node.value in t.nodes && |t.nodes[node.value].slots| == 64
    ensures node.None? ==> NonePresent(t, i + 1, next)
    ensures node.Some? && i % 64 < o <= 64
            && (forall k :: i % 64 < k < o ==> t.nodes[node.value].slots[k] == Null) ==>
              var j := i / 64 * 64 + o;
              NonePresent(t, i + 1, j)
              && (o < 64 && t.nodes[node.value].slots[o] != Null ==> LeastPresent(t, i + 1, j) && ChunkAt(t, node, j, next))
  {
    if node.Some? {
      var a := node.value;
      InLeaf(t, a, i);
      if i % 64 < o <= 64 && forall k :: i % 64 < k < o ==> t.nodes[a].slots[k] == Null {
        var j := i / 64 * 64 + o;
        forall k: nat | i + 1 <= k < j ensures Get(t, k) == Null { InLeaf(t, a, k); }
        if o < 64 { InLeaf(t, a, j); }
      }
    }
  }

  /** The end of one chunk and the start of the next. */
  lemma ChunkJoin(t: Tree, lo: nat, from: nat, found: bool, i: nat)
    requires NonePresent(t, lo, from) && lo <= from
    requires if found then LeastPresent(t, from, i) else NoneLeft(t, from)
    ensures if found then LeastPresent(t, lo, i) else NoneLeft(t, lo)
  {
    if found {
      forall j: nat | lo <= j < i ensures Get(t, j) == Null { }
    } else {
      forall j: nat | j >= lo ensures Get(t, j) == Null { }
    }
  }

  class Idr {
    const reliable: bool
    var head: Entry
    var flags: set<nat>
    var nodes: map<Addr, Node>
    ghost var pfx: map<Addr, nat>
    ghost var dir: map<(nat, nat), Addr>

    ghost function T(): Tree
      reads this
    {
      Tree(head, flags, nodes, pfx, dir)
    }

    /** malloc of a node: any address not in use; unless memory is reliable it may fail at any call. */
    method Malloc() returns (r: Option<Addr>)
      ensures r.Some? ==> r.value !in nodes
      ensures reliable ==> r.Some?
    {
      var fails: bool := *;
      if fails && !reliable {
        r := None;
      } else {
        FreshAddr(nodes.Keys);
        var a: Addr :| a !in nodes;
        r := Some(a);
      }
    }

    /** The body of the loop of radix_tree_extend. */
    method PushRoot(level: nat) returns (c: Option<Addr>)
      requires HeadOk(T())
      modifies `head, `flags, `nodes, `pfx, `dir
      ensures c.None? ==> T() == old(T()) && !reliable
      ensures c.Some? ==> c.value !in old(nodes) && T() == ITree.Extend(old(T()), c.value, level)
    {
      c := Malloc();
      if c.None? { return; }
      var h := head;
      nodes := if h.Child? then nodes[h.addr := nodes[h.addr].(parent := c, offset := 0)] else nodes;
      nodes := nodes[c.value := ExtendNode(h, flags, level)];
      flags := flags + {FREE};
      head := Child(c.value);
      pfx, dir := pfx[c.value := 0], dir[(level, 0) := c.value];
    }

    /** The first loop of radix_tree_extend: the level of the root that holds the index. */
    method TopLevel(index: nat, height: nat) returns (top: nat)
      requires index <= MAX_INDEX && height <= TOP && Pfx(index, height) != 0
      ensures height <= top <= TOP && Pfx(index, top) != 0 && Pfx(index, top + 1) == 0
    {
      hide Pfx, Shl;
      IdLevels(index);
      top := height;
      FitsLevel(index, top);
      while index > MaxIndexOf(top)
        invariant height <= top <= TOP && Shl(64, top) >= 1
        invariant index > MaxIndexOf(top) <==> Pfx(index, top + 1) != 0
        invariant Pfx(index, top) != 0
        decreases TOP - top
      {
        top := top + 1;
        if top > TOP { assert false; }
        FitsLevel(index, top);
      }
    }

    /** radix_tree_extend: make the tree high enough for the index; -1 when memory runs out. */
    method ExtendTree(index: nat, height: nat) returns (h: int)
      requires IInv(T()) && index <= MAX_INDEX && AtHeight(T(), height)
      requires if head.Child? then Pfx(index, height) != 0 else index > 0
      modifies `head, `flags, `nodes, `pfx, `dir
      ensures IInv(T()) && SameIds(old(T()), T())
      ensures h >= 0 ==> Pfx(index, h) == 0 && 0 < h <= TOP + 1
      ensures h >= 0 ==> if head.Child? then AtHeight(T(), h) else T() == old(T()) && head == Null && FREE in flags
      ensures h >= 0 ==> Vacant(T(), None, 0, index)
      ensures h < 0 ==> !reliable
    {
      hide IInv, SameIds, Pfx, Shl, Vacant;
      ghost var t0 := T();
      IInvFacts(t0);
      IdLevels(index);
      PfxFacts(index, height);
      var top := TopLevel(index, height);
      if head == Null && FREE in flags {
        NullVacant(t0, index);
        return top + 1;
      }
      var level := height;
      while level <= top
        invariant height <= level <= top + 1 && IInv(T()) && SameIds(t0, T()) && AtHeight(T(), level)
        invariant level > height ==> head.Child?
        invariant level == height ==> T() == t0
        invariant level == top + 1 ==> Vacant(T(), None, 0, index)
      {
        ghost var t := T();
        IInvFacts(t);
        var c := PushRoot(level);
        if c.None? { return -1; }
        ExtendStep(t0, t, c.value, level);
        if level == top { ExtendedVacant(t, c.value, level, index); }
        level := level + 1;
      }
      h := top + 1;
    }

    /** A fresh node in the empty head. */
    method PlaceRoot(c: Addr, height: nat)
      requires Links(T()) && head == Null
      modifies `head, `nodes, `pfx, `dir
      ensures T() == FirstRoot(old(T()), c, FreeNode(height, None, 0))
    {
      LinkFacts(T(), None);
      FreeNodeLevel(height, None, 0);
      hide Links, FreeNode;
      nodes := nodes[c := FreeNode(height, None, 0)];
      head := Child(c);
      pfx, dir := pfx[c := 0], dir[(height, 0) := c];
    }

    /** A fresh node in an empty slot of node p. */
    method PlaceChild(p: Addr, o: nat, c: Addr, height: nat)
      requires Links(T()) && p in nodes && o < |nodes[p].slots|
      modifies `nodes, `pfx, `dir
      ensures p in old(pfx)
      ensures T() == AddChild(old(T()), p, o, Grown(old(nodes)[p], o, c), c, FreeNode(height, Some(p), o))
    {
      LinkFacts(T(), Some(p));
      hide Links, FreeNode, Grown;
      var n := FreeNode(height, Some(p), o);
      nodes := nodes[p := Grown(nodes[p], o, c)][c := n];
      ghost var q := 64 * pfx[p] + o;
      pfx, dir := pfx[c := q], dir[(n.level, q) := c];
    }

    /** radix_tree_node_alloc, all_tag_set and the write through the slot pointer. */
    method FillSlot(node: Option<Addr>, o: nat, height: nat) returns (c: Option<Addr>)
      requires Links(T()) && if node.Some? then node.value in nodes && o < |nodes[node.value].slots| else head == Null
      modifies `head, `flags, `nodes, `pfx, `dir
      ensures c.None? ==> T() == old(T()) && !reliable
      ensures c.Some? ==> c.value !in old(nodes)
      ensures c.Some? && node.None? ==> T() == FirstRoot(old(T()), c.value, FreeNode(height, None, 0))
      ensures c.Some? && node.Some? ==>
        T() == AddChild(old(T()), node.value, o, Grown(old(nodes)[node.value], o, c.value), c.value, FreeNode(height, node, o))
    {
      hide Grown, Links, FreeNode, AddChild, FirstRoot;
      c := Malloc();
      if c.None? { return; }
      if node.None? {
        PlaceRoot(c.value, height);
      } else {
        PlaceChild(node.value, o, c.value, height);
      }
    }

    /** The node on the way to start below slot o, made if it is not there. */
    method NextChild(node: Option<Addr>, o: nat, child: Entry, height: nat, start: nat, ghost lo: nat, ghost t0: Tree)
      returns (a: Option<Addr>)
      requires IInv(T()) && SameIds(t0, T()) && HuntAt(T(), node, o, child, height + 1, start, lo)
      modifies `head, `flags, `nodes, `pfx, `dir
      ensures SameIds(t0, T()) && IBase(T())
      ensures a.None? ==> IInv(T()) && Free(T(), start) && !reliable
      ensures a.Some? ==>
        && Covers(T(), a.value, start) && nodes[a.value].level == height && LeavesBut(T(), a.value)
        && AllLive(T(), lo, start)
        && (height == 0 && nodes[a.value].count == 0 && head == Child(a.value) ==> start > 0)
        && (nodes[a.value].count == 0 || (T() == old(T()) && (height == 0 ==> nodes[a.value].count > 0)))
        && (old(Vacant(T(), node, o, start)) ==>
              nodes[a.value].count == 0 || Vacant(T(), a, Digit(start, height), start))
    {
      hide IInv, IBase, SameIds, AllLive, Hunting, Pfx, Vacant, Links, Free;
      ghost var t := T();
      IInvFacts(t);
      if child == Null {
        MissingFree(t, node, o, height, start, lo);
        HuntNode(t, node, o, child, height + 1, start, lo);
        a := FillSlot(node, o, height);
        if a.Some? { FillHunt(t0, t, node, o, a.value, height, start, lo); }
      } else {
        StepHunt(t, node, o, child, height, start, lo);
        if !child.Child? { assert false; }
        a := Some(child.addr);
        AllLeaves(t, child.addr);
      }
    }

    /** The inner loop of idr_get_free that leaves full nodes upwards: back to a slot, or out at the root. */
    method PopUp(a0: Addr, ghost lo: nat, s: nat) returns (node: Option<Addr>, o: nat)
      requires IBase(T()) && a0 in nodes && Full(T(), a0, lo, s) && nodes[a0].level <= TOP
      ensures match node
              case Some(a) => a in nodes && nodes[a].level > 0 && Hunting(T(), a, o, s, lo) && nodes[a].level <= TOP
              case None => head.Child? && s == Shl(64, RootLevel(T()))
    {
      hide IBase, Hunting, AllLive, Links, Start, Shl;
      ghost var t := T();
      HeadFacts(t);
      node, o := Some(a0), 64;
      while o == 64
        invariant node.Some? && node.value in nodes && o <= 64 && nodes[node.value].level <= TOP
        invariant o == 64 ==> Full(t, node.value, lo, s)
        invariant o < 64 ==> Hunting(t, node.value, o, s, lo) && nodes[node.value].level > 0
        decreases o == 64, TOP + 1 - nodes[node.value].level
      {
        var a := node.value;
        PopHunt(t, a, lo, s);
        o := nodes[a].offset + 1;
        node := nodes[a].parent;
        if node.None? { return; }
      }
    }

    /** The search of idr_get_free below the head. */
    method Search(start0: nat, max: nat, height0: nat, ghost lo: nat, ghost t0: Tree) returns (r: Hunt)
      requires IInv(T()) && SameIds(t0, T()) && start0 <= max
      requires height0 > 0 && HuntAt(T(), None, 0, head, height0, start0, lo)
      modifies `head, `flags, `nodes, `pfx, `dir
      ensures SameIds(t0, T())
      ensures match r
              case Found(i, node, o) => node.Some? && i <= max && FoundAt(T(), node.value, o, i, lo)
              case Grow(s) => IInv(T()) && AllLive(T(), lo, s) && start0 < s <= max && head.Child? && s == Shl(64, RootLevel(T()))
              case NoSpace => IInv(T()) && AllLive(T(), lo, max + 1)
              case NoMemory => IInv(T()) && !AllLive(t0, lo, max + 1) && !reliable
      ensures r.Grow? || r.NoSpace? ==> T() == old(T()) && !old(Vacant(T(), None, 0, start0))
    {
      hide IInv, IBase, SameIds, AllLive, Hunting, Pfx, Vacant, Links, Start, Shl, Covers, HuntAt, Digit, NextIndex, Free;
      ghost var told := T();
      ghost var sure0 := Vacant(told, None, 0, start0);
      var start, height, child := start0, height0, head;
      var node, o := None, 0;
      HuntNode(told, None, 0, head, height0, start0, lo);
      while height > 0
        invariant lo <= start0 <= start <= max && SameIds(t0, T()) && HuntAt(T(), node, o, child, height, start, lo)
        invariant height > 0 ==> IInv(T())
        invariant height == 0 ==> node.Some? && FoundAt(T(), node.value, o, start, lo)
        invariant (T() == told && !sure0) || Vacant(T(), node, o, start)
        decreases max - start, height
      {
        height := height - 1;
        ghost var sure := Vacant(T(), node, o, start);
        var next := NextChild(node, o, child, height, start, lo, t0);
        if next.None? {
          NotAllLive(t0, T(), lo, max + 1, start);
          return NoMemory;
        }
        ghost var t := T();
        var a := next.value;
        HuntEnter(t, a, height, start, lo);
        node, o := Some(a), Digit(start, height);
        child := nodes[a].slots[o];
        if o !in nodes[a].marks[FREE] {
          StillCalm(t, a, o, start);
          AllLeavesBack(t, a);
          var next := NextBit(nodes[a].marks[FREE], o + 1);
          SkipHunt(t, a, o, next, start, lo);
          start := NextIndex(start, height, next);
          if start > max {
            AllLiveLess(t, lo, start, max + 1);
            return NoSpace;
          }
          o := next;
          if next == 64 {
            node, o := PopUp(a, lo, start);
            if node.None? { return Grow(start); }
            height := nodes[node.value].level;
          }
          HuntSlot(t, node.value, o, start, lo);
          child := nodes[node.value].slots[o];
        } else if nodes[a].count == 0 {
          FreshVacant(t, a, o, start);
          if height > 0 { AllLeavesBack(t, a); }
        } else {
          AllLeavesBack(t, a);
        }
        HuntReady(t, node.value, o, height, start, lo);
      }
      r := Found(start, node, o);
    }

    /** idr_get_free: the place of the least free ID from start0 on. */
    method GetFree(start0: nat, max: nat) returns (r: Hunt)
      requires IInv(T()) && max <= MAX_INDEX
      modifies `head, `flags, `nodes, `pfx, `dir
      ensures SameIds(old(T()), T())
      ensures match r
              case Found(i, node, o) =>
                && start0 <= i <= max
                && (if node.Some? then FoundAt(T(), node.value, o, i, start0)
                    else T() == old(T()) && i == 0 && head == Null && FREE in flags)
              case NoSpace => T() == old(T()) && AllLive(T(), start0, max + 1)
              case NoMemory =>
                && IInv(T()) && !AllLive(old(T()), start0, max + 1) && !reliable
                && !(start0 == 0 && old(head) == Null && FREE in old(flags))
              case Grow(_) => false
    {
      hide IInv, SameIds, AllLive, Pfx, Vacant, Shl, FoundAt, Free;
      ghost var told := T();
      var start := start0;
      IInvFacts(told);
      NoneYet(told, start0);
      while true
        invariant T() == told && AllLive(told, start0, start) && start0 <= start
        invariant start0 == 0 && head == Null && FREE in flags ==> start == 0
        decreases max + 1 - start
      {
        IInvFacts(told);
        var height := if head.Child? then nodes[head.addr].level + 1 else 0;
        var end := if head.Child? then Shl(64, nodes[head.addr].level) else 1;
        TreeEnd(told, start, start0);
        if FREE !in flags {
          start := if start > end then start else end;
        }
        if start > max {
          AllLiveLess(told, start0, start, max + 1);
          return NoSpace;
        }
        TreeEnd(told, start, start0);
        if start >= end {
          var h := ExtendTree(start, height);
          if h < 0 {
            BeyondFree(told, start);
            NotAllLive(told, told, start0, max + 1, start);
            return NoMemory;
          }
          height := h;
          AllLiveSame(told, T(), start0, start);
        }
        if height == 0 {
          return Found(start, None, 0);
        }
        r := Search(start, max, height, start0, told);
        if !r.Grow? { FoundFrom(T(), r, start0); return; }
        start := r.start;
      }
    }

    // --------------------------------------------------------------- tags

    /** node_tag_clear for tag IDR_FREE, from the place of ID i upwards. */
    method TagClear(node: Option<Addr>, offset: nat, ghost hole: Option<Addr>, ghost i: nat)
      requires FreeRun(T(), T(), hole, node, offset, false, i)
      modifies `nodes, `flags
      ensures FDone(T(), hole) && FreedTo(old(T()), T(), i, false) && SameNodes(old(T()), T())
    {
      hide FreeRun, FDone, FreedTo, SameNodes;
      ghost var t0 := T();
      var cur, off := node, offset;
      while cur.Some?
        invariant FreeRun(t0, T(), hole, cur, off, false, i)
        decreases if cur.Some? && cur.value in nodes then TOP + 1 - nodes[cur.value].level else 0
      {
        var a := cur.value;
        FreeRunStep(t0, T(), hole, a, off, false, i);
        if off !in nodes[a].marks[FREE] {
          FreeRunStop(t0, T(), hole, a, off, false, i);
          return;
        }
        nodes := nodes[a := NodeBit(nodes[a], off, FREE, false)];
        if nodes[a].marks[FREE] != {} { return; }
        off := nodes[a].offset;
        cur := nodes[a].parent;
      }
      FreeRunFlag(t0, T(), hole, off, false, i);
      flags := flags - {FREE};
    }

    /** node_tag_set for tag IDR_FREE, from a leaf upwards. */
    method TagSet(node: Addr, offset: nat, ghost i: nat)
      requires FreeRun(T(), T(), Some(node), Some(node), offset, true, i)
      modifies `nodes, `flags
      ensures FDone(T(), Some(node)) && FreedTo(old(T()), T(), i, true) && SameNodes(old(T()), T())
    {
      hide FreeRun, FDone, FreedTo, SameNodes;
      ghost var t0 := T();
      var cur, off := Some(node), offset;
      while cur.Some?
        invariant FreeRun(t0, T(), Some(node), cur, off, true, i)
        decreases if cur.Some? && cur.value in nodes then TOP + 1 - nodes[cur.value].level else 0
      {
        var a := cur.value;
        FreeRunStep(t0, T(), Some(node), a, off, true, i);
        if off in nodes[a].marks[FREE] {
          FreeRunStop(t0, T(), Some(node), a, off, true, i);
          return;
        }
        nodes := nodes[a := NodeBit(nodes[a], off, FREE, true)];
        assert off in nodes[a].marks[FREE];
        off := nodes[a].offset;
        cur := nodes[a].parent;
      }
      FreeRunFlag(t0, T(), Some(node), off, true, i);
      flags := flags + {FREE};
    }

    // ---------------------------------------------------------- shrinking

    /** radix_tree_shrink */
    method Shrink()
      requires IBase(T())
      modifies `head, `flags, `nodes, `pfx, `dir
      ensures IBase(T()) && SameIds(old(T()), T())
      ensures old(LeavesLive(T())) ==> LeavesLive(T())
      ensures Snug(T()) && KeepsCounts(old(T()), T())
    {
      hide IBase, SameIds, LeavesLive, KeepsCounts;
      ghost var t0 := T();
      HeadFacts(t0);
      KeepsSame(t0);
      while head.Child?
        invariant IBase(T()) && SameIds(t0, T()) && HeadOk(T()) && KeepsCounts(t0, T())
        invariant LeavesLive(t0) ==> LeavesLive(T())
        decreases if head.Child? && head.addr in nodes then nodes[head.addr].level + 1 else 0
      {
        ghost var t := T();
        HeadFacts(t);
        var n := head.addr;
        INodeFacts(t, n);
        if Settled(nodes[n]) { return; }
        var c := nodes[n].slots[0];
        var kept := 0 in nodes[n].marks[FREE];
        if !kept { flags := flags - {FREE}; }
        head := c;
        if c.Child? {
          IPopRoot(t);
          if LeavesLive(t) { PopLeaves(t); }
          nodes, pfx, dir := nodes[c.addr := nodes[c.addr].(parent := None)] - {n}, pfx - {n}, dir - {(nodes[n].level, pfx[n])};
          assert T() == IPop(t);
        } else {
          IPopLeaf(t);
          if LeavesLive(t) { PopLeaves(t); }
          nodes, pfx, dir := nodes - {n}, pfx - {n}, dir - {(nodes[n].level, 0)};
          assert T() == IPopHead(t);
        }
        SameIdsTrans(t0, t, T());
        KeepsPopped(t0, t, T());
        HeadFacts(T());
      }
    }

    /** delete_node, from a node whose count may have dropped to 0. */
    method DeleteNode(node: Addr)
      requires IBase(T()) && node in nodes && LeavesBut(T(), node)
      modifies `head, `flags, `nodes, `pfx, `dir
      ensures IInv(T()) && SameIds(old(T()), T())
      ensures NoneEmptied(old(T()), T(), node)
      ensures old(head) == Child(node) || Snug(old(T())) ==> Snug(T())
    {
      hide IBase, SameIds, LeavesBut, LeavesLive, Snug, NoneEmptied, KeepsCounts, Clearing;
      ghost var t0 := T();
      var n := node;
      HeadFacts(t0);
      ClearFirst(t0, node);
      while true
        invariant IBase(T()) && SameIds(t0, T()) && n in nodes && LeavesBut(T(), n)
        invariant Clearing(t0, T(), node, n)
        decreases if n in nodes then TOP + 1 - nodes[n].level else 0
      {
        ghost var t := T();
        INodeFacts(t, n);
        if nodes[n].count > 0 {
          LeavesAll(t, n);
          Cleared(t0, t, node, n);
          if head == Child(n) {
            Shrink();
            ClearedShrunk(t0, t, T(), node);
            SameIdsTrans(t0, t, T());
          }
          return;
        }
        var parent := nodes[n].parent;
        if parent.None? {
          IDropRoot(t);
          head := Null;
          nodes, pfx, dir := nodes - {n}, pfx - {n}, dir - {(nodes[n].level, 0)};
          assert T() == Bare(t, Null);
          SameIdsTrans(t0, t, T());
          BareLeaves(T());
          BareCleared(t0, T(), node);
          return;
        }
        IPrune(t, n);
        PruneLeaves(t, n);
        ClearMore(t0, t, node, n);
        nodes, pfx, dir := nodes[parent.value := Pruned(nodes[parent.value], nodes[n].offset)] - {n},
          pfx - {n}, dir - {(nodes[n].level, pfx[n])};
        assert T() == Prune(t, n);
        SameIdsTrans(t0, t, T());
        n := parent.value;
      }
    }

    // --------------------------------------------------- the users' view

    ghost var ids: map<nat, Entry>
    const base: nat
    var next: nat

    /** The allocator as its users see it: a map from the live IDs to their pointers. */
    ghost predicate Valid()
      reads this
    {
      IInv(T()) && Binds(T(), ids) && base <= U32_MAX && next <= U32_MAX
    }

    /** IDR_INIT_BASE */
    constructor (base: nat, reliable: bool)
      requires base <= U32_MAX
      ensures Valid() && ids == map[] && this.base == base && this.reliable == reliable && next == 0
      ensures head == Null && FREE in flags
    {
      head, flags, nodes, pfx, dir := Null, {FREE}, map[], map[], map[];
      ids, next := map[], 0;
      this.base, this.reliable := base, reliable;
      new;
      EmptyIdr(T());
    }

    /** radix_tree_iter_replace and radix_tree_iter_tag_clear at a place found by GetFree. */
    method Take(node: Option<Addr>, offset: nat, i: nat, p: Entry)
      requires UserEntry(p)
      requires if node.Some? then FoundAt(T(), node.value, offset, i, i)
               else IInv(T()) && i == 0 && head == Null && FREE in flags
      modifies `head, `flags, `nodes, `pfx, `dir
      ensures IInv(T()) && Bound(old(T()), T(), i, p)
    {
      hide IInv, IBase, INode, FDone, FreedTo, SameNodes, FreeRun, Bound, Free, Get, Links;
      ghost var t0 := T();
      if node.None? {
        head := p;
        TakeHead(t0, p);
        TagClear(None, 0, None, 0);
        TakeHeadEnd(t0, T(), p);
        return;
      }
      var a := node.value;
      TakeLeaf(t0, a, offset, i, p);
      var n := nodes[a];
      nodes := nodes[a := n.(slots := n.slots[offset := p], count := n.count + 1,
                             nrValues := n.nrValues + (if p.Value? then 1 else 0))];
      ghost var t1 := T();
      // delete_node would unlink an empty node or shrink a root with a lone entry in slot 0
      if nodes[a].count == 0 || (head == Child(a) && !Settled(nodes[a])) { assert false; }
      TagClear(node, offset, node, i);
      TakeEnd(t0, t1, T(), a, offset, i, p);
    }

    /** __radix_tree_lookup: the entry at an index, and its place if the tree reaches that far. */
    method Lookup(index: nat) returns (e: Entry, found: bool, node: Option<Addr>, offset: nat)
      requires IInv(T())
      ensures e == Get(T(), index)
      ensures !found ==> Free(T(), index)
      ensures found ==> SlotAt(T(), node, offset, index)
    {
      hide IInv, IBase, Links, Get, Free, Pfx, Shl;
      ghost var t := T();
      IInvFacts(t);
      e, found, node, offset := head, false, None, 0;
      if e.Child? {
        FitsLevel(index, nodes[e.addr].level);
        if index > MaxIndexOf(nodes[e.addr].level) {
          OutOfTree(t, index);
          return Null, false, None, 0;
        }
      } else if index > 0 {
        OutOfTree(t, index);
        return Null, false, None, 0;
      }
      LookupStart(t, index);
      while e.Child?
        invariant t == T() && IBase(t)
        invariant if e.Child? then Covers(t, e.addr, index) else e == Get(t, index) && SlotAt(t, node, offset, index)
        decreases if e.Child? && e.addr in nodes then nodes[e.addr].level + 1 else 0
      {
        var a := e.addr;
        LookupStep(t, a, index);
        node, offset := Some(a), Digit(index, nodes[a].level);
        e := nodes[a].slots[offset];
      }
      found := true;
    }

    /** radix_tree_delete_item without an expected item. */
    method Delete(index: nat) returns (e: Entry)
      requires IInv(T())
      modifies `head, `flags, `nodes, `pfx, `dir
      ensures IInv(T()) && Released(old(T()), T(), index) && e == Get(old(T()), index)
      ensures Snug(old(T())) ==> Snug(T())
      ensures forall a :: a in nodes && nodes[a].count == 0 ==> a in old(nodes) && old(nodes)[a].count == 0
    {
      hide IInv, IBase, INode, FDone, FreedTo, SameNodes, FreeRun, Released, Free, Get, Links, SameIds, LeavesBut, Pfx, Settled;
      ghost var t0 := T();
      IInvFacts(t0);
      var found, node, offset;
      e, found, node, offset := Lookup(index);
      if !found {
        NotLive(t0, index);
        return;
      }
      SlotTag(t0, node, offset, index);
      if e == Null && (if node.Some? then offset in nodes[node.value].marks[FREE] else FREE in flags) {
        NotLive(t0, index);
        return;
      }
      if node.None? {
        flags := flags + {FREE};
        head := Null;
        ReleaseHead(t0);
        return;
      }
      var a := node.value;
      ReleaseStart(t0, a, offset, index);
      TagSet(a, offset, index);
      ghost var t1 := T();
      ReleaseCounts(t0, t1, a, offset, index);
      var n := nodes[a];
      nodes := nodes[a := n.(slots := n.slots[offset := Null], count := n.count - 1,
                             nrValues := n.nrValues - (if n.slots[offset].Value? then 1 else 0))];
      ghost var t2 := T();
      ReleaseEnd(t0, t1, t2, a, offset, index);
      ReleaseSnug(t0, t1, t2, a, offset);
      DeleteNode(a);
      ReleaseIds(t0, t2, T(), index);
    }

    /**
     * idr_alloc_u32: the least free tree index from nextid on, bound to ptr.
     * The bound is max - base in unsigned long arithmetic, and the ID is
     * index + base in 32 bits.
     */
    method AllocU32(ptr: Entry, nextid: nat, max: nat) returns (r: IdReply, ghost index: nat)
      requires Valid() && !ptr.Child? && nextid <= U32_MAX && max <= MAX_INDEX
      modifies this
      ensures Valid() && next == old(next)
      ensures r == Fail(EINVAL) <==> ptr == Retry
      ensures r.Id? ==> r.id == Named(base, index) && Allotted(old(ids), ids, From(base, nextid), Minus(max, base), ptr, index)
      ensures r.Id? ==> (index + base <= max <==> base <= max)
      ensures r.Id? ==> nextid <= index + base && (index + base < 0x1_0000_0000 ==> r.id == index + base)
      ensures r.Fail? ==> ids == old(ids) && r.errno != ENOENT
      ensures r == Fail(ENOSPC) ==> T() == old(T())
      ensures ptr != Retry ==> (r == Fail(ENOSPC) <==> NoneFree(old(ids), From(base, nextid), Minus(max, base)))
      ensures r == Fail(ENOMEM) ==> !reliable && !(From(base, nextid) == 0 && old(head) == Null && FREE in old(flags))
    {
      hide IInv, Binds, SameIds, AllLive, FoundAt, Bound, Get, Free;
      index := 0;
      if ptr == Retry {
        r := Fail(EINVAL);
        return;
      }
      ghost var t0 := T();
      var id := From(base, nextid);
      var h := GetFree(id, Minus(max, base));
      match h {
        case Found(i, node, o) =>
          ghost var t1 := T();
          BindsSame(t0, t1, ids);
          FoundPlace(t1, ids, node, o, i, id);
          Take(node, o, i, ptr);
          BindsTaken(t1, T(), ids, i, ptr);
          ids := ids[i := ptr];
          r, index := Id(Named(base, i)), i;
        case NoSpace =>
          NoneFreeOf(t0, ids, id, Minus(max, base));
          r := Fail(ENOSPC);
        case NoMemory =>
          SomeFreeOf(t0, ids, id, Minus(max, base));
          BindsSame(t0, T(), ids);
          r := Fail(ENOMEM);
        case Grow(_) =>
          assert false;
          r := Fail(ENOMEM);
      }
    }

    /** idr_alloc: like AllocU32 for the half-open range of two C ints; an end of 0 or less stands for INT_MAX + 1. */
    method Alloc(ptr: Entry, start: int, end: int) returns (r: IdReply, ghost index: nat)
      requires Valid() && !ptr.Child? && IsInt(start) && IsInt(end)
      modifies this
      ensures Valid() && next == old(next)
      ensures var lim := if end > 0 then end else 0x8000_0000;
              base < lim ==>
                && (r.Id? ==>
                      && start <= r.id && base <= r.id < lim && r.id - base !in old(ids) && ids == old(ids)[r.id - base := ptr]
                      && AllTaken(old(ids), base, start, r.id))
                && (start >= 0 && ptr != Retry ==>
                      (r == Fail(ENOSPC) <==> AllTaken(old(ids), base, start, lim)))
      ensures r == Fail(EINVAL) <==> start < 0 || ptr == Retry
      ensures r.Id? ==> r.id == AsInt(Named(base, index))
                        && Allotted(old(ids), ids, From(base, start), Minus(LastId(end), base), ptr, index)
      ensures r.Id? ==> (r.id == index + base <= LastId(end) <==> base <= LastId(end))
      ensures r.Fail? ==> ids == old(ids) && r.errno != ENOENT
      ensures r == Fail(ENOSPC) ==> T() == old(T())
      ensures start >= 0 && ptr != Retry ==>
                (r == Fail(ENOSPC) <==> NoneFree(old(ids), From(base, start), Minus(LastId(end), base)))
      ensures r == Fail(ENOMEM) ==> !reliable && !(From(base, start) == 0 && old(head) == Null && FREE in old(flags))
    {
      hide IInv, Binds, NoneFree;
      index := 0;
      if start < 0 {
        r := Fail(EINVAL);
        return;
      }
      ghost var ids0 := ids;
      r, index := AllocU32(ptr, start, LastId(end));
      if base <= LastId(end) { InIds(ids0, base, start, LastId(end) + 1, index); }
      if r.Id? {
        NamedFits(base, index);
        r := Id(AsInt(r.id));
      }
    }

    /** idr_alloc_cyclic: from the cursor on, else from start on. */
    method AllocCyclic(ptr: Entry, start: int, end: int) returns (r: IdReply, ghost index: nat)
      requires Valid() && !ptr.Child? && IsInt(start) && IsInt(end)
      modifies this
      ensures Valid()
      ensures r == Fail(EINVAL) <==> ptr == Retry
      ensures var lim := if end > 0 then end else 0x8000_0000;
              var from := if start <= old(next) < 0x8000_0000 then old(next) else start;
              var full := AllTaken(old(ids), base, from, lim);
              var lo := if full then start else from;
              0 <= start && base < lim ==>
                && (r.Id? ==>
                      && lo <= r.id && base <= r.id < lim && r.id - base !in old(ids) && ids == old(ids)[r.id - base := ptr]
                      && AllTaken(old(ids), base, lo, r.id)
                      && next == r.id + 1)
                && (ptr != Retry ==>
                      (r == Fail(ENOSPC) <==> full && AllTaken(old(ids), base, start, lim)))
      ensures CyclicAnswer(old(ids), ids, base, old(next), next, start, end, ptr, r, index)
      ensures r.Id? ==> (r.id == index + base <= LastId(end) <==> base <= LastId(end))
      ensures r.Fail? ==> ids == old(ids) && r.errno != ENOENT
      ensures r == Fail(ENOMEM) ==> !reliable
    {
      hide IInv, Binds, AllTaken, Allotted, NoneFree, Named, AsInt, Minus, From, Cursor, LastId;
      ghost var ids0, next0 := ids, next;
      LastIdFits(end);
      var id := Cursor(next, start);
      r, index := AllocU32(ptr, id, LastId(end));
      if r == Fail(ENOSPC) && id > AsU32(start) {
        id := AsU32(start);
        r, index := AllocU32(ptr, id, LastId(end));
      }
      if r.Id? {
        next := (r.id + 1) % (U32_MAX + 1);
        NamedFits(base, index);
        r := Id(AsInt(r.id));
      }
      if start >= 0 && base < (if end > 0 then end else 0x8000_0000) { CyclicIds(ids0, ids, base, next0, next, start, end, ptr, r, index); }
    }

    /** idr_remove */
    method Remove(id: nat) returns (e: Entry)
      requires Valid() && id <= MAX_INDEX
      modifies this
      ensures Valid() && next == old(next)
      ensures var i := Minus(id, base);
              e == (if i in old(ids) then old(ids)[i] else Null) && ids == old(ids) - {i}
    {
      hide IInv, Binds, Released, Get, Free;
      ghost var t0 := T();
      var i := Minus(id, base);
      e := Delete(i);
      BindsReleased(t0, T(), ids, i);
      ids := ids - {i};
    }

    /** idr_find */
    method Find(id: nat) returns (e: Entry)
      requires Valid() && id <= MAX_INDEX
      ensures var i := Minus(id, base); e == if i in ids then ids[i] else Null
    {
      hide IInv, Binds, Get, Free, SlotAt;
      var found, node, o;
      e, found, node, o := Lookup(Minus(id, base));
      BindsAt(T(), ids, Minus(id, base));
    }

    /** radix_tree_tag_get for tag IDR_FREE: it stops at the first clear tag. */
    method TagGet(index: nat) returns (b: bool)
      requires IInv(T())
      ensures b ==> Free(T(), index)
      ensures !Free(T(), index) || !InTree(T(), index) ==> !b
      ensures Free(T(), index) && InTree(T(), index) ==> b
    {
      hide IInv, IBase, Links, Free, Pfx, Shl;
      ghost var t := T();
      IInvFacts(t);
      var e := head;
      if FREE !in flags {
        RootTaken(t, index);
        return false;
      }
      if e.Child? {
        FitsLevel(index, nodes[e.addr].level);
        if index > MaxIndexOf(nodes[e.addr].level) { return false; }
      } else if index > 0 { return false; }
      LookupStart(t, index);
      if !e.Child? { HeadTag(t, index); }
      while e.Child?
        invariant t == T() && IBase(t) && InTree(t, index)
        invariant if e.Child? then Covers(t, e.addr, index) else Free(t, index)
        decreases if e.Child? && e.addr in nodes then nodes[e.addr].level + 1 else 0
      {
        var a := e.addr;
        LookupStep(t, a, index);
        TagStep(t, a, index);
        var offset := Digit(index, nodes[a].level);
        if offset !in nodes[a].marks[FREE] { return false; }
        e := nodes[a].slots[offset];
      }
      b := true;
    }

    /** idr_replace with __radix_tree_replace. */
    method Replace(ptr: Entry, id: nat) returns (r: ReplaceReply)
      requires Valid() && !ptr.Child? && id <= MAX_INDEX
      modifies this
      ensures Valid() && next == old(next)
      ensures r == Refused(EINVAL) <==> ptr == Retry
      ensures var i := Minus(id, base);
              if ptr == Retry then ids == old(ids)
              else if i in old(ids) then r == Old(old(ids)[i]) && ids == old(ids)[i := ptr]
              else r == Refused(ENOENT) && ids == old(ids)
    {
      hide IInv, IBase, Binds, Get, Free, SameIds, Bound, LeavesBut;
      if ptr == Retry { return Refused(EINVAL); }
      ghost var t0 := T();
      IInvFacts(t0);
      var i := Minus(id, base);
      var e, found, node, o := Lookup(i);
      BindsAt(t0, ids, i);
      var free := TagGet(i);
      if found { SlotInTree(t0, node, o, i); }
      if !found || free { return Refused(ENOENT); }
      if node.None? {
        head := ptr;
        ReplaceHead(t0, ptr);
        BindsTaken(t0, T(), ids, i, ptr);
      } else {
        var a := node.value;
        ReplaceLeaf(t0, a, o, i, ptr);
        var n := nodes[a];
        nodes := nodes[a := n.(slots := n.slots[o := ptr], nrValues := n.nrValues + Delta(n.slots[o], ptr, true))];
        ghost var t1 := T();
        DeleteNode(a);
        BoundSame(t0, t1, T(), i, ptr);
        BindsTaken(t0, T(), ids, i, ptr);
      }
      ids := ids[i := ptr];
      r := Old(e);
    }

    // ---------------------------------------------------------- iteration

    /** The search for a used slot in radix_tree_next_chunk and radix_tree_next_slot. */
    method NextUsed(a: Addr, offset: nat) returns (o: nat)
      requires a in nodes && |nodes[a].slots| == 64 && offset < 64
      ensures offset < o <= 64 && (o < 64 ==> nodes[a].slots[o] != Null)
      ensures forall k :: offset < k < o ==> nodes[a].slots[k] == Null
    {
      o := offset + 1;
      while o < 64 && nodes[a].slots[o] == Null
        invariant offset < o <= 64
        invariant forall k :: offset < k < o ==> nodes[a].slots[k] == Null
      {
        o := o + 1;
      }
    }

    /** radix_tree_next_chunk without tags: the next used slot, with the end of its chunk. */
    method NextChunk(start: nat) returns (found: bool, index: nat, nextIndex: nat, node: Option<Addr>)
      requires IInv(T())
      ensures !found ==> NoneLeft(T(), start)
      ensures found ==> LeastPresent(T(), start, index) && ChunkAt(T(), node, index, nextIndex)
    {
      hide IInv, IBase, Links, Get, Pfx, Shl, NonePresent, NoneLeft, Covers, NextIndex, Digit;
      ghost var t := T();
      IInvFacts(t);
      found, index, nextIndex, node := false, start, 0, None;
      NonePresentStart(t, start);
      var end := if head.Child? then Shl(64, nodes[head.addr].level) else 1;
      while true
        invariant T() == t && NonePresent(t, start, index) && start <= index && !found
        decreases end - index
      {
        EndOfTree(t, start, index);
        if index >= end || head == Null { return; }
        if !head.Child? {
          HeadPresent(t, start);
          return true, index, 1, None;
        }
        var child := head;
        ghost var was := index;
        while child.Child?
          invariant T() == t && NonePresent(t, start, index) && start <= was <= index && !found
          invariant child.Child? ==> Covers(t, child.addr, index)
          invariant child == Null ==> was < index
          invariant !child.Child? && child != Null ==> node.Some? && LeafAt(t, node.value, index, child)
          decreases if child.Child? && child.addr in nodes then nodes[child.addr].level + 1 else 0
        {
          var a := child.addr;
          ChunkStep(t, a, index);
          var offset := Digit(index, nodes[a].level);
          node, child := Some(a), nodes[a].slots[offset];
          if child == Null {
            var o := NextUsed(a, offset);
            SkipHole(t, a, offset, o, index, start);
            index := NextIndex(index, nodes[a].level, o);
            if o < 64 {
              child := nodes[a].slots[o];
              ChunkStep(t, a, index);
            }
          }
        }
        if child != Null {
          ChunkEnd(t, node.value, index, child, start);
          return true, index, index / 64 * 64 + 64, node;
        }
      }
    }

    /** idr_get_next with radix_tree_iter_find; a negative nextid converts to a large unsigned long. */
    method GetNext(nextid: int) returns (e: Entry, id: int)
      requires Valid() && IsInt(nextid)
      ensures var lo := From(base, AsUlong(nextid));
              if e == Null then id == nextid && forall j: nat :: j >= lo ==> !Used(ids, base, j)
              else base <= id <= INT_MAX && LeastUsed(ids, base, lo, id - base) && e == ids[id - base]
      ensures nextid >= 0 ==>
                if e == Null then forall i :: i in ids && ids[i] != Null ==> i + base < nextid || i + base > 0x7FFF_FFFF
                else
                  && e != Null && nextid <= id <= 0x7FFF_FFFF
                  && forall i :: i in ids && ids[i] != Null ==> i + base < nextid || i + base >= id
    {
      hide IInv, Binds, NonePresent, NoneLeft, LeastPresent, ChunkAt, Get, Used;
      var start := From(base, AsUlong(nextid));
      var found, index, next, node := NextChunk(start);
      e, id := Null, nextid;
      UsedFrom(T(), ids, base, start, found, index);
      UsedIds(ids, base, AsUlong(nextid), index);
      if !found || index + base > INT_MAX { return; }
      ChunkEntry(T(), ids, node, start, index, next);
      id := index + base;
      e := if node.Some? then nodes[node.value].slots[index % 64] else head;
    }

    /** Repeat GetNext from 0 on, each time behind the last ID; at which tree indices the IDs are. */
    method AllNext() returns (answers: seq<int>, ghost seen: seq<nat>)
      requires Valid()
      ensures Increasing(seen) && forall i: nat :: i in seen <==> Used(ids, base, i)
      ensures |answers| == |seen| && forall p :: 0 <= p < |seen| ==> answers[p] == seen[p] + base
    {
      hide IInv, Binds, Used;
      answers, seen := [], [];
      var nextid := 0;
      while true
        invariant 0 <= nextid <= INT_MAX
        invariant Increasing(seen) && forall i: nat :: i in seen <==> i < From(base, nextid) && Used(ids, base, i)
        invariant |answers| == |seen| && forall p :: 0 <= p < |seen| ==> answers[p] == seen[p] + base
        decreases INT_MAX - nextid
      {
        var e, id := GetNext(nextid);
        if e == Null { return; }
        ghost var index: nat := id - base;
        NextSeen(ids, base, seen, From(base, nextid), index);
        answers, seen := answers + [id], seen + [index];
        if id == INT_MAX {
          NoneAbove(ids, base, index);
          return;
        }
        nextid := id + 1;
      }
    }

    /** radix_tree_next_slot without tags: the next used slot of the chunk. */
    method NextSlot(index: nat, next: nat, node: Option<Addr>) returns (found: bool, i: nat)
      requires IInv(T()) && ChunkAt(T(), node, index, next) && index < next
      ensures if found then LeastPresent(T(), index + 1, i) && ChunkAt(T(), node, i, next)
              else NonePresent(T(), index + 1, next) && index < next
    {
      hide IInv, NonePresent, LeastPresent, Get;
      found, i := false, index;
      SlotsOfChunk(T(), node, index, next, 64);
      if node.Some? {
        var o := NextUsed(node.value, index % 64);
        SlotsOfChunk(T(), node, index, next, o);
        if o < 64 { found, i := true, index / 64 * 64 + o; }
      }
    }

    /** idr_for_each: the callback sees the live IDs with a pointer in increasing order, until it returns non-zero. */
    method ForEach(fn: (nat, Entry) -> int) returns (ret: int, seen: seq<nat>)
      requires Valid()
      ensures Called(ids, base, fn, seen, ret)
      ensures forall p :: 0 <= p < |seen| && seen[p] + base < WORD ==>
                var id := seen[p] + base - (if base < 0x8000_0000 then 0 else 0x1_0000_0000);
                0 <= id < 0x8000_0000 && fn(id, ids[seen[p]]) == if p == |seen| - 1 then ret else 0
    {
      hide IInv, Binds, NonePresent, NoneLeft, LeastPresent, ChunkAt, Get, Visits, Called, WalkId, Present;
      ghost var t: Tree, lo: nat := T(), 0;
      ret, seen := 0, [];
      VisitsNone(ids, base, fn);
      var found: bool, index: nat, next: nat, node: Option<Addr> := NextChunk(0);
      while found
        invariant T() == t && lo <= MAX_INDEX + 1 && Visits(ids, base, fn, seen, lo, 0) && ret == 0
        invariant if found then LeastPresent(t, lo, index) && ChunkAt(t, node, index, next) else NoneLeft(t, lo)
        decreases MAX_INDEX + 1 - lo, found
      {
        PresentFrom(t, ids, lo, true, index);
        ChunkEntry(t, ids, node, lo, index, next);
        var id := WalkId(base, index);
        if id > INT_MAX {
          VisitsEnd(ids, base, fn, seen, lo, index);
          CalledIds(ids, base, fn, seen, 0);
          return;
        }
        var e := if node.Some? then nodes[node.value].slots[index % 64] else head;
        VisitsMore(ids, base, fn, seen, lo, index);
        seen, lo := seen + [index], index + 1;
        ret := fn(id, e);
        if ret != 0 {
          VisitsStop(ids, base, fn, seen, lo, ret);
          CalledIds(ids, base, fn, seen, ret);
          return;
        }
        var more, i := NextSlot(index, next, node);
        if more {
          index := i;
        } else {
          var from: nat := next;
          found, index, next, node := NextChunk(from);
          ChunkJoin(t, lo, from, found, index);
        }
      }
      PresentFrom(t, ids, lo, false, 0);
      VisitsEnd(ids, base, fn, seen, lo, 0);
      CalledIds(ids, base, fn, seen, 0);
    }

    /**
     * For a base that is an int, idr_for_each passes the IDs that repeated idr_get_next answers, in that order,
     * up to the first call that does not answer 0; for a larger base idr_get_next finds nothing.
     */
    method BothWalks(fn: (nat, Entry) -> int) returns (ret: int, walked: seq<nat>, answers: seq<int>)
      requires Valid() && forall i :: i in ids ==> i + base < WORD
      ensures Called(ids, base, fn, walked, ret)
      ensures base <= INT_MAX ==>
                && |walked| <= |answers| && (ret == 0 ==> |walked| == |answers|)
                && forall p :: 0 <= p < |walked| ==>
                     && 0 <= answers[p] == walked[p] + base && walked[p] in ids
                     && fn(answers[p], ids[walked[p]]) == if p == |walked| - 1 then ret else 0
      ensures base > INT_MAX ==> answers == []
    {
      hide IInv, Binds, Reached, Used;
      ghost var next;
      ret, walked := ForEach(fn);
      answers, next := AllNext();
      if base > INT_MAX {
        NoneUsed(ids, base, next);
        return;
      }
      var hi: nat := if ret == 0 then INT_MAX + 1 else walked[|walked| - 1] + 1;
      forall i: nat ensures i in walked <==> i in next && i < hi {
        ReachedIsUsed(ids, base, i);
        UsedInt(ids, base, i);
      }
      SamePrefix(walked, next, hi);
      CalledIds(ids, base, fn, walked, ret);
      if ret == 0 && |walked| < |next| {
        assert next[|walked|] in next;
        UsedInt(ids, base, next[|walked|]);
        NotTwice(walked, next);
      }
    }
  }

  lemma NoneUsed(ids: map<nat, Entry>, base: nat, next: seq<nat>)
    requires base > INT_MAX && forall i: nat :: i in next <==> Used(ids, base, i)
    ensures next == []
  {
    NoElements(next);
  }

  lemma UsedInt(ids: map<nat, Entry>, base: nat, i: nat)
    ensures Used(ids, base, i) ==> i <= INT_MAX
  {
  }

  lemma NotTwice(a: seq<nat>, b: seq<nat>)
    requires Increasing(b) && |a| < |b| && a == b[..|a|]
    ensures b[|a|] !in a
  {
  }

  /** A range that ends below the base: idr_alloc(idr, ptr, 0, 5) on a new allocator of base 10 answers 10. */
  method RangeBelowBase(ptr: Entry) returns (r: IdReply)
    requires UserEntry(ptr)
    ensures r == Id(10)
  {
    hide IInv, Binds;
    var idr := new Idr(10, false);
    ghost var index, ids := 0, idr.ids;
    r, index := idr.Alloc(ptr, 0, 5);
    FirstFreeIndex(ids, index);
    FirstFreeIndex(ids, Minus(4, 10));
  }

  lemma FirstFreeIndex(ids: map<nat, Entry>, i: nat)
    requires ids == map[]
    ensures LeastFree(ids, 0, i) <==> i == 0
    ensures !NoneFree(ids, 0, i)
  {
    assert 0 !in ids;
  }

  lemma AllLeaves(t: Tree, a: Addr)
    requires IInv(t)
    ensures LeavesBut(t, a)
  {
  }

  lemma HuntNode(t: Tree, node: Option<Addr>, o: nat, child: Entry, height: nat, start: nat, lo: nat)
    requires IInv(t) && HuntAt(t, node, o, child, height, start, lo)
    ensures Links(t)
    ensures node.Some? ==> node.value in t.nodes && o < 64 == |t.nodes[node.value].slots|
                           && t.nodes[node.value].level == height
    ensures AllLive(t, lo, start) && lo <= start
  {
  }

  lemma PfxFacts(i: nat, l: nat)
    ensures Pfx(i, 0) == i && (Pfx(i, l) == 0 ==> Pfx(i, l + 1) == 0)
  {
  }

  lemma IInvFacts(t: Tree)
    requires IInv(t)
    ensures IBase(t) && Links(t) && HeadOk(t) && SameIds(t, t) && t.head != Retry
    ensures t.head.Child? ==> t.nodes[t.head.addr].level <= TOP && |t.nodes[t.head.addr].slots| == 64
    ensures !t.head.Child? && t.head != Null ==> FREE !in t.flags
  {
    HeadFacts(t);
  }
}
