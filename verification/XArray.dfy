/**
 * The XArray and its operation state, as the classes that update them in place.
 */
module XArrayCode {
  import opened Memory
  import opened Radix
  import opened XTree
  import opened XLook

  /** xa_node of an xa_state: the special values, NULL for the head, or a node. */
  datatype Where = Restart | Bounds | NoMem | AtHead | At(addr: Addr)

  /** (XA_CHUNK_SIZE << shift) - 1 in 64-bit arithmetic, and 0 for a head that is no node. */
  function MaxIndex(nodes: map<Addr, Node>, e: Entry): nat
    requires e.Child? ==> e.addr in nodes
  {
    if e.Child? then (Shl(64, nodes[e.addr].level) + WORD - 1) % WORD else 0
  }

  lemma ShlTop()
    ensures Shl(64, 9) == 0x1000_0000_0000_0000 && Shl(64, 10) == 4 * WORD
  {
    assert Shl(64, 2) == 0x4_0000;
    assert Shl(64, 4) == 0x4000_0000;
    assert Shl(64, 6) == 0x400_0000_0000;
    assert Shl(64, 8) == 0x40_0000_0000_0000;
  }

  lemma {:induction false} ShlMono(p: nat, l: nat, k: nat)
    requires l <= k
    ensures Shl(p, l) <= Shl(p, k)
    decreases k
  {
    if l < k { ShlMono(p, l, k - 1); }
  }

  /** The comparison with max_index tells whether the index fits under the head. */
  lemma MaxIndexMeans(nodes: map<Addr, Node>, e: Entry, i: nat)
    requires i <= MAX_INDEX
    requires e.Child? ==> e.addr in nodes && nodes[e.addr].level <= TOP
    ensures i > MaxIndex(nodes, e) <==> if e.Child? then Pfx(i, nodes[e.addr].level + 1) != 0 else i != 0
  {
    if e.Child? {
      var l := nodes[e.addr].level;
      PfxBelowShl(i, 64, l);
      ShlTop();
      if l < TOP { ShlMono(64, l, 9); }
      assert Pfx(i, l + 1) == Pfx(i, l) / 64;
    }
  }

  /** The slot of a present index: slot off of a leaf, or the head. */
  ghost predicate Spot(t: Tree, cur: Option<Addr>, off: nat, i: nat)
  {
    match cur
    case Some(a) =>
      && a in t.nodes && a in t.pfx && t.nodes[a].level == 0 && i == 64 * t.pfx[a] + off
      && off < 64 == |t.nodes[a].slots| && t.nodes[a].slots[off] != Null && !t.nodes[a].slots[off].Child?
    case None => i == 0 && !t.head.Child? && t.head != Null
  }

  /** An upward mark loop for index i that began in tree t0 and has reached cur. */
  ghost predicate MarkRun(t0: Tree, t: Tree, m: nat, cur: Option<Addr>, off: nat, b: bool, i: nat)
  {
    && Links(t0) && MarkLoop(t, m, cur, off, b) && SameNodes(t0, t)
    && (if t == t0 && Spot(t0, cur, off, i) then true
        else t0.head.Child? && (cur.Some? ==> t.nodes[cur.value].level > 0) && MarkedTo(t0, t, i, m, b))
  }

  lemma MarkRunStart(t: Tree, m: nat, cur: Option<Addr>, off: nat, b: bool, i: nat)
    requires XInv(t) && m < MARKS && Spot(t, cur, off, i)
    ensures MarkRun(t, t, m, cur, off, b, i)
  {
    MarkLoopStart(t, m, cur, off, b);
  }

  lemma MarkRunStop(t0: Tree, t: Tree, m: nat, a: Addr, off: nat, b: bool, i: nat)
    requires MarkRun(t0, t, m, Some(a), off, b, i) && Bit(t, a, off, m) == b
    ensures XInv(t) && MarkedTo(t0, t, i, m, b) && SameNodes(t0, t)
  {
    MarkLoopStop(t, m, a, off, b);
    assert IsPosition(t, a);
  }

  lemma MarkRunReads(t0: Tree, t: Tree, m: nat, a: Addr, off: nat, b: bool, i: nat)
    requires MarkRun(t0, t, m, Some(a), off, b, i) && |t.nodes[a].marks| == MARKS
    requires Links(WithBit(t, a, off, m, b))
    ensures MarkedTo(t0, WithBit(t, a, off, m, b), i, m, b)
  {
    assert NodeOk(t, a);
    forall o | 0 <= o < 64 ensures t.nodes[a].level == 0 ==> !t.nodes[a].slots[o].Child? { assert SlotOk(t, a, o); }
    WithBitReads(t, a, off, m, b);
  }

  lemma MarkRunStep(t0: Tree, t: Tree, m: nat, a: Addr, off: nat, b: bool, i: nat)
    requires MarkRun(t0, t, m, Some(a), off, b, i)
    ensures a in t.nodes && |t.nodes[a].marks| == MARKS && t.nodes[a].level <= TOP
    ensures var t', p := WithBit(t, a, off, m, b), t.nodes[a].parent;
            && (HasMark(t', a, m) == b ==> MarkRun(t0, t', m, p, t.nodes[a].offset, b, i))
            && (HasMark(t', a, m) == HasMark(t, a, m) ==>
                  XInv(t') && MarkedTo(t0, t', i, m, b) && SameNodes(t0, t'))
            && (p.Some? ==> p.value in t.nodes && t.nodes[p.value].level == t.nodes[a].level + 1)
  {
    hide MarkedTo, MarkLoop, XInv;
    MarkLoopNode(t, m, a, off, b);
    MarkLoopStep(t, m, a, off, b);
    BitLinks(t, m, a, off, b);
    MarkRunReads(t0, t, m, a, off, b, i);
  }

  lemma MarkLoopNode(t: Tree, m: nat, a: Addr, off: nat, b: bool)
    requires MarkLoop(t, m, Some(a), off, b)
    ensures a in t.nodes && t.nodes[a].level <= TOP && m < MARKS && Links(t)
    ensures var p := t.nodes[a].parent;
            if p.Some? then p.value in t.nodes && t.nodes[p.value].level == t.nodes[a].level + 1
            else t.head == Child(a)
  {
    assert NodeOk(t, a);
    if t.nodes[a].parent.Some? { ParentFacts(t, a); }
  }

  lemma MarkRunFlag(t0: Tree, t: Tree, m: nat, off: nat, b: bool, i: nat)
    requires MarkRun(t0, t, m, None, off, b, i)
    ensures var t' := WithFlag(t, m, b); XInv(t') && MarkedTo(t0, t', i, m, b) && SameNodes(t0, t')
  {
    var t' := WithFlag(t, m, b);
    MarkLoopFlag(t, m, off, b);
    forall j: nat ensures Get(t', j) == Get(t, j) { }
    forall j: nat, k: nat | k < MARKS
      ensures MarkAt(t', j, k) <==> if j == i && k == m then b else MarkAt(t0, j, k)
    {
      if t.head.Child? { assert MarkAt(t', j, k) <==> MarkAt(t, j, k); }
    }
  }

  // ------------------------------------------- marking where there is no entry

  /** The upward loop of xas_set_mark that began at an empty slot, or at an empty head. */
  ghost predicate Blind(t0: Tree, t: Tree, m: nat, cur: Option<Addr>, off: nat, a0: Option<Addr>, o0: nat)
  {
    && XInv(t0) && m < MARKS && t.head == t0.head && t.nodes.Keys == t0.nodes.Keys
    && (forall x {:trigger t.nodes[x]} :: x in t.nodes ==>
          |t.nodes[x].marks| == MARKS && t.nodes[x].(marks := t0.nodes[x].marks) == t0.nodes[x])
    && (match a0
        case Some(a) => a in t0.nodes && o0 < |t0.nodes[a].slots| && t0.nodes[a].slots[o0] == Null
        case None => t0.head == Null)
    && (cur.Some? ==> cur.value in t.nodes)
    && ((t == t0 && cur == a0 && off == o0) || (a0.Some? && Bit(t, a0.value, o0, m)))
  }

  lemma BlindStart(t: Tree, m: nat, a0: Option<Addr>, o0: nat, i: nat)
    requires XInv(t) && m < MARKS && Get(t, i) == Null
    requires match a0
             case Some(a) => Covers(t, a, i) && o0 == Digit(i, t.nodes[a].level) && o0 < |t.nodes[a].slots|
                             && !t.nodes[a].slots[o0].Child?
             case None => i == 0 && !t.head.Child?
    ensures Blind(t, t, m, a0, o0, a0, o0)
    ensures a0.Some? ==> o0 !in t.nodes[a0.value].marks[m]
    ensures a0.None? ==> m !in t.flags
  {
    forall x | x in t.nodes ensures |t.nodes[x].marks| == MARKS { assert XNode(t, x); }
    if a0.Some? {
      var a := a0.value;
      Descend(t, a, i);
      assert NodeOk(t, a) && SlotOk(t, a, o0) && XNode(t, a);
    } else {
      assert FlagOk(t, m);
    }
  }

  /** A mark on an empty slot breaks the invariant. */
  lemma Broken(t: Tree, a: Addr, o: nat, m: nat)
    requires a in t.nodes && o < |t.nodes[a].slots| && t.nodes[a].slots[o] == Null && m < MARKS && Bit(t, a, o, m)
    ensures !XInv(t)
  {
    assert XInv(t) ==> XNode(t, a);
  }

  lemma BlindStep(t0: Tree, t: Tree, m: nat, a: Addr, off: nat, a0: Option<Addr>, o0: nat)
    requires Blind(t0, t, m, Some(a), off, a0, o0)
    ensures a in t.nodes && a in t0.nodes && m < |t.nodes[a].marks| == MARKS && t.nodes[a].level <= TOP
    ensures Blind(t0, t.(nodes := t.nodes[a := NodeBit(t.nodes[a], off, m, true)]), m, t.nodes[a].parent, t.nodes[a].offset, a0, o0)
    ensures t.nodes[a].parent.Some? ==> t.nodes[a].parent.value in t.nodes
                                        && t.nodes[t.nodes[a].parent.value].level == t.nodes[a].level + 1
    ensures off in t.nodes[a].marks[m] ==> !XInv(t)
  {
    assert NodeOk(t0, a) && XNode(t0, a);
    assert t.nodes[a].(marks := t0.nodes[a].marks) == t0.nodes[a];
    if t.nodes[a].parent.Some? {
      ParentFacts(t0, a);
      assert t.nodes[t.nodes[a].parent.value].level == t0.nodes[t.nodes[a].parent.value].level;
    }
    if off in t.nodes[a].marks[m] { BlindStop(t0, t, m, a, off, a0, o0); }
  }

  lemma BlindStop(t0: Tree, t: Tree, m: nat, b: Addr, off: nat, a0: Option<Addr>, o0: nat)
    requires Blind(t0, t, m, Some(b), off, a0, o0) && off in t.nodes[b].marks[m]
    ensures !XInv(t)
  {
    if a0.Some? {
      var a := a0.value;
      assert XNode(t0, a) && t.nodes[a].(marks := t0.nodes[a].marks) == t0.nodes[a];
      Broken(t, a, o0, m);
    }
  }

  lemma BlindFlag(t0: Tree, t: Tree, m: nat, off: nat, a0: Option<Addr>, o0: nat)
    requires Blind(t0, t, m, None, off, a0, o0)
    ensures !XInv(WithFlag(t, m, true))
  {
    var t' := WithFlag(t, m, true);
    if a0.Some? {
      var a := a0.value;
      assert t.nodes[a].(marks := t0.nodes[a].marks) == t0.nodes[a];
      Broken(t', a, o0, m);
    } else {
      assert !FlagOk(t', m);
    }
  }

  lemma NothingMarked(t: Tree, i: nat, m: nat)
    requires XInv(t) && m < MARKS && Get(t, i) == Null
    ensures MarkedTo(t, t, i, m, false) && SameNodes(t, t)
  {
    FlagSummary(t, m);
  }

  lemma SameReadsTrans(t0: Tree, t1: Tree, t2: Tree)
    requires XInv(t0) && XInv(t1) && XInv(t2) && SameReads(t0, t1) && SameReads(t1, t2)
    ensures SameReads(t0, t2)
  {
    forall i: nat ensures Get(t2, i) == Get(t0, i) { }
    forall i: nat, m: nat | m < MARKS ensures MarkAt(t2, i, m) <==> MarkAt(t0, i, m) { }
  }

  lemma SameRead(t0: Tree, t: Tree, i: nat)
    requires SameReads(t0, t)
    ensures Get(t0, i) == Get(t, i)
  {
  }

  lemma XInvHead(t: Tree)
    requires XInv(t)
    ensures Links(t) && HeadOk(t) && DirOk(t) && SameReads(t, t)
    ensures t.head.Child? ==> |t.nodes[t.head.addr].slots| == 64 && t.pfx[t.head.addr] == 0
                              && t.nodes[t.head.addr].level <= TOP
    ensures t.head != Retry
  {
    if t.head.Child? { assert NodeOk(t, t.head.addr); }
  }

  /** A root leaf is the whole of its tree. */
  lemma LoneLeaf(t: Tree)
    requires XInv(t) && t.head.Child? && t.nodes[t.head.addr].level == 0
    ensures t.nodes.Keys == {t.head.addr} && t.pfx.Keys == {t.head.addr} && t.dir.Keys == {(0, 0)}
  {
    var r := t.head.addr;
    assert NodeOk(t, r);
    forall o | 0 <= o < 64 ensures !t.nodes[r].slots[o].Child? { assert SlotOk(t, r, o); }
    LoneRoot(t);
  }

  lemma CanonBare(t: Tree, e: Entry)
    requires !e.Child?
    ensures Canon(Bare(t, e))
  {
  }

  lemma PopFacts(t: Tree)
    requires XInv(t) && CanPop(t)
    ensures var r, c := t.head.addr, t.nodes[t.head.addr].slots[0].addr;
            c != r && t.nodes[c].level < t.nodes[r].level
  {
    assert NodeOk(t, t.head.addr) && SlotOk(t, t.head.addr, 0);
  }

  lemma NodeFacts(t: Tree, a: Addr)
    requires XInv(t) && a in t.nodes
    ensures DirOk(t) && a in t.pfx && t.nodes[a].level <= TOP && |t.nodes[a].slots| == 64 && |t.nodes[a].marks| == MARKS
    ensures var p := t.nodes[a].parent;
            if p.Some? then
              p.value in t.nodes && t.nodes[p.value].level == t.nodes[a].level + 1 && p.value != a
            else t.head == Child(a) && t.pfx[a] == 0
  {
    assert NodeOk(t, a) && XNode(t, a);
    if t.nodes[a].parent.Some? { ParentFacts(t, a); }
  }

  lemma DropRootCanon(t: Tree)
    requires XInv(t) && t.head.Child? && t.nodes[t.head.addr].count == 0
    ensures Canon(Bare(t, Null))
    ensures t.nodes.Keys == {t.head.addr} && t.pfx.Keys == {t.head.addr}
    ensures t.dir.Keys == {(t.nodes[t.head.addr].level, 0)}
  {
    assert XNode(t, t.head.addr);
    TallyZero(t.nodes[t.head.addr].slots, false);
    LoneRoot(t);
  }

  /** Stopping below the root leaves a canonical tree. */
  lemma CanonBelow(t: Tree, a: Addr)
    requires XInv(t) && CanonAt(t, a) && a in t.nodes && t.nodes[a].parent.Some? && t.nodes[a].count > 0
    ensures Canon(t)
  {
  }

  /** An index the tree does not reach, and one on whose way a node is missing, have no entry. */
  lemma BeyondNull(t0: Tree, t: Tree, i: nat)
    requires XInv(t) && SameReads(t0, t) && if t.head.Child? then Pfx(i, RootLevel(t) + 1) != 0 else i != 0
    ensures Get(t0, i) == Null
  {
    if t.head.Child? { BeyondRoot(t, i); }
  }

  lemma MissingNull(t0: Tree, t: Tree, slot: Option<Addr>, i: nat)
    requires XInv(t) && SameReads(t0, t)
    requires match slot
             case None => t.head == Null
             case Some(a) => Covers(t, a, i) && t.nodes[a].level > 0 && |t.nodes[a].slots| == 64
                             && t.nodes[a].slots[Digit(i, t.nodes[a].level)] == Null
    ensures Get(t0, i) == Null
  {
    if slot.Some? { NoPath(t, slot.value, i); }
  }

  /** One round of xas_expand, as Expand uses it. */
  lemma ExpandStep(t0: Tree, t: Tree, c: Addr, level: nat, i: nat)
    requires XInv(t0) && XInv(t) && SameReads(t0, t) && CanExpand(t, c, level)
    requires if t.head.Child? then Pfx(i, level) != 0 else i != 0
    ensures var t' := Expand(t, c, level);
            && XInv(t') && SameReads(t0, t') && HeadOk(t') && t'.head == Child(c) && t'.nodes[c].level == level
            && (CanonBut(t, i) ==> CanonBut(t', i))
            && Fuel(t', i) < Fuel(t, i)
  {
    XNewRoot(t, c, level);
    SameReadsTrans(t0, t, Expand(t, c, level));
    FuelExpand(t, c, level, i);
    if CanonBut(t, i) { CanonExpand(t, c, level, i); }
  }

  /** The slot of an index of the array leads to positions of the array. */
  lemma RoomBelow(t: Tree, a: Addr, i: nat)
    requires XInv(t) && Covers(t, a, i) && i <= MAX_INDEX
    ensures DirOk(t) && |t.nodes[a].slots| == 64
    ensures 64 * t.pfx[a] + Digit(i, t.nodes[a].level) <= Pfx(MAX_INDEX, t.nodes[a].level)
  {
    Descend(t, a, i);
    PfxMono(i, MAX_INDEX, t.nodes[a].level);
  }

  /** A fresh node in the empty slot on the way to i, as Create uses it. */
  lemma FillStep(t0: Tree, t: Tree, slot: Option<Addr>, o: nat, c: Addr, height: nat, i: nat)
    requires XInv(t0) && XInv(t) && SameReads(t0, t) && i <= MAX_INDEX && c !in t.nodes && height <= TOP
    requires if slot.Some? then
               && CanHang(t, slot.value, o, c) && Covers(t, slot.value, i)
               && t.nodes[slot.value].level == height + 1 && o == Digit(i, height + 1)
             else t.head == Null && Pfx(i, height + 1) == 0 && Pfx(i, height) > 0
    ensures var t' := if slot.Some? then HangFresh(t, slot.value, o, c)
                      else FirstRoot(t, c, FreshNode(height, None, 0));
            && XInv(t') && SameReads(t0, t') && Covers(t', c, i) && t'.nodes[c].level == height
            && (CanonBut(t, i) ==> CanonBut(t', i))
            && Fuel(t', i) < Fuel(t, i)
  {
    if slot.Some? {
      var t' := HangFresh(t, slot.value, o, c);
      XAddChild(t, slot.value, o, c);
      SameReadsTrans(t0, t, t');
      FuelHang(t, slot.value, o, c, i);
      if CanonBut(t, i) { CanonHang(t, slot.value, o, c, i); }
    } else {
      var t' := FirstRoot(t, c, FreshNode(height, None, 0));
      XFirstRoot(t, c, height);
      SameReadsTrans(t0, t, t');
      FuelFirst(t, c, height, i);
      CanonFirstRoot(t, c, height, i);
    }
  }

  /** A non-empty slot on the way to i holds the next node of the way. */
  lemma CreateStep(t: Tree, slot: Option<Addr>, e: Entry, i: nat)
    requires XInv(t) && e != Null
    requires match slot
             case None => e == t.head && e.Child? && Pfx(i, RootLevel(t) + 1) == 0
             case Some(a) => Covers(t, a, i) && t.nodes[a].level > 0 && |t.nodes[a].slots| == 64
                             && e == t.nodes[a].slots[Digit(i, t.nodes[a].level)]
    ensures e.Child? && Covers(t, e.addr, i)
    ensures slot.None? ==> t.nodes[e.addr].level == RootLevel(t)
    ensures slot.Some? ==> t.nodes[e.addr].level == t.nodes[slot.value].level - 1
  {
    if slot.Some? { Descend(t, slot.value, i); } else { RootCovers(t, i); }
  }

  lemma CreateEnd(t: Tree, slot: Option<Addr>, e: Entry, i: nat)
    requires XInv(t)
    requires match slot
             case None => e == t.head && !e.Child? && Pfx(i, 0) == 0
             case Some(a) => Covers(t, a, i) && t.nodes[a].level == 0 && |t.nodes[a].slots| == 64
                             && e == t.nodes[a].slots[Digit(i, 0)]
    ensures e == Get(t, i) && !e.Child? && (slot.None? ==> i == 0)
  {
    if slot.Some? { Descend(t, slot.value, i); }
  }

  /** The first n marks of index i are gone; nothing else changed. */
  ghost predicate MarksGone(t: Tree, t': Tree, i: nat, n: nat)
  {
    && Links(t) && Links(t')
    && (forall j: nat :: Get(t', j) == Get(t, j))
    && (forall j: nat, k: nat :: k < MARKS ==>
          (MarkAt(t', j, k) <==> MarkAt(t, j, k) && !(j == i && k < n)))
  }

  lemma MarksGoneStart(t: Tree, i: nat)
    requires XInv(t)
    ensures MarksGone(t, t, i, 0) && SameNodes(t, t)
  {
  }

  lemma MarksGoneStep(t0: Tree, t: Tree, t': Tree, i: nat, m: nat)
    requires MarksGone(t0, t, i, m) && MarkedTo(t, t', i, m, false) && SameNodes(t0, t) && SameNodes(t, t')
    ensures MarksGone(t0, t', i, m + 1) && SameNodes(t0, t')
    ensures Get(t', i) == Get(t, i)
  {
    forall j: nat ensures Get(t', j) == Get(t0, j) { }
    forall j: nat, k: nat | k < MARKS
      ensures MarkAt(t', j, k) <==> MarkAt(t0, j, k) && !(j == i && k < m + 1) { }
  }

  lemma StillStanding(t: Tree, t': Tree, node: Where)
    requires XInv(t) && XInv(t') && SameNodes(t, t')
    requires node.At? ==> node.addr in t.nodes
    ensures t'.head == t.head && t'.pfx == t.pfx && t'.nodes.Keys == t.nodes.Keys
    ensures node.At? ==> t'.nodes[node.addr].level == t.nodes[node.addr].level
                         && t'.nodes[node.addr].slots == t.nodes[node.addr].slots
    ensures Canon(t) ==> Canon(t')
  {
  }

  lemma HeadSlot(t: Tree, e: Entry)
    requires XInv(t) && !t.head.Child? && UserEntry(e)
    requires e == Null ==> forall k :: 0 <= k < MARKS ==> !MarkAt(t, 0, k)
    ensures XInv(t.(head := e)) && StoredTo(t, t.(head := e), 0, e) && Canon(t.(head := e))
  {
    assert forall k :: 0 <= k < MARKS ==> (MarkAt(t, 0, k) <==> k in t.flags);
    XPutHead(t, e);
  }

  /** The cursor on a leaf is on the slot of its index. */
  lemma LeafSlot(t: Tree, a: Addr, i: nat, e: Entry)
    requires XInv(t) && Covers(t, a, i) && t.nodes[a].level == 0 && UserEntry(e)
    requires e == Null ==> forall k :: 0 <= k < MARKS ==> !MarkAt(t, i, k)
    ensures 64 * t.pfx[a] + Digit(i, 0) == i && CanPut(t, a, Digit(i, 0), e)
    ensures CountOk(t.nodes[a])
    ensures t.nodes[a].count + Delta(t.nodes[a].slots[Digit(i, 0)], e, false) >= 0
    ensures t.nodes[a].nrValues + Delta(t.nodes[a].slots[Digit(i, 0)], e, true) >= 0
    ensures Get(t, i) == t.nodes[a].slots[Digit(i, 0)]
  {
    Descend(t, a, i);
    assert XNode(t, a) && IsPosition(t, a) && NodeOk(t, a);
    PutCounts(t.nodes[a], Digit(i, 0), e);
    assert Pfx(i, 1) == i / 64;
    forall k | 0 <= k < MARKS
      ensures MarkAt(t, i, k) <==> Digit(i, 0) in t.nodes[a].marks[k] { }
  }

  /** Storing an entry makes the nodes on its path needed; erasing one leaves at most its leaf empty. */
  lemma CanonPut(t: Tree, a: Addr, o: nat, e: Entry)
    requires XInv(t) && CanPut(t, a, o, e) && XInv(Put(t, a, o, e))
    requires StoredTo(t, Put(t, a, o, e), 64 * t.pfx[a] + o, e)
    ensures e != Null && CanonBut(t, 64 * t.pfx[a] + o) ==> Canon(Put(t, a, o, e))
    ensures e == Null && Canon(t) ==> CanonAt(Put(t, a, o, e), a)
  {
    var t', i := Put(t, a, o, e), 64 * t.pfx[a] + o;
    assert NodeOk(t, a) && XNode(t', a);
    TallyZero(t'.nodes[a].slots, false);
    if e != Null && CanonBut(t, i) {
      CanonButPut(t, a, o, e);
      CanonClose(t', i);
    }
  }

  lemma CanonButPut(t: Tree, a: Addr, o: nat, e: Entry)
    requires XInv(t) && CanPut(t, a, o, e) && e != Null && CanonBut(t, 64 * t.pfx[a] + o)
    ensures CanonBut(Put(t, a, o, e), 64 * t.pfx[a] + o)
  {
    var t', i := Put(t, a, o, e), 64 * t.pfx[a] + o;
    assert NodeOk(t, a);
    forall x | x in t'.nodes ensures t'.nodes[x].count > 0 || Covers(t', x, i) {
      assert x != a ==> t.nodes[x].count > 0 || Covers(t, x, i);
    }
    if a == t.head.addr && !OnlyFirst(t.nodes[a]) {
      var j :| 1 <= j < 64 && t.nodes[a].slots[j] != Null;
      assert t'.nodes[a].slots[j] != Null;
    }
  }

  lemma StoredTrans(t0: Tree, t1: Tree, t2: Tree, i: nat, e: Entry)
    requires StoredTo(t0, t1, i, e) && SameReads(t1, t2)
    ensures StoredTo(t0, t2, i, e)
  {
    forall j: nat ensures Get(t2, j) == if j == i then e else Get(t0, j) { }
    forall j: nat, k: nat | k < MARKS ensures MarkAt(t2, j, k) <==> MarkAt(t0, j, k) { }
  }

  /** What a successful store does: the entry at i is e, and an erased entry loses its marks. */
  ghost predicate Replaced(t: Tree, t': Tree, i: nat, e: Entry)
  {
    && Links(t) && Links(t')
    && (forall j: nat :: Get(t', j) == if j == i then e else Get(t, j))
    && (forall j: nat, k: nat :: k < MARKS ==>
          (MarkAt(t', j, k) <==> MarkAt(t, j, k) && !(j == i && e == Null)))
  }

  lemma CreatedReads(t0: Tree, t1: Tree, i: nat, e: Entry)
    requires XInv(t0) && XInv(t1) && SameReads(t0, t1) && e != Null
    ensures Get(t1, i) == Get(t0, i)
    ensures Get(t0, i) == e ==> Replaced(t0, t1, i, e) && (CanonBut(t1, i) ==> Canon(t1))
  {
    if Get(t0, i) == e && CanonBut(t1, i) { CanonClose(t1, i); }
  }

  lemma ErasedReads(t0: Tree, t1: Tree, i: nat)
    requires XInv(t1) && MarksGone(t0, t1, i, MARKS)
    ensures Get(t1, i) == Get(t0, i) && forall k :: 0 <= k < MARKS ==> !MarkAt(t1, i, k)
  {
  }

  lemma ReplacedReads(t0: Tree, t1: Tree, t2: Tree, i: nat, e: Entry)
    requires if e == Null then MarksGone(t0, t1, i, MARKS) else SameReads(t0, t1)
    requires StoredTo(t1, t2, i, e)
    ensures Replaced(t0, t2, i, e)
  {
    forall j: nat ensures Get(t2, j) == if j == i then e else Get(t0, j) { }
    forall j: nat, k: nat | k < MARKS
      ensures MarkAt(t2, j, k) <==> MarkAt(t0, j, k) && !(j == i && e == Null) { }
  }

  lemma NothingToErase(t: Tree, i: nat)
    requires XInv(t) && Get(t, i) == Null
    ensures Replaced(t, t, i, Null)
  {
    forall k: nat | k < MARKS ensures !MarkAt(t, i, k) { FlagSummary(t, k); }
  }

  /** Nothing is stored from lo up to, not including, hi. */
  ghost predicate AllNull(t: Tree, lo: nat, hi: nat)
  {
    Links(t) && forall j: nat :: lo <= j < hi ==> Get(t, j) == Null
  }

  lemma AllNullLess(t: Tree, lo: nat, hi: nat, hi': nat)
    requires AllNull(t, lo, hi) && hi' <= hi
    ensures AllNull(t, lo, hi')
  {
  }

  /** The loop of xas_find: the cursor is at position v, where slot o of node a begins. */
  ghost predicate Scanning(t: Tree, a: Addr, o: nat, index: nat, v: nat)
  {
    a in t.nodes && a in t.pfx && o <= 64 && v == Start(t, a, o) && (o < 64 ==> Covers(t, a, index))
  }

  lemma ScanFacts(t: Tree, a: Addr, o: nat, index: nat, v: nat)
    requires XInv(t) && Scanning(t, a, o, index, v)
    ensures |t.nodes[a].slots| == 64 && t.nodes[a].level <= TOP && v <= 5 * WORD
  {
    assert NodeOk(t, a);
    StartRange(t, a, o);
  }

  /** The root's end, as an index: beyond the array, or 0 after the last index of all. */
  ghost predicate PastEnd(t: Tree, i: nat)
  {
    Beyond(t, i) || (HeadOk(t) && t.head.Child? && RootLevel(t) == TOP && i == 0)
  }

  lemma TopEnd(t: Tree, a: Addr)
    requires XInv(t) && a in t.nodes && t.nodes[a].parent == None
    ensures Start(t, a, 64) <= MAX_INDEX ==> Beyond(t, Start(t, a, 64))
    ensures PastEnd(t, Start(t, a, 64) % WORD)
  {
    assert NodeOk(t, a);
    var l, s := t.nodes[a].level, Start(t, a, 64);
    PfxBelowShl(s, 64, l);
    assert Pfx(s, l + 1) == Pfx(s, l) / 64;
    StartRange(t, a, 64);
    if l < TOP {
      ShlTop();
      ShlMono(64, l, 9);
    }
  }

  lemma ScanPop(t: Tree, a: Addr, lo: nat, v: nat, max: nat)
    requires XInv(t) && Scanning(t, a, 64, v % WORD, v) && AllNull(t, lo, v)
    ensures match t.nodes[a].parent
            case Some(p) => p in t.nodes && Scanning(t, p, t.nodes[a].offset + 1, v % WORD, v)
                            && t.nodes[p].level == t.nodes[a].level + 1
            case None => AllNull(t, lo, max + 1) && PastEnd(t, v % WORD)
  {
    PopStart(t, a);
    if t.nodes[a].parent.Some? {
      ParentFacts(t, a);
      if t.nodes[a].offset + 1 < 64 { WrappedIn(t, t.nodes[a].parent.value, t.nodes[a].offset + 1); }
    } else {
      TopEnd(t, a);
      forall j: nat | lo <= j < max + 1 ensures Get(t, j) == Null { }
    }
  }

  lemma ScanDown(t: Tree, a: Addr, o: nat, v: nat)
    requires XInv(t) && Scanning(t, a, o, v % WORD, v) && o < 64 == |t.nodes[a].slots| && t.nodes[a].slots[o].Child?
    ensures var c := t.nodes[a].slots[o].addr;
            c in t.nodes && Scanning(t, c, 0, v % WORD, v) && t.nodes[c].level + 1 == t.nodes[a].level
  {
    DownStart(t, a, o);
    WrappedIn(t, t.nodes[a].slots[o].addr, 0);
  }

  /** At a slot without a child: either the answer, or an empty range to skip. */
  lemma ScanSlot(t: Tree, a: Addr, o: nat, index: nat, lo: nat, v: nat)
    requires XInv(t) && Scanning(t, a, o, index, v) && o < 64 == |t.nodes[a].slots| && !t.nodes[a].slots[o].Child?
    requires AllNull(t, lo, v) && lo <= v && index == v % WORD
    ensures var e := t.nodes[a].slots[o];
            if e != Null then index == v <= MAX_INDEX && Get(t, index) == e && o == Digit(index, t.nodes[a].level)
                              && AllNull(t, lo, index)
            else
              var v' := Start(t, a, o + 1);
              v < v' && AllNull(t, lo, v') && Scanning(t, a, o + 1, v' % WORD, v')
              && MoveIndex(index, t.nodes[a].level, o + 1) == v' % WORD
  {
    assert NodeOk(t, a) && SlotOk(t, a, o);
    InSlot(t, a, o, v);
    MoveIndexStart(t, a, index, o + 1);
    if t.nodes[a].slots[o] == Null {
      if o + 1 < 64 { WrappedIn(t, a, o + 1); }
      var v' := Start(t, a, o + 1);
      forall j: nat | lo <= j < v' ensures Get(t, j) == Null {
        if j >= v { EmptySlot(t, a, o, j); }
      }
    } else {
      WrappedIn(t, a, o);
      Descend(t, a, index);
    }
  }

  /** The first step behind a walked cursor. */
  lemma AdvanceFirst(t: Tree, a: Addr, o: nat, index: nat, lo: nat) returns (v: nat)
    requires XInv(t) && Covers(t, a, index) && index <= MAX_INDEX && o == Digit(index, t.nodes[a].level)
    requires o < |t.nodes[a].slots| && !t.nodes[a].slots[o].Child?
    requires lo == index + 1 || (lo == index && t.nodes[a].slots[o] == Null)
    ensures v == Start(t, a, o + 1) && AllNull(t, lo, v) && lo <= v
    ensures Scanning(t, a, o + 1, v % WORD, v)
    ensures MoveIndex(index, t.nodes[a].level, o + 1) == v % WORD
  {
    v := Start(t, a, o + 1);
    assert NodeOk(t, a) && SlotOk(t, a, o);
    MoveIndexStart(t, a, index, o + 1);
    Descend(t, a, index);
    InSlot(t, a, o, index);
    if o + 1 < 64 { WrappedIn(t, a, o + 1); }
    forall j: nat | lo <= j < v ensures Get(t, j) == Null {
      if t.nodes[a].slots[o] == Null {
        EmptySlot(t, a, o, j);
      } else {
        WrappedIn(t, a, o);
      }
    }
  }

  lemma HeadPastEnd(t: Tree)
    requires XInv(t)
    ensures HeadOk(t) && (!t.head.Child? ==> Beyond(t, 1) && PastEnd(t, 1)) && forall i: nat :: Beyond(t, i) ==> PastEnd(t, i)
  {
  }

  lemma HeadOnly(t: Tree, lo: nat, max: nat)
    requires XInv(t) && !t.head.Child? && lo > 0
    ensures AllNull(t, lo, max + 1)
  {
  }

  /** When xas_find is done with its first load. */
  lemma FoundHere(t: Tree, i: nat, e: Entry, node: Where, max: nat)
    requires XInv(t) && e == Get(t, i) && (e != Null || !node.At?)
    requires node.AtHead? ==> !t.head.Child? && i == 0
    requires node.Bounds? ==> Beyond(t, i)
    requires e == Null ==> node.AtHead? || node.Bounds?
    ensures AllNull(t, i, i) && (e == Null ==> AllNull(t, i, max + 1))
  {
    if e == Null {
      forall j: nat | i <= j < max + 1 ensures Get(t, j) == Null {
        if t.head.Child? {
          PfxMono(i, j, RootLevel(t) + 1);
          BeyondRoot(t, j);
        }
      }
    }
  }

  /** The index does not fit under the head. */
  ghost predicate Beyond(t: Tree, i: nat)
  {
    HeadOk(t) && if t.head.Child? then Pfx(i, RootLevel(t) + 1) != 0 else i != 0
  }

  /** Nothing from lo up to, not including, hi carries mark m. */
  ghost predicate NoneMarked(t: Tree, lo: nat, hi: nat, m: nat)
  {
    forall j: nat :: lo <= j < hi ==> !MarkAt(t, j, m)
  }

  lemma NoneMarkedLess(t: Tree, lo: nat, hi: nat, hi': nat, m: nat)
    requires NoneMarked(t, lo, hi, m) && hi' <= hi
    ensures NoneMarked(t, lo, hi', m)
  {
  }

  /**
   * The loop of xas_find_marked: the index lies in slot o of node a, or at the
   * end of a.  With advance the slot itself has been dealt with.
   */
  ghost predicate Seeking(t: Tree, a: Addr, o: nat, index: nat, lo: nat, m: nat, advance: bool)
  {
    && a in t.nodes && a in t.pfx && |t.nodes[a].slots| == 64 && o <= 64 && index <= MAX_INDEX
    && NoneMarked(t, lo, index, m)
    && (if o < 64 then Start(t, a, o) <= index < Start(t, a, o + 1) else index == Start(t, a, 64))
    && (if advance then lo == index + 1 && o < 64 && !t.nodes[a].slots[o].Child? else lo <= index)
  }

  lemma SeekFacts(t: Tree, a: Addr, o: nat, index: nat, lo: nat, m: nat, advance: bool)
    requires XInv(t) && m < MARKS && Seeking(t, a, o, index, lo, m, advance)
    ensures a in t.nodes && |t.nodes[a].slots| == 64 && |t.nodes[a].marks| == MARKS && t.nodes[a].level <= TOP
    ensures o <= 64 && index <= MAX_INDEX && (o == 64 ==> !advance)
  {
    assert NodeOk(t, a) && XNode(t, a);
  }

  lemma SeekPop(t: Tree, a: Addr, index: nat, lo: nat, max: nat, m: nat, advance: bool)
    requires XInv(t) && m < MARKS && Seeking(t, a, 64, index, lo, m, advance) && index <= max
    ensures match t.nodes[a].parent
            case Some(p) => p in t.nodes && Seeking(t, p, t.nodes[a].offset + 1, index, lo, m, false)
                            && t.nodes[p].level == t.nodes[a].level + 1
            case None => NoneMarked(t, lo, max + 1, m) && Beyond(t, index)
  {
    PopStart(t, a);
    if t.nodes[a].parent.Some? {
      ParentFacts(t, a);
      if t.nodes[a].offset + 1 < 64 { InSlot(t, t.nodes[a].parent.value, t.nodes[a].offset + 1, index); }
    } else {
      TopEnd(t, a);
      forall j: nat | lo <= j < max + 1 ensures !MarkAt(t, j, m) {
        if j >= index { assert Get(t, j) == Null; }
      }
    }
  }

  /** Moving to the next set bit skips only unmarked indices. */
  lemma SeekMove(t: Tree, a: Addr, o: nat, next: nat, index: nat, lo: nat, m: nat, advance: bool) returns (v: nat)
    requires XInv(t) && m < MARKS && Seeking(t, a, o, index, lo, m, advance) && o < next <= 64
    requires |t.nodes[a].marks| == MARKS
    requires forall k :: (if advance then o + 1 else o) <= k < next ==> k !in t.nodes[a].marks[m]
    requires next < 64 ==> next in t.nodes[a].marks[m]
    ensures NoneMarked(t, lo, v, m) && v > index
    ensures var i := MoveIndex(index, t.nodes[a].level, next);
            if v <= MAX_INDEX then i == v && lo <= i && Seeking(t, a, next, i, lo, m, false) else i == 0
  {
    v := Start(t, a, next);
    SeekLands(t, a, o, next, index, m);
    hide Start, MoveIndex, XInv;
    forall j: nat | lo <= j < v ensures !MarkAt(t, j, m) {
      if j >= index { SkippedUnmarked(t, a, o, next, index, lo, m, advance, j); }
    }
  }

  /** A marked slot lies within the range of a word. */
  lemma MarkedInRange(t: Tree, a: Addr, o: nat, m: nat)
    requires XInv(t) && a in t.nodes && o < 64 && m < MARKS && Bit(t, a, o, m)
    ensures Start(t, a, o) <= MAX_INDEX
  {
    assert NodeOk(t, a) && XNode(t, a) && SlotOk(t, a, o);
    StartRange(t, a, o);
    if t.nodes[a].level == TOP {
      var c := t.nodes[a].slots[o].addr;
      assert XNode(t, c);
      PfxMaxValues();
    }
  }

  /** Where moving to slot next leads. */
  lemma SeekLands(t: Tree, a: Addr, o: nat, next: nat, index: nat, m: nat)
    requires XInv(t) && a in t.nodes && Start(t, a, o) <= index < Start(t, a, o + 1) && o < next <= 64 && m < MARKS
    requires next < 64 ==> Bit(t, a, next, m)
    ensures var v, i := Start(t, a, next), MoveIndex(index, t.nodes[a].level, next);
            v > index && (if v <= MAX_INDEX then i == v else i == 0)
            && (next < 64 ==> v <= MAX_INDEX && v < Start(t, a, next + 1))
  {
    InSlot(t, a, o, index);
    MoveIndexStart(t, a, index, next);
    SlotsGrow(t, a, o + 1, next);
    StartRange(t, a, next);
    if next < 64 {
      MarkedInRange(t, a, next, m);
      InSlot(t, a, next, Start(t, a, next));
    }
  }

  lemma SkippedUnmarked(t: Tree, a: Addr, o: nat, next: nat, index: nat, lo: nat, m: nat, advance: bool, j: nat)
    requires XInv(t) && m < MARKS && Seeking(t, a, o, index, lo, m, advance) && o < next <= 64
    requires |t.nodes[a].marks| == MARKS
    requires forall k :: (if advance then o + 1 else o) <= k < next ==> k !in t.nodes[a].marks[m]
    requires index <= j < Start(t, a, next) && lo <= j
    ensures !MarkAt(t, j, m)
  {
    var l, p := t.nodes[a].level, t.pfx[a];
    PfxBelowShl(j, 64 * p + next, l);
    PfxBelowShl(j, 64 * p + o, l);
    var k := Pfx(j, l) - 64 * p;
    assert o <= k < next;
    assert XNode(t, a) && NodeOk(t, a) && SlotOk(t, a, o);
    UnmarkedSlot(t, a, k, m, j);
  }

  /** On a set bit: go down, or the answer. */
  lemma SeekSlot(t: Tree, a: Addr, o: nat, index: nat, lo: nat, m: nat)
    requires XInv(t) && m < MARKS && Seeking(t, a, o, index, lo, m, false) && o < 64 && Bit(t, a, o, m)
    ensures |t.nodes[a].slots| == 64
    ensures var e := t.nodes[a].slots[o];
            && Covers(t, a, index) && o == Digit(index, t.nodes[a].level)
            && (e.Child? ==> e.addr in t.nodes && t.nodes[e.addr].level + 1 == t.nodes[a].level
                             && Seeking(t, e.addr, Digit(index, t.nodes[e.addr].level), index, lo, m, false))
            && (!e.Child? ==> e == Get(t, index) && e != Null && MarkAt(t, index, m)
                              && NoneMarked(t, lo, index, m) && lo <= index)
  {
    InSlot(t, a, o, index);
    assert NodeOk(t, a) && SlotOk(t, a, o) && XNode(t, a);
    Descend(t, a, index);
    var e := t.nodes[a].slots[o];
    if e.Child? {
      assert NodeOk(t, e.addr);
      InSlot(t, e.addr, Digit(index, t.nodes[e.addr].level), index);
      Descend(t, e.addr, index);
    } else {
      assert IsPosition(t, a);
      assert Pfx(index, 1) == index / 64;
    }
  }

  lemma SeekOver(t: Tree, a: Addr, o: nat, index: nat, lo: nat, m: nat, advance: bool, max: nat)
    requires Seeking(t, a, o, index, lo, m, advance) && index > max
    ensures NoneMarked(t, lo, max + 1, m)
  {
  }

  lemma RootSeek(t: Tree, i: nat, lo: nat, m: nat)
    requires XInv(t) && t.head.Child? && Pfx(i, RootLevel(t) + 1) == 0 && lo == i <= MAX_INDEX
    ensures Seeking(t, t.head.addr, Pfx(i, RootLevel(t)), i, lo, m, false)
  {
    RootCovers(t, i);
    Descend(t, t.head.addr, i);
    InSlot(t, t.head.addr, Digit(i, RootLevel(t)), i);
  }

  lemma WalkedSeek(t: Tree, a: Addr, o: nat, i: nat, m: nat)
    requires XInv(t) && Covers(t, a, i) && o == Digit(i, t.nodes[a].level) && i <= MAX_INDEX
    requires o < |t.nodes[a].slots| && !t.nodes[a].slots[o].Child?
    ensures Seeking(t, a, o, i, i + 1, m, true)
  {
    Descend(t, a, i);
    InSlot(t, a, o, i);
  }

  lemma HeadUnmarked(t: Tree, lo: nat, max: nat, m: nat)
    requires XInv(t) && !t.head.Child? && lo > 0
    ensures NoneMarked(t, lo, max + 1, m)
  {
  }

  lemma HeadBeyond(t: Tree, lo: nat, max: nat, m: nat)
    requires XInv(t) && if t.head.Child? then Pfx(lo, RootLevel(t) + 1) != 0 else lo != 0
    ensures NoneMarked(t, lo, max + 1, m)
  {
    forall j: nat | lo <= j < max + 1 ensures !MarkAt(t, j, m) {
      if t.head.Child? {
        PfxMono(lo, j, RootLevel(t) + 1);
        BeyondRoot(t, j);
      }
    }
  }

  lemma HeadMark(t: Tree, max: nat, m: nat)
    requires XInv(t) && !t.head.Child? && m < MARKS
    ensures if m in t.flags then MarkAt(t, 0, m) && Get(t, 0) == t.head && t.head != Null && NoneMarked(t, 0, 0, m)
            else NoneMarked(t, 0, max + 1, m)
  {
    assert FlagOk(t, m);
  }

  // ------------------------------------------------------------- the users

  datatype Errno = EINVAL | ENOMEM
  datatype Reply = Done(entry: Entry) | Failed(errno: Errno)

  /** xas_result: a zero entry reads as NULL. */
  function Seen(e: Entry): Entry
  {
    if e == Zero then Null else e
  }

  ghost function Look(c: map<nat, Entry>, i: nat): Entry
  {
    if i in c then c[i] else Null
  }

  ghost function Stored(c: map<nat, Entry>, i: nat, e: Entry): map<nat, Entry>
  {
    if e == Null then c - {i} else c[i := e]
  }

  /** Overwriting keeps the marks of the entry, erasing drops them. */
  ghost function MarksAfter(mk: seq<set<nat>>, i: nat, e: Entry): (r: seq<set<nat>>)
  {
    if e == Null then seq(|mk|, m requires 0 <= m < |mk| => mk[m] - {i}) else mk
  }

  /** The tree holds exactly the entries of c, and marks exactly the indices of mk. */
  ghost predicate Shows(t: Tree, c: map<nat, Entry>, mk: seq<set<nat>>)
  {
    && Links(t) && |mk| == MARKS
    && (forall i: nat :: Get(t, i) == Look(c, i))
    && (forall i :: i in c ==> c[i] != Null && UserEntry(c[i]) && i <= MAX_INDEX)
    && (forall i: nat, m: nat :: m < MARKS ==> (MarkAt(t, i, m) <==> i in mk[m]))
  }

  lemma EmptyArray(t: Tree)
    requires t == Tree(Null, {}, map[], map[], map[])
    ensures XInv(t) && Shows(t, map[], [{}, {}, {}]) && Canon(t)
  {
  }

  lemma StoreStart(t: Tree, i: nat)
    requires XInv(t)
    ensures SameReads(t, t) && (Canon(t) ==> CanonBut(t, i))
  {
    if Canon(t) { CanonWeaken(t, i); }
  }

  lemma StoreFailed(t0: Tree, t: Tree, c: map<nat, Entry>, mk: seq<set<nat>>)
    requires XInv(t) && Shows(t0, c, mk) && SameReads(t0, t)
    ensures Shows(t, c, mk)
  {
    forall i: nat ensures Get(t, i) == Look(c, i) { }
    forall i: nat, m: nat | m < MARKS ensures MarkAt(t, i, m) <==> i in mk[m] { }
  }

  lemma StoreEnd(t0: Tree, t1: Tree, t2: Tree, c: map<nat, Entry>, mk: seq<set<nat>>, i: nat, e: Entry)
    requires XInv(t0) && XInv(t2) && Shows(t0, c, mk) && SameReads(t0, t1) && Replaced(t1, t2, i, e)
    requires i <= MAX_INDEX && UserEntry(e)
    ensures Shows(t2, Stored(c, i, e), MarksAfter(mk, i, e)) && Get(t1, i) == Look(c, i)
  {
    var c', mk' := Stored(c, i, e), MarksAfter(mk, i, e);
    forall j: nat ensures Get(t2, j) == Look(c', j) { assert Get(t1, j) == Get(t0, j); }
    forall j: nat, m: nat | m < MARKS ensures MarkAt(t2, j, m) <==> j in mk'[m] {
      assert MarkAt(t1, j, m) <==> MarkAt(t0, j, m);
    }
    assert Get(t1, i) == Get(t0, i);
  }

  /** What a search with the filter looks for: zero entries are passed over. */
  ghost predicate Passes(c: map<nat, Entry>, mk: seq<set<nat>>, filter: nat, j: nat)
  {
    j in c && c[j] != Zero && (filter < |mk| ==> j in mk[filter])
  }

  lemma PassesMeans(t: Tree, c: map<nat, Entry>, mk: seq<set<nat>>, filter: nat)
    requires Shows(t, c, mk)
    ensures |mk| == MARKS
    ensures forall j: nat {:trigger Passes(c, mk, filter, j)} {:trigger j in c} ::
              Passes(c, mk, filter, j) <==> j in c && c[j] != Zero && (filter < MARKS ==> j in mk[filter])
  {
  }

  ghost predicate Least(c: map<nat, Entry>, mk: seq<set<nat>>, filter: nat, lo: nat, i: nat)
  {
    && lo <= i && Passes(c, mk, filter, i)
    && forall j :: lo <= j < i ==> !Passes(c, mk, filter, j)
  }

  lemma ShowsAt(t: Tree, c: map<nat, Entry>, mk: seq<set<nat>>, i: nat)
    requires Shows(t, c, mk)
    ensures |mk| == MARKS && Links(t) && (Get(t, i) != Null <==> i in c) && Get(t, i) == Look(c, i)
    ensures XInv(t) && i !in c ==> forall m: nat :: m < MARKS ==> i !in mk[m]
    ensures XInv(t) && i !in c ==> forall m: nat :: m < MARKS ==> mk[m := mk[m] - {i}] == mk
  {
    if XInv(t) && i !in c {
      forall m: nat | m < MARKS ensures i !in mk[m] && mk[m := mk[m] - {i}] == mk {
        FlagSummary(t, m);
        assert Get(t, i) == Null && !MarkAt(t, i, m);
        assert mk[m] - {i} == mk[m];
      }
    }
  }

  lemma MarkEnd(t: Tree, t': Tree, c: map<nat, Entry>, mk: seq<set<nat>>, i: nat, m: nat, b: bool)
    requires XInv(t) && XInv(t') && Shows(t, c, mk) && MarkedTo(t, t', i, m, b) && SameNodes(t, t') && m < MARKS
    ensures |mk| == MARKS && Shows(t', c, mk[m := if b then mk[m] + {i} else mk[m] - {i}])
    ensures Canon(t) ==> Canon(t')
  {
    StillStanding(t, t', Restart);
    forall j: nat ensures Get(t', j) == Look(c, j) { }
    var mk' := mk[m := if b then mk[m] + {i} else mk[m] - {i}];
    forall j: nat, k: nat | k < MARKS ensures MarkAt(t', j, k) <==> j in mk'[k] {
      assert MarkAt(t, j, k) <==> j in mk[k];
    }
  }

  /** What one call of a search says about the users' view. */
  lemma FindStep(t: Tree, c: map<nat, Entry>, mk: seq<set<nat>>, filter: nat, lo: nat, hi: nat, e: Entry)
    requires XInv(t) && Shows(t, c, mk)
    requires if filter < MARKS then NoneMarked(t, lo, hi, filter) else AllNull(t, lo, hi)
    requires e != Null ==> Get(t, hi) == e && (filter < MARKS ==> MarkAt(t, hi, filter))
    ensures forall j :: lo <= j < hi ==> !Passes(c, mk, filter, j)
    ensures Get(t, lo) == Null ==> !Passes(c, mk, filter, lo)
    ensures e != Null ==> hi in c && c[hi] == e && (Passes(c, mk, filter, hi) <==> e != Zero)
  {
    forall j | lo <= j < hi ensures !Passes(c, mk, filter, j) {
      assert filter < MARKS ==> !MarkAt(t, j, filter);
      assert Get(t, j) == Look(c, j);
    }
    assert Get(t, hi) == Look(c, hi) && Get(t, lo) == Look(c, lo);
  }

  /** XA_PRESENT */
  const PRESENT: nat := 8

  lemma InRange(t: Tree, c: map<nat, Entry>, mk: seq<set<nat>>, filter: nat, i: nat)
    requires Shows(t, c, mk) && Passes(c, mk, filter, i)
    ensures i <= MAX_INDEX
  {
  }

  class XArray {
    const reliable: bool
    var head: Entry
    var flags: set<nat>
    var nodes: map<Addr, Node>
    ghost var pfx: map<Addr, nat>
    ghost var dir: map<(nat, nat), Addr>

    ghost var contents: map<nat, Entry>
    ghost var marked: seq<set<nat>>

    ghost function T(): Tree
      reads this
    {
      Tree(head, flags, nodes, pfx, dir)
    }

    /** The array as its users see it: a finite map and three sets of indices. */
    ghost predicate Valid()
      reads this
    {
      XInv(T()) && Shows(T(), contents, marked)
    }

    /** DEFINE_XARRAY */
    constructor (reliable: bool)
      ensures Valid() && contents == map[] && marked == [{}, {}, {}] && Canon(T()) && head == Null && this.reliable == reliable
    {
      this.reliable := reliable;
      head, flags, nodes, pfx, dir := Null, {}, map[], map[], map[];
      contents, marked := map[], [{}, {}, {}];
      new;
      EmptyArray(T());
    }

    /** __xa_store: retry with one more spare node for as long as memory is found. */
    method Store(index: nat, entry: Entry) returns (r: Reply)
      requires Valid() && index <= MAX_INDEX && !entry.Child?
      modifies this
      ensures Valid()
      ensures r == Failed(EINVAL) <==> entry == Retry
      ensures r == Failed(ENOMEM) ==> !reliable && index !in contents
      ensures r.Failed? ==> contents == old(contents) && marked == old(marked)
      ensures r.Done? ==>
                && r.entry == (if index in old(contents) && old(contents)[index] != Zero then old(contents)[index] else Null)
                && contents == (if entry == Null then old(contents) - {index} else old(contents)[index := entry])
                && marked == MarksAfter(old(marked), index, entry)
      ensures r.Done? ==> forall m: nat, j: nat :: m < MARKS ==>
                (j in marked[m] <==> j in old(marked)[m] && (j != index || entry != Null))
      ensures old(Canon(T())) ==> if r == Failed(ENOMEM) then CanonBut(T(), index) else Canon(T())
      ensures entry == Null ==> r.Done?
    {
      hide XInv, Shows, SameReads, Replaced, Canon, CanonBut, Get, Fuel;
      if entry == Retry { return Failed(EINVAL); }
      ghost var t0 := T();
      var xas := new XaState(this, index);
      var curr := Null;
      StoreStart(t0, index);
      while true
        invariant fresh(xas) && xas.xa == this && xas.index == index && xas.Ready()
        invariant SameReads(t0, T()) && contents == old(contents) && marked == old(marked)
        invariant Canon(t0) ==> CanonBut(T(), index)
        invariant entry == Null ==> T() == t0
        decreases Fuel(T(), index), xas.alloc.None?
      {
        ghost var t := T();
        XInvHead(t);
        FuelNat(t, index);
        curr := xas.Store(entry);
        if !xas.node.NoMem? {
          xas.alloc := None;
          StoreEnd(t0, t, T(), contents, marked, index, entry);
          contents, marked := Stored(contents, index, entry), MarksAfter(marked, index, entry);
          return Done(Seen(curr));
        }
        SameReadsTrans(t0, t, T());
        SameRead(t0, t, index);
        XInvHead(T());
        FuelNat(T(), index);
        xas.alloc := xas.Malloc();
        if xas.alloc.None? {
          ShowsAt(t0, contents, marked, index);
          StoreFailed(t0, T(), contents, marked);
          return Failed(ENOMEM);
        }
        xas.node := Restart;
      }
    }

    /** __xa_erase */
    method Erase(index: nat) returns (e: Entry)
      requires Valid() && index <= MAX_INDEX
      modifies this
      ensures Valid() && contents == old(contents) - {index}
      ensures e == if index in old(contents) && old(contents)[index] != Zero then old(contents)[index] else Null
      ensures marked == MarksAfter(old(marked), index, Null)
      ensures forall m: nat, j: nat :: m < MARKS ==> (j in marked[m] <==> j in old(marked)[m] && j != index)
      ensures old(Canon(T())) ==> Canon(T())
    {
      hide XInv, Shows, SameReads, Replaced, Canon, CanonBut, Get, Fuel;
      ghost var t0 := T();
      StoreStart(t0, index);
      var xas := new XaState(this, index);
      e := xas.Store(Null);
      StoreEnd(t0, t0, T(), contents, marked, index, Null);
      contents, marked := Stored(contents, index, Null), MarksAfter(marked, index, Null);
      e := Seen(e);
    }

    /** xas_load with a new cursor. */
    method LoadEntry(index: nat) returns (e: Entry)
      requires Valid() && index <= MAX_INDEX
      ensures e == if index in contents then contents[index] else Null
    {
      hide XInv, Shows, Get;
      var xas := new XaState(this, index);
      e := xas.Load();
      ShowsAt(T(), contents, marked, index);
    }

    /** xas_load and xas_set_mark on a present entry. */
    method MarkEntry(index: nat, m: nat)
      requires Valid() && index <= MAX_INDEX && m < MARKS
      modifies this
      ensures Valid() && contents == old(contents)
      ensures marked == (if index in contents then old(marked)[m := old(marked)[m] + {index}] else old(marked))
      ensures old(Canon(T())) ==> Canon(T())
    {
      hide XInv, Shows, MarkedTo, Canon, Get, SameNodes;
      ghost var t0 := T();
      var xas := new XaState(this, index);
      var e := xas.Load();
      ShowsAt(t0, contents, marked, index);
      if e != Null {
        xas.SetMark(m);
        MarkEnd(t0, T(), contents, marked, index, m, true);
        marked := marked[m := marked[m] + {index}];
      }
    }

    /** __xa_clear_mark */
    method UnmarkEntry(index: nat, m: nat)
      requires Valid() && index <= MAX_INDEX && m < MARKS
      modifies this
      ensures Valid() && contents == old(contents) && marked == old(marked)[m := old(marked)[m] - {index}]
      ensures old(Canon(T())) ==> Canon(T())
    {
      hide XInv, Shows, MarkedTo, Canon, Get, SameNodes;
      ghost var t0 := T();
      var xas := new XaState(this, index);
      var e := xas.Load();
      ShowsAt(t0, contents, marked, index);
      if e != Null {
        xas.ClearMark(m);
        MarkEnd(t0, T(), contents, marked, index, m, false);
        marked := marked[m := marked[m] - {index}];
      }
    }

    /** xa_find: the least entry that passes the filter from index on; a filter above 2 asks for any entry. */
    method FindEntry(index: nat, max: nat, filter: nat) returns (e: Entry, at: nat)
      requires Valid() && index <= MAX_INDEX && max <= MAX_INDEX
      ensures if e == Null then at == index && forall j :: index <= j <= max ==> !Passes(contents, marked, filter, j)
              else Least(contents, marked, filter, index, at) && e == contents[at]
                   && (at <= max || (at == index && filter >= MARKS))
      ensures (e == Null || at <= max) <==> (index <= max || filter < MARKS || !Passes(contents, marked, filter, index))
      ensures e != Null ==> at in contents && e == contents[at] && e != Zero && (filter < MARKS ==> at in marked[filter]) && index <= at
      ensures forall j :: index <= j && (if e != Null then j < at else j <= max) && j in contents && contents[j] != Zero ==>
                filter < MARKS && j !in marked[filter]
    {
      PassesMeans(T(), contents, marked, filter);
      hide XInv, Shows, Get, MarkAt, AllNull, NoneMarked, Passes;
      var xas := new XaState(this, index);
      at := index;
      ghost var lo := index;
      while true
        invariant fresh(xas) && xas.xa == this && xas.Ready() && index <= lo
        invariant lo == if xas.Walked() then xas.index + 1 else xas.index
        invariant xas.Walked() <==> lo > index
        invariant forall j :: index <= j < lo ==> !Passes(contents, marked, filter, j)
        decreases MAX_INDEX + 1 - lo
      {
        if filter < MARKS {
          e := xas.FindMarked(max, filter);
        } else {
          e := xas.Find(max);
        }
        FindStep(T(), contents, marked, filter, lo, if e == Null then max + 1 else xas.index, e);
        if e != Zero { break; }
        lo := xas.index + 1;
      }
      if e != Null { at := xas.index; }
    }

    /** xa_find_after: the search of xa_find, from the next index on, in 64-bit arithmetic. */
    method FindAfter(index: nat, max: nat, filter: nat) returns (e: Entry, at: nat)
      requires Valid() && index <= MAX_INDEX && max <= MAX_INDEX
      ensures var lo := (index + 1) % WORD;
              if e == Null then at == index && forall j :: lo <= j <= max ==> !Passes(contents, marked, filter, j)
              else Least(contents, marked, filter, lo, at) && e == contents[at]
                   && (at <= max || (at == lo && filter >= MARKS))
      ensures var lo := (index + 1) % WORD;
              (e == Null || at <= max) <==> (lo <= max || filter < MARKS || !Passes(contents, marked, filter, lo))
      ensures max == MAX_INDEX && Passes(contents, marked, filter, MAX_INDEX) ==> e != Null
    {
      hide XInv, Shows;
      e, at := FindEntry((index + 1) % WORD, max, filter);
      if e == Null { at := index; }
    }

    /** xa_for_each: every entry once, in increasing order, if the last index is free. */
    method ForEach() returns (seen: seq<nat>)
      requires Valid() && !Passes(contents, marked, PRESENT, MAX_INDEX)
      ensures forall i: nat :: i in seen <==> Passes(contents, marked, PRESENT, i)
      ensures forall i: nat :: i in seen <==> i in contents && contents[i] != Zero
      ensures forall p, q :: 0 <= p < q < |seen| ==> seen[p] < seen[q]
    {
      PassesMeans(T(), contents, marked, PRESENT);
      hide XInv, Shows, Passes;
      seen := [];
      var e, index := FindEntry(0, MAX_INDEX, PRESENT);
      ghost var lo := 0;
      while e != Null
        invariant e != Null ==> Least(contents, marked, PRESENT, lo, index)
        invariant e == Null ==> forall j :: lo <= j <= MAX_INDEX ==> !Passes(contents, marked, PRESENT, j)
        invariant lo <= MAX_INDEX && forall i: nat :: i in seen <==> i < lo && Passes(contents, marked, PRESENT, i)
        invariant forall p, q :: 0 <= p < q < |seen| ==> seen[p] < seen[q]
        invariant forall p :: 0 <= p < |seen| ==> seen[p] < lo
        decreases MAX_INDEX - lo, e != Null
      {
        InRange(T(), contents, marked, PRESENT, index);
        seen := seen + [index];
        lo := index + 1;
        e, index := FindAfter(index, MAX_INDEX, PRESENT);
      }
      ghost var t := T();
      forall i: nat | Passes(contents, marked, PRESENT, i) ensures i <= MAX_INDEX {
        InRange(t, contents, marked, PRESENT, i);
      }
    }
  }

  class XaState {
    const xa: XArray
    var index: nat
    var node: Where
    var offset: nat
    var alloc: Option<Addr>

    /** XA_STATE */
    constructor (xa: XArray, index: nat)
      ensures this.xa == xa && this.index == index && node == Restart && offset == 0 && alloc == None
    {
      this.xa, this.index := xa, index;
      node, offset, alloc := Restart, 0, None;
    }

    /** The cursor stands on the slot of its index, as far down as the tree goes. */
    ghost predicate Walked()
      reads this, xa
    {
      match node
      case At(a) =>
        && Covers(xa.T(), a, index) && offset == Digit(index, xa.nodes[a].level)
        && offset < |xa.nodes[a].slots| && !xa.nodes[a].slots[offset].Child?
      case AtHead => index == 0 && !xa.head.Child?
      case _ => false
    }

    ghost predicate Ready()
      reads this, xa
    {
      && XInv(xa.T()) && index <= MAX_INDEX
      && (alloc.Some? ==> alloc.value !in xa.nodes)
      && (node.Restart? || node.Bounds? || Walked())
    }

    /** malloc of a node: any address not in use; unless memory is reliable it may fail at any call. */
    method Malloc() returns (r: Option<Addr>)
      ensures r.Some? ==> r.value !in xa.nodes && alloc != r
      ensures xa.reliable ==> r.Some?
    {
      var fails: bool := *;
      if fails && !xa.reliable {
        r := None;
      } else {
        var used := xa.nodes.Keys + (if alloc.Some? then {alloc.value} else {});
        FreshAddr(used);
        var a: Addr :| a !in used;
        r := Some(a);
      }
    }

    /** xas_start and xas_load. */
    method Load() returns (e: Entry)
      requires Ready()
      modifies `node, `offset
      ensures Ready() && !node.Restart?
      ensures e == Get(xa.T(), index)
      ensures node.Bounds? ==> e == Null && Beyond(xa.T(), index)
      ensures node.At? ==> e == xa.nodes[node.addr].slots[offset]
      ensures node.At? && e != Null ==> xa.nodes[node.addr].level == 0
    {
      ghost var t := xa.T();
      if node.At? {
        e := xa.nodes[node.addr].slots[offset];
        Descend(t, node.addr, index);
        return;
      } else if node.AtHead? {
        e := xa.head;
        return;
      }
      e := xa.head;
      if !e.Child? {
        if index != 0 {
          node := Bounds;
          e := Null;
          return;
        }
      } else if Pfx(index, xa.nodes[e.addr].level) > 63 {
        BeyondRoot(t, index);
        node := Bounds;
        e := Null;
        return;
      }
      node := AtHead;
      if e.Child? { RootCovers(t, index); }
      while e.Child?
        invariant XInv(t) && t == xa.T()
        invariant e.Child? ==> Covers(t, e.addr, index)
        invariant !e.Child? ==> e == Get(t, index) && Walked()
        invariant !e.Child? && node.At? ==> e == xa.nodes[node.addr].slots[offset]
        invariant !e.Child? && e != Null && node.At? ==> xa.nodes[node.addr].level == 0
        decreases if e.Child? && e.addr in xa.nodes then xa.nodes[e.addr].level + 1 else 0
      {
        var a := e.addr;
        Descend(t, a, index);
        node := At(a);
        offset := Digit(index, xa.nodes[a].level);
        e := xa.nodes[a].slots[offset];
        if xa.nodes[a].level == 0 { break; }
      }
    }

    // -------------------------------------------------------------- marks

    lemma WalkedSpot()
      requires XInv(xa.T()) && Walked() && Get(xa.T(), index) != Null
      ensures Spot(xa.T(), if node.At? then Some(node.addr) else None, offset, index)
    {
      if node.At? { Descend(xa.T(), node.addr, index); }
    }

    /**
     * xas_set_mark: nothing unless the cursor is walked.  It marks the slot
     * under the cursor even when there is no entry, which breaks the array.
     */
    method SetMark(m: nat)
      requires Ready() && m < MARKS
      modifies xa`head, xa`flags, xa`nodes, xa`pfx, xa`dir
      ensures !old(Walked()) ==> xa.T() == old(xa.T())
      ensures old(Walked()) && Get(old(xa.T()), index) != Null ==>
                MarkedTo(old(xa.T()), xa.T(), index, m, true) && SameNodes(old(xa.T()), xa.T())
      ensures XInv(xa.T()) <==> !old(Walked()) || Get(old(xa.T()), index) != Null
    {
      hide XInv, MarkedTo, MarkRun, SameNodes, Links, Get, Blind;
      ghost var t0 := xa.T();
      XInvHead(t0);
      if node.Restart? || node.Bounds? { return; }
      var cur := if node.At? then Some(node.addr) else None;
      var off := offset;
      ghost var a0, o0, empty := cur, off, Get(t0, index) == Null;
      if empty {
        BlindStart(t0, m, a0, o0, index);
      } else {
        WalkedSpot();
        MarkRunStart(t0, m, cur, off, true, index);
      }
      while cur.Some?
        invariant if empty then Blind(t0, xa.T(), m, cur, off, a0, o0) else MarkRun(t0, xa.T(), m, cur, off, true, index)
        decreases if cur.Some? && cur.value in xa.nodes then TOP + 1 - xa.nodes[cur.value].level else 0
      {
        var a := cur.value;
        if empty { BlindStep(t0, xa.T(), m, a, off, a0, o0); } else { MarkRunStep(t0, xa.T(), m, a, off, true, index); }
        if off in xa.nodes[a].marks[m] {
          if !empty { MarkRunStop(t0, xa.T(), m, a, off, true, index); }
          return;
        }
        off, cur, xa.nodes := xa.nodes[a].offset, xa.nodes[a].parent, xa.nodes[a := NodeBit(xa.nodes[a], off, m, true)];
      }
      if empty { BlindFlag(t0, xa.T(), m, off, a0, o0); } else { MarkRunFlag(t0, xa.T(), m, off, true, index); }
      xa.flags := xa.flags + {m};
    }

    /** xas_clear_mark: nothing unless the cursor is walked; an empty slot has no mark to clear. */
    method ClearMark(m: nat)
      requires Ready() && m < MARKS
      modifies xa`head, xa`flags, xa`nodes, xa`pfx, xa`dir
      ensures XInv(xa.T()) && if old(Walked()) then MarkedTo(old(xa.T()), xa.T(), index, m, false) && SameNodes(old(xa.T()), xa.T())
                              else xa.T() == old(xa.T())
    {
      hide XInv, MarkedTo, MarkRun, SameNodes, Links, Get, Blind;
      ghost var t0 := xa.T();
      XInvHead(t0);
      if node.Restart? || node.Bounds? { return; }
      var cur := if node.At? then Some(node.addr) else None;
      var off := offset;
      ghost var a0, empty := cur, Get(t0, index) == Null;
      if empty {
        BlindStart(t0, m, cur, off, index);
        NothingMarked(t0, index, m);
        if cur.Some? { BlindStep(t0, t0, m, cur.value, off, cur, off); }
      } else {
        WalkedSpot();
        MarkRunStart(t0, m, cur, off, false, index);
      }
      while cur.Some?
        invariant if empty then xa.T() == t0 && cur == a0 && off == offset else MarkRun(t0, xa.T(), m, cur, off, false, index)
        decreases if cur.Some? && cur.value in xa.nodes then TOP + 1 - xa.nodes[cur.value].level else 0
      {
        var a := cur.value;
        if !empty { MarkRunStep(t0, xa.T(), m, a, off, false, index); }
        if off !in xa.nodes[a].marks[m] {
          if !empty { MarkRunStop(t0, xa.T(), m, a, off, false, index); }
          return;
        }
        xa.nodes := xa.nodes[a := NodeBit(xa.nodes[a], off, m, false)];
        if xa.nodes[a].marks[m] != {} {
          return;
        }
        off := xa.nodes[a].offset;
        cur := xa.nodes[a].parent;
      }
      if empty { assert xa.flags - {m} == xa.flags; } else { MarkRunFlag(t0, xa.T(), m, off, false, index); }
      xa.flags := xa.flags - {m};
    }

    // ---------------------------------------------------------- shrinking

    /** xas_shrink: the cursor is on the root. */
    method Shrink()
      requires XInv(xa.T()) && node.At? && xa.head == Child(node.addr)
      modifies `node, xa`head, xa`flags, xa`nodes, xa`pfx, xa`dir
      ensures XInv(xa.T()) && SameReads(old(xa.T()), xa.T()) && !node.NoMem?
      ensures old(CanonAt(xa.T(), node.addr) && xa.nodes[node.addr].count > 0) ==> Canon(xa.T())
      ensures xa.nodes.Keys <= old(xa.nodes.Keys)
    {
      hide XInv, SameReads, CanonAt, Canon;
      ghost var t0 := xa.T();
      var n := node.addr;
      XInvHead(t0);
      while true
        invariant XInv(xa.T()) && XInv(t0) && SameReads(t0, xa.T())
        invariant xa.head == Child(n) && n in xa.nodes && HeadOk(xa.T()) && HeadOk(t0) && !node.NoMem?
        invariant xa.nodes.Keys <= t0.nodes.Keys
        invariant CanonAt(t0, t0.head.addr) && t0.nodes[t0.head.addr].count > 0 ==>
                    CanonAt(xa.T(), n) && xa.nodes[n].count > 0
        decreases if n in xa.nodes then xa.nodes[n].level else 0
      {
        ghost var t := xa.T();
        XInvHead(t);
        if Settled(xa.nodes[n]) {
          if CanonAt(t, n) && xa.nodes[n].count > 0 { CanonSettled(t); }
          break;
        }
        var e := xa.nodes[n].slots[0];
        node := Bounds;
        xa.head := e;
        if !e.Child? {
          XPopLeaf(t);
          LoneLeaf(t);
          xa.nodes, xa.pfx, xa.dir := xa.nodes - {n}, xa.pfx - {n}, xa.dir - {(xa.nodes[n].level, 0)};
          assert xa.T() == Bare(t, e);
          CanonBare(t, e);
          SameReadsTrans(t0, t, xa.T());
          break;
        }
        XPopRoot(t);
        PopFacts(t);
        if CanonAt(t, n) { CanonPop(t); }
        xa.nodes, xa.pfx, xa.dir := xa.nodes[e.addr := xa.nodes[e.addr].(parent := None)] - {n},
          xa.pfx - {n}, xa.dir - {(xa.nodes[n].level, xa.pfx[n])};
        assert xa.T() == PopRoot(t);
        SameReadsTrans(t0, t, xa.T());
        n := e.addr;
      }
    }

    /** xas_delete_node: the cursor is on a node that may have become empty. */
    method DeleteNode()
      requires XInv(xa.T()) && node.At? && node.addr in xa.nodes
      modifies `node, `offset, xa`head, xa`flags, xa`nodes, xa`pfx, xa`dir
      ensures XInv(xa.T()) && SameReads(old(xa.T()), xa.T()) && !node.NoMem?
      ensures old(CanonAt(xa.T(), node.addr)) ==> Canon(xa.T())
      ensures xa.nodes.Keys <= old(xa.nodes.Keys)
    {
      hide XInv, SameReads, CanonAt, Canon;
      ghost var t0, a0 := xa.T(), node.addr;
      var n := node.addr;
      XInvHead(t0);
      while true
        invariant XInv(xa.T()) && XInv(t0) && SameReads(t0, xa.T())
        invariant node == At(n) && n in xa.nodes && xa.nodes.Keys <= t0.nodes.Keys
        invariant CanonAt(t0, a0) ==> CanonAt(xa.T(), n)
        decreases if n in xa.nodes then TOP + 1 - xa.nodes[n].level else 0
      {
        ghost var t := xa.T();
        NodeFacts(t, n);
        if xa.nodes[n].count > 0 { break; }
        var parent := xa.nodes[n].parent;
        offset := xa.nodes[n].offset;
        if parent.None? {
          XDropRoot(t);
          DropRootCanon(t);
          xa.head, node := Null, Bounds;
          xa.nodes, xa.pfx, xa.dir := xa.nodes - {n}, xa.pfx - {n}, xa.dir - {(xa.nodes[n].level, 0)};
          assert xa.T() == Bare(t, Null);
          SameReadsTrans(t0, t, xa.T());
          return;
        }
        node := At(parent.value);
        XDropNode(t, n);
        if CanonAt(t, n) { CanonPrune(t, n); }
        xa.nodes, xa.pfx, xa.dir := xa.nodes[parent.value := Pruned(xa.nodes[parent.value], offset)] - {n},
          xa.pfx - {n}, xa.dir - {(xa.nodes[n].level, xa.pfx[n])};
        assert xa.T() == Prune(t, n);
        SameReadsTrans(t0, t, xa.T());
        n := parent.value;
      }
      ghost var t := xa.T();
      if xa.nodes[n].parent.None? {
        Shrink();
        SameReadsTrans(t0, t, xa.T());
      } else if CanonAt(t, n) {
        CanonBelow(t, n);
      }
    }

    // ------------------------------------------------------------ growing

    ghost predicate Spare()
      reads this, xa
    {
      alloc.Some? ==> alloc.value !in xa.nodes
    }

    /** xas_alloc: a node under the cursor, from the spare one or from malloc. */
    method Alloc(level: nat) returns (r: Option<Addr>)
      requires Spare() && (node.AtHead? || (node.At? && node.addr in xa.nodes))
      modifies `node, `alloc, xa`nodes
      ensures alloc == None
      ensures r.None? ==> node.NoMem? && xa.nodes == old(xa.nodes) && old(alloc).None?
      ensures r.Some? ==>
        && node == old(node) && r.value !in old(xa.nodes)
        && xa.nodes == (if node.At? then
             old(xa.nodes)[node.addr := old(xa.nodes)[node.addr].(count := old(xa.nodes)[node.addr].count + 1)]
                          [r.value := FreshNode(level, Some(node.addr), offset)]
           else old(xa.nodes)[r.value := FreshNode(level, None, 0)])
    {
      r := alloc;
      if r.Some? {
        alloc := None;
      } else {
        r := Malloc();
        if r.None? {
          node := NoMem;
          return;
        }
      }
      if node.At? {
        xa.nodes := xa.nodes[node.addr := xa.nodes[node.addr].(count := xa.nodes[node.addr].count + 1)];
        xa.nodes := xa.nodes[r.value := FreshNode(level, Some(node.addr), offset)];
      } else {
        xa.nodes := xa.nodes[r.value := FreshNode(level, None, 0)];
      }
    }

    /** What growing the tree for the index of the cursor keeps. */
    ghost predicate Grew(t0: Tree, spare: bool)
      reads this, xa
    {
      && XInv(t0) && XInv(xa.T()) && SameReads(t0, xa.T()) && Spare() && index <= MAX_INDEX
      && (CanonBut(t0, index) ==> CanonBut(xa.T(), index))
      && Fuel(xa.T(), index) <= Fuel(t0, index)
      && (spare && alloc.None? ==> Fuel(xa.T(), index) < Fuel(t0, index))
    }

    /** The head and the height, in levels, at which a walk to the index may start. */
    ghost predicate Fits(height: int)
      reads this, xa
    {
      && 0 <= height <= TOP + 1 && Pfx(index, height) == 0
      && match xa.head
         case Child(r) => r in xa.nodes && height == xa.nodes[r].level + 1
         case Null => (height == 0 && index == 0) || (height > 0 && Pfx(index, height - 1) > 0)
         case _ => height == 0
    }

    /** The head of xas_expand for an empty array: the least height that holds the index. */
    method LeastHeight() returns (height: nat)
      requires index <= MAX_INDEX
      ensures height <= TOP + 1 && Pfx(index, height) == 0
      ensures height == 0 <==> index == 0
      ensures height > 0 ==> Pfx(index, height - 1) > 0
    {
      height := 0;
      if index == 0 { return; }
      PfxTop(index);
      while Pfx(index, height) >= 64
        invariant height <= TOP && Pfx(index, height) > 0
        decreases TOP - height
      {
        height := height + 1;
        if height > TOP { assert false; }
      }
      height := height + 1;
    }

    /** The body of the loop of xas_expand: one more root above the head. */
    method PushRoot(level: nat) returns (c: Option<Addr>)
      requires Spare() && node.AtHead? && HeadOk(xa.T())
      modifies `node, `alloc, xa`head, xa`flags, xa`nodes, xa`pfx, xa`dir
      ensures alloc == None
      ensures c.None? ==> node.NoMem? && xa.T() == old(xa.T()) && old(alloc).None?
      ensures c.Some? ==> node == old(node) && c.value !in old(xa.nodes)
                          && xa.T() == XTree.Expand(old(xa.T()), c.value, level)
    {
      c := Alloc(level);
      if c.None? { return; }
      var h := xa.head;
      if h.Child? {
        xa.nodes := xa.nodes[h.addr := xa.nodes[h.addr].(parent := c, offset := 0)];
      }
      xa.nodes := xa.nodes[c.value := ExpandNode(h, xa.flags, level)];
      xa.head := Child(c.value);
      xa.pfx, xa.dir := xa.pfx[c.value := 0], xa.dir[(level, 0) := c.value];
    }

    /** xas_expand: add nodes above the head until the index fits; -1 when memory runs out. */
    method Expand() returns (height: int)
      requires XInv(xa.T()) && Spare() && index <= MAX_INDEX && node.AtHead?
      modifies `node, `alloc, xa`head, xa`flags, xa`nodes, xa`pfx, xa`dir
      ensures Grew(old(xa.T()), old(alloc.Some?))
      ensures height < 0 ==> Get(old(xa.T()), index) == Null
      ensures if height < 0 then node.NoMem? && alloc.None? else Fits(height) && (node.AtHead? || (node.At? && xa.head == Child(node.addr)))
    {
      hide XInv, SameReads, CanonBut, Fuel, Shl, MaxIndex, FreshNode, ExpandNode, Get, NewRoot, XTree.Expand;
      ghost var t0, spare := xa.T(), alloc.Some?;
      XInvHead(t0);
      PfxTop(index);
      if xa.head == Null {
        height := LeastHeight();
        return;
      }
      height := if xa.head.Child? then xa.nodes[xa.head.addr].level + 1 else 0;
      var nd := if xa.head.Child? then At(xa.head.addr) else AtHead;
      MaxIndexMeans(xa.nodes, xa.head, index);
      while index > MaxIndex(xa.nodes, xa.head)
        invariant Grew(t0, spare) && node.AtHead? && HeadOk(xa.T()) && xa.head != Null
        invariant xa.head.Child? ==> xa.nodes[xa.head.addr].level <= TOP
        invariant height == (if xa.head.Child? then xa.nodes[xa.head.addr].level + 1 else 0)
        invariant index > MaxIndex(xa.nodes, xa.head) <==> if xa.head.Child? then Pfx(index, height) != 0 else index != 0
        invariant nd == (if xa.head.Child? then At(xa.head.addr) else AtHead)
        decreases TOP + 1 - height
      {
        ghost var t := xa.T();
        if height > TOP { assert false; }
        var c := PushRoot(height);
        if c.None? {
          BeyondNull(t0, t, index);
          return -1;
        }
        ExpandStep(t0, t, c.value, height, index);
        nd := At(c.value);
        height := height + 1;
        MaxIndexMeans(xa.nodes, xa.head, index);
      }
      node := nd;
    }

    /** Where xas_create has got to: slot is the node whose slot it looks at, None for the head. */
    ghost predicate Creating(slot: Option<Addr>, height: int, e: Entry)
      reads this, xa
    {
      match slot
      case None => e == xa.head && Fits(height) && (node.AtHead? || (node.At? && xa.head == Child(node.addr)))
      case Some(a) =>
        && node == At(a) && Covers(xa.T(), a, index) && height == xa.nodes[a].level
        && offset == Digit(index, height) && |xa.nodes[a].slots| == 64 && e == xa.nodes[a].slots[offset]
    }

    /** xas_alloc and the write through the slot pointer, for an empty slot. */
    method FillSlot(slot: Option<Addr>, height: nat) returns (c: Option<Addr>)
      requires XInv(xa.T()) && Spare() && index <= MAX_INDEX && Creating(slot, height + 1, Null)
      modifies `node, `alloc, xa`head, xa`flags, xa`nodes, xa`pfx, xa`dir
      ensures alloc == None
      ensures c.None? ==> node.NoMem? && xa.T() == old(xa.T()) && old(alloc).None?
      ensures c.Some? ==> node == old(node) && c.value !in old(xa.nodes)
      ensures c.Some? && slot.None? ==> xa.T() == FirstRoot(old(xa.T()), c.value, FreshNode(height, None, 0))
      ensures c.Some? && slot.Some? ==> CanHang(old(xa.T()), slot.value, offset, c.value)
                                        && xa.T() == HangFresh(old(xa.T()), slot.value, offset, c.value)
    {
      hide XInv, Pfx, Fits;
      ghost var t := xa.T();
      XInvHead(t);
      if slot.Some? { RoomBelow(t, slot.value, index); }
      c := Alloc(height);
      if c.None? { return; }
      if slot.None? {
        xa.head := Child(c.value);
        xa.pfx, xa.dir := xa.pfx[c.value := 0], xa.dir[(height, 0) := c.value];
        assert t.nodes == map[] && t.pfx == map[] && t.dir == map[];
      } else {
        var a := slot.value;
        var n := xa.nodes[a];
        xa.nodes := xa.nodes[a := n.(slots := n.slots[offset := Child(c.value)])];
        ghost var q := 64 * xa.pfx[a] + offset;
        xa.pfx, xa.dir := xa.pfx[c.value := q], xa.dir[(height, q) := c.value];
        assert xa.nodes == HangFresh(t, a, offset, c.value).nodes;
      }
    }

    /** The node below the slot, made if the slot is empty. */
    method NextNode(slot: Option<Addr>, height: nat, e: Entry, ghost t0: Tree, ghost spare: bool) returns (a: Option<Addr>)
      requires Grew(t0, spare) && Creating(slot, height + 1, e)
      modifies `node, `alloc, xa`head, xa`flags, xa`nodes, xa`pfx, xa`dir
      ensures Grew(t0, spare)
      ensures a.None? ==> Get(t0, index) == Null
      ensures if a.None? then node.NoMem? && alloc.None?
              else a.value in xa.nodes && Covers(xa.T(), a.value, index) && xa.nodes[a.value].level == height
    {
      hide XInv, SameReads, CanonBut, Fuel, Pfx, HangFresh, FirstRoot;
      ghost var t := xa.T();
      XInvHead(t);
      if slot.Some? { NodeFacts(t, slot.value); }
      if e == Null {
        MissingNull(t0, t, slot, index);
        a := FillSlot(slot, height);
        if a.Some? {
          FillStep(t0, t, slot, offset, a.value, height, index);
        }
      } else {
        CreateStep(t, slot, e, index);
        if !e.Child? { assert false; }
        a := Some(e.addr);
      }
    }

    /** xas_create: make the slot of the index and stand on it. */
    method Create() returns (e: Entry)
      requires Ready()
      modifies `node, `offset, `alloc, xa`head, xa`flags, xa`nodes, xa`pfx, xa`dir
      ensures Grew(old(xa.T()), old(alloc.Some?))
      ensures if node.NoMem? then alloc.None? && e == Null && Get(old(xa.T()), index) == Null
              else Walked() && e == Get(xa.T(), index) && (node.At? ==> xa.nodes[node.addr].level == 0)
    {
      hide XInv, SameReads, CanonBut, Fuel, Pfx, Get;
      ghost var t0, spare := xa.T(), alloc.Some?;
      XInvHead(t0);
      var height: int;
      var slot: Option<Addr>;
      if node.At? {
        NodeFacts(t0, node.addr);
        slot, height, e := Some(node.addr), xa.nodes[node.addr].level, xa.nodes[node.addr].slots[offset];
      } else {
        node := AtHead;
        height := Expand();
        if height < 0 { return Null; }
        slot, e := None, xa.head;
      }
      while height > 0
        invariant Grew(t0, spare) && Creating(slot, height, e)
        decreases height
      {
        height := height - 1;
        var next := NextNode(slot, height, e, t0, spare);
        if next.None? { return Null; }
        var a := next.value;
        NodeFacts(xa.T(), a);
        node, offset := At(a), Digit(index, xa.nodes[a].level);
        slot, e := Some(a), xa.nodes[a].slots[offset];
      }
      CreateEnd(xa.T(), slot, e, index);
    }

    // ------------------------------------------------------------ storing

    /** xas_init_marks: clear every mark of the entry under the cursor. */
    method InitMarks()
      requires Ready()
      modifies xa`head, xa`flags, xa`nodes, xa`pfx, xa`dir
      ensures XInv(xa.T())
      ensures if old(Walked()) then MarksGone(old(xa.T()), xa.T(), index, MARKS) && SameNodes(old(xa.T()), xa.T())
              else xa.T() == old(xa.T())
    {
      hide XInv, MarkedTo, MarksGone, SameNodes, Get;
      ghost var t0, walked := xa.T(), Walked();
      MarksGoneStart(t0, index);
      var m := 0;
      while m < MARKS
        invariant m <= MARKS && Ready() && Walked() == walked
        invariant if walked then MarksGone(t0, xa.T(), index, m) && SameNodes(t0, xa.T()) else xa.T() == t0
      {
        ghost var t := xa.T();
        ClearMark(m);
        if walked {
          MarksGoneStep(t0, t, xa.T(), index, m);
          StillStanding(t, xa.T(), node);
        }
        m := m + 1;
      }
    }

    /** The write of xas_store with update_node: the cursor is on the slot. */
    method Write(entry: Entry)
      requires Ready() && (node.At? || node.AtHead?) && UserEntry(entry) && entry != Get(xa.T(), index)
      requires node.At? ==> xa.nodes[node.addr].level == 0
      requires entry == Null ==> forall k :: 0 <= k < MARKS ==> !MarkAt(xa.T(), index, k)
      modifies `node, `offset, xa`head, xa`flags, xa`nodes, xa`pfx, xa`dir
      ensures XInv(xa.T()) && StoredTo(old(xa.T()), xa.T(), index, entry) && !node.NoMem?
      ensures entry != Null && old(CanonBut(xa.T(), index)) ==> Canon(xa.T())
      ensures entry == Null && old(Canon(xa.T())) ==> Canon(xa.T())
      ensures xa.nodes.Keys <= old(xa.nodes.Keys)
    {
      hide XInv, StoredTo, SameReads, Get, Canon, CanonBut, CanonAt, MarkAt, Pfx;
      ghost var t0 := xa.T();
      if node.AtHead? {
        HeadSlot(t0, entry);
        xa.head := entry;
        return;
      }
      var a := node.addr;
      LeafSlot(t0, a, index, entry);
      var n := xa.nodes[a];
      var count := Delta(n.slots[offset], entry, false);
      xa.nodes := xa.nodes[a := n.(slots := n.slots[offset := entry], count := n.count + count,
                                   nrValues := n.nrValues + Delta(n.slots[offset], entry, true))];
      ghost var t1 := xa.T();
      XPut(t0, a, offset, entry);
      CanonPut(t0, a, offset, entry);
      if count < 0 {
        DeleteNode();
        StoredTrans(t0, t1, xa.T(), index, entry);
      }
    }

    /** xas_store: put an entry, or NULL, at the index of the cursor; returns the old entry. */
    method Store(entry: Entry) returns (first: Entry)
      requires Ready() && UserEntry(entry)
      modifies `node, `offset, `alloc, xa`head, xa`flags, xa`nodes, xa`pfx, xa`dir
      ensures XInv(xa.T()) && Spare()
      ensures node.NoMem? ==> entry != Null && alloc.None? && Grew(old(xa.T()), old(alloc.Some?)) && Get(old(xa.T()), index) == Null
      ensures !node.NoMem? ==> first == Get(old(xa.T()), index) && Replaced(old(xa.T()), xa.T(), index, entry)
      ensures !node.NoMem? && entry != Null && old(CanonBut(xa.T(), index)) ==> Canon(xa.T())
      ensures entry == Null && old(Canon(xa.T())) ==> Canon(xa.T())
    {
      hide XInv, StoredTo, SameReads, MarksGone, Replaced, Get, Canon, CanonBut, MarkAt, Fuel, Pfx;
      ghost var t0 := xa.T();
      if entry != Null {
        first := Create();
        if node.NoMem? { return; }
        CreatedReads(t0, xa.T(), index, entry);
      } else {
        first := Load();
        if first == Null {
          NothingToErase(t0, index);
          return;
        }
        InitMarks();
        ErasedReads(t0, xa.T(), index);
        StillStanding(t0, xa.T(), node);
      }
      if first == entry { return; }
      ghost var t1 := xa.T();
      Write(entry);
      ReplacedReads(t0, t1, xa.T(), index, entry);
    }

    // ---------------------------------------------------------- searching

    /**
     * The cursor after a search without result: past max, still in the tree; or at the smallest index not yet
     * in the array, which a store may start from.
     */
    ghost predicate Exhausted(max: nat)
      reads this, xa
    {
      if node.At? then index > max else Ready() && (node.Bounds? ==> PastEnd(xa.T(), index))
    }

    /** xas_find: the next present entry, for a reset cursor from its index on, else behind it. */
    method Find(max: nat) returns (e: Entry)
      requires Ready() && max <= MAX_INDEX
      modifies `node, `offset, `index
      ensures index <= MAX_INDEX
      ensures var lo := old(if Walked() then index + 1 else index);
              if e == Null then AllNull(xa.T(), lo, max + 1) && (!old(Walked()) ==> Get(xa.T(), lo) == Null)
              else Ready() && Walked() && Get(xa.T(), index) == e && AllNull(xa.T(), lo, index) && lo <= index
                   && (index <= max || (index == lo && !old(Walked())))
      ensures e == Null ==> Exhausted(max)
    {
      hide XInv, Links, Get, AllNull, Start, Pfx, Shl, MoveIndex, Beyond, HeadOk;
      ghost var t := xa.T();
      ghost var lo := if Walked() then index + 1 else index;
      HeadPastEnd(t);
      if node.AtHead? {
        HeadOnly(t, lo, max);
        index, node := 1, Bounds;
        return Null;
      } else if node.Restart? || node.Bounds? {
        e := Load();
        if e != Null || !node.At? {
          FoundHere(t, lo, e, node, max);
          return;
        }
      }
      ghost var v := AdvanceFirst(t, node.addr, offset, index, lo);
      index, offset := MoveIndex(index, xa.nodes[node.addr].level, offset + 1), offset + 1;
      e := ScanOn(max, lo, v);
    }

    /** The loop of xas_find, from position v on. */
    method ScanOn(max: nat, ghost lo: nat, ghost v0: nat) returns (e: Entry)
      requires XInv(xa.T()) && Spare() && max <= MAX_INDEX && lo <= v0 && AllNull(xa.T(), lo, v0)
      requires index == v0 % WORD && node.At? && Scanning(xa.T(), node.addr, offset, index, v0)
      modifies `node, `offset, `index
      ensures index <= MAX_INDEX
      ensures if e == Null then AllNull(xa.T(), lo, max + 1) && Exhausted(max)
              else Ready() && Walked() && Get(xa.T(), index) == e && AllNull(xa.T(), lo, index) && lo <= index <= max
    {
      hide XInv, Links, Get, AllNull, Start, Pfx, Shl, MoveIndex, PastEnd;
      ghost var t := xa.T();
      ghost var v := v0;
      e := Null;
      while node.At? && index <= max
        invariant XInv(t) && t == xa.T() && AllNull(t, lo, v) && lo <= v && index == v % WORD
        invariant node.At? || node.AtHead?
        invariant node.AtHead? ==> AllNull(t, lo, max + 1) && PastEnd(t, index)
        invariant node.At? ==> Scanning(t, node.addr, offset, index, v)
        decreases 5 * WORD - v, node.At? && offset == 64,
                  if !node.At? || node.addr !in xa.nodes then 0
                  else if offset == 64 then TOP + 2 - xa.nodes[node.addr].level else xa.nodes[node.addr].level + 1
      {
        var a := node.addr;
        ScanFacts(t, a, offset, index, v);
        if offset == 64 {
          ScanPop(t, a, lo, v, max);
          offset := xa.nodes[a].offset + 1;
          node := if xa.nodes[a].parent.Some? then At(xa.nodes[a].parent.value) else AtHead;
          continue;
        }
        e := xa.nodes[a].slots[offset];
        if e.Child? {
          ScanDown(t, a, offset, v);
          node, offset := At(e.addr), 0;
          e := Null;
          continue;
        }
        ScanSlot(t, a, offset, index, lo, v);
        if e != Null { return; }
        v := Start(t, a, offset + 1);
        offset := offset + 1;
        index := MoveIndex(index, xa.nodes[a].level, offset);
      }
      if node.AtHead? { node := Bounds; }
      e := Null;
      if index > max { AllNullLess(t, lo, v, max + 1); }
    }

    /**
     * The cursor after a search for a mark without result: reset, past max or past the last index of all; or
     * out of bounds, at an index within max that the array does not reach.
     */
    ghost predicate GaveUp(max: nat)
      reads this, xa
    {
      && Ready()
      && match node
         case Restart => index > max || index == 0
         case Bounds => index <= max && Beyond(xa.T(), index)
         case _ => false
    }

    /** xas_find_marked: like Find, for the entries that carry mark m, and never beyond max. */
    method FindMarked(max: nat, m: nat) returns (e: Entry)
      requires Ready() && max <= MAX_INDEX && m < MARKS
      modifies `node, `offset, `index
      ensures index <= MAX_INDEX
      ensures e == Null ==> GaveUp(max)
      ensures var lo := old(if Walked() then index + 1 else index);
              if e == Null then NoneMarked(xa.T(), lo, max + 1, m)
              else Ready() && Walked() && Get(xa.T(), index) == e && MarkAt(xa.T(), index, m)
                   && NoneMarked(xa.T(), lo, index, m) && lo <= index <= max
    {
      hide XInv, Links, Get, NoneMarked, MarkAt, Start, Pfx, Shl, MaxIndex, Bit;
      ghost var t := xa.T();
      ghost var lo := if Walked() then index + 1 else index;
      XInvHead(t);
      var advance := true;
      if node.AtHead? {
        HeadUnmarked(t, lo, max, m);
        index := 1;
        node := if index > max then Restart else Bounds;
        return Null;
      } else if !node.At? {
        advance := false;
        e := xa.head;
        node := AtHead;
        MaxIndexMeans(xa.nodes, e, index);
        if index > MaxIndex(xa.nodes, e) {
          HeadBeyond(t, lo, max, m);
          node := if index > max then Restart else Bounds;
          return Null;
        }
        if !e.Child? {
          HeadMark(t, max, m);
          if m in xa.flags { return; }
          index := 1;
          node := if index > max then Restart else Bounds;
          return Null;
        }
        RootSeek(t, index, lo, m);
        node, offset := At(e.addr), Pfx(index, xa.nodes[e.addr].level);
      } else {
        WalkedSeek(t, node.addr, offset, index, m);
      }
      e := SeekOn(max, m, lo, advance);
    }

    /** The loop of xas_find_marked. */
    method SeekOn(max: nat, m: nat, ghost lo: nat, advance0: bool) returns (e: Entry)
      requires XInv(xa.T()) && Spare() && max <= MAX_INDEX && m < MARKS
      requires node.At? && Seeking(xa.T(), node.addr, offset, index, lo, m, advance0)
      modifies `node, `offset, `index
      ensures index <= MAX_INDEX
      ensures e == Null ==> GaveUp(max)
      ensures if e == Null then NoneMarked(xa.T(), lo, max + 1, m)
              else Ready() && Walked() && Get(xa.T(), index) == e && MarkAt(xa.T(), index, m)
                   && NoneMarked(xa.T(), lo, index, m) && lo <= index <= max
    {
      hide XInv, Links, Get, NoneMarked, MarkAt, Start, Pfx, Shl, MoveIndex, Bit, Seeking, Covers, Digit;
      ghost var t := xa.T();
      var advance := advance0;
      SeekFacts(t, node.addr, offset, index, lo, m, advance);
      while index <= max
        invariant XInv(t) && t == xa.T() && index <= MAX_INDEX
        invariant node.At? && Seeking(t, node.addr, offset, index, lo, m, advance)
        decreases MAX_INDEX - index, node.At? && offset == 64,
                  if !node.At? || node.addr !in xa.nodes then 0
                  else if offset == 64 then TOP + 2 - xa.nodes[node.addr].level else xa.nodes[node.addr].level + 1
      {
        var a := node.addr;
        SeekFacts(t, a, offset, index, lo, m, advance);
        if offset == 64 {
          SeekPop(t, a, index, lo, max, m, advance);
          offset := xa.nodes[a].offset + 1;
          if xa.nodes[a].parent.None? {
            node := Bounds;
            return Null;
          }
          node := At(xa.nodes[a].parent.value);
          advance := false;
          continue;
        }
        var next := NextBit(xa.nodes[a].marks[m], if advance then offset + 1 else offset);
        if next > offset {
          ghost var v := SeekMove(t, a, offset, next, index, lo, m, advance);
          index := MoveIndex(index, xa.nodes[a].level, next);
          advance := false;
          if (index + WORD - 1) % WORD >= max {
            NoneMarkedLess(t, lo, v, max + 1, m);
            node := Restart;
            return Null;
          }
          offset := next;
          if next == 64 { continue; }
        }
        e := xa.nodes[a].slots[offset];
        SeekSlot(t, a, offset, index, lo, m);
        if !e.Child? { return; }
        node, offset := At(e.addr), Digit(index, xa.nodes[e.addr].level);
      }
      SeekOver(t, node.addr, offset, index, lo, m, advance, max);
      node := Restart;
      e := Null;
    }
  }

  /** A mark set where there is no entry: index 0 of a new array. */
  method MarkNothing(m: nat) returns (xa: XArray)
    requires m < MARKS
    ensures !XInv(xa.T())
  {
    hide XInv, Get;
    xa := new XArray(true);
    ShowsAt(xa.T(), xa.contents, xa.marked, 0);
    var xas := new XaState(xa, 0);
    var e := xas.Load();
    xas.SetMark(m);
  }
}
