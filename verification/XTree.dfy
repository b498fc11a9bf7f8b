/**
 * The invariant of the XArray on snapshots of its tree: node counts, value
 * counts, the three summarised mark bitmaps and the flags of the array, and
 * what each update of the tree does to them.
 */
module XTree {
  import opened Memory
  import opened Radix

  const MAX_INDEX: nat := 0xFFFF_FFFF_FFFF_FFFF
  const MARKS: nat := 3

  ghost predicate Counted(e: Entry, values: bool)
  {
    if values then e.Value? else e != Null
  }

  /** The number of non-NULL slots, or of value entries among them. */
  ghost function Tally(s: seq<Entry>, values: bool): nat
  {
    if s == [] then 0 else (if Counted(s[0], values) then 1 else 0) + Tally(s[1..], values)
  }

  lemma {:induction false} TallyUpdate(s: seq<Entry>, o: nat, e: Entry, values: bool)
    requires o < |s|
    ensures Tally(s[o := e], values) + (if Counted(s[o], values) then 1 else 0)
         == Tally(s, values) + (if Counted(e, values) then 1 else 0)
  {
    if o > 0 {
      TallyUpdate(s[1..], o - 1, e, values);
      assert s[o := e][1..] == s[1..][o - 1 := e];
    } else {
      assert s[o := e][1..] == s[1..];
    }
  }

  /** Zero exactly when nothing is counted; a counted slot leaves room for no other when the tally is 1. */
  lemma {:induction false} TallyZero(s: seq<Entry>, values: bool)
    ensures Tally(s, values) <= |s|
    ensures Tally(s, values) == 0 <==> forall o :: 0 <= o < |s| ==> !Counted(s[o], values)
  {
    if s != [] {
      TallyZero(s[1..], values);
      assert forall o :: 0 < o < |s| ==> s[o] == s[1..][o - 1];
      assert forall o :: 0 <= o < |s| - 1 ==> s[1..][o] == s[o + 1];
    }
  }

  lemma TallyOne(s: seq<Entry>)
    requires |s| == 64 && s[0] != Null
    ensures Tally(s, false) == 1 <==> forall o :: 1 <= o < 64 ==> s[o] == Null
  {
    TallyZero(s[1..], false);
    assert forall o :: 1 <= o < 64 ==> s[o] == s[1..][o - 1];
    assert forall o :: 0 <= o < 63 ==> s[1..][o] == s[o + 1];
  }

  ghost predicate CountOk(n: Node)
  {
    n.count == Tally(n.slots, false) && n.nrValues == Tally(n.slots, true)
  }

  lemma {:induction false} TallyLast(s: seq<Entry>, values: bool)
    requires s != []
    ensures Tally(s, values) == Tally(s[..|s| - 1], values) + (if Counted(s[|s| - 1], values) then 1 else 0)
  {
    if |s| > 1 {
      TallyLast(s[1..], values);
      assert s[1..][..|s| - 2] == s[..|s| - 1][1..];
    }
  }

  /** What a tally counts. */
  ghost function CountedAt(s: seq<Entry>, values: bool): set<nat>
  {
    set o: nat | o < |s| && Counted(s[o], values)
  }

  lemma {:induction false} TallyIs(s: seq<Entry>, values: bool)
    ensures Tally(s, values) == |CountedAt(s, values)|
  {
    hide Tally, Counted;
    if s == [] {
      TallyNone(values);
    } else {
      var m := |s| - 1;
      TallyIs(s[..m], values);
      TallyLast(s, values);
      var a, b := CountedAt(s, values), CountedAt(s[..m], values);
      assert forall o: nat | o < m :: s[..m][o] == s[o];
      assert a == if Counted(s[m], values) then b + {m} else b;
    }
  }

  lemma TallyNone(values: bool)
    ensures Tally([], values) == 0 && CountedAt([], values) == {}
  {
  }

  /** Only non-NULL slots are marked. */
  ghost predicate MarkDom(n: Node)
  {
    && |n.marks| == MARKS && |n.slots| == 64
    && forall m, o {:trigger o in n.marks[m]} :: 0 <= m < MARKS && o in n.marks[m] ==> o < 64 && n.slots[o] != Null
  }

  ghost predicate XNode(t: Tree, a: Addr)
    requires DirOk(t) && a in t.nodes
  {
    && CountOk(t.nodes[a]) && MarkDom(t.nodes[a])
    && t.pfx[a] <= Pfx(MAX_INDEX, t.nodes[a].level + 1)
    && Retry !in t.nodes[a].slots
  }

  ghost predicate HasMark(t: Tree, a: Addr, m: nat)
  {
    a in t.nodes && m < |t.nodes[a].marks| && t.nodes[a].marks[m] != {}
  }

  ghost predicate Bit(t: Tree, a: Addr, o: nat, m: nat)
  {
    a in t.nodes && m < |t.nodes[a].marks| && o in t.nodes[a].marks[m]
  }

  /** A bit above a child says whether the child has any bit. */
  ghost predicate SumOk(t: Tree, a: Addr, o: nat, m: nat)
    requires a in t.nodes && o < |t.nodes[a].slots|
  {
    t.nodes[a].slots[o].Child? ==> (Bit(t, a, o, m) <==> HasMark(t, t.nodes[a].slots[o].addr, m))
  }

  /** The array flag says the same of the root; an empty array has no flags. */
  ghost predicate FlagOk(t: Tree, m: nat)
  {
    match t.head
    case Child(r) => m in t.flags <==> HasMark(t, r, m)
    case Null => m !in t.flags
    case _ => true
  }

  ghost predicate AllNodes(t: Tree)
  {
    DirOk(t) && forall a {:trigger XNode(t, a)} :: a in t.nodes ==> XNode(t, a)
  }

  /** Every summary bit is right, except perhaps bit m of slot off of node cur (of the flags, for None). */
  ghost predicate SumsBut(t: Tree, m: nat, cur: Option<Addr>, off: nat)
    requires Links(t)
  {
    && (forall a, o, k {:trigger SumOk(t, a, o, k)} :: a in t.nodes && 0 <= o < 64 && 0 <= k < MARKS ==>
          assert NodeOk(t, a); (k == m && cur == Some(a) && o == off) || SumOk(t, a, o, k))
    && (forall k {:trigger FlagOk(t, k)} :: 0 <= k < MARKS ==> (k == m && cur == None) || FlagOk(t, k))
  }

  ghost predicate SumsOk(t: Tree)
    requires Links(t)
  {
    && (forall a, o, k {:trigger SumOk(t, a, o, k)} :: a in t.nodes && 0 <= o < 64 && 0 <= k < MARKS ==>
          assert NodeOk(t, a); SumOk(t, a, o, k))
    && (forall k {:trigger FlagOk(t, k)} :: 0 <= k < MARKS ==> FlagOk(t, k))
  }

  ghost predicate XInv(t: Tree)
  {
    Links(t) && AllNodes(t) && SumsOk(t) && t.head != Retry
  }

  // --------------------------------------------------------------- meaning

  /** Is the entry at index i marked? */
  ghost predicate MarkAt(t: Tree, i: nat, m: nat)
  {
    if t.head.Child? then (0, i / 64) in t.dir && Bit(t, t.dir[(0, i / 64)], i % 64, m)
    else i == 0 && m in t.flags
  }

  ghost predicate SameReads(t: Tree, t': Tree)
  {
    && Links(t) && Links(t')
    && (forall i: nat :: Get(t', i) == Get(t, i))
    && (forall i: nat, m: nat :: m < MARKS ==> (MarkAt(t', i, m) <==> MarkAt(t, i, m)))
  }

  // ------------------------------------------------------- growing the tree

  function FreshNode(level: nat, parent: Option<Addr>, offset: nat): (n: Node)
    ensures Blank(n) && CountOk(n) && MarkDom(n) && Retry !in n.slots
  {
    var n := Node(level, offset, 0, 0, parent, seq(64, _ => Null), [{}, {}, {}]);
    assert CountOk(n) by { TallyZero(n.slots, false); TallyZero(n.slots, true); }
    n
  }

  function Grown(n: Node, o: nat, c: Addr): Node
    requires o < |n.slots|
  {
    n.(slots := n.slots[o := Child(c)], count := n.count + 1)
  }

  /** A slot in which a node may be hung without leaving the index range. */
  ghost predicate CanHang(t: Tree, p: Addr, o: nat, c: Addr)
    requires Links(t)
  {
    && p in t.nodes && c !in t.nodes && t.nodes[p].level > 0
    && o < 64 && |t.nodes[p].slots| == 64 && t.nodes[p].slots[o] == Null
    && 64 * t.pfx[p] + o <= Pfx(MAX_INDEX, t.nodes[p].level)
  }

  ghost function HangFresh(t: Tree, p: Addr, o: nat, c: Addr): Tree
    requires Links(t) && CanHang(t, p, o, c)
  {
    AddChild(t, p, o, Grown(t.nodes[p], o, c), c, FreshNode(t.nodes[p].level - 1, Some(p), o))
  }

  lemma HangNodes(t: Tree, p: Addr, o: nat, c: Addr)
    requires XInv(t) && CanHang(t, p, o, c)
    ensures Links(HangFresh(t, p, o, c)) && AllNodes(HangFresh(t, p, o, c))
  {
    var t' := HangFresh(t, p, o, c);
    AddChildLinks(t, p, o, t'.nodes[p], c, t'.nodes[c]);
    assert XNode(t, p);
    TallyUpdate(t.nodes[p].slots, o, Child(c), false);
    TallyUpdate(t.nodes[p].slots, o, Child(c), true);
    forall x | x in t'.nodes ensures XNode(t', x) {
      if x != c { assert XNode(t, x); }
    }
  }

  lemma HangSums(t: Tree, p: Addr, o: nat, c: Addr)
    requires XInv(t) && CanHang(t, p, o, c) && Links(HangFresh(t, p, o, c))
    ensures SumsOk(HangFresh(t, p, o, c))
  {
    var t' := HangFresh(t, p, o, c);
    assert XNode(t, p);
    forall x, j, k | x in t'.nodes && 0 <= j < 64 && 0 <= k < MARKS
      ensures NodeOk(t', x) && SumOk(t', x, j, k)
    {
      assert NodeOk(t', x);
      if x != c { assert NodeOk(t, x) && SumOk(t, x, j, k) && SlotOk(t, x, j); }
    }
    forall k | 0 <= k < MARKS ensures FlagOk(t', k) { assert FlagOk(t, k); }
  }

  lemma HangReads(t: Tree, p: Addr, o: nat, c: Addr)
    requires XInv(t) && CanHang(t, p, o, c) && Links(HangFresh(t, p, o, c))
    ensures SameReads(t, HangFresh(t, p, o, c))
  {
    var t' := HangFresh(t, p, o, c);
    AddChildDir(t, p, o, t'.nodes[p], c, t'.nodes[c]);
    forall i: nat ensures Get(t', i) == Get(t, i) {
      AddChildGet(t, p, o, t'.nodes[p], c, t'.nodes[c], i);
    }
    forall i: nat, m: nat | m < MARKS ensures MarkAt(t', i, m) <==> MarkAt(t, i, m) { }
  }

  /** Hanging a fresh node into an empty slot. */
  lemma XAddChild(t: Tree, p: Addr, o: nat, c: Addr)
    requires XInv(t) && CanHang(t, p, o, c)
    ensures XInv(HangFresh(t, p, o, c)) && SameReads(t, HangFresh(t, p, o, c))
  {
    HangNodes(t, p, o, c);
    HangSums(t, p, o, c);
    HangReads(t, p, o, c);
  }

  /** The node that xas_expand puts above the head. */
  function ExpandNode(head: Entry, flags: set<nat>, level: nat): Node
  {
    Node(level, 0, 1, if head.Value? then 1 else 0, None, [head] + seq(63, _ => Null),
         seq(3, m => if m in flags then {0} else {}))
  }

  lemma ExpandCounts(head: Entry, flags: set<nat>, level: nat)
    requires head != Null
    ensures CountOk(ExpandNode(head, flags, level))
  {
    var n := ExpandNode(head, flags, level);
    assert n.slots[1..] == seq(63, _ => Null);
    TallyZero(n.slots[1..], false);
    TallyZero(n.slots[1..], true);
  }

  ghost predicate CanExpand(t: Tree, c: Addr, level: nat)
    requires HeadOk(t)
  {
    && c !in t.nodes && t.head != Null && level <= TOP
    && level == (if t.head.Child? then RootLevel(t) + 1 else 0)
  }

  ghost function Expand(t: Tree, c: Addr, level: nat): Tree
    requires HeadOk(t)
  {
    NewRoot(t, c, ExpandNode(t.head, t.flags, level))
  }

  lemma ExpandNodes(t: Tree, c: Addr, level: nat)
    requires XInv(t) && CanExpand(t, c, level)
    ensures Links(Expand(t, c, level)) && AllNodes(Expand(t, c, level))
  {
    var t' := Expand(t, c, level);
    NewRootLinks(t, c, t'.nodes[c]);
    ExpandCounts(t.head, t.flags, level);
    forall x | x in t'.nodes ensures XNode(t', x) {
      if x != c { assert XNode(t, x); }
    }
  }

  lemma ExpandSums(t: Tree, c: Addr, level: nat)
    requires XInv(t) && CanExpand(t, c, level) && Links(Expand(t, c, level))
    ensures SumsOk(Expand(t, c, level))
  {
    var t' := Expand(t, c, level);
    forall x, j, k | x in t'.nodes && 0 <= j < 64 && 0 <= k < MARKS
      ensures NodeOk(t', x) && SumOk(t', x, j, k)
    {
      assert NodeOk(t', x) && FlagOk(t, k);
      if x != c { assert NodeOk(t, x) && SumOk(t, x, j, k) && SlotOk(t, x, j); }
    }
    forall k | 0 <= k < MARKS ensures FlagOk(t', k) {
      assert 0 in t'.nodes[c].marks[k] <==> k in t.flags;
    }
  }

  lemma ExpandReads(t: Tree, c: Addr, level: nat)
    requires XInv(t) && CanExpand(t, c, level) && Links(Expand(t, c, level))
    ensures SameReads(t, Expand(t, c, level))
  {
    var t' := Expand(t, c, level);
    NewRootLinks(t, c, t'.nodes[c]);
    forall i: nat ensures Get(t', i) == Get(t, i) { NewRootGet(t, c, t'.nodes[c], i); }
    forall i: nat, m: nat | m < MARKS ensures MarkAt(t', i, m) <==> MarkAt(t, i, m) { }
  }

  /** One round of xas_expand. */
  lemma XNewRoot(t: Tree, c: Addr, level: nat)
    requires XInv(t) && CanExpand(t, c, level)
    ensures XInv(Expand(t, c, level)) && SameReads(t, Expand(t, c, level))
  {
    ExpandNodes(t, c, level);
    ExpandSums(t, c, level);
    ExpandReads(t, c, level);
  }

  /** The first node of an empty array. */
  lemma XFirstRoot(t: Tree, c: Addr, level: nat)
    requires XInv(t) && t.head == Null && level <= TOP
    ensures var t' := FirstRoot(t, c, FreshNode(level, None, 0));
            XInv(t') && SameReads(t, t')
  {
    var nc := FreshNode(level, None, 0);
    var t' := FirstRoot(t, c, nc);
    FirstRootLinks(t, c, nc);
    assert XNode(t', c);
    forall x, j, k | x in t'.nodes && 0 <= j < 64 && 0 <= k < MARKS
      ensures NodeOk(t', x) && SumOk(t', x, j, k) { assert NodeOk(t', x); }
    forall k | 0 <= k < MARKS ensures FlagOk(t', k) && k !in t.flags { assert FlagOk(t, k); }
  }

  // ----------------------------------------------------- shrinking the tree

  function Pruned(n: Node, o: nat): Node
    requires o < |n.slots| && n.count > 0
  {
    n.(slots := n.slots[o := Null], count := n.count - 1)
  }

  lemma NoMarks(n: Node, k: nat)
    requires MarkDom(n) && Tally(n.slots, false) == 0 && k < MARKS
    ensures n.marks[k] == {}
  {
    TallyZero(n.slots, false);
    assert forall o :: o !in n.marks[k];
  }

  /** What deleting an empty node needs to know of its parent. */
  lemma PruneFacts(t: Tree, a: Addr)
    requires XInv(t) && a in t.nodes && t.nodes[a].parent.Some? && t.nodes[a].count == 0
    ensures var p := t.nodes[a].parent.value;
            && p in t.nodes && t.nodes[a].offset < 64 == |t.nodes[p].slots| && t.nodes[p].count > 0
            && t.nodes[p].level == t.nodes[a].level + 1
            && |t.nodes[p].marks| == MARKS
            && Blank(t.nodes[a]) && NodeOk(t, a)
    ensures forall k :: 0 <= k < MARKS ==>
              !HasMark(t, a, k) && t.nodes[a].offset !in t.nodes[t.nodes[a].parent.value].marks[k]
    ensures CountOk(Pruned(t.nodes[t.nodes[a].parent.value], t.nodes[a].offset))
  {
    var n, p := t.nodes[a], t.nodes[a].parent.value;
    assert XNode(t, a) && NodeOk(t, a);
    TallyZero(n.slots, false);
    ParentFacts(t, a);
    assert XNode(t, p) && NodeOk(t, p);
    TallyUpdate(t.nodes[p].slots, n.offset, Null, false);
    TallyUpdate(t.nodes[p].slots, n.offset, Null, true);
    forall k | 0 <= k < MARKS ensures !HasMark(t, a, k) && n.offset !in t.nodes[p].marks[k] {
      NoMarks(n, k);
      assert SumOk(t, p, n.offset, k);
    }
  }

  ghost predicate CanPrune(t: Tree, a: Addr)
  {
    && a in t.nodes && t.nodes[a].parent.Some? && t.nodes[a].count == 0
    && var p := t.nodes[a].parent.value;
       p in t.nodes && t.nodes[a].offset < |t.nodes[p].slots| && t.nodes[p].count > 0
  }

  ghost function Prune(t: Tree, a: Addr): Tree
    requires DirOk(t) && CanPrune(t, a)
  {
    DropNode(t, a, Pruned(t.nodes[t.nodes[a].parent.value], t.nodes[a].offset))
  }

  lemma PruneNodes(t: Tree, a: Addr)
    requires XInv(t) && CanPrune(t, a)
    ensures Links(Prune(t, a)) && AllNodes(Prune(t, a))
  {
    var t' := Prune(t, a);
    PruneFacts(t, a);
    DropNodeLinks(t, a, Pruned(t.nodes[t.nodes[a].parent.value], t.nodes[a].offset));
    forall x | x in t'.nodes ensures XNode(t', x) { assert XNode(t, x); }
  }

  lemma PruneSums(t: Tree, a: Addr)
    requires XInv(t) && CanPrune(t, a) && Links(Prune(t, a))
    ensures SumsOk(Prune(t, a))
  {
    var t' := Prune(t, a);
    PruneFacts(t, a);
    ParentFacts(t, a);
    forall x, j, k | x in t'.nodes && 0 <= j < 64 && 0 <= k < MARKS
      ensures NodeOk(t', x) && SumOk(t', x, j, k)
    {
      assert NodeOk(t', x) && NodeOk(t, x) && SumOk(t, x, j, k) && SlotOk(t, x, j);
    }
    forall k | 0 <= k < MARKS ensures FlagOk(t', k) { assert FlagOk(t, k); }
  }

  lemma PruneReads(t: Tree, a: Addr)
    requires XInv(t) && CanPrune(t, a) && Links(Prune(t, a))
    ensures SameReads(t, Prune(t, a))
  {
    var t' := Prune(t, a);
    PruneFacts(t, a);
    assert IsPosition(t, a);
    forall i: nat ensures Get(t', i) == Get(t, i) {
      DropNodeGet(t, a, Pruned(t.nodes[t.nodes[a].parent.value], t.nodes[a].offset), i);
    }
    forall i: nat, m: nat | m < MARKS ensures MarkAt(t', i, m) <==> MarkAt(t, i, m) {
      assert !HasMark(t, a, m);
    }
  }

  /** One round of xas_delete_node below the root. */
  lemma XDropNode(t: Tree, a: Addr)
    requires XInv(t) && a in t.nodes && t.nodes[a].parent.Some? && t.nodes[a].count == 0
    ensures CanPrune(t, a) && XInv(Prune(t, a)) && SameReads(t, Prune(t, a))
  {
    PruneFacts(t, a);
    PruneNodes(t, a);
    PruneSums(t, a);
    PruneReads(t, a);
  }

  /** The last round of xas_delete_node: dropping an empty root leaves the empty array. */
  lemma XDropRoot(t: Tree)
    requires XInv(t) && t.head.Child? && t.nodes[t.head.addr].count == 0
    ensures XInv(Bare(t, Null)) && SameReads(t, Bare(t, Null))
  {
    var r, t' := t.head.addr, Bare(t, Null);
    assert XNode(t, r) && NodeOk(t, r);
    TallyZero(t.nodes[r].slots, false);
    BareLinks(t, Null);
    LoneRoot(t);
    forall k | 0 <= k < MARKS ensures FlagOk(t', k) && !HasMark(t, r, k) && k !in t.flags {
      NoMarks(t.nodes[r], k);
      assert FlagOk(t, k);
    }
  }

  /** A root without children is the only node. */
  lemma LoneRoot(t: Tree)
    requires Links(t) && t.head.Child?
    requires forall o :: 0 <= o < |t.nodes[t.head.addr].slots| ==> !t.nodes[t.head.addr].slots[o].Child?
    ensures t.nodes.Keys == {t.head.addr}
    ensures t.dir.Keys == {(RootLevel(t), 0)}
  {
    var r := t.head.addr;
    assert NodeOk(t, r) && IsPosition(t, r);
    forall a | a in t.nodes ensures a == r { OnlyRoot(t, a); }
  }

  lemma {:induction false} OnlyRoot(t: Tree, a: Addr)
    requires Links(t) && t.head.Child? && a in t.nodes
    requires forall o :: 0 <= o < |t.nodes[t.head.addr].slots| ==> !t.nodes[t.head.addr].slots[o].Child?
    ensures a == t.head.addr
    decreases if a in t.nodes then TOP - t.nodes[a].level else 0
  {
    LevelBound(t, a);
    assert NodeOk(t, a);
    if t.nodes[a].parent.Some? {
      ParentFacts(t, a);
      LevelBound(t, t.nodes[a].parent.value);
      OnlyRoot(t, t.nodes[a].parent.value);
    }
  }

  ghost predicate CanPop(t: Tree)
    requires Links(t)
  {
    && t.head.Child? && OnlyFirst(t.nodes[t.head.addr]) && t.nodes[t.head.addr].slots[0].Child?
    && t.nodes[t.head.addr].slots[0].addr in t.nodes
  }

  lemma PopNodes(t: Tree)
    requires XInv(t) && CanPop(t)
    ensures Links(PopRoot(t)) && AllNodes(PopRoot(t))
  {
    PopRootLinks(t);
    forall x | x in PopRoot(t).nodes ensures XNode(PopRoot(t), x) { assert XNode(t, x); }
  }

  lemma PopSums(t: Tree)
    requires XInv(t) && CanPop(t) && Links(PopRoot(t))
    ensures SumsOk(PopRoot(t))
  {
    var r, t' := t.head.addr, PopRoot(t);
    assert NodeOk(t, r) && SlotOk(t, r, 0) && XNode(t, r);
    forall x, j, k | x in t'.nodes && 0 <= j < 64 && 0 <= k < MARKS
      ensures NodeOk(t', x) && SumOk(t', x, j, k)
    {
      assert NodeOk(t', x) && NodeOk(t, x) && SumOk(t, x, j, k) && SlotOk(t, x, j);
    }
    forall k | 0 <= k < MARKS ensures FlagOk(t', k) {
      assert FlagOk(t, k) && SumOk(t, r, 0, k);
      assert HasMark(t, r, k) <==> Bit(t, r, 0, k);
    }
  }

  lemma PopReads(t: Tree)
    requires XInv(t) && CanPop(t) && Links(PopRoot(t))
    ensures SameReads(t, PopRoot(t))
  {
    var r, t' := t.head.addr, PopRoot(t);
    assert NodeOk(t, r) && SlotOk(t, r, 0) && IsPosition(t, r);
    forall i: nat ensures Get(t', i) == Get(t, i) { PopRootGet(t, i); }
    forall i: nat, m: nat | m < MARKS ensures MarkAt(t', i, m) <==> MarkAt(t, i, m) { }
  }

  /** One round of xas_shrink on a root above another node. */
  lemma XPopRoot(t: Tree)
    requires XInv(t) && t.head.Child?
    requires var n := t.nodes[t.head.addr]; n.count == 1 && |n.slots| == 64 && n.slots[0].Child?
    ensures CanPop(t) && XInv(PopRoot(t)) && SameReads(t, PopRoot(t))
  {
    var r := t.head.addr;
    assert XNode(t, r) && NodeOk(t, r) && SlotOk(t, r, 0);
    TallyOne(t.nodes[r].slots);
    PopNodes(t);
    PopSums(t);
    PopReads(t);
  }

  /** The last round of xas_shrink: the only entry, at index 0, moves into the head. */
  lemma XPopLeaf(t: Tree)
    requires XInv(t) && t.head.Child?
    requires var n := t.nodes[t.head.addr]; n.count == 1 && |n.slots| == 64 && n.level == 0 && n.slots[0] != Null
    ensures var t' := Bare(t, t.nodes[t.head.addr].slots[0]); XInv(t') && SameReads(t, t')
  {
    var r := t.head.addr;
    var e, t' := t.nodes[r].slots[0], Bare(t, t.nodes[r].slots[0]);
    assert XNode(t, r) && NodeOk(t, r) && IsPosition(t, r);
    TallyOne(t.nodes[r].slots);
    PopLeafRootGet(t);
    BareLinks(t, e);
    LoneRoot(t);
    assert e in t.nodes[r].slots;
    forall k | 0 <= k < MARKS ensures FlagOk(t', k) && (k in t.flags <==> Bit(t, r, 0, k)) {
      assert FlagOk(t, k);
      assert HasMark(t, r, k) <==> Bit(t, r, 0, k);
    }
    forall i: nat, m: nat | m < MARKS ensures MarkAt(t', i, m) <==> MarkAt(t, i, m) { }
  }

  // ------------------------------------------------------------------ marks

  /** Two trees with the same nodes, up to marks. */
  ghost predicate SameNodes(t: Tree, t': Tree)
  {
    && t'.head == t.head && t'.nodes.Keys == t.nodes.Keys && t'.pfx == t.pfx && t'.dir == t.dir
    && forall a :: a in t.nodes ==>
         && t'.nodes[a].level == t.nodes[a].level && t'.nodes[a].slots == t.nodes[a].slots
         && t'.nodes[a].count == t.nodes[a].count && t'.nodes[a].nrValues == t.nodes[a].nrValues
         && t'.nodes[a].parent == t.nodes[a].parent && t'.nodes[a].offset == t.nodes[a].offset
  }

  function NodeBit(n: Node, o: nat, m: nat, b: bool): Node
    requires m < |n.marks|
  {
    n.(marks := n.marks[m := if b then n.marks[m] + {o} else n.marks[m] - {o}])
  }

  ghost function WithBit(t: Tree, a: Addr, o: nat, m: nat, b: bool): Tree
    requires a in t.nodes && m < |t.nodes[a].marks|
  {
    WithNode(t, a, NodeBit(t.nodes[a], o, m, b))
  }

  ghost function WithFlag(t: Tree, m: nat, b: bool): Tree
  {
    t.(flags := if b then t.flags + {m} else t.flags - {m})
  }

  /** The one bit that may be wrong ought to be b. */
  ghost predicate Pending(t: Tree, m: nat, cur: Option<Addr>, off: nat, b: bool)
  {
    match cur
    case Some(a) =>
      && a in t.nodes && off < 64 == |t.nodes[a].slots|
      && (t.nodes[a].slots[off].Child? ==> (HasMark(t, t.nodes[a].slots[off].addr, m) <==> b))
      && (b ==> t.nodes[a].slots[off] != Null)
    case None =>
      match t.head
      case Child(r) => HasMark(t, r, m) <==> b
      case Null => !b
      case _ => true
  }

  /** The state of the upward loops of xas_set_mark and xas_clear_mark. */
  ghost predicate MarkLoop(t: Tree, m: nat, cur: Option<Addr>, off: nat, b: bool)
  {
    && Links(t) && AllNodes(t) && t.head != Retry && m < MARKS
    && SumsBut(t, m, cur, off) && Pending(t, m, cur, off, b)
  }

  ghost function Up(t: Tree, a: Addr): Option<Addr>
    requires a in t.nodes
  {
    t.nodes[a].parent
  }

  /** The loop may start at any slot that may carry the mark. */
  lemma MarkLoopStart(t: Tree, m: nat, cur: Option<Addr>, off: nat, b: bool)
    requires XInv(t) && m < MARKS
    requires match cur
             case Some(a) => a in t.nodes && off < 64 == |t.nodes[a].slots| && !t.nodes[a].slots[off].Child?
                             && (b ==> t.nodes[a].slots[off] != Null)
             case None => !t.head.Child? && (b ==> t.head != Null)
    ensures MarkLoop(t, m, cur, off, b)
  {
  }

  /** The loop may stop where the bit already is what it ought to be. */
  lemma MarkLoopStop(t: Tree, m: nat, a: Addr, off: nat, b: bool)
    requires MarkLoop(t, m, Some(a), off, b) && Bit(t, a, off, m) == b
    ensures XInv(t)
  {
    forall x, j, k | x in t.nodes && 0 <= j < 64 && 0 <= k < MARKS
      ensures NodeOk(t, x) && SumOk(t, x, j, k) { assert NodeOk(t, x); }
  }

  lemma BitLinks(t: Tree, m: nat, a: Addr, off: nat, b: bool)
    requires MarkLoop(t, m, Some(a), off, b)
    ensures |t.nodes[a].marks| == MARKS
    ensures Links(WithBit(t, a, off, m, b)) && AllNodes(WithBit(t, a, off, m, b))
  {
    assert XNode(t, a) && NodeOk(t, a);
    var n' := NodeBit(t.nodes[a], off, m, b);
    forall o | 0 <= o < 64 ensures t.nodes[a].level == 0 ==> !n'.slots[o].Child? { assert SlotOk(t, a, o); }
    WithNodeLinks(t, a, n');
    var t' := WithBit(t, a, off, m, b);
    forall x | x in t'.nodes ensures XNode(t', x) { assert XNode(t, x); }
  }

  /** Writing the bit moves the doubt one level up. */
  lemma BitSums(t: Tree, m: nat, a: Addr, off: nat, b: bool)
    requires MarkLoop(t, m, Some(a), off, b) && |t.nodes[a].marks| == MARKS
    requires Links(WithBit(t, a, off, m, b))
    ensures SumsBut(WithBit(t, a, off, m, b), m, Up(t, a), t.nodes[a].offset)
    ensures HasMark(WithBit(t, a, off, m, b), a, m) == HasMark(t, a, m) ==> SumsOk(WithBit(t, a, off, m, b))
  {
    var t' := WithBit(t, a, off, m, b);
    assert NodeOk(t, a);
    forall x, j, k | x in t'.nodes && 0 <= j < 64 && 0 <= k < MARKS
      ensures NodeOk(t', x)
      ensures (k == m && Up(t, a) == Some(x) && j == t.nodes[a].offset) || SumOk(t', x, j, k)
      ensures HasMark(t', a, m) == HasMark(t, a, m) ==> SumOk(t', x, j, k)
    {
      assert NodeOk(t', x) && NodeOk(t, x) && SlotOk(t, x, j);
      if k != m || x != a || j != off { assert SumOk(t, x, j, k); }
    }
    forall k | 0 <= k < MARKS
      ensures (k == m && Up(t, a) == None) || FlagOk(t', k)
      ensures HasMark(t', a, m) == HasMark(t, a, m) ==> FlagOk(t', k)
    {
      assert FlagOk(t, k);
    }
  }

  /** One round of xas_set_mark or xas_clear_mark that goes on to the parent. */
  lemma MarkLoopStep(t: Tree, m: nat, a: Addr, off: nat, b: bool)
    requires MarkLoop(t, m, Some(a), off, b)
    ensures |t.nodes[a].marks| == MARKS
    ensures var t' := WithBit(t, a, off, m, b);
            && (HasMark(t', a, m) == b ==> MarkLoop(t', m, Up(t, a), t.nodes[a].offset, b))
            && (HasMark(t', a, m) == HasMark(t, a, m) ==> XInv(t'))
  {
    BitLinks(t, m, a, off, b);
    BitSums(t, m, a, off, b);
    assert NodeOk(t, a);
    if t.nodes[a].parent.Some? { ParentFacts(t, a); }
  }

  lemma FlagLinks(t: Tree, m: nat, b: bool)
    requires Links(t)
    ensures Links(WithFlag(t, m, b))
  {
    var t' := WithFlag(t, m, b);
    forall x | x in t'.nodes ensures IsPosition(t', x) { assert IsPosition(t, x); }
    forall x | x in t'.nodes ensures NodeOk(t', x) {
      assert NodeOk(t, x);
      forall j | 0 <= j < 64 ensures SlotOk(t', x, j) { assert SlotOk(t, x, j); }
    }
  }

  /** The end of the loops, at the flags of the array. */
  lemma MarkLoopFlag(t: Tree, m: nat, off: nat, b: bool)
    requires MarkLoop(t, m, None, off, b)
    ensures XInv(WithFlag(t, m, b))
  {
    var t' := WithFlag(t, m, b);
    FlagLinks(t, m, b);
    forall x | x in t'.nodes ensures XNode(t', x) { assert XNode(t, x); }
    forall x, j, k | x in t'.nodes && 0 <= j < 64 && 0 <= k < MARKS
      ensures NodeOk(t', x) && SumOk(t', x, j, k)
    {
      assert NodeOk(t, x) && NodeOk(t', x) && SumOk(t, x, j, k);
    }
    forall k | 0 <= k < MARKS ensures FlagOk(t', k) { if k != m { assert FlagOk(t, k); } }
  }

  /** The reads of two trees differ at most in mark m of index i, which is b in the second. */
  ghost predicate MarkedTo(t: Tree, t': Tree, i: nat, m: nat, b: bool)
  {
    && Links(t) && Links(t')
    && (forall j: nat :: Get(t', j) == Get(t, j))
    && (forall j: nat, k: nat :: k < MARKS ==>
          (MarkAt(t', j, k) <==> if j == i && k == m then b else MarkAt(t, j, k)))
  }

  lemma WithBitReads(t: Tree, a: Addr, o: nat, m: nat, b: bool)
    requires Links(t) && a in t.nodes && m < |t.nodes[a].marks| && Links(WithBit(t, a, o, m, b)) && o < 64
    requires SameChildren(t.nodes[a], NodeBit(t.nodes[a], o, m, b))
    ensures var t' := WithBit(t, a, o, m, b);
            if t.nodes[a].level == 0 then MarkedTo(t, t', 64 * t.pfx[a] + o, m, b) else SameReads(t, t')
  {
    var t' := WithBit(t, a, o, m, b);
    assert NodeOk(t, a) && IsPosition(t, a);
    forall j: nat ensures Get(t', j) == Get(t, j) {
      WithNodeGet(t, a, NodeBit(t.nodes[a], o, m, b), j);
    }
    forall j: nat, k: nat | k < MARKS
      ensures MarkAt(t', j, k) <==>
              if t.nodes[a].level == 0 && j == 64 * t.pfx[a] + o && k == m then b else MarkAt(t, j, k) { }
  }

  // ------------------------------------------------------- storing an entry

  ghost predicate UserEntry(e: Entry)
  {
    !e.Child? && e != Retry
  }

  /** The number of counted entries that replacing old by e adds. */
  function Delta(was: Entry, e: Entry, values: bool): int
  {
    if values then (if e.Value? then 1 else 0) - (if was.Value? then 1 else 0)
    else (if e != Null then 1 else 0) - (if was != Null then 1 else 0)
  }

  ghost predicate CanPut(t: Tree, a: Addr, o: nat, e: Entry)
  {
    && a in t.nodes && t.nodes[a].level == 0 && o < 64 == |t.nodes[a].slots| && UserEntry(e)
    && |t.nodes[a].marks| == MARKS
    && (e == Null ==> forall k :: 0 <= k < MARKS ==> o !in t.nodes[a].marks[k])
  }

  lemma PutCounts(n: Node, o: nat, e: Entry)
    requires CountOk(n) && o < |n.slots|
    ensures n.count + Delta(n.slots[o], e, false) == Tally(n.slots[o := e], false)
    ensures n.nrValues + Delta(n.slots[o], e, true) == Tally(n.slots[o := e], true)
  {
    TallyUpdate(n.slots, o, e, false);
    TallyUpdate(n.slots, o, e, true);
  }

  /** Writing slot o of a leaf, with its counts. */
  ghost function Put(t: Tree, a: Addr, o: nat, e: Entry): Tree
    requires XInv(t) && CanPut(t, a, o, e)
  {
    assert XNode(t, a);
    var n := t.nodes[a];
    PutCounts(n, o, e);
    WithNode(t, a, n.(slots := n.slots[o := e], count := n.count + Delta(n.slots[o], e, false),
                      nrValues := n.nrValues + Delta(n.slots[o], e, true)))
  }

  ghost predicate StoredTo(t: Tree, t': Tree, i: nat, e: Entry)
  {
    && Links(t) && Links(t')
    && (forall j: nat :: Get(t', j) == if j == i then e else Get(t, j))
    && (forall j: nat, k: nat :: k < MARKS ==> (MarkAt(t', j, k) <==> MarkAt(t, j, k)))
  }

  lemma PutLinks(t: Tree, a: Addr, o: nat, e: Entry)
    requires XInv(t) && CanPut(t, a, o, e)
    ensures Links(Put(t, a, o, e)) && AllNodes(Put(t, a, o, e))
    ensures SameChildren(t.nodes[a], Put(t, a, o, e).nodes[a])
  {
    var n, t' := t.nodes[a], Put(t, a, o, e);
    assert XNode(t, a) && NodeOk(t, a);
    PutCounts(n, o, e);
    forall j | 0 <= j < 64 ensures !t'.nodes[a].slots[j].Child? { assert SlotOk(t, a, j); }
    WithNodeLinks(t, a, t'.nodes[a]);
    forall x | x in t'.nodes ensures XNode(t', x) { assert XNode(t, x); }
  }

  lemma PutSums(t: Tree, a: Addr, o: nat, e: Entry)
    requires XInv(t) && CanPut(t, a, o, e) && Links(Put(t, a, o, e))
    ensures SumsOk(Put(t, a, o, e))
  {
    var t' := Put(t, a, o, e);
    forall x, j, k | x in t'.nodes && 0 <= j < 64 && 0 <= k < MARKS
      ensures NodeOk(t', x) && SumOk(t', x, j, k)
    {
      assert NodeOk(t', x) && NodeOk(t, x) && SlotOk(t, x, j) && SlotOk(t', x, j) && SumOk(t, x, j, k);
    }
    forall k | 0 <= k < MARKS ensures FlagOk(t', k) { assert FlagOk(t, k); }
  }

  /** The write of xas_store: one index changes, no mark does. */
  lemma XPut(t: Tree, a: Addr, o: nat, e: Entry)
    requires XInv(t) && CanPut(t, a, o, e)
    ensures XInv(Put(t, a, o, e)) && StoredTo(t, Put(t, a, o, e), 64 * t.pfx[a] + o, e)
  {
    var t' := Put(t, a, o, e);
    PutLinks(t, a, o, e);
    PutSums(t, a, o, e);
    assert IsPosition(t, a);
    forall j: nat ensures Get(t', j) == if j == 64 * t.pfx[a] + o then e else Get(t, j) {
      WithNodeGet(t, a, t'.nodes[a], j);
    }
  }

  /** Writing the head of an array that has no nodes. */
  lemma XPutHead(t: Tree, e: Entry)
    requires XInv(t) && !t.head.Child? && UserEntry(e)
    requires e == Null ==> forall k :: 0 <= k < MARKS ==> k !in t.flags
    ensures XInv(t.(head := e)) && StoredTo(t, t.(head := e), 0, e)
  {
    var t' := t.(head := e);
    forall k | 0 <= k < MARKS ensures FlagOk(t', k) { }
  }
}
