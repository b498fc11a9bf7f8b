/**
 * The path-compressed binary trie on 32-bit keys, with parent pointers.  Key
 * vectors live in an arena; the header is one of them, at its own address,
 * with a null parent.
 */
module Trie {
  import opened Memory
  import opened Binary

  const NULL: Addr := 0
  const HEAD: Addr := 1
  const KEYLENGTH: nat := 32

  type Alias = nat

  /** struct b32t_key_vector and the parent that b32t_tn_info finds before it. */
  datatype Node = Node(key: nat, pos: nat, bits: nat, parent: Addr, child: seq<Addr>, aliases: seq<Alias>)

  type Arena = map<Addr, Node>

  predicate IsKey(k: nat)
  {
    k < Pow2(KEYLENGTH)
  }

  /** Every 32-bit number is a key. */
  lemma Keys(k: nat)
    ensures IsKey(k) <==> k < 0x1_0000_0000
  {
    assert Pow2(8) == 0x100;
    assert Pow2(16) == 0x1_0000;
    assert Pow2(24) == 0x100_0000;
  }

  /** The keys under n agree from this bit up. */
  function Height(n: Node): nat
  {
    if n.pos >= KEYLENGTH then n.pos + 1 else n.pos + n.bits
  }

  predicate Covers(n: Node, k: nat)
  {
    Shr(k, Height(n)) == Shr(n.key, Height(n))
  }

  /** b32t_get_cindex and b32t_get_index */
  function Index(k: nat, n: Node): nat
  {
    Shr(Xor(k, n.key), n.pos)
  }

  predicate IsHead(n: Node)
  {
    n.key == 0 && n.pos == KEYLENGTH && n.bits == 0 && n.parent == NULL && |n.child| == 1
  }

  predicate IsLeaf(n: Node)
  {
    IsKey(n.key) && n.pos == 0 && n.bits == 0 && n.child == []
  }

  predicate IsTnode(n: Node)
  {
    IsKey(n.key) && n.pos < KEYLENGTH && n.bits == 1 && |n.child| == 2 && Shr(n.key, n.pos) % 2 == 0
  }

  /** Both ends of the link from a to its parent. */
  ghost predicate UpOk(m: Arena, a: Addr)
  {
    && a in m && m[a].parent in m
    && var n, p := m[a], m[m[a].parent];
       && Height(n) <= p.pos && Covers(p, n.key)
       && Index(n.key, p) < |p.child| && p.child[Index(n.key, p)] == a
  }

  ghost predicate DownOk(m: Arena, a: Addr, i: nat)
  {
    && a in m && i < |m[a].child|
    && var c := m[a].child[i];
       c != NULL ==> c in m && c != HEAD && m[c].parent == a && Index(m[c].key, m[a]) == i
  }

  ghost predicate NodeOk(m: Arena, where: map<nat, Addr>, a: Addr)
  {
    && a in m
    && (if a == HEAD then IsHead(m[a]) else (IsLeaf(m[a]) || IsTnode(m[a])) && UpOk(m, a))
    && (forall i {:trigger DownOk(m, a, i)} :: 0 <= i < |m[a].child| ==> DownOk(m, a, i))
    && (IsLeaf(m[a]) ==> m[a].key in where && where[m[a].key] == a)
  }

  /** where[k] is the leaf of key k. */
  ghost predicate LeafOk(m: Arena, where: map<nat, Addr>, k: nat)
  {
    k in where && where[k] in m && where[k] != HEAD && IsLeaf(m[where[k]]) && m[where[k]].key == k
  }

  ghost predicate Inv(m: Arena, where: map<nat, Addr>)
  {
    && HEAD in m && NULL !in m
    && (forall a {:trigger NodeOk(m, where, a)} :: a in m ==> NodeOk(m, where, a))
    && (forall k {:trigger LeafOk(m, where, k)} :: k in where ==> LeafOk(m, where, k))
  }

  /** No tnode, unless it is h, has lost both children. */
  ghost predicate TidyBut(m: Arena, h: Addr)
  {
    forall a {:trigger m[a]} :: a in m && a != h && m[a].bits == 1 && |m[a].child| == 2 ==> m[a].child != [NULL, NULL]
  }

  // -------------------------------------------------------------------- index

  lemma ShrKey(k: nat, p: nat)
    requires IsKey(k) && p >= KEYLENGTH
    ensures Shr(k, p) == 0
  {
    ShrZero(k, KEYLENGTH);
    ShrZero(0, KEYLENGTH);
    ShrSame(k, 0, KEYLENGTH, p);
    ShrZero(0, p);
  }

  lemma HeadIndex(n: Node, k: nat)
    requires IsHead(n) && IsKey(k)
    ensures Covers(n, k) && Index(k, n) == 0
  {
    ShrKey(k, 33);
    ShrKey(0, 33);
    ShrKey(k, 32);
    ShrKey(0, 32);
    XorShr(k, 0, 32);
  }

  lemma LeafIndex(n: Node, k: nat)
    requires IsLeaf(n)
    ensures (Index(k, n) < 1 <==> n.key == k) && (Covers(n, k) <==> n.key == k)
  {
    XorZero(k, n.key);
  }

  /** The index stays in range exactly when the prefix agrees, and is then the key's bit. */
  lemma TnodeIndex(n: Node, k: nat)
    requires IsTnode(n)
    ensures Index(k, n) < 2 <==> Covers(n, k)
    ensures Index(k, n) < 2 ==> Index(k, n) == Shr(k, n.pos) % 2
  {
    var x, y := Shr(k, n.pos), Shr(n.key, n.pos);
    XorShr(k, n.key, n.pos);
    XorHalf(x, y);
    XorZero(x / 2, y / 2);
    ShrLast(k, n.pos);
    ShrLast(n.key, n.pos);
  }

  // -------------------------------------------------------------------- paths

  lemma HeightBound(m: Arena, where: map<nat, Addr>, a: Addr)
    requires Inv(m, where) && a in m
    ensures Height(m[a]) <= 33 && (a != HEAD ==> Height(m[a]) <= 32)
  {
    assert NodeOk(m, where, a);
  }

  /** A key under a node is under its parent, in that node's slot. */
  lemma Inherit(m: Arena, where: map<nat, Addr>, c: Addr, k: nat)
    requires Inv(m, where) && c in m && c != HEAD && Covers(m[c], k)
    ensures m[c].parent in m && Covers(m[m[c].parent], k) && Height(m[c]) < Height(m[m[c].parent])
    ensures Index(k, m[m[c].parent]) < |m[m[c].parent].child| && m[m[c].parent].child[Index(k, m[m[c].parent])] == c
    ensures Index(k, m[m[c].parent]) == Index(m[c].key, m[m[c].parent])
  {
    hide Shr, Xor, Pow2;
    assert NodeOk(m, where, c) && UpOk(m, c);
    var n, p := m[c], m[m[c].parent];
    assert NodeOk(m, where, m[c].parent);
    SameIndex(p, n.key, k, Height(n));
  }

  lemma SameIndex(p: Node, j: nat, k: nat, h: nat)
    requires Shr(j, h) == Shr(k, h) && h <= p.pos
    ensures Index(j, p) == Index(k, p) && (Covers(p, j) <==> Covers(p, k))
  {
    ShrSame(j, k, h, p.pos);
    ShrSame(j, k, h, Height(p));
    XorShr(j, p.key, p.pos);
    XorShr(k, p.key, p.pos);
  }

  /** The nodes over a key lie on one path: the lower of two has its parent no higher than the other. */
  lemma {:induction false} Chain(m: Arena, where: map<nat, Addr>, a: Addr, n: Addr, k: nat)
    requires Inv(m, where) && a in m && n in m && a != n && Covers(m[a], k) && Covers(m[n], k)
    requires Height(m[a]) <= Height(m[n])
    ensures a != HEAD && m[a].parent in m && Height(m[m[a].parent]) <= Height(m[n])
    decreases 34 - Height(m[n])
  {
    hide Inv, Covers, Height;
    HeightBound(m, where, n);
    if n == HEAD {
      HeadTop(m, where, a);
    } else {
      Inherit(m, where, n, k);
      var q := m[n].parent;
      HeightBound(m, where, q);
      if a == q { assert false; }
      Chain(m, where, a, q, k);
      Inherit(m, where, a, k);
      var b := m[a].parent;
      HeightBound(m, where, b);
      if Height(m[b]) > Height(m[n]) {
        Chain(m, where, n, b, k);
        if b != q { Chain(m, where, b, q, k); Inherit(m, where, b, k); }
      }
    }
  }

  lemma HeadTop(m: Arena, where: map<nat, Addr>, a: Addr)
    requires Inv(m, where) && a in m && a != HEAD
    ensures Height(m[HEAD]) == 33 && m[a].parent in m && Height(m[m[a].parent]) <= 33
  {
    assert NodeOk(m, where, HEAD) && NodeOk(m, where, a);
    assert UpOk(m, a);
    HeightBound(m, where, m[a].parent);
  }

  /** a is t or below it. */
  ghost predicate Under(m: Arena, where: map<nat, Addr>, a: Addr, t: Addr)
    requires Inv(m, where) && a in m
    decreases 34 - Height(m[a])
  {
    HeightBound(m, where, a);
    a == t || (a != HEAD && (Inherit(m, where, a, m[a].key); HeightBound(m, where, m[a].parent); Under(m, where, m[a].parent, t)))
  }

  /** Of two nodes over a key, the lower is under the higher, through the slot of that key. */
  lemma {:induction false} Descent(m: Arena, where: map<nat, Addr>, a: Addr, n: Addr, k: nat)
    requires Inv(m, where) && a in m && n in m && a != n && Covers(m[a], k) && Covers(m[n], k)
    requires Height(m[a]) <= Height(m[n])
    ensures Index(k, m[n]) < |m[n].child|
    ensures var c := m[n].child[Index(k, m[n])];
            c != NULL && c in m && Covers(m[c], k) && Under(m, where, a, c) && Height(m[a]) <= Height(m[c]) < Height(m[n])
    decreases Height(m[n]) - Height(m[a])
  {
    hide Covers, Height;
    Chain(m, where, a, n, k);
    Inherit(m, where, a, k);
    if m[a].parent != n { Descent(m, where, m[a].parent, n, k); }
  }

  /** A key with a leaf is found below every node over the key. */
  lemma LeafBelow(m: Arena, where: map<nat, Addr>, n: Addr, k: nat)
    requires Inv(m, where) && n in m && Covers(m[n], k) && k in where && !IsLeaf(m[n])
    ensures Index(k, m[n]) < |m[n].child|
    ensures var c := m[n].child[Index(k, m[n])]; c != NULL && c in m && Covers(m[c], k)
  {
    assert LeafOk(m, where, k);
    Descent(m, where, where[k], n, k);
  }

  lemma {:induction false} UnderCovers(m: Arena, where: map<nat, Addr>, a: Addr, t: Addr, k: nat)
    requires Inv(m, where) && a in m && Covers(m[a], k) && Under(m, where, a, t)
    ensures t in m && Covers(m[t], k)
    decreases 34 - Height(m[a])
  {
    HeightBound(m, where, a);
    if a != t {
      Inherit(m, where, a, k);
      HeightBound(m, where, m[a].parent);
      UnderCovers(m, where, m[a].parent, t, k);
    }
  }

  /**
   * The leaves under child i of a tnode are exactly those whose key has the
   * tnode's prefix above its position and bit i there.
   */
  lemma LeavesOfChild(m: Arena, where: map<nat, Addr>, t: Addr, i: nat, k: nat)
    requires Inv(m, where) && t in m && IsTnode(m[t]) && i < 2 && k in where
    ensures where[k] in m
    ensures (m[t].child[i] != NULL && Under(m, where, where[k], m[t].child[i]))
            <==> Shr(k, m[t].pos + 1) == Shr(m[t].key, m[t].pos + 1) && Shr(k, m[t].pos) % 2 == i
  {
    hide Shr, Xor, Pow2;
    assert LeafOk(m, where, k);
    assert NodeOk(m, where, t) && DownOk(m, t, i);
    TnodeIndex(m[t], k);
    var c := m[t].child[i];
    if c != NULL && Under(m, where, where[k], c) {
      UnderCovers(m, where, where[k], c, k);
      Inherit(m, where, c, k);
    }
    if Covers(m[t], k) && Index(k, m[t]) == i { Descent(m, where, where[k], t, k); }
  }

  /** Positions strictly decrease downward. */
  lemma PositionsDecrease(m: Arena, where: map<nat, Addr>, t: Addr, i: nat)
    requires Inv(m, where) && t in m && i < |m[t].child| && m[t].child[i] != NULL
    ensures m[t].child[i] in m && m[m[t].child[i]].parent == t
    ensures IsTnode(m[m[t].child[i]]) ==> m[m[t].child[i]].pos < m[t].pos
  {
    hide Shr, Xor, Pow2;
    assert NodeOk(m, where, t) && DownOk(m, t, i);
    assert NodeOk(m, where, m[t].child[i]) && UpOk(m, m[t].child[i]);
  }

  // ------------------------------------------------------------------- changes

  /** Free a childless node and clear its slot. */
  ghost function Cut(m: Arena, a: Addr): Arena
    requires a in m && m[a].parent in m && Index(m[a].key, m[m[a].parent]) < |m[m[a].parent].child|
  {
    var p := m[a].parent;
    (m - {a})[p := m[p].(child := m[p].child[Index(m[a].key, m[p]) := NULL])]
  }

  ghost function Without(m: Arena, where: map<nat, Addr>, a: Addr): map<nat, Addr>
    requires a in m
  {
    if IsLeaf(m[a]) then where - {m[a].key} else where
  }

  lemma CutNode(m: Arena, where: map<nat, Addr>, a: Addr)
    requires Inv(m, where) && a in m && a != HEAD && (forall i :: 0 <= i < |m[a].child| ==> m[a].child[i] == NULL)
    ensures UpOk(m, a) && m[a].parent != a && Inv(Cut(m, a), Without(m, where, a))
    ensures TidyBut(m, a) ==> TidyBut(Cut(m, a), m[a].parent)
  {
    hide Inv, Covers, Height, Index;
    CutLinks(m, where, a);
    var w, c := Without(m, where, a), Cut(m, a);
    forall b | b in c ensures NodeOk(c, w, b) { CutOk(m, where, a, b); }
    forall k | k in w ensures LeafOk(c, w, k) { CutLeaf(m, where, a, k); }
    assert Inv(c, w) by { InvHead(m, where); InvOf(c, w); }
  }

  lemma InvHead(m: Arena, where: map<nat, Addr>)
    requires Inv(m, where)
    ensures HEAD in m && NULL !in m
  {
  }

  lemma InvOf(m: Arena, where: map<nat, Addr>)
    requires HEAD in m && NULL !in m
    requires forall a {:trigger NodeOk(m, where, a)} :: a in m ==> NodeOk(m, where, a)
    requires forall k {:trigger LeafOk(m, where, k)} :: k in where ==> LeafOk(m, where, k)
    ensures Inv(m, where)
  {
  }

  lemma CutLinks(m: Arena, where: map<nat, Addr>, a: Addr)
    requires Inv(m, where) && a in m && a != HEAD
    ensures UpOk(m, a) && m[a].parent != a && !IsLeaf(m[m[a].parent])
  {
    hide Shr, Xor, Pow2;
    assert NodeOk(m, where, a);
    Inherit(m, where, a, m[a].key);
  }

  lemma CutOk(m: Arena, where: map<nat, Addr>, a: Addr, b: Addr)
    requires Inv(m, where) && a in m && a != HEAD && (forall i :: 0 <= i < |m[a].child| ==> m[a].child[i] == NULL)
    requires UpOk(m, a) && m[a].parent != a && !IsLeaf(m[m[a].parent]) && b in m && b != a
    ensures NodeOk(Cut(m, a), Without(m, where, a), b)
  {
    hide Shr, Xor, Pow2;
    var w, c := Without(m, where, a), Cut(m, a);
    assert NodeOk(m, where, b) && NodeOk(m, where, a);
    assert c[b].child == m[b].child || b == m[a].parent;
    if b != HEAD {
      assert UpOk(m, b);
      assert m[b].parent != a;
      assert UpOk(c, b);
    }
    forall i | 0 <= i < |c[b].child| ensures DownOk(c, b, i) {
      assert DownOk(m, b, i);
    }
  }

  lemma CutLeaf(m: Arena, where: map<nat, Addr>, a: Addr, k: nat)
    requires Inv(m, where) && a in m && a != HEAD && k in Without(m, where, a)
    requires UpOk(m, a) && m[a].parent != a && !IsLeaf(m[m[a].parent])
    ensures LeafOk(Cut(m, a), Without(m, where, a), k)
  {
    hide Shr, Xor, Pow2;
    assert LeafOk(m, where, k) && NodeOk(m, where, a);
  }

  /** Hang a leaf in an empty slot. */
  ghost function PutLeaf(m: Arena, tp: Addr, l: Addr, key: nat, aliases: seq<Alias>): Arena
    requires tp in m && Index(key, m[tp]) < |m[tp].child|
  {
    m[tp := m[tp].(child := m[tp].child[Index(key, m[tp]) := l])][l := Node(key, 0, 0, tp, [], aliases)]
  }

  /** The slot of a key with no leaf under it. */
  ghost predicate Vacant(m: Arena, tp: Addr, key: nat)
  {
    && tp in m && IsKey(key) && Covers(m[tp], key) && !IsLeaf(m[tp])
    && Index(key, m[tp]) < |m[tp].child| && m[tp].child[Index(key, m[tp])] == NULL
  }

  lemma PutLeafOk(m: Arena, where: map<nat, Addr>, tp: Addr, l: Addr, key: nat, aliases: seq<Alias>)
    requires Inv(m, where) && Vacant(m, tp, key) && key !in where && l !in m && l != NULL
    ensures Inv(PutLeaf(m, tp, l, key, aliases), where[key := l])
    ensures TidyBut(m, tp) ==> TidyBut(PutLeaf(m, tp, l, key, aliases), NULL)
  {
    hide Shr, Xor, Pow2;
    var t, w := PutLeaf(m, tp, l, key, aliases), where[key := l];
    assert NodeOk(m, where, tp);
    forall b | b in t ensures NodeOk(t, w, b) {
      if b == l { PutLeafSelf(m, where, tp, l, key, aliases); } else { PutLeafOther(m, where, tp, l, key, aliases, b); }
    }
    forall k | k in w ensures LeafOk(t, w, k) {
      if k != key { assert LeafOk(m, where, k); }
    }
    if TidyBut(m, tp) {
      forall a | a in t && t[a].bits == 1 && |t[a].child| == 2 ensures t[a].child != [NULL, NULL] {
        if a == tp { assert t[a].child[Index(key, m[tp])] == l; }
      }
    }
  }

  lemma PutLeafSelf(m: Arena, where: map<nat, Addr>, tp: Addr, l: Addr, key: nat, aliases: seq<Alias>)
    requires Inv(m, where) && Vacant(m, tp, key) && l !in m
    ensures NodeOk(PutLeaf(m, tp, l, key, aliases), where[key := l], l)
  {
    hide Shr, Xor, Pow2;
    assert NodeOk(m, where, tp);
    assert UpOk(PutLeaf(m, tp, l, key, aliases), l);
  }

  lemma PutLeafOther(m: Arena, where: map<nat, Addr>, tp: Addr, l: Addr, key: nat, aliases: seq<Alias>, b: Addr)
    requires Inv(m, where) && Vacant(m, tp, key) && key !in where && l !in m && b in m
    ensures NodeOk(PutLeaf(m, tp, l, key, aliases), where[key := l], b)
  {
    hide Shr, Xor, Pow2;
    var t := PutLeaf(m, tp, l, key, aliases);
    assert NodeOk(m, where, b) && NodeOk(m, where, tp);
    if b != HEAD {
      assert UpOk(m, b) && m[b].parent != l;
      assert UpOk(t, b);
    }
    forall i | 0 <= i < |t[b].child| ensures DownOk(t, b, i) {
      assert DownOk(m, b, i);
    }
  }

  /** The tnode that parts key from what is under n. */
  function Fork(key: nat, n: Node, tp: Addr): Node
  {
    var p := Fls(Xor(key, n.key));
    Node(if p + 1 < KEYLENGTH then Shl(Shr(key, p + 1), p + 1) else 0, p, 1, tp, [NULL, NULL], [])
  }

  /** It lies strictly between n and whatever holds both, over both, with the two in different slots. */
  lemma ForkFacts(key: nat, n: Node, tp: Addr)
    requires IsKey(key) && IsKey(n.key) && !Covers(n, key)
    ensures var t := Fork(key, n, tp);
            && IsTnode(t) && Height(n) <= t.pos && Covers(t, key) && Covers(t, n.key)
            && Index(key, t) < 2 && Index(n.key, t) == 1 - Index(key, t)
  {
    var t := Fork(key, n, tp);
    var p := t.pos;
    var x := Xor(key, n.key);
    FlsXor(key, n.key);
    XorShr(key, n.key, 32);
    ShrKey(key, 32);
    ShrKey(n.key, 32);
    FlsBelow(x, 32);
    XorShr(key, n.key, Height(n));
    XorZero(Shr(key, Height(n)), Shr(n.key, Height(n)));
    FlsAbove(x, Height(n));
    ForkKey(key, p);
    TnodeIndex(t, key);
    TnodeIndex(t, n.key);
  }

  lemma ForkKey(key: nat, p: nat)
    requires IsKey(key) && p < 32
    ensures var y := if p + 1 < KEYLENGTH then Shl(Shr(key, p + 1), p + 1) else 0;
            IsKey(y) && Shr(y, p + 1) == Shr(key, p + 1) && Shr(y, p) % 2 == 0
  {
    var s := p + 1;
    if s < 32 {
      var x := Shr(key, s);
      ShlShr(x, s);
      ShlShr(2 * x, p);
      ShrPart(key, s, 32 - s);
      ShrZero(key, 32);
      ShrZero(x, 32 - s);
      ShlBelow(x, s, 32 - s);
    } else {
      ShrKey(key, 32);
      ShrKey(0, 32);
      ShrZero(0, p);
    }
  }

  /** The fork f, at t, fits between n and slot i of tp. */
  ghost predicate Fits(m: Arena, tp: Addr, i: nat, t: Addr, n: Addr, f: Node)
  {
    && tp in m && n in m && t !in m && t != NULL && n != NULL && n != HEAD && n != tp
    && i < |m[tp].child| && m[tp].child[i] == n && m[n].parent == tp
    && Index(m[n].key, m[tp]) == i && Index(f.key, m[tp]) == i && Height(f) <= m[tp].pos && Covers(m[tp], f.key)
    && IsTnode(f) && f.parent == tp && Height(m[n]) <= f.pos && Covers(f, m[n].key)
    && Index(m[n].key, f) < 2 && f.child == [NULL, NULL][Index(m[n].key, f) := n]
  }

  ghost function Split(m: Arena, tp: Addr, i: nat, t: Addr, n: Addr, f: Node): Arena
    requires tp in m && n in m && i < |m[tp].child|
  {
    m[t := f][n := m[n].(parent := t)][tp := m[tp].(child := m[tp].child[i := t])]
  }

  lemma SplitAt(m: Arena, where: map<nat, Addr>, tp: Addr, i: nat, t: Addr, n: Addr, f: Node, b: Addr)
    requires Inv(m, where) && Fits(m, tp, i, t, n, f) && b in m
    ensures NodeOk(Split(m, tp, i, t, n, f), where, b)
  {
    hide Shr, Xor, Pow2;
    var s := Split(m, tp, i, t, n, f);
    assert NodeOk(m, where, b);
    if b != HEAD {
      assert UpOk(m, b);
      assert UpOk(s, b);
    }
    forall j | 0 <= j < |s[b].child| ensures DownOk(s, b, j) {
      assert DownOk(m, b, j);
    }
  }

  lemma SplitFork(m: Arena, where: map<nat, Addr>, tp: Addr, i: nat, t: Addr, n: Addr, f: Node)
    requires Inv(m, where) && Fits(m, tp, i, t, n, f)
    ensures NodeOk(Split(m, tp, i, t, n, f), where, t)
  {
    hide Shr, Xor, Pow2;
    InvHead(m, where);
    hide Inv;
    var s := Split(m, tp, i, t, n, f);
    assert UpOk(s, t);
    assert DownOk(s, t, 0) && DownOk(s, t, 1);
  }

  lemma SplitOk(m: Arena, where: map<nat, Addr>, tp: Addr, i: nat, t: Addr, n: Addr, f: Node)
    requires Inv(m, where) && Fits(m, tp, i, t, n, f)
    ensures Inv(Split(m, tp, i, t, n, f), where)
    ensures TidyBut(m, NULL) ==> TidyBut(Split(m, tp, i, t, n, f), t)
  {
    hide Shr, Xor, Pow2, NodeOk, Index, Covers;
    var s := Split(m, tp, i, t, n, f);
    forall b | b in s ensures NodeOk(s, where, b) {
      if b == t { SplitFork(m, where, tp, i, t, n, f); } else { SplitAt(m, where, tp, i, t, n, f, b); }
    }
    forall k | k in where ensures LeafOk(s, where, k) { assert LeafOk(m, where, k); }
    if TidyBut(m, NULL) {
      forall a | a in s && a != t && s[a].bits == 1 && |s[a].child| == 2 ensures s[a].child != [NULL, NULL] {
        if a == tp { assert s[a].child[i] == t; } else { assert s[a].child == m[a].child; }
      }
    }
  }

  /** What b32t_insert_node finds in the slot of a fresh key: something else that lies elsewhere. */
  ghost predicate Occupied(m: Arena, tp: Addr, key: nat)
  {
    && tp in m && IsKey(key) && Covers(m[tp], key) && !IsLeaf(m[tp]) && Index(key, m[tp]) < |m[tp].child|
    && var n := m[tp].child[Index(key, m[tp])]; n != NULL && n in m && !Covers(m[n], key)
  }

  /** The fork with n in its slot. */
  function Forked(key: nat, n: Addr, v: Node, tp: Addr): Node
    requires Index(key, Fork(key, v, tp)) < 2
  {
    var f := Fork(key, v, tp);
    f.(child := f.child[1 - Index(key, f) := n])
  }

  lemma ForkFits(m: Arena, where: map<nat, Addr>, tp: Addr, t: Addr, key: nat)
    requires Inv(m, where) && Occupied(m, tp, key) && t !in m && t != NULL
    ensures var i := Index(key, m[tp]);
            var n := m[tp].child[i];
            && IsKey(m[n].key) && Index(key, Fork(key, m[n], tp)) < 2
            && Fits(m, tp, i, t, n, Forked(key, n, m[n], tp))
  {
    var i := Index(key, m[tp]);
    var n := m[tp].child[i];
    assert NodeOk(m, where, tp) && DownOk(m, tp, i);
    assert NodeOk(m, where, n) && UpOk(m, n);
    ForkFacts(key, m[n], tp);
    ForkUp(m, where, tp, key, m[n], Fork(key, m[n], tp));
    hide Shr, Xor, Pow2, Fork, Inv, NodeOk;
    assert n != tp;
  }

  /** The fork's other slot is where the key goes. */
  lemma ForkVacant(m: Arena, where: map<nat, Addr>, tp: Addr, t: Addr, key: nat)
    requires Inv(m, where) && Occupied(m, tp, key) && t !in m && t != NULL
    requires Index(key, Fork(key, m[m[tp].child[Index(key, m[tp])]], tp)) < 2
    requires IsKey(m[m[tp].child[Index(key, m[tp])]].key)
    ensures var i := Index(key, m[tp]);
            var n := m[tp].child[i];
            Vacant(Split(m, tp, i, t, n, Forked(key, n, m[n], tp)), t, key)
  {
    var n := m[tp].child[Index(key, m[tp])];
    ForkFacts(key, m[n], tp);
    hide Shr, Xor, Pow2, Fork, Inv;
  }

  lemma ForkUp(m: Arena, where: map<nat, Addr>, tp: Addr, key: nat, n: Node, f: Node)
    requires Inv(m, where) && tp in m && Covers(m[tp], key) && Covers(m[tp], n.key) && !IsLeaf(m[tp]) && IsKey(key) && IsKey(n.key)
    requires Index(key, m[tp]) == Index(n.key, m[tp])
    requires f == Fork(key, n, f.parent) && IsTnode(f) && Covers(f, key) && Covers(f, n.key) && Index(n.key, f) == 1 - Index(key, f)
    ensures Height(f) <= m[tp].pos && Covers(m[tp], f.key) && Index(f.key, m[tp]) == Index(key, m[tp])
  {
    assert NodeOk(m, where, tp);
    var p := m[tp];
    if tp != HEAD {
      TnodeIndex(p, key);
      TnodeIndex(p, n.key);
      TnodeIndex(f, key);
      TnodeIndex(f, n.key);
      if f.pos >= p.pos { Agree(key, n.key, p.pos, f.pos); }
    }
    SameIndex(p, key, f.key, Height(f));
  }

  /** Keys that agree from bit p up agree in bit q. */
  lemma Agree(j: nat, k: nat, p: nat, q: nat)
    requires Shr(j, p + 1) == Shr(k, p + 1) && Shr(j, p) % 2 == Shr(k, p) % 2 && p <= q
    ensures Shr(j, q) == Shr(k, q)
  {
    ShrLast(j, p);
    ShrLast(k, p);
    ShrSame(j, k, p, q);
  }
}
