/** The operations of the 32-bit trie, changing the arena in place. */
module TrieCode {
  import opened Memory
  import opened Binary
  import opened Trie

  datatype Errno = Ok | NoMem

  lemma ContentsDom(m: Arena, where: map<nat, Addr>, k: nat)
    requires Inv(m, where) && k in where
    ensures where[k] in m && m[where[k]].key == k && IsLeaf(m[where[k]])
  {
    assert LeafOk(m, where, k);
  }

  /** The finite map a trie stands for. */
  ghost function ContentsOf(m: Arena, where: map<nat, Addr>): map<nat, seq<Alias>>
    requires Inv(m, where)
  {
    map k | k in where :: ContentsDom(m, where, k); m[where[k]].aliases
  }

  /** The leaf a key has is the only one with that key. */
  lemma LeafIs(m: Arena, where: map<nat, Addr>, a: Addr)
    requires Inv(m, where) && a in m && a != HEAD && m[a].bits == 0
    ensures IsLeaf(m[a]) && m[a].key in where && where[m[a].key] == a
  {
    assert NodeOk(m, where, a);
  }

  lemma StartHead(m: Arena, where: map<nat, Addr>, k: nat)
    requires Inv(m, where) && IsKey(k)
    ensures HEAD in m && Over(m, HEAD, k) && Index(k, m[HEAD]) == 0 && m[HEAD].parent == NULL && m[HEAD].bits == 0
  {
    assert NodeOk(m, where, HEAD);
    HeadIndex(m[HEAD], k);
  }

  /** A search for k may go on from n. */
  ghost predicate Over(m: Arena, n: Addr, k: nat)
  {
    n in m && Covers(m[n], k) && !IsLeaf(m[n]) && Index(k, m[n]) < |m[n].child|
  }

  /** What a child c of n tells a search for k. */
  ghost predicate Sees(m: Arena, where: map<nat, Addr>, n: Addr, c: Addr, k: nat)
  {
    && n in m && c in m && c != HEAD && m[c].parent == n && Height(m[c]) < Height(m[n]) && m[c].bits <= 1
    && (Index(k, m[c]) < Pow2(m[c].bits) <==> Covers(m[c], k))
    && (!Covers(m[c], k) ==> k !in where)
    && (m[c].bits == 0 ==> (m[c].key == k <==> Covers(m[c], k)) && (m[c].key == k ==> k in where && where[k] == c))
    && (m[c].bits == 1 && Covers(m[c], k) ==> Over(m, c, k))
  }

  /** The slot of k decides: empty or another prefix and k is absent, its leaf and k is found, else go on. */
  lemma LookDown(m: Arena, where: map<nat, Addr>, n: Addr, k: nat)
    requires Inv(m, where) && IsKey(k) && Over(m, n, k)
    ensures var c := m[n].child[Index(k, m[n])]; if c == NULL then k !in where else Sees(m, where, n, c, k)
  {
    var c := m[n].child[Index(k, m[n])];
    if k in where { LeafBelow(m, where, n, k); }
    assert NodeOk(m, where, n) && DownOk(m, n, Index(k, m[n]));
    if c != NULL {
      assert NodeOk(m, where, c) && UpOk(m, c);
      assert Pow2(1) == 2 * Pow2(0);
      if IsLeaf(m[c]) { LeafIndex(m[c], k); } else {
        TnodeIndex(m[c], k);
      }
    }
  }

  lemma OverSlot(m: Arena, n: Addr, k: nat)
    requires Over(m, n, k)
    ensures n in m && Index(k, m[n]) < |m[n].child|
  {
  }

  lemma SelfCovered(n: Node)
    ensures Covers(n, n.key)
  {
  }

  lemma LeafNotHead(m: Arena, where: map<nat, Addr>, l: Addr)
    requires Inv(m, where) && l in m && IsLeaf(m[l])
    ensures l != HEAD && forall i :: 0 <= i < |m[l].child| ==> m[l].child[i] == NULL
  {
    assert NodeOk(m, where, l);
  }

  // ----------------------------------------------- what the changes do to contents

  lemma SplitContents(m: Arena, where: map<nat, Addr>, tp: Addr, i: nat, t: Addr, n: Addr, f: Node)
    requires Inv(m, where) && Fits(m, tp, i, t, n, f) && Inv(Split(m, tp, i, t, n, f), where)
    ensures ContentsOf(Split(m, tp, i, t, n, f), where) == ContentsOf(m, where)
  {
    hide Inv, Index, Covers;
    var s := Split(m, tp, i, t, n, f);
    forall k | k in where ensures ContentsOf(s, where)[k] == ContentsOf(m, where)[k] { ContentsDom(m, where, k); }
  }

  lemma PutLeafReady(m: Arena, tp: Addr, key: nat)
    requires Vacant(m, tp, key)
    ensures tp in m && Index(key, m[tp]) < |m[tp].child|
  {
  }

  lemma PutLeafContents(m: Arena, where: map<nat, Addr>, tp: Addr, l: Addr, key: nat, aliases: seq<Alias>)
    requires Inv(m, where) && tp in m && Index(key, m[tp]) < |m[tp].child| && l !in m && key !in where
    requires Inv(PutLeaf(m, tp, l, key, aliases), where[key := l])
    ensures ContentsOf(PutLeaf(m, tp, l, key, aliases), where[key := l]) == ContentsOf(m, where)[key := aliases]
  {
    hide Inv;
    var s := PutLeaf(m, tp, l, key, aliases);
    forall k | k in where ensures ContentsOf(s, where[key := l])[k] == ContentsOf(m, where)[k] { ContentsDom(m, where, k); }
  }

  lemma CutContents(m: Arena, where: map<nat, Addr>, a: Addr)
    requires Inv(m, where) && a in m && a != HEAD && UpOk(m, a) && Inv(Cut(m, a), Without(m, where, a))
    ensures ContentsOf(Cut(m, a), Without(m, where, a)) == if IsLeaf(m[a]) then ContentsOf(m, where) - {m[a].key} else ContentsOf(m, where)
  {
    hide Inv, Covers, Index;
    var w, c := Without(m, where, a), Cut(m, a);
    forall k | k in w ensures ContentsOf(c, w)[k] == ContentsOf(m, where)[k] {
      ContentsDom(m, where, k);
      ContentsDom(c, w, k);
    }
  }

  lemma TidyMore(m: Arena, a: Addr)
    requires TidyBut(m, NULL) && NULL !in m
    ensures TidyBut(m, a)
  {
  }

  lemma TidyFound(m: Arena, n: Addr, i: nat)
    requires TidyBut(m, n) && n in m && i < |m[n].child| && m[n].child[i] != NULL
    ensures TidyBut(m, NULL)
  {
  }

  lemma TidyHead(m: Arena, where: map<nat, Addr>, n: Addr)
    requires Inv(m, where) && TidyBut(m, n) && n in m && m[n].parent == NULL
    ensures TidyBut(m, NULL)
  {
    assert NodeOk(m, where, n);
  }

  /** Taking a leaf out leaves at most its parent without children. */
  lemma CutReady(m: Arena, where: map<nat, Addr>, l: Addr)
    requires Inv(m, where) && TidyBut(m, NULL) && l in m && IsLeaf(m[l])
    ensures l != HEAD && UpOk(m, l) && m[l].parent != l && m[l].parent in Cut(m, l) && !IsLeaf(Cut(m, l)[m[l].parent])
    ensures Inv(Cut(m, l), where - {m[l].key}) && TidyBut(Cut(m, l), m[l].parent)
    ensures ContentsOf(Cut(m, l), where - {m[l].key}) == ContentsOf(m, where) - {m[l].key}
  {
    hide Covers, IsKey, Index, TidyBut, Inv, Height, ContentsOf, UpOk;
    InvHead(m, where);
    LeafNotHead(m, where, l);
    CutLinks(m, where, l);
    CutNode(m, where, l);
    CutContents(m, where, l);
    TidyMore(m, l);
    UpParent(m, l);
    assert |Cut(m, l)[m[l].parent].child| == |m[m[l].parent].child| > 0;
  }

  lemma UpParent(m: Arena, a: Addr)
    requires UpOk(m, a)
    ensures a in m && m[a].parent in m && Index(m[a].key, m[m[a].parent]) < |m[m[a].parent].child|
  {
  }

  class Bits32Trie {
    const reliable: bool
    var nodes: Arena
    ghost var where: map<nat, Addr>

    ghost predicate Valid()
      reads this
    {
      Inv(nodes, where) && TidyBut(nodes, NULL)
    }

    ghost function Contents(): map<nat, seq<Alias>>
      requires Inv(nodes, where)
      reads this
    {
      ContentsOf(nodes, where)
    }

    /** b32t_trie_new */
    constructor (reliable: bool)
      ensures Valid() && Contents() == map[] && this.reliable == reliable
    {
      this.reliable := reliable;
      nodes := map[HEAD := Node(0, KEYLENGTH, 0, NULL, [NULL], [])];
      where := map[];
      new;
      assert DownOk(nodes, HEAD, 0);
    }

    /** kmalloc: any address not in use; unless memory is reliable it may fail at any call. */
    method Malloc(avoid: Addr) returns (a: Addr)
      ensures a != NULL ==> a !in nodes && a != avoid
      ensures reliable ==> a != NULL
    {
      var fails: bool := *;
      if fails && !reliable {
        a := NULL;
      } else {
        var used := nodes.Keys + {avoid, NULL};
        FreshAddr(used);
        a :| a !in used;
      }
    }

    /** b32t_find_node */
    method FindNode(key: nat) returns (n: Addr, tp: Addr)
      requires Inv(nodes, where) && IsKey(key)
      ensures n == NULL <==> key !in Contents()
      ensures n != NULL ==> n == where[key] && n in nodes && nodes[n].parent == tp
      ensures Over(nodes, tp, key)
      ensures n == NULL ==> var c := nodes[tp].child[Index(key, nodes[tp])]; c == NULL || (c in nodes && !Covers(nodes[c], key))
    {
      hide Inv, Covers, IsKey, Over, Pow2;
      StartHead(nodes, where, key);
      n := HEAD;
      var index := 0;
      while true
        invariant Over(nodes, n, key) && n in nodes && index == Index(key, nodes[n])
        decreases if n in nodes then Height(nodes[n]) else 0
      {
        OverSlot(nodes, n, key);
        LookDown(nodes, where, n, key);
        tp := n;
        n := nodes[n].child[index];
        if n == NULL { return; }
        index := Index(key, nodes[n]);
        if index >= Pow2(nodes[n].bits) {
          n := NULL;
          return;
        }
        if nodes[n].bits == 0 { return; }
      }
    }

    /** b32t_find_leaf; with remove set it also clears the slot of the leaf. */
    method FindLeaf(key: nat, remove: bool) returns (n: Addr)
      requires Inv(nodes, where) && IsKey(key)
      modifies this`nodes
      ensures n == NULL <==> key !in where
      ensures n == NULL || !remove ==> nodes == old(nodes)
      ensures n != NULL ==> n == where[key] && n in old(nodes) && IsLeaf(old(nodes)[n]) && old(nodes)[n].key == key
      ensures n != NULL && remove ==>
                && UpOk(old(nodes), n)
                && var tp := old(nodes)[n].parent;
                   nodes == old(nodes)[tp := old(nodes)[tp].(child := old(nodes)[tp].child[Index(key, old(nodes)[tp]) := NULL])]
    {
      hide Inv, Covers, IsKey, Over, Pow2;
      StartHead(nodes, where, key);
      var tp, index := HEAD, 0;
      OverSlot(nodes, tp, key);
      LookDown(nodes, where, tp, key);
      n := nodes[tp].child[index];
      if n == NULL { return; }
      if nodes[n].bits == 0 {
        if nodes[n].key == key {
          LeafIs(nodes, where, n);
          CutLinks(nodes, where, n);
          if remove { nodes := nodes[tp := nodes[tp].(child := nodes[tp].child[0 := NULL])]; }
          return;
        }
        return NULL;
      }
      while true
        invariant nodes == old(nodes) && tp in nodes && Over(nodes, tp, key) && Index(key, nodes[tp]) < |nodes[tp].child|
        invariant n in nodes && nodes[n].bits == 1 && n == nodes[tp].child[Index(key, nodes[tp])]
        invariant Index(key, nodes[n]) < Pow2(nodes[n].bits) <==> Covers(nodes[n], key)
        invariant !Covers(nodes[n], key) ==> key !in where
        invariant Covers(nodes[n], key) ==> Over(nodes, n, key)
        decreases if n in nodes then Height(nodes[n]) else 0
      {
        index := Index(key, nodes[n]);
        if index >= Pow2(nodes[n].bits) { return NULL; }
        OverSlot(nodes, n, key);
        LookDown(nodes, where, n, key);
        tp := n;
        n := nodes[tp].child[index];
        if n == NULL { return; }
        if nodes[n].bits == 0 {
          if nodes[n].key == key {
            LeafIs(nodes, where, n);
            CutLinks(nodes, where, n);
            if remove { nodes := nodes[tp := nodes[tp].(child := nodes[tp].child[index := NULL])]; }
            return;
          }
          return NULL;
        }
      }
    }

    /** What a lookup answers. */
    method Lookup(key: nat) returns (r: Option<seq<Alias>>)
      requires Valid() && IsKey(key)
      modifies this`nodes
      ensures nodes == old(nodes)
      ensures r == if key in Contents() then Some(Contents()[key]) else None
    {
      var n := FindLeaf(key, false);
      r := if n == NULL then None else Some(nodes[n].aliases);
    }

    /** A tnode between tp and what is in the way of the key. */
    method AddFork(tp: Addr, key: nat, l: Addr) returns (t: Addr)
      requires Valid() && Occupied(nodes, tp, key)
      modifies this`nodes
      ensures t == NULL ==> nodes == old(nodes) && !reliable
      ensures t != NULL ==> && Inv(nodes, where) && TidyBut(nodes, t) && Vacant(nodes, t, key)
                            && Contents() == old(Contents()) && (l in nodes ==> l in old(nodes))
    {
      hide Inv, TidyBut, Covers, IsKey;
      t := Malloc(l);
      if t == NULL { return; }
      var index := Index(key, nodes[tp]);
      var n := nodes[tp].child[index];
      ForkFits(nodes, where, tp, t, key);
      ForkVacant(nodes, where, tp, t, key);
      ghost var f := Forked(key, n, nodes[n], tp);
      SplitOk(nodes, where, tp, index, t, n, f);
      SplitContents(nodes, where, tp, index, t, n, f);
      var fork := Fork(key, nodes[n], tp);
      fork := fork.(child := fork.child[1 - Index(key, fork) := n]);
      nodes := nodes[t := fork];
      nodes := nodes[n := nodes[n].(parent := t)];
      nodes := nodes[tp := nodes[tp].(child := nodes[tp].child[index := t])];
    }

    /** b32t_insert_node */
    method InsertNode(tp: Addr, key: nat, fa: Option<Alias>) returns (r: Errno)
      requires Valid() && IsKey(key) && key !in where && Over(nodes, tp, key)
      requires var c := nodes[tp].child[Index(key, nodes[tp])]; c == NULL || (c in nodes && !Covers(nodes[c], key))
      modifies this
      ensures Valid()
      ensures r == NoMem ==> nodes == old(nodes) && where == old(where) && !reliable
      ensures r == Ok ==> Contents() == old(Contents())[key := if fa.Some? then [fa.value] else []]
    {
      hide Inv, TidyBut, Covers, IsKey;
      InvHead(nodes, where);
      var aliases := if fa.Some? then [fa.value] else [];
      var at, index := tp, Index(key, nodes[tp]);
      var l := Malloc(NULL);
      if l == NULL { return NoMem; }
      var n := nodes[at].child[index];
      if n != NULL {
        at := AddFork(tp, key, l);
        if at == NULL { return NoMem; }
      } else {
        TidyMore(nodes, at);
      }
      PutLeafReady(nodes, at, key);
      PutLeafOk(nodes, where, at, l, key, aliases);
      PutLeafContents(nodes, where, at, l, key, aliases);
      var leaf := Node(key, 0, 0, at, [], aliases);
      nodes := nodes[at := nodes[at].(child := nodes[at].child[Index(key, nodes[at]) := l])];
      nodes := nodes[l := leaf];
      where := where[key := l];
      r := Ok;
    }

    /** b32t_leaf_insert, for a key not in the trie. */
    method LeafInsert(key: nat, fa: Option<Alias>) returns (r: Errno)
      requires Valid() && IsKey(key) && key !in Contents()
      modifies this
      ensures Valid()
      ensures r == NoMem ==> nodes == old(nodes) && where == old(where) && !reliable
      ensures r == Ok ==> Contents() == old(Contents())[key := if fa.Some? then [fa.value] else []]
    {
      var l, tp := FindNode(key);
      r := InsertNode(tp, key, fa);
    }

    /** b32t_flush_parent: free n and every ancestor that has lost its last child. */
    method FlushParent(n: Addr)
      requires Inv(nodes, where) && TidyBut(nodes, n) && n in nodes && !IsLeaf(nodes[n])
      modifies this`nodes
      ensures Valid() && Contents() == old(Contents())
      decreases 34 - Height(nodes[n])
    {
      hide Covers, IsKey, Index, TidyBut;
      HeightBound(nodes, where, n);
      assert NodeOk(nodes, where, n);
      for index := 0 to (if nodes[n].bits == 0 then 0 else 2)
        invariant forall i :: 0 <= i < index ==> nodes[n].child[i] == NULL
      {
        if nodes[n].child[index] != NULL {
          TidyFound(nodes, n, index);
          return;
        }
      }
      var tn := nodes[n].parent;
      if tn == NULL {
        TidyHead(nodes, where, n);
        return;
      }
      assert n != HEAD;
      CutNode(nodes, where, n);
      CutContents(nodes, where, n);
      Inherit(nodes, where, n, nodes[n].key) by { SelfCovered(nodes[n]); }
      CutLinks(nodes, where, n);
      HeightBound(nodes, where, tn);
      var index := Index(nodes[n].key, nodes[tn]);
      nodes := nodes - {n};
      nodes := nodes[tn := nodes[tn].(child := nodes[tn].child[index := NULL])];
      FlushParent(tn);
    }

    /** b32t_leaf_delete */
    method LeafDelete(key: nat)
      requires Valid() && IsKey(key)
      modifies this
      ensures Valid() && Contents() == old(Contents()) - {key}
    {
      hide Covers, IsKey, Index, TidyBut, Inv, Height;
      ghost var m0, w0 := nodes, where;
      InvHead(m0, w0);
      var l := FindLeaf(key, true);
      if l == NULL { return; }
      CutReady(m0, w0, l);
      var tp := nodes[l].parent;
      nodes := nodes - {l};
      where := where - {key};
      assert nodes == Cut(m0, l);
      FlushParent(tp);
    }
  }
}
