/**
 * Whole runs of the XArray.  Every sequence of stores, erasures, loads and marks, also
 * through calls that find no memory, refines the same sequence on a finite
 * map with three sets of indices, answer by answer; and two runs without a
 * failure that end with the same contents and marks end with the same tree.
 */
module XRuns {
  import opened Radix
  import opened XTree
  import opened XLook
  import opened XShape
  import opened XArrayCode

  datatype Op =
    | StoreOp(index: nat, entry: Entry)
    | EraseOp(index: nat)
    | LoadOp(index: nat)
    | MarkOp(index: nat, mark: nat)
    | UnmarkOp(index: nat, mark: nat)

  predicate Legal(op: Op)
  {
    && op.index <= MAX_INDEX
    && (op.StoreOp? ==> !op.entry.Child? && op.entry != Retry)
    && (op.MarkOp? || op.UnmarkOp? ==> op.mark < MARKS)
  }

  /** The abstract array. */
  datatype View = View(contents: map<nat, Entry>, marked: seq<set<nat>>)

  ghost const EMPTY: View := View(map[], [{}, {}, {}])

  /** What one operation tells its caller. */
  datatype Outcome = Answer(entry: Entry) | Marked | NoMemory

  ghost function Effect(v: View, op: Op): (w: View)
    requires Legal(op) && |v.marked| == MARKS
    ensures |w.marked| == MARKS
  {
    match op
    case StoreOp(i, e) => View(if e == Null then v.contents - {i} else v.contents[i := e], MarksAfter(v.marked, i, e))
    case EraseOp(i) => View(v.contents - {i}, MarksAfter(v.marked, i, Null))
    case LoadOp(_) => v
    case MarkOp(i, m) => if i in v.contents then v.(marked := v.marked[m := v.marked[m] + {i}]) else v
    case UnmarkOp(i, m) => v.(marked := v.marked[m := v.marked[m] - {i}])
  }

  /**
   * The outcome an operation may have: the entry that was there, where stores
   * and erasures read a zero entry as NULL; or no memory, if that can be and a
   * new index is to get an entry.
   */
  ghost predicate Lawful(v: View, op: Op, reliable: bool, out: Outcome)
  {
    match op
    case StoreOp(i, e) =>
      || out == Answer(if i in v.contents && v.contents[i] != Zero then v.contents[i] else Null)
      || (out == NoMemory && !reliable && e != Null && i !in v.contents)
    case EraseOp(i) => out == Answer(if i in v.contents && v.contents[i] != Zero then v.contents[i] else Null)
    case LoadOp(i) => out == Answer(if i in v.contents then v.contents[i] else Null)
    case _ => out == Marked
  }

  ghost predicate AllLegal(ops: seq<Op>)
  {
    forall k :: 0 <= k < |ops| ==> Legal(ops[k])
  }

  /** The view after a run with these outcomes. */
  ghost function PlayWith(ops: seq<Op>, outs: seq<Outcome>): (v: View)
    requires |ops| == |outs| && AllLegal(ops)
    ensures |v.marked| == MARKS
  {
    if ops == [] then EMPTY else
    var m := |ops| - 1;
    var v := PlayWith(ops[..m], outs[..m]);
    if outs[m].NoMemory? then v else Effect(v, ops[m])
  }

  /** The view after a run in which nothing fails. */
  ghost function Play(ops: seq<Op>): (v: View)
    requires AllLegal(ops)
    ensures |v.marked| == MARKS
  {
    if ops == [] then EMPTY else Effect(Play(ops[..|ops| - 1]), ops[|ops| - 1])
  }

  ghost predicate LawfulAt(ops: seq<Op>, reliable: bool, outs: seq<Outcome>, k: nat)
    requires |outs| <= |ops| && AllLegal(ops) && k < |outs|
  {
    Lawful(PlayWith(ops[..k], outs[..k]), ops[k], reliable, outs[k])
  }

  /** Every outcome is lawful, given the operations and outcomes before it. */
  ghost predicate AllLawful(ops: seq<Op>, reliable: bool, outs: seq<Outcome>)
    requires |outs| <= |ops| && AllLegal(ops)
  {
    forall k {:trigger LawfulAt(ops, reliable, outs, k)} :: 0 <= k < |outs| ==> LawfulAt(ops, reliable, outs, k)
  }

  lemma {:induction false} NoFailure(ops: seq<Op>, outs: seq<Outcome>)
    requires |ops| == |outs| && AllLegal(ops) && NoMemory !in outs
    ensures PlayWith(ops, outs) == Play(ops)
  {
    if ops != [] {
      var m := |ops| - 1;
      assert outs[m] in outs && forall k :: 0 <= k < m ==> outs[..m][k] == outs[k];
      NoFailure(ops[..m], outs[..m]);
    }
  }

  lemma PlayMore(ops: seq<Op>, outs: seq<Outcome>, out: Outcome)
    requires |outs| < |ops| && AllLegal(ops)
    ensures PlayWith(ops[..|outs| + 1], outs + [out]) ==
              var v := PlayWith(ops[..|outs|], outs); if out.NoMemory? then v else Effect(v, ops[|outs|])
  {
    hide Effect;
    var m := |outs|;
    assert ops[..m + 1][..m] == ops[..m] && (outs + [out])[..m] == outs && ops[..m + 1][m] == ops[m];
  }

  lemma LawfulMore(ops: seq<Op>, reliable: bool, outs: seq<Outcome>, out: Outcome)
    requires |outs| < |ops| && AllLegal(ops) && AllLawful(ops, reliable, outs)
    requires Lawful(PlayWith(ops[..|outs|], outs), ops[|outs|], reliable, out)
    ensures AllLawful(ops, reliable, outs + [out])
  {
    hide LawfulAt, PlayWith, Lawful;
    forall k | 0 <= k < |outs| + 1 ensures LawfulAt(ops, reliable, outs + [out], k) {
      if k < |outs| { LawfulKept(ops, reliable, outs, out, k); } else { LawfulLast(ops, reliable, outs, out); }
    }
  }

  lemma LawfulKept(ops: seq<Op>, reliable: bool, outs: seq<Outcome>, out: Outcome, k: nat)
    requires |outs| < |ops| && AllLegal(ops) && k < |outs| && LawfulAt(ops, reliable, outs, k)
    ensures LawfulAt(ops, reliable, outs + [out], k)
  {
    hide PlayWith, Lawful;
    assert (outs + [out])[..k] == outs[..k];
  }

  lemma LawfulLast(ops: seq<Op>, reliable: bool, outs: seq<Outcome>, out: Outcome)
    requires |outs| < |ops| && AllLegal(ops) && Lawful(PlayWith(ops[..|outs|], outs), ops[|outs|], reliable, out)
    ensures LawfulAt(ops, reliable, outs + [out], |outs|)
  {
    hide PlayWith, Lawful;
    assert (outs + [out])[..|outs|] == outs;
  }

  lemma NothingYet(ops: seq<Op>, reliable: bool)
    requires AllLegal(ops)
    ensures AllLawful(ops, reliable, []) && PlayWith(ops[..0], []) == EMPTY
  {
  }

  /** Run the operations on a new array. */
  method Replay(ops: seq<Op>, reliable: bool) returns (xa: XArray, outs: seq<Outcome>)
    requires AllLegal(ops)
    ensures fresh(xa) && xa.Valid() && |outs| == |ops| && AllLawful(ops, reliable, outs)
    ensures View(xa.contents, xa.marked) == PlayWith(ops, outs)
    ensures NoMemory !in outs ==> Canon(xa.T())
  {
    hide XInv, Shows, Canon, CanonBut, Effect, Lawful, AllLawful, PlayWith;
    xa := new XArray(reliable);
    outs := [];
    NothingYet(ops, reliable);
    while |outs| < |ops|
      invariant |outs| <= |ops| && fresh(xa) && xa.Valid() && xa.reliable == reliable
      invariant AllLawful(ops, reliable, outs) && View(xa.contents, xa.marked) == PlayWith(ops[..|outs|], outs)
      invariant NoMemory !in outs ==> Canon(xa.T())
    {
      var out := Perform(xa, ops[|outs|]);
      PlayMore(ops, outs, out);
      LawfulMore(ops, reliable, outs, out);
      outs := outs + [out];
    }
    assert ops[..|outs|] == ops;
  }

  method Perform(xa: XArray, op: Op) returns (out: Outcome)
    requires xa.Valid() && Legal(op)
    modifies xa
    ensures xa.Valid() && Lawful(old(View(xa.contents, xa.marked)), op, xa.reliable, out)
    ensures View(xa.contents, xa.marked) == if out.NoMemory? then old(View(xa.contents, xa.marked))
                                            else old(Effect(View(xa.contents, xa.marked), op))
    ensures old(Canon(xa.T())) && !out.NoMemory? ==> Canon(xa.T())
  {
    hide XInv, Canon, CanonBut;
    out := Marked;
    match op
    case StoreOp(i, e) =>
      var r := xa.Store(i, e);
      out := if r.Done? then Answer(r.entry) else NoMemory;
      assert r.Failed? ==> r.errno.EINVAL? || r.errno.ENOMEM?;
    case EraseOp(i) =>
      var e := xa.Erase(i);
      out := Answer(e);
    case LoadOp(i) =>
      var e := xa.LoadEntry(i);
      out := Answer(e);
    case MarkOp(i, m) =>
      xa.MarkEntry(i, m);
    case UnmarkOp(i, m) =>
      xa.UnmarkEntry(i, m);
  }

  lemma SameView(t: Tree, u: Tree, c: map<nat, Entry>, mk: seq<set<nat>>)
    requires Shows(t, c, mk) && Shows(u, c, mk)
    ensures SameReads(t, u)
  {
    forall i: nat ensures Get(u, i) == Get(t, i) { }
    forall i: nat, m: nat | m < MARKS ensures MarkAt(u, i, m) <==> MarkAt(t, i, m) { }
  }

  /**
   * Two runs: each refines its own view, and if nothing fails, as with
   * reliable memory nothing does, the same contents and marks mean the same
   * tree, whatever the order of the operations.
   */
  method TwoRuns(ops: seq<Op>, ops': seq<Op>, reliable: bool)
    returns (xa: XArray, outs: seq<Outcome>, xb: XArray, outs': seq<Outcome>)
    requires AllLegal(ops) && AllLegal(ops')
    ensures xa.Valid() && |outs| == |ops| && AllLawful(ops, reliable, outs)
    ensures xb.Valid() && |outs'| == |ops'| && AllLawful(ops', reliable, outs')
    ensures reliable ==> NoMemory !in outs && NoMemory !in outs'
    ensures NoMemory !in outs ==> View(xa.contents, xa.marked) == Play(ops)
    ensures NoMemory !in outs' ==> View(xb.contents, xb.marked) == Play(ops')
    ensures NoMemory !in outs && NoMemory !in outs' && Play(ops) == Play(ops') ==>
              && XInv(xa.T()) && XInv(xb.T()) && ShapeOf(xa.T(), xa.head) == ShapeOf(xb.T(), xb.head)
              && forall m :: 0 <= m < MARKS ==> (m in xa.flags <==> m in xb.flags)
  {
    hide Play, PlayWith, ShapeOf, XInv, Canon, Shows, Lawful;
    xa, outs := Replay(ops, reliable);
    xb, outs' := Replay(ops', reliable);
    if reliable {
      NeverFails(ops, outs);
      NeverFails(ops', outs');
    }
    if NoMemory !in outs { NoFailure(ops, outs); }
    if NoMemory !in outs' { NoFailure(ops', outs'); }
    if NoMemory !in outs && NoMemory !in outs' && Play(ops) == Play(ops') {
      SameView(xa.T(), xb.T(), xa.contents, xa.marked);
      HistoryIndependence(xa.T(), xb.T());
    }
  }

  lemma NeverFails(ops: seq<Op>, outs: seq<Outcome>)
    requires |outs| <= |ops| && AllLegal(ops) && AllLawful(ops, true, outs)
    ensures NoMemory !in outs
  {
    forall k | 0 <= k < |outs| ensures outs[k] != NoMemory {
      assert LawfulAt(ops, true, outs, k);
    }
  }

  // ------------------------------------------------------------ laws of a run

  ghost predicate Writes(op: Op, i: nat)
  {
    (op.StoreOp? || op.EraseOp?) && op.index == i
  }

  /** What is at an index after a store that did not fail, until the next write there. */
  lemma {:induction false} StaysStored(ops: seq<Op>, outs: seq<Outcome>, j: nat, k: nat, i: nat, e: Entry)
    requires |outs| <= |ops| && AllLegal(ops) && j < k <= |outs| && ops[j] == StoreOp(i, e) && outs[j] != NoMemory
    requires forall m :: j < m < k ==> !Writes(ops[m], i)
    ensures var c := PlayWith(ops[..k], outs[..k]).contents; if e == Null then i !in c else i in c && c[i] == e
    decreases k
  {
    hide MarksAfter;
    assert ops[..k][..k - 1] == ops[..k - 1] && outs[..k][..k - 1] == outs[..k - 1];
    if j + 1 < k {
      StaysStored(ops, outs, j, k - 1, i, e);
      assert !Writes(ops[k - 1], i);
    }
  }

  /**
   * In any run, the last entry stored at an index is what a load answers, and,
   * unless it is the zero entry, what the next store or erasure there answers.
   */
  lemma LastStored(ops: seq<Op>, reliable: bool, outs: seq<Outcome>, j: nat, k: nat, i: nat, e: Entry)
    requires |outs| <= |ops| && AllLegal(ops) && AllLawful(ops, reliable, outs)
    requires j < k < |outs| && ops[j] == StoreOp(i, e) && outs[j] != NoMemory && forall m :: j < m < k ==> !Writes(ops[m], i)
    ensures ops[k] == LoadOp(i) ==> outs[k] == Answer(e)
    ensures Writes(ops[k], i) && outs[k] != NoMemory ==> outs[k] == Answer(if e == Zero then Null else e)
  {
    StaysStored(ops, outs, j, k, i, e);
    hide PlayWith;
    assert LawfulAt(ops, reliable, outs, k);
  }

  /** After an erasure there is nothing until the next store. */
  lemma Erased(ops: seq<Op>, reliable: bool, outs: seq<Outcome>, j: nat, i: nat)
    requires |outs| <= |ops| && AllLegal(ops) && AllLawful(ops, reliable, outs)
    requires j + 1 < |outs| && ops[j] == EraseOp(i) && ops[j + 1] == LoadOp(i)
    ensures outs[j + 1] == Answer(Null)
  {
    hide MarksAfter;
    assert LawfulAt(ops, reliable, outs, j) && LawfulAt(ops, reliable, outs, j + 1);
    assert ops[..j + 1][..j] == ops[..j] && outs[..j + 1][..j] == outs[..j];
  }

  /** Any index and entry make an operation. */
  lemma AnyOp(i: nat, e: Entry, m: nat)
    requires i < 0x1_0000_0000_0000_0000 && !e.Child? && e != Retry && m < 3
    ensures AllLegal([StoreOp(i, e), EraseOp(i), LoadOp(i), MarkOp(i, m), UnmarkOp(i, m)])
  {
  }

  /** Marking a present entry adds it to the set, clearing takes it out. */
  lemma MarkMeans(v: View, i: nat, m: nat)
    requires i <= MAX_INDEX && m < MARKS == |v.marked|
    ensures i in v.contents ==> i in Effect(v, MarkOp(i, m)).marked[m]
    ensures i !in Effect(v, UnmarkOp(i, m)).marked[m]
  {
  }
}
