/**
 * Whole runs of the ID allocator: every answer to every request is the lawful
 * one, given only the requests and answers before it.  The ledger is what the
 * requests and answers so far amount to: the live tree indices with their
 * pointers, and the cyclic cursor.  Index i has the ID i + base; the source
 * passes IDs as ints, and subtracts the base in unsigned long arithmetic.
 */
module IdrRuns {
  import opened Radix
  import opened XTree
  import opened XLook
  import opened ITree
  import opened IdrCode

  datatype Request =
    | AllocReq(ptr: Entry, start: int, end: int)
    | CyclicReq(ptr: Entry, start: int, end: int)
    | RemoveReq(id: nat)
    | ReplaceReq(ptr: Entry, id: nat)
    | FindReq(id: nat)

  /** What the caller learns from one request. */
  datatype Event = Got(id: int) | Gone(was: Entry) | Swapped(was: Entry) | Told(entry: Entry) | Declined(errno: Errno)

  datatype Ledger = Ledger(live: map<nat, Entry>, cursor: nat)

  /** The arguments are of their C types, and a pointer is no node. */
  predicate Legal(r: Request)
  {
    match r
    case AllocReq(p, s, e) => !p.Child? && IsInt(s) && IsInt(e)
    case CyclicReq(p, s, e) => !p.Child? && IsInt(s) && IsInt(e)
    case ReplaceReq(p, id) => !p.Child? && id <= MAX_INDEX
    case _ => r.id <= MAX_INDEX
  }

  ghost predicate AllLegal(requests: seq<Request>)
  {
    forall k :: 0 <= k < |requests| ==> Legal(requests[k])
  }

  // ------------------------------------------------------------------- the law

  /** The least free index from lo on. */
  ghost function Least(live: map<nat, Entry>, lo: nat): (i: nat)
    ensures LeastFree(live, lo, i)
    decreases |live|
  {
    if lo !in live then lo else
    var i := Least(live - {lo}, lo + 1);
    LeastUp(live, lo, i);
    i
  }

  lemma LeastUp(live: map<nat, Entry>, lo: nat, i: nat)
    requires lo in live && LeastFree(live - {lo}, lo + 1, i)
    ensures LeastFree(live, lo, i)
  {
    assert i !in live - {lo} && i != lo;
    forall j: nat | lo <= j < i ensures j in live {
      if j > lo { assert j in live - {lo}; }
    }
  }

  lemma LeastIs(live: map<nat, Entry>, lo: nat, i: nat)
    requires LeastFree(live, lo, i)
    ensures i == Least(live, lo) && forall hi: nat :: i <= hi ==> !NoneFree(live, lo, hi)
  {
    var k := Least(live, lo);
    assert i < k ==> i in live;
    assert k < i ==> k in live;
  }

  function Bound(live: map<nat, Entry>, i: nat): Entry
  {
    if i in live then live[i] else Null
  }

  /** Where an allocation begins, and where it must end. */
  ghost function Lowest(l: Ledger, base: nat, r: Request): nat
    requires Legal(r) && (r.AllocReq? || r.CyclicReq?) && base <= U32_MAX && l.cursor <= U32_MAX
  {
    if r.AllocReq? then From(base, if r.start < 0 then 0 else r.start)
    else
      var c, start := Cursor(l.cursor, r.start), AsU32(r.start);
      From(base, if c > start && NoneFree(l.live, From(base, c), Highest(base, r)) then start else c)
  }

  function Highest(base: nat, r: Request): nat
    requires Legal(r) && (r.AllocReq? || r.CyclicReq?) && base <= U32_MAX
  {
    Minus(LastId(r.end), base)
  }

  /** The least free index of the range is bound; no space exactly when there is none. */
  ghost predicate Allocated(live: map<nat, Entry>, base: nat, lo: nat, hi: nat, reliable: bool, ev: Event)
  {
    if NoneFree(live, lo, hi) then ev == Declined(ENOSPC)
    else ev == Got(AsInt(Named(base, Least(live, lo)))) || (ev == Declined(ENOMEM) && !reliable)
  }

  /** The answer a request may get. */
  ghost predicate Lawful(l: Ledger, base: nat, reliable: bool, r: Request, ev: Event)
    requires Legal(r) && base <= U32_MAX && l.cursor <= U32_MAX
  {
    match r
    case AllocReq(p, s, _) =>
      if s < 0 || p == Retry then ev == Declined(EINVAL)
      else Allocated(l.live, base, Lowest(l, base, r), Highest(base, r), reliable, ev)
    case CyclicReq(p, _, _) =>
      if p == Retry then ev == Declined(EINVAL)
      else Allocated(l.live, base, Lowest(l, base, r), Highest(base, r), reliable, ev)
    case RemoveReq(id) => ev == Gone(Bound(l.live, Minus(id, base)))
    case ReplaceReq(p, id) =>
      ev == if p == Retry then Declined(EINVAL)
            else if Minus(id, base) in l.live then Swapped(l.live[Minus(id, base)])
            else Declined(ENOENT)
    case FindReq(id) => ev == Told(Bound(l.live, Minus(id, base)))
  }

  /** The ledger after a request and its answer. */
  ghost function Next(l: Ledger, base: nat, r: Request, ev: Event): (l': Ledger)
    requires Legal(r) && base <= U32_MAX && l.cursor <= U32_MAX
    ensures l'.cursor <= U32_MAX
  {
    match r
    case AllocReq(p, _, _) => if ev.Got? then l.(live := l.live[Least(l.live, Lowest(l, base, r)) := p]) else l
    case CyclicReq(p, _, _) =>
      if ev.Got? then
        var i := Least(l.live, Lowest(l, base, r));
        Ledger(l.live[i := p], (Named(base, i) + 1) % (U32_MAX + 1))
      else l
    case RemoveReq(id) => l.(live := l.live - {Minus(id, base)})
    case ReplaceReq(p, id) => if ev.Swapped? then l.(live := l.live[Minus(id, base) := p]) else l
    case FindReq(_) => l
  }

  /** After the first k requests. */
  ghost function LedgerAt(base: nat, requests: seq<Request>, log: seq<Event>, k: nat): (l: Ledger)
    requires k <= |log| <= |requests| && AllLegal(requests) && base <= U32_MAX
    ensures l.cursor <= U32_MAX
  {
    if k == 0 then Ledger(map[], 0) else Next(LedgerAt(base, requests, log, k - 1), base, requests[k - 1], log[k - 1])
  }

  ghost predicate LawfulAt(base: nat, reliable: bool, requests: seq<Request>, log: seq<Event>, k: nat)
    requires k < |log| <= |requests| && AllLegal(requests) && base <= U32_MAX
  {
    Lawful(LedgerAt(base, requests, log, k), base, reliable, requests[k], log[k])
  }

  ghost predicate AllLawful(base: nat, reliable: bool, requests: seq<Request>, log: seq<Event>)
    requires |log| <= |requests| && AllLegal(requests) && base <= U32_MAX
  {
    forall k {:trigger LawfulAt(base, reliable, requests, log, k)} :: 0 <= k < |log| ==> LawfulAt(base, reliable, requests, log, k)
  }

  // ----------------------------------------------------------------- no ID twice

  /** An allocation whose range does not end below the base. */
  predicate InRange(base: nat, r: Request)
  {
    (r.AllocReq? || r.CyclicReq?) && base < (if r.end > 0 then r.end else 0x8000_0000)
  }

  lemma NamedInRange(base: nat, i: nat, end: int)
    requires IsInt(end) && base <= LastId(end) && i <= Minus(LastId(end), base)
    ensures AsInt(Named(base, i)) == i + base <= LastId(end)
  {
  }

  lemma GotLeast(l: Ledger, base: nat, reliable: bool, r: Request, ev: Event)
    requires Legal(r) && base <= U32_MAX && l.cursor <= U32_MAX && Lawful(l, base, reliable, r, ev) && ev.Got? && InRange(base, r)
    ensures var i := Least(l.live, Lowest(l, base, r));
            ev.id == i + base < (if r.end > 0 then r.end else 0x8000_0000) && i !in l.live && i in Next(l, base, r, ev).live
  {
    hide Minus, Named, AsInt, From, Lowest, NoneFree;
    LeastInside(l.live, Lowest(l, base, r), Highest(base, r));
    NamedInRange(base, Least(l.live, Lowest(l, base, r)), r.end);
  }

  /** It answers an ID of its range that was not live, and makes it live. */
  lemma GotFree(base: nat, reliable: bool, requests: seq<Request>, log: seq<Event>, k: nat)
    requires |log| <= |requests| && AllLegal(requests) && base <= U32_MAX && AllLawful(base, reliable, requests, log)
    requires k < |log| && log[k].Got? && InRange(base, requests[k])
    ensures base <= log[k].id < (if requests[k].end > 0 then requests[k].end else 0x8000_0000)
    ensures log[k].id - base !in LedgerAt(base, requests, log, k).live
    ensures log[k].id - base in LedgerAt(base, requests, log, k + 1).live
  {
    hide Lawful, Next, InRange, Least, Lowest;
    assert LawfulAt(base, reliable, requests, log, k);
    GotLeast(LedgerAt(base, requests, log, k), base, reliable, requests[k], log[k]);
  }

  lemma LeastInside(live: map<nat, Entry>, lo: nat, hi: nat)
    requires !NoneFree(live, lo, hi)
    ensures Least(live, lo) <= hi
  {
    var j: nat :| lo <= j <= hi && j !in live;
    assert !(j < Least(live, lo));
  }

  /** The IDs s, ..., lim - 1 that an allocation may answer: lim is its end, or 2 ^ 31 if that is not positive. */
  ghost predicate Ranges(base: nat, r: Request, s: int, lim: int)
  {
    && (r.AllocReq? || r.CyclicReq?) && r.ptr != Retry && 0 <= r.start == s
    && lim == (if r.end > 0 then r.end else 0x8000_0000) && base < lim
  }

  /** An allocation answers the least free ID of its range, or no space exactly when there is none. */
  lemma AllocAnswers(l: Ledger, base: nat, reliable: bool, r: Request, ev: Event, s: int, lim: int)
    requires Legal(r) && base <= U32_MAX && l.cursor <= U32_MAX && Lawful(l, base, reliable, r, ev)
    requires r.AllocReq? && Ranges(base, r, s, lim)
    ensures ev.Got? ==> && s <= ev.id && base <= ev.id < lim && ev.id - base !in l.live && AllTaken(l.live, base, s, ev.id)
                        && Next(l, base, r, ev) == l.(live := l.live[ev.id - base := r.ptr])
    ensures ev == Declined(ENOSPC) <==> AllTaken(l.live, base, s, lim)
  {
    GotWhere(l, base, reliable, r, ev, s, lim);
  }

  /** A cyclic one begins at the cursor, if that is an int and at least start; else, and if nothing is left there, at start. */
  lemma CyclicAnswers(l: Ledger, base: nat, reliable: bool, r: Request, ev: Event, s: int, lim: int)
    requires Legal(r) && base <= U32_MAX && l.cursor <= U32_MAX && Lawful(l, base, reliable, r, ev)
    requires r.CyclicReq? && Ranges(base, r, s, lim)
    ensures var from := if s <= l.cursor < 0x8000_0000 then l.cursor else s;
            var full := AllTaken(l.live, base, from, lim);
            var lo := if full then s else from;
            && (ev.Got? ==> && lo <= ev.id && base <= ev.id < lim && ev.id - base !in l.live && AllTaken(l.live, base, lo, ev.id)
                            && Next(l, base, r, ev) == Ledger(l.live[ev.id - base := r.ptr], ev.id + 1))
            && (ev == Declined(ENOSPC) <==> full && AllTaken(l.live, base, s, lim))
  {
    hide AllTaken;
    CursorFrom(l.cursor, s);
    InIds(l.live, base, Cursor(l.cursor, s), lim, 0);
    InIds(l.live, base, s, lim, 0);
    var from := if s <= l.cursor < 0x8000_0000 then l.cursor else s;
    GotWhere(l, base, reliable, r, ev, if from > s && AllTaken(l.live, base, from, lim) then s else from, lim);
  }

  /** For an allocation that searches from s on. */
  lemma GotWhere(l: Ledger, base: nat, reliable: bool, r: Request, ev: Event, s: int, lim: int)
    requires Legal(r) && base <= U32_MAX && l.cursor <= U32_MAX && Lawful(l, base, reliable, r, ev)
    requires (exists start :: Ranges(base, r, start, lim)) && s >= 0 && Lowest(l, base, r) == From(base, s)
    ensures ev.Got? ==> && s <= ev.id && base <= ev.id < lim && ev.id - base !in l.live && AllTaken(l.live, base, s, ev.id)
                        && Least(l.live, Lowest(l, base, r)) == ev.id - base
    ensures ev == Declined(ENOSPC) <==> AllTaken(l.live, base, s, lim)
  {
    hide AllTaken, NoneFree, LeastFree, Lowest;
    var i := Least(l.live, From(base, s));
    InIds(l.live, base, s, lim, i);
    if ev.Got? {
      LeastInside(l.live, From(base, s), Minus(lim - 1, base));
      NamedInRange(base, i, r.end);
    }
  }

  /** Only a removal of its ID frees an index. */
  lemma StaysLive(l: Ledger, base: nat, r: Request, ev: Event, i: nat)
    requires Legal(r) && base <= U32_MAX && l.cursor <= U32_MAX && i in l.live
    requires r.RemoveReq? ==> Minus(r.id, base) != i
    ensures i in Next(l, base, r, ev).live
  {
  }

  lemma {:induction false} LiveUntil(base: nat, requests: seq<Request>, log: seq<Event>, i: nat, j: nat, k: nat)
    requires |log| <= |requests| && AllLegal(requests) && base <= U32_MAX && j <= k <= |log|
    requires i in LedgerAt(base, requests, log, j).live
    requires forall m :: j <= m < k && requests[m].RemoveReq? ==> Minus(requests[m].id, base) != i
    ensures i in LedgerAt(base, requests, log, k).live
  {
    hide Next, Minus;
    if j < k {
      LiveUntil(base, requests, log, i, j, k - 1);
      StaysLive(LedgerAt(base, requests, log, k - 1), base, requests[k - 1], log[k - 1], i);
    }
  }

  /**
   * In any lawful log, between two answers with the same ID there is a
   * request to remove it, unless one of the ranges lies below the base.
   */
  lemma NeverTwice(base: nat, reliable: bool, requests: seq<Request>, log: seq<Event>, j: nat, k: nat, id: int)
    requires |log| <= |requests| && AllLegal(requests) && base <= U32_MAX && AllLawful(base, reliable, requests, log)
    requires j < k < |log| && log[j] == log[k] == Got(id) && InRange(base, requests[j]) && InRange(base, requests[k])
    ensures exists m :: j < m < k && requests[m].RemoveReq? && requests[m].id == id
  {
    hide AllLawful, Next, LedgerAt, Minus;
    GotFree(base, reliable, requests, log, j);
    GotFree(base, reliable, requests, log, k);
    if forall m :: j < m < k && requests[m].RemoveReq? ==> Minus(requests[m].id, base) != id - base {
      LiveUntil(base, requests, log, id - base, j + 1, k);
    } else {
      var m :| j < m < k && requests[m].RemoveReq? && Minus(requests[m].id, base) == id - base;
      assert Legal(requests[m]);
    }
  }

  // --------------------------------------------------------------- the allocator

  function Heard(r: IdReply): Event
  {
    match r
    case Id(id) => Got(id)
    case Fail(e) => Declined(e)
  }

  /** An allocation on the tree is the lawful one. */
  lemma AllocatedLawful(ids: map<nat, Entry>, ids': map<nat, Entry>, base: nat, lo: nat, hi: nat, reliable: bool, p: Entry,
                        r: IdReply, index: nat)
    requires r.Id? ==> r.id == AsInt(Named(base, index)) && Allotted(ids, ids', lo, hi, p, index)
    requires r.Fail? ==> ids' == ids && (r.errno == ENOSPC || (r.errno == ENOMEM && !reliable))
    requires r == Fail(ENOSPC) <==> NoneFree(ids, lo, hi)
    ensures Allocated(ids, base, lo, hi, reliable, Heard(r))
    ensures r.Id? ==> index == Least(ids, lo)
    ensures ids' == if r.Id? then ids[Least(ids, lo) := p] else ids
  {
    if r.Id? { LeastIs(ids, lo, index); }
  }

  /** One request. */
  method Answer(idr: Idr, r: Request) returns (ev: Event)
    requires idr.Valid() && Legal(r)
    modifies idr
    ensures idr.Valid() && idr.base <= U32_MAX && old(idr.next) <= U32_MAX
    ensures Lawful(old(Ledger(idr.ids, idr.next)), idr.base, idr.reliable, r, ev)
    ensures Ledger(idr.ids, idr.next) == old(Next(Ledger(idr.ids, idr.next), idr.base, r, ev))
  {
    hide IInv, Binds, NoneFree, Allocated, Allotted, Minus, Named, Least;
    ghost var l, base, reliable := Ledger(idr.ids, idr.next), idr.base, idr.reliable;
    match r {
      case AllocReq(p, s, e) =>
        ghost var index;
        var a;
        a, index := idr.Alloc(p, s, e);
        ev := Heard(a);
        if s >= 0 && p != Retry {
          AllocatedLawful(l.live, idr.ids, base, Lowest(l, base, r), Highest(base, r), reliable, p, a, index);
        }
      case CyclicReq(p, s, e) =>
        ghost var index;
        var a;
        a, index := idr.AllocCyclic(p, s, e);
        ev := Heard(a);
        if p != Retry {
          AllocatedLawful(l.live, idr.ids, base, Lowest(l, base, r), Highest(base, r), reliable, p, a, index);
        }
      case RemoveReq(id) =>
        var e := idr.Remove(id);
        ev := Gone(e);
      case ReplaceReq(p, id) =>
        var a := idr.Replace(p, id);
        ev := match a case Old(e) => Swapped(e) case Refused(e) => Declined(e);
      case FindReq(id) =>
        var e := idr.Find(id);
        ev := Told(e);
    }
  }

  lemma {:induction false} LedgerKept(base: nat, requests: seq<Request>, log: seq<Event>, ev: Event, k: nat)
    requires k <= |log| < |requests| && AllLegal(requests) && base <= U32_MAX
    ensures LedgerAt(base, requests, log + [ev], k) == LedgerAt(base, requests, log, k)
  {
    hide Next;
    if k > 0 { LedgerKept(base, requests, log, ev, k - 1); }
  }

  lemma LawfulMore(base: nat, reliable: bool, requests: seq<Request>, log: seq<Event>, ev: Event)
    requires |log| < |requests| && AllLegal(requests) && base <= U32_MAX && AllLawful(base, reliable, requests, log)
    requires Lawful(LedgerAt(base, requests, log, |log|), base, reliable, requests[|log|], ev)
    ensures AllLawful(base, reliable, requests, log + [ev])
    ensures LedgerAt(base, requests, log + [ev], |log| + 1) == Next(LedgerAt(base, requests, log, |log|), base, requests[|log|], ev)
  {
    hide Lawful, Next;
    forall k | 0 <= k < |log| + 1 ensures LawfulAt(base, reliable, requests, log + [ev], k) {
      LedgerKept(base, requests, log, ev, k);
      if k < |log| { assert LawfulAt(base, reliable, requests, log, k); }
    }
    LedgerKept(base, requests, log, ev, |log|);
  }

  /** Serve the requests on a new allocator and log the answers. */
  method Serve(base: nat, reliable: bool, requests: seq<Request>) returns (idr: Idr, log: seq<Event>)
    requires base <= U32_MAX && AllLegal(requests)
    ensures fresh(idr) && idr.Valid() && idr.base == base && |log| == |requests|
    ensures AllLawful(base, reliable, requests, log)
    ensures Ledger(idr.ids, idr.next) == LedgerAt(base, requests, log, |log|)
  {
    hide IInv, Binds, Lawful, Next, LawfulAt, AllLawful;
    idr := new Idr(base, reliable);
    log := [];
    assert AllLawful(base, reliable, requests, []) by { NothingYet(base, reliable, requests); }
    while |log| < |requests|
      invariant |log| <= |requests| && fresh(idr) && idr.Valid() && idr.base == base && idr.reliable == reliable
      invariant AllLawful(base, reliable, requests, log) && Ledger(idr.ids, idr.next) == LedgerAt(base, requests, log, |log|)
    {
      var ev := Answer(idr, requests[|log|]);
      LawfulMore(base, reliable, requests, log, ev);
      log := log + [ev];
    }
  }

  lemma NothingYet(base: nat, reliable: bool, requests: seq<Request>)
    requires base <= U32_MAX && AllLegal(requests)
    ensures AllLawful(base, reliable, requests, [])
  {
  }

  // ------------------------------------------------------------- laws of a log

  /** This request and answer leave id bound to p. */
  ghost predicate Binds(base: nat, r: Request, ev: Event, id: nat, p: Entry)
  {
    || ((r.AllocReq? || r.CyclicReq?) && ev == Got(id) && r.ptr == p && exists s, lim :: Ranges(base, r, s, lim))
    || (r.ReplaceReq? && r.id == id && r.ptr == p && ev.Swapped?)
  }

  lemma BindsLive(l: Ledger, base: nat, reliable: bool, r: Request, ev: Event, id: nat, p: Entry)
    requires Legal(r) && base <= U32_MAX && l.cursor <= U32_MAX && Lawful(l, base, reliable, r, ev) && Binds(base, r, ev, id, p)
    ensures id <= MAX_INDEX && Minus(id, base) in Next(l, base, r, ev).live && Next(l, base, r, ev).live[Minus(id, base)] == p
  {
    if !r.ReplaceReq? {
      var s, lim :| Ranges(base, r, s, lim);
      if r.AllocReq? { AllocAnswers(l, base, reliable, r, ev, s, lim); } else { CyclicAnswers(l, base, reliable, r, ev, s, lim); }
      hide Next, Lawful, AllTaken;
    }
  }

  /** Only a removal or a replacement touches a binding. */
  lemma StaysBound(l: Ledger, base: nat, r: Request, ev: Event, i: nat)
    requires Legal(r) && base <= U32_MAX && l.cursor <= U32_MAX && i in l.live
    requires r.RemoveReq? || r.ReplaceReq? ==> Minus(r.id, base) != i
    ensures i in Next(l, base, r, ev).live && Next(l, base, r, ev).live[i] == l.live[i]
  {
  }

  lemma {:induction false} BoundUntil(base: nat, requests: seq<Request>, log: seq<Event>, i: nat, j: nat, k: nat)
    requires |log| <= |requests| && AllLegal(requests) && base <= U32_MAX && j <= k <= |log|
    requires i in LedgerAt(base, requests, log, j).live
    requires forall m :: j <= m < k && (requests[m].RemoveReq? || requests[m].ReplaceReq?) ==> Minus(requests[m].id, base) != i
    ensures i in LedgerAt(base, requests, log, k).live
    ensures LedgerAt(base, requests, log, k).live[i] == LedgerAt(base, requests, log, j).live[i]
  {
    hide Next, Minus;
    if j < k {
      BoundUntil(base, requests, log, i, j, k - 1);
      StaysBound(LedgerAt(base, requests, log, k - 1), base, requests[k - 1], log[k - 1], i);
    }
  }

  lemma MinusOne(base: nat, id: nat, id': nat)
    requires base <= U32_MAX && id <= MAX_INDEX && id' <= MAX_INDEX && Minus(id, base) == Minus(id', base)
    ensures id == id'
  {
  }

  /**
   * In any lawful log, an ID named in a request that was last bound to p by an
   * earlier answer is answered with p: by a lookup, a removal and a replacement.
   */
  lemma LastBound(base: nat, reliable: bool, requests: seq<Request>, log: seq<Event>, j: nat, k: nat, id: nat, p: Entry)
    requires |log| <= |requests| && AllLegal(requests) && base <= U32_MAX && AllLawful(base, reliable, requests, log)
    requires j < k < |log| && Binds(base, requests[j], log[j], id, p)
    requires forall m :: j < m < k && (requests[m].RemoveReq? || requests[m].ReplaceReq?) ==> requests[m].id != id
    ensures requests[k] == FindReq(id) ==> log[k] == Told(p)
    ensures requests[k] == RemoveReq(id) ==> log[k] == Gone(p)
    ensures requests[k].ReplaceReq? && requests[k].id == id && requests[k].ptr != Retry ==> log[k] == Swapped(p)
  {
    hide AllLawful, Next, LedgerAt, Minus, Binds, AllTaken;
    assert LawfulAt(base, reliable, requests, log, j) && LawfulAt(base, reliable, requests, log, k) by { LawfulBoth(base, reliable, requests, log, j, k); }
    BindsLive(LedgerAt(base, requests, log, j), base, reliable, requests[j], log[j], id, p);
    forall m | j < m < k && (requests[m].RemoveReq? || requests[m].ReplaceReq?)
      ensures Minus(requests[m].id, base) != Minus(id, base)
    {
      assert Legal(requests[m]);
      if Minus(requests[m].id, base) == Minus(id, base) { MinusOne(base, requests[m].id, id); }
    }
    LedgerNext(base, requests, log, j);
    BoundUntil(base, requests, log, Minus(id, base), j + 1, k);
  }

  lemma LawfulBoth(base: nat, reliable: bool, requests: seq<Request>, log: seq<Event>, j: nat, k: nat)
    requires |log| <= |requests| && AllLegal(requests) && base <= U32_MAX && AllLawful(base, reliable, requests, log)
    requires j < |log| && k < |log|
    ensures LawfulAt(base, reliable, requests, log, j) && LawfulAt(base, reliable, requests, log, k)
  {
  }

  lemma LedgerNext(base: nat, requests: seq<Request>, log: seq<Event>, j: nat)
    requires |log| <= |requests| && AllLegal(requests) && base <= U32_MAX && j < |log|
    ensures LedgerAt(base, requests, log, j + 1) == Next(LedgerAt(base, requests, log, j), base, requests[j], log[j])
  {
  }

  /** A removed ID is answered with NULL until it is bound again. */
  lemma Removed(base: nat, reliable: bool, requests: seq<Request>, log: seq<Event>, j: nat, id: nat)
    requires |log| <= |requests| && AllLegal(requests) && base <= U32_MAX && AllLawful(base, reliable, requests, log)
    requires j + 1 < |log| && requests[j] == RemoveReq(id) && requests[j + 1] == FindReq(id)
    ensures log[j + 1] == Told(Null)
  {
    hide AllLawful, Minus;
    LawfulBoth(base, reliable, requests, log, j, j + 1);
    LedgerNext(base, requests, log, j);
  }

  lemma {:induction false} CursorKept(base: nat, requests: seq<Request>, log: seq<Event>, j: nat, k: nat)
    requires |log| <= |requests| && AllLegal(requests) && base <= U32_MAX && j <= k <= |log|
    requires forall m :: j <= m < k ==> !(requests[m].CyclicReq? && log[m].Got?)
    ensures LedgerAt(base, requests, log, k).cursor == LedgerAt(base, requests, log, j).cursor
  {
    if j < k { CursorKept(base, requests, log, j, k - 1); }
  }

  /**
   * Two successive cyclic answers increase, whatever was removed between them,
   * unless every ID behind the first is taken and the search starts over.
   */
  lemma CyclicRises(base: nat, reliable: bool, requests: seq<Request>, log: seq<Event>, j: nat, k: nat, s: int, t: int, u: int, lim: int)
    requires |log| <= |requests| && AllLegal(requests) && base <= U32_MAX && AllLawful(base, reliable, requests, log)
    requires j < k < |log| && requests[j].CyclicReq? && requests[k].CyclicReq? && log[j].Got? && log[k].Got?
    requires Ranges(base, requests[j], s, t) && Ranges(base, requests[k], u, lim)
    requires forall m :: j < m < k ==> !(requests[m].CyclicReq? && log[m].Got?)
    ensures log[k].id > log[j].id || AllTaken(LedgerAt(base, requests, log, k).live, base, log[j].id + 1, lim)
  {
    hide AllLawful, Next, LedgerAt, Lawful;
    LawfulBoth(base, reliable, requests, log, j, k);
    LedgerNext(base, requests, log, j);
    CyclicAnswers(LedgerAt(base, requests, log, j), base, reliable, requests[j], log[j], s, t);
    CursorKept(base, requests, log, j + 1, k);
    CyclicAnswers(LedgerAt(base, requests, log, k), base, reliable, requests[k], log[k], u, lim);
  }

  /** Any arguments of the C types make a request. */
  lemma AnyRequest(p: Entry, start: int, end: int, id: nat)
    requires !p.Child? && -0x8000_0000 <= start < 0x8000_0000 && -0x8000_0000 <= end < 0x8000_0000
    requires id < 0x1_0000_0000_0000_0000
    ensures AllLegal([AllocReq(p, start, end), CyclicReq(p, start, end), RemoveReq(id), ReplaceReq(p, id), FindReq(id)])
  {
  }
}
