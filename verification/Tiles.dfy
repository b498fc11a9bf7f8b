/**
 * What the tiles of a 2048 board add up to: moves keep the total face value
 * and score exactly what they build, and a board of n cells can never hold
 * a tile above 2 ^ (n + 1).
 */
module Tiles {
  import opened Binary
  import opened Slide
  import opened Board

  function Sum(w: Measure, b: seq<seq<nat>>): nat
  {
    if b == [] then 0 else Total(w, b[0]) + Sum(w, b[1..])
  }

  // -------------------------------------------------------- rotation keeps it

  /** The first k columns. */
  function Columns(w: Measure, b: seq<seq<nat>>, k: nat): nat
    requires forall x :: 0 <= x < |b| ==> k <= |b[x]|
  {
    if k == 0 then 0 else Columns(w, b, k - 1) + Total(w, Column(b, k - 1))
  }

  lemma {:induction false} TotalFront(w: Measure, s: seq<nat>, k: nat)
    requires k < |s|
    ensures Total(w, s[..k + 1]) == Total(w, s[..k]) + Weight(w, s[k])
  {
    assert s[..k + 1] == s[..k] + [s[k]];
    TotalConcat(w, s[..k], [s[k]]);
    assert [s[k]][1..] == [];
  }

  /** The first row off. */
  lemma {:induction false} ColumnsTail(w: Measure, b: seq<seq<nat>>, k: nat)
    requires b != [] && forall x :: 0 <= x < |b| ==> k <= |b[x]|
    ensures Columns(w, b, k) == Total(w, b[0][..k]) + Columns(w, b[1..], k)
  {
    if k > 0 {
      ColumnsTail(w, b, k - 1);
      TotalFront(w, b[0], k - 1);
      assert Column(b, k - 1)[1..] == Column(b[1..], k - 1);
    }
  }

  lemma {:induction false} ColumnsNone(w: Measure, k: nat)
    ensures Columns(w, [], k) == 0
  {
    if k > 0 { ColumnsNone(w, k - 1); }
  }

  lemma {:induction false} ColumnsAreRows(w: Measure, b: seq<seq<nat>>, k: nat)
    requires forall x :: 0 <= x < |b| ==> |b[x]| == k
    ensures Columns(w, b, k) == Sum(w, b)
  {
    if b == [] {
      ColumnsNone(w, k);
    } else {
      ColumnsTail(w, b, k);
      ColumnsAreRows(w, b[1..], k);
      assert b[0][..k] == b[0];
    }
  }

  lemma {:induction false} RotColumns(w: Measure, b: seq<seq<nat>>, k: nat)
    requires Square(b) && k <= |b|
    ensures Sum(w, Rot(b)[|b| - k..]) == Columns(w, b, k)
  {
    if k > 0 {
      RotColumns(w, b, k - 1);
      RotRow(b, |b| - k);
      assert Rot(b)[|b| - k..][1..] == Rot(b)[|b| - (k - 1)..];
    }
  }

  lemma SumRot(w: Measure, b: seq<seq<nat>>)
    requires Square(b)
    ensures Sum(w, Rot(b)) == Sum(w, b)
  {
    RotColumns(w, b, |b|);
    ColumnsAreRows(w, b, |b|);
    assert Rot(b)[0..] == Rot(b);
  }

  // ------------------------------------------------------------------- moves

  /** What sliding every row scores. */
  function UpPoints(b: seq<seq<nat>>): nat
  {
    if b == [] then 0 else Points(Compact(b[0])) + UpPoints(b[1..])
  }

  lemma {:induction false} SumUp(b: seq<seq<nat>>)
    ensures Sum(Half, Up(b)) == Sum(Half, b)
    ensures Sum(Worth, Up(b)) == Sum(Worth, b) + UpPoints(b)
    ensures Sum(Count, Up(b)) <= Sum(Count, b)
  {
    if b != [] {
      SumUp(b[1..]);
      TotalSlid(b[0]);
      assert Up(b)[1..] == Up(b[1..]);
    }
  }

  datatype Direction = ToUp | ToLeft | ToDown | ToRight

  function Moved(d: Direction, b: seq<seq<nat>>): (r: seq<seq<nat>>)
    requires Square(b)
    ensures |r| == |b| && Square(r)
  {
    match d
    case ToUp => Up(b)
    case ToLeft => Left(b)
    case ToDown => Down(b)
    case ToRight => Right(b)
  }

  /** The board turned so that the move goes up. */
  function Facing(d: Direction, b: seq<seq<nat>>): (r: seq<seq<nat>>)
    requires Square(b)
    ensures |r| == |b| && Square(r)
  {
    match d
    case ToUp => b
    case ToLeft => Rot(b)
    case ToDown => Rot(Rot(b))
    case ToRight => Rot(Rot(Rot(b)))
  }

  function Back(d: Direction, c: seq<seq<nat>>): (r: seq<seq<nat>>)
    requires Square(c)
    ensures |r| == |c| && Square(r)
  {
    match d
    case ToUp => c
    case ToLeft => Rot(Rot(Rot(c)))
    case ToDown => Rot(Rot(c))
    case ToRight => Rot(c)
  }

  function MovePoints(d: Direction, b: seq<seq<nat>>): nat
    requires Square(b)
  {
    UpPoints(Facing(d, b))
  }

  lemma MovedBack(d: Direction, b: seq<seq<nat>>)
    requires Square(b)
    ensures Moved(d, b) == Back(d, Up(Facing(d, b)))
  {
    hide Rot, Up;
  }

  lemma FacingBack(d: Direction, b: seq<seq<nat>>)
    requires Square(b)
    ensures Facing(d, Back(d, b)) == b && Back(d, Facing(d, b)) == b
  {
    RotFour(b);
    hide Rot;
  }

  lemma SumFacing(w: Measure, d: Direction, b: seq<seq<nat>>)
    requires Square(b)
    ensures Sum(w, Facing(d, b)) == Sum(w, b) && Sum(w, Back(d, b)) == Sum(w, b)
  {
    hide Rot, Sum;
    SumRot(w, b);
    SumRot(w, Rot(b));
    SumRot(w, Rot(Rot(b)));
  }

  /** A move keeps the face value, scores the tiles it makes, and adds no tile. */
  lemma MoveTotals(d: Direction, b: seq<seq<nat>>)
    requires Square(b)
    ensures Sum(Half, Moved(d, b)) == Sum(Half, b)
    ensures Sum(Worth, Moved(d, b)) == Sum(Worth, b) + MovePoints(d, b)
    ensures Sum(Count, Moved(d, b)) <= Sum(Count, b)
  {
    hide Rot, Up, Moved, Sum;
    var t := Facing(d, b);
    MovedBack(d, b);
    SumUp(t);
    forall w: Measure ensures Sum(w, t) == Sum(w, b) && Sum(w, Moved(d, b)) == Sum(w, Up(t)) {
      SumFacing(w, d, b);
      SumFacing(w, d, Up(t));
    }
  }

  /** The slide of the turned board moves something exactly when the move does. */
  lemma MovedIff(d: Direction, b: seq<seq<nat>>)
    requires Square(b)
    ensures Moved(d, b) == b <==> Up(Facing(d, b)) == Facing(d, b)
  {
    hide Facing, Back, Moved, Up;
    MovedBack(d, b);
    FacingBack(d, b);
    FacingBack(d, Up(Facing(d, b)));
  }

  // -------------------------------------------------------------------- room

  lemma {:induction false} TotalRoom(s: seq<nat>)
    ensures Total(Count, s) <= |s|
    ensures Total(Count, s) == |s| <==> forall i :: 0 <= i < |s| ==> s[i] != 0
  {
    if s != [] {
      TotalRoom(s[1..]);
      assert s == [s[0]] + s[1..];
    }
  }

  /** A board is full exactly when it holds as many tiles as cells. */
  lemma {:induction false} SumRoom(b: seq<seq<nat>>, n: nat)
    requires forall i :: 0 <= i < |b| ==> |b[i]| == n
    ensures Sum(Count, b) <= |b| * n
    ensures Sum(Count, b) == |b| * n <==> forall i, j :: 0 <= i < |b| && 0 <= j < n ==> b[i][j] != 0
  {
    if b != [] {
      SumRoom(b[1..], n);
      TotalRoom(b[0]);
      assert |b| * n == n + |b[1..]| * n;
      assert forall i, j :: 0 <= i < |b| - 1 && 0 <= j < n ==> b[1..][i][j] == b[i + 1][j];
      if forall i, j :: 0 <= i < |b| && 0 <= j < n ==> b[i][j] != 0 {
        assert forall i, j :: 0 <= i < |b| - 1 && 0 <= j < n ==> b[1..][i][j] != 0;
      }
      if Sum(Count, b) == |b| * n {
        forall i, j | 0 <= i < |b| && 0 <= j < n ensures b[i][j] != 0 {
          if i > 0 { assert b[1..][i - 1][j] != 0; }
        }
      }
    }
  }

  lemma FullCount(b: seq<seq<nat>>)
    requires Square(b)
    ensures Sum(Count, b) <= |b| * |b| && (Sum(Count, b) == |b| * |b| <==> Full(b))
  {
    SumRoom(b, |b|);
  }

  /** A move that changes the board leaves an empty cell. */
  lemma MoveLeavesRoom(d: Direction, b: seq<seq<nat>>)
    requires Square(b) && Moved(d, b) != b
    ensures !Full(Moved(d, b))
  {
    hide Up, Slid, Moved, Facing, Back;
    var t := Facing(d, b);
    MovedIff(d, b);
    var i :| 0 <= i < |t| && Up(t)[i] != t[i];
    ChangeLeavesRoom(t[i]);
    var j :| 0 <= j < |t| && Up(t)[i][j] == 0;
    FullCount(Up(t));
    FullCount(Moved(d, b));
    MovedBack(d, b);
    SumFacing(Count, d, Up(t));
  }

  // ------------------------------------------------------------------ a spawn

  function Put(b: seq<seq<nat>>, x: nat, y: nat, v: nat): (r: seq<seq<nat>>)
    requires Square(b) && x < |b| && y < |b|
    ensures |r| == |b| && Square(r)
    ensures forall i, j {:trigger r[i][j]} :: 0 <= i < |b| && 0 <= j < |b| ==> r[i][j] == if i == x && j == y then v else b[i][j]
  {
    var row: seq<nat> := b[x][y := v];
    b[x := row]
  }

  lemma {:induction false} TotalPut(w: Measure, s: seq<nat>, y: nat, v: nat)
    requires y < |s|
    ensures Total(w, s[y := v]) + Weight(w, s[y]) == Total(w, s) + Weight(w, v)
  {
    if y == 0 {
      assert s[0 := v][1..] == s[1..];
    } else {
      TotalPut(w, s[1..], y - 1, v);
      assert s[y := v][1..] == s[1..][y - 1 := v];
    }
  }

  lemma {:induction false} SumRow(w: Measure, b: seq<seq<nat>>, x: nat, row: seq<nat>)
    requires x < |b|
    ensures Sum(w, b[x := row]) + Total(w, b[x]) == Sum(w, b) + Total(w, row)
  {
    if x == 0 {
      assert b[0 := row][1..] == b[1..];
    } else {
      SumRow(w, b[1..], x - 1, row);
      assert b[x := row][1..] == b[1..][x - 1 := row];
    }
  }

  lemma SumPut(w: Measure, b: seq<seq<nat>>, x: nat, y: nat, v: nat)
    requires Square(b) && x < |b| && y < |b| && b[x][y] == 0
    ensures Sum(w, Put(b, x, y, v)) == Sum(w, b) + Weight(w, v)
  {
    TotalPut(w, b[x], y, v);
    SumRow(w, b, x, b[x][y := v]);
  }

  // --------------------------------------------------------------- the bound

  /** The number of ones in binary. */
  function Pop(x: nat): nat
  {
    if x == 0 then 0 else x % 2 + Pop(x / 2)
  }

  lemma {:induction false} PopAdd(a: nat, b: nat)
    ensures Pop(a + b) <= Pop(a) + Pop(b)
    decreases a + b
  {
    if a > 0 && b > 0 {
      var h := a / 2 + b / 2;
      PopAdd(a / 2, b / 2);
      if a % 2 + b % 2 == 2 {
        assert (a + b) / 2 == h + 1 && (a + b) % 2 == 0;
        PopAdd(h, 1);
        assert Pop(1) == 1 + Pop(0);
      } else {
        assert (a + b) / 2 == h && (a + b) % 2 == a % 2 + b % 2;
      }
    }
  }

  lemma {:induction false} PopPow2(k: nat)
    ensures Pop(Pow2(k)) == 1
  {
    if k == 0 { assert Pop(1) == 1 + Pop(0); } else { PopPow2(k - 1); }
  }

  lemma {:induction false} PopTotal(s: seq<nat>)
    ensures Pop(Total(Half, s)) <= Total(Count, s)
  {
    if s != [] {
      PopTotal(s[1..]);
      PopAdd(Weight(Half, s[0]), Total(Half, s[1..]));
      if s[0] != 0 { PopPow2(s[0] - 1); }
    }
  }

  /** A board holds at least as many tiles as half its face value has ones. */
  lemma {:induction false} PopSum(b: seq<seq<nat>>)
    ensures Pop(Sum(Half, b)) <= Sum(Count, b)
  {
    if b != [] {
      PopSum(b[1..]);
      PopTotal(b[0]);
      PopAdd(Total(Half, b[0]), Sum(Half, b[1..]));
    }
  }

  lemma {:induction false} PopOnes(m: nat)
    ensures Pop(Pow2(m) - 1) == m
  {
    if m > 0 {
      PopOnes(m - 1);
      var x := Pow2(m) - 1;
      assert x / 2 == Pow2(m - 1) - 1 && x % 2 == 1;
    }
  }

  /** The two largest totals allowed take a full board of m cells. */
  lemma PopNear(m: nat, x: nat)
    requires m > 0 && Pow2(m + 1) - 3 <= x <= Pow2(m + 1) - 2
    ensures Pop(x) == m
  {
    PopOnes(m);
    PopOnes(m - 1);
    var p := Pow2(m);
    assert Pow2(m + 1) == 2 * p && p == 2 * Pow2(m - 1);
    if x == 2 * p - 2 {
      assert x / 2 == p - 1 && x % 2 == 0;
    } else {
      assert x / 2 == p - 2 && x % 2 == 1;
      if p > 2 { assert (p - 2) / 2 == Pow2(m - 1) - 1 && (p - 2) % 2 == 0; }
    }
  }

  /** Half the face value stays within what the cells can carry. */
  ghost predicate Bounded(b: seq<seq<nat>>)
  {
    Sum(Half, b) <= Pow2(|b| * |b| + 1) - 2
  }

  /** A new 2 or 4 in an empty cell keeps the bound. */
  lemma SpawnBound(b: seq<seq<nat>>, x: nat, y: nat, v: nat)
    requires Square(b) && Bounded(b) && x < |b| && y < |b| && b[x][y] == 0 && 1 <= v <= 2
    ensures Bounded(Put(b, x, y, v))
  {
    var m, s := |b| * |b|, Sum(Half, b);
    assert m > 0;
    SumPut(Half, b, x, y, v);
    assert Pow2(1) == 2 * Pow2(0);
    FullCount(b);
    PopSum(b);
    if s >= Pow2(m + 1) - 3 { PopNear(m, s); }
  }

  lemma {:induction false} TotalTile(s: seq<nat>, j: nat)
    requires j < |s|
    ensures Weight(Half, s[j]) <= Total(Half, s)
  {
    if j > 0 { TotalTile(s[1..], j - 1); }
  }

  lemma {:induction false} SumTile(b: seq<seq<nat>>, i: nat)
    requires i < |b|
    ensures Total(Half, b[i]) <= Sum(Half, b)
  {
    if i > 0 { SumTile(b[1..], i - 1); }
  }

  /** No tile exceeds 2 ^ (cells + 1). */
  lemma TileBound(b: seq<seq<nat>>, i: nat, j: nat)
    requires Square(b) && Bounded(b) && i < |b| && j < |b|
    ensures b[i][j] <= |b| * |b| + 1
  {
    var m, v := |b| * |b|, b[i][j];
    TotalTile(b[i], j);
    SumTile(b, i);
    if v > m + 1 { Pow2Mono(m + 1, v - 1); }
  }

  lemma TileWorth(a: nat, m: nat, u: nat)
    requires a <= m
    ensures a * (2 * u) <= (2 * m) * u
  {
    assert a * u <= m * u;
  }

  lemma Spread(k: nat, h: nat, t: nat)
    ensures k * (h + t) == k * h + k * t
  {
  }

  lemma WorthStep(v: nat, m: nat, t: nat)
    requires v <= m + 1
    ensures Weight(Worth, v) + (2 * m) * t <= (2 * m) * (Weight(Half, v) + t)
  {
    Spread(2 * m, Weight(Half, v), t);
    if v > 0 { TileWorth(v - 1, m, Pow2(v - 1)); }
  }

  lemma {:induction false} WorthTotal(s: seq<nat>, m: nat)
    requires forall j :: 0 <= j < |s| ==> s[j] <= m + 1
    ensures Total(Worth, s) <= 2 * m * Total(Half, s)
  {
    if s != [] {
      WorthTotal(s[1..], m);
      WorthStep(s[0], m, Total(Half, s[1..]));
      hide Weight;
    }
  }

  lemma {:induction false} WorthSum(b: seq<seq<nat>>, m: nat)
    requires forall i, j :: 0 <= i < |b| && 0 <= j < |b[i]| ==> b[i][j] <= m + 1
    ensures Sum(Worth, b) <= 2 * m * Sum(Half, b)
  {
    hide Weight, Total;
    if b != [] {
      forall i, j | 0 <= i < |b| - 1 && 0 <= j < |b[1..][i]| ensures b[1..][i][j] <= m + 1 { assert b[1..][i] == b[i + 1]; }
      WorthSum(b[1..], m);
      WorthTotal(b[0], m);
      Spread(2 * m, Total(Half, b[0]), Sum(Half, b[1..]));
    }
  }
}
