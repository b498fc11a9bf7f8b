/**
 * The 2048 board as a value: rotation, the four moves and the end of the game.
 * A move is the slide of every row to its front, taken between rotations.
 */
module Board {
  import opened Slide

  ghost predicate Square(b: seq<seq<nat>>)
  {
    forall i :: 0 <= i < |b| ==> |b[i]| == |b|
  }

  /** rotateBoard: position (i, j) receives what was at (j, n - 1 - i). */
  function Rot(b: seq<seq<nat>>): (r: seq<seq<nat>>)
    requires Square(b)
    ensures |r| == |b| && Square(r)
    ensures forall i, j {:trigger r[i][j]} :: 0 <= i < |b| && 0 <= j < |b| ==> r[i][j] == b[j][|b| - 1 - i]
  {
    seq(|b|, i requires 0 <= i < |b| => seq(|b|, j requires 0 <= j < |b| => b[j][|b| - 1 - i]))
  }

  /** moveUp */
  function Up(b: seq<seq<nat>>): (r: seq<seq<nat>>)
    ensures |r| == |b| && (Square(b) ==> Square(r))
    ensures forall i :: 0 <= i < |b| ==> r[i] == Slid(b[i])
  {
    seq(|b|, i requires 0 <= i < |b| => Slid(b[i]))
  }

  function Left(b: seq<seq<nat>>): (r: seq<seq<nat>>)
    requires Square(b)
    ensures |r| == |b| && Square(r)
  {
    Rot(Rot(Rot(Up(Rot(b)))))
  }

  function Down(b: seq<seq<nat>>): (r: seq<seq<nat>>)
    requires Square(b)
    ensures |r| == |b| && Square(r)
  {
    Rot(Rot(Up(Rot(Rot(b)))))
  }

  function Right(b: seq<seq<nat>>): (r: seq<seq<nat>>)
    requires Square(b)
    ensures |r| == |b| && Square(r)
  {
    Rot(Up(Rot(Rot(Rot(b)))))
  }

  function Rev(s: seq<nat>): (r: seq<nat>)
    ensures |r| == |s| && forall i {:trigger r[i]} :: 0 <= i < |s| ==> r[i] == s[|s| - 1 - i]
  {
    seq(|s|, i requires 0 <= i < |s| => s[|s| - 1 - i])
  }

  function Column(b: seq<seq<nat>>, y: nat): (c: seq<nat>)
    requires forall x :: 0 <= x < |b| ==> y < |b[x]|
    ensures |c| == |b| && forall x {:trigger c[x]} :: 0 <= x < |b| ==> c[x] == b[x][y]
  {
    seq(|b|, x requires 0 <= x < |b| => b[x][y])
  }

  lemma SameGrid(a: seq<seq<nat>>, b: seq<seq<nat>>)
    requires Square(a) && Square(b) && |a| == |b|
    requires forall i, j :: 0 <= i < |a| && 0 <= j < |a| ==> a[i][j] == b[i][j]
    ensures a == b
  {
    forall i | 0 <= i < |a| ensures a[i] == b[i] { }
  }

  /** Four quarter turns are none. */
  lemma RotFour(b: seq<seq<nat>>)
    requires Square(b)
    ensures Rot(Rot(Rot(Rot(b)))) == b
  {
    SameGrid(Rot(Rot(Rot(Rot(b)))), b);
  }

  lemma RotRow(b: seq<seq<nat>>, i: nat)
    requires Square(b) && i < |b|
    ensures Rot(b)[i] == Column(b, |b| - 1 - i)
  {
  }

  lemma RotTwiceRow(b: seq<seq<nat>>, i: nat)
    requires Square(b) && i < |b|
    ensures Rot(Rot(b))[i] == Rev(b[|b| - 1 - i])
  {
  }

  lemma RotThriceRow(b: seq<seq<nat>>, i: nat)
    requires Square(b) && i < |b|
    ensures Rot(Rot(Rot(b)))[i] == Rev(Column(b, i))
  {
    var r, c := Rot(Rot(Rot(b)))[i], Rev(Column(b, i));
    forall j | 0 <= j < |b| ensures r[j] == c[j] { }
  }

  /** Left slides every column of the array towards x = 0. */
  lemma LeftSlides(b: seq<seq<nat>>, y: nat)
    requires Square(b) && y < |b|
    ensures Column(Left(b), y) == Slid(Column(b, y))
  {
    var n := |b|;
    var u := Up(Rot(b));
    RotRow(b, n - 1 - y);
    forall x | 0 <= x < n ensures Column(Left(b), y)[x] == u[n - 1 - y][x] { }
  }

  /** Down slides every row towards its end. */
  lemma DownSlides(b: seq<seq<nat>>, x: nat)
    requires Square(b) && x < |b|
    ensures Down(b)[x] == Rev(Slid(Rev(b[x])))
  {
    var n := |b|;
    var u := Up(Rot(Rot(b)));
    RotTwiceRow(b, n - 1 - x);
    RotTwiceRow(u, x);
  }

  /** Right slides every column towards the end. */
  lemma RightSlides(b: seq<seq<nat>>, y: nat)
    requires Square(b) && y < |b|
    ensures Column(Right(b), y) == Rev(Slid(Rev(Column(b, y))))
  {
    var n := |b|;
    var u := Up(Rot(Rot(Rot(b))));
    RotThriceRow(b, y);
    forall x | 0 <= x < n ensures Column(Right(b), y)[x] == Rev(u[y])[x] { }
  }

  // ---------------------------------------------------------- end of the game

  ghost predicate Full(b: seq<seq<nat>>)
    requires Square(b)
  {
    forall i, j :: 0 <= i < |b| && 0 <= j < |b| ==> b[i][j] != 0
  }

  /** findPairDown looks for two equal neighbours in a row. */
  ghost predicate RowPair(b: seq<seq<nat>>)
    requires Square(b)
  {
    exists i, j {:trigger b[i][j]} :: 0 <= i < |b| && 0 < j < |b| && b[i][j - 1] == b[i][j]
  }

  ghost predicate Over(b: seq<seq<nat>>)
    requires Square(b)
  {
    Full(b) && !RowPair(b) && !RowPair(Rot(b))
  }

  ghost predicate Immovable(b: seq<seq<nat>>)
    requires Square(b)
  {
    Up(b) == b && Left(b) == b && Down(b) == b && Right(b) == b
  }

  lemma RevRev(s: seq<nat>)
    ensures Rev(Rev(s)) == s
  {
  }

  /** A line that slides neither way is empty, or full without equal neighbours. */
  lemma StuckLine(s: seq<nat>, i: nat)
    requires Slid(s) == s && Slid(Rev(s)) == Rev(s) && i < |s| && s[i] != 0
    ensures forall j :: 0 <= j < |s| ==> s[j] != 0
    ensures forall j :: 0 < j < |s| ==> s[j - 1] != s[j]
  {
    hide Slid;
    SlidSettled(s);
    SlidSettled(Rev(s));
    forall j | 0 <= j < |s| ensures s[j] != 0 {
      if j < i {
        SettledOrder(s, j, i);
      } else if i < j {
        assert Rev(s)[|s| - 1 - i] != 0 && Rev(s)[|s| - 1 - j] == s[j];
        SettledOrder(Rev(s), |s| - 1 - j, |s| - 1 - i);
      }
    }
  }

  lemma FullLine(s: seq<nat>)
    requires (forall i :: 0 <= i < |s| ==> s[i] != 0) && forall i :: 0 < i < |s| ==> s[i - 1] != s[i]
    ensures Slid(s) == s && Slid(Rev(s)) == Rev(s)
  {
    SlidSettled(s);
    var r := Rev(s);
    forall i | 0 < i < |s| ensures r[i - 1] != r[i] { assert s[|s| - 1 - i] != s[|s| - i]; }
    SlidSettled(r);
  }

  /** Row x slides neither way; nor does column x. */
  ghost predicate StuckAt(b: seq<seq<nat>>, x: nat)
    requires Square(b) && x < |b|
  {
    && Slid(b[x]) == b[x] && Slid(Rev(b[x])) == Rev(b[x])
    && Slid(Column(b, x)) == Column(b, x) && Slid(Rev(Column(b, x))) == Rev(Column(b, x))
  }

  lemma Stuck(b: seq<seq<nat>>, x: nat)
    requires Square(b) && Immovable(b) && x < |b|
    ensures StuckAt(b, x)
  {
    hide Slid, Left, Down, Right;
    DownSlides(b, x);
    RevRev(Slid(Rev(b[x])));
    LeftSlides(b, x);
    RightSlides(b, x);
    RevRev(Slid(Rev(Column(b, x))));
  }

  lemma StuckRow(b: seq<seq<nat>>, x: nat, y: nat)
    requires Square(b) && x < |b| && y < |b| && StuckAt(b, x) && b[x][y] != 0
    ensures forall j :: 0 <= j < |b| ==> b[x][j] != 0
    ensures forall j {:trigger b[x][j]} :: 0 < j < |b| ==> b[x][j - 1] != b[x][j]
  {
    StuckLine(b[x], y);
  }

  lemma StuckColumn(b: seq<seq<nat>>, x: nat, y: nat)
    requires Square(b) && x < |b| && y < |b| && StuckAt(b, y) && b[x][y] != 0
    ensures forall i :: 0 <= i < |b| ==> b[i][y] != 0
    ensures forall i {:trigger b[i][y]} :: 0 < i < |b| ==> b[i - 1][y] != b[i][y]
  {
    var c := Column(b, y);
    StuckLine(c, x);
    forall i | 0 <= i < |b| ensures b[i][y] != 0 { assert c[i] != 0; }
    forall i | 0 < i < |b| ensures b[i - 1][y] != b[i][y] { assert c[i - 1] != c[i]; }
  }

  lemma StuckFull(b: seq<seq<nat>>, p: nat, q: nat)
    requires Square(b) && Immovable(b) && p < |b| && q < |b| && b[p][q] != 0
    ensures Full(b)
  {
    hide Immovable, StuckAt;
    Stuck(b, p);
    StuckRow(b, p, q);
    forall i, j | 0 <= i < |b| && 0 <= j < |b| ensures b[i][j] != 0 {
      Stuck(b, j);
      StuckColumn(b, p, j);
    }
  }

  /** With a tile on the board, a position that no move changes is full and has no pair. */
  lemma ImmovableIsOver(b: seq<seq<nat>>, p: nat, q: nat)
    requires Square(b) && Immovable(b) && p < |b| && q < |b| && b[p][q] != 0
    ensures Over(b)
  {
    hide Immovable, StuckAt, Rot;
    StuckFull(b, p, q);
    forall i, j | 0 <= i < |b| && 0 < j < |b| ensures b[i][j - 1] != b[i][j] {
      Stuck(b, i);
      StuckRow(b, i, 0);
    }
    var r := Rot(b);
    forall i, j | 0 <= i < |b| && 0 < j < |b| ensures r[i][j - 1] != r[i][j] {
      Stuck(b, |b| - 1 - i);
      StuckColumn(b, 0, |b| - 1 - i);
      assert r[i][j] == b[j][|b| - 1 - i] && r[i][j - 1] == b[j - 1][|b| - 1 - i];
    }
  }

  lemma OverStuck(b: seq<seq<nat>>, x: nat)
    requires Square(b) && Over(b) && x < |b|
    ensures StuckAt(b, x)
  {
    hide Rot, Slid;
    FullLine(b[x]);
    var c, r := Column(b, x), Rot(b)[|b| - 1 - x];
    assert forall i :: 0 <= i < |b| ==> r[i] == c[i];
    forall i | 0 < i < |b| ensures c[i - 1] != c[i] {
      assert Rot(b)[|b| - 1 - x][i - 1] != Rot(b)[|b| - 1 - x][i];
      assert r[i - 1] == c[i - 1];
    }
    FullLine(c);
  }

  lemma OverCell(b: seq<seq<nat>>, i: nat, j: nat)
    requires Square(b) && Over(b) && i < |b| && j < |b|
    ensures Left(b)[i][j] == b[i][j] && Right(b)[i][j] == b[i][j]
  {
    hide Over, Left, Right, Slid;
    var c := Column(b, j);
    OverStuck(b, j);
    LeftSlides(b, j);
    RightSlides(b, j);
    RevRev(c);
    assert Column(Left(b), j)[i] == c[i] && Column(Right(b), j)[i] == c[i];
  }

  lemma OverSides(b: seq<seq<nat>>)
    requires Square(b) && Over(b)
    ensures Left(b) == b && Right(b) == b
  {
    hide Over, Left, Right;
    forall i, j | 0 <= i < |b| && 0 <= j < |b| ensures Left(b)[i][j] == b[i][j] && Right(b)[i][j] == b[i][j] {
      OverCell(b, i, j);
    }
    SameGrid(Left(b), b);
    SameGrid(Right(b), b);
  }

  lemma OverDown(b: seq<seq<nat>>)
    requires Square(b) && Over(b)
    ensures Down(b) == b && Up(b) == b
  {
    hide Over, Down, Up;
    forall x | 0 <= x < |b| ensures Down(b)[x] == b[x] && Up(b)[x] == b[x] {
      OverStuck(b, x);
      DownSlides(b, x);
      RevRev(b[x]);
    }
  }

  /** With a tile on the board, no move changes it exactly when it is full and has no pair in a row or a column. */
  lemma OverIsImmovable(b: seq<seq<nat>>, p: nat, q: nat)
    requires Square(b) && p < |b| && q < |b| && b[p][q] != 0
    ensures Over(b) <==> Immovable(b)
  {
    if Immovable(b) { ImmovableIsOver(b, p, q); }
    if Over(b) {
      OverSides(b);
      OverDown(b);
    }
  }
}
