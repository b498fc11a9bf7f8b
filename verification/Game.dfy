/**
 * A whole game of 2048: positions and the rules as functions, what holds of
 * every position a run of keys can reach, and the program that changes the
 * board in place.
 */
module Game2048 {
  import opened Memory
  import opened Binary
  import opened Slide
  import opened Board
  import opened Tiles

  /** What rand() answers, call by call. */
  type Dice = nat -> nat

  datatype Status = Running | GameOver | Quit

  /** The board, the score, how many 4s have been spawned, and how often rand() was called. */
  datatype Position = Position(board: seq<seq<nat>>, score: nat, fours: nat, rolled: nat, status: Status)

  // -------------------------------------------------------------------- rules

  /** The empty cells before (x, y), row by row: the list addRandom draws from. */
  function Empties(b: seq<seq<nat>>, x: nat, y: nat): (e: seq<(nat, nat)>)
    requires Square(b) && x <= |b| && y <= |b| && (x < |b| || y == 0)
    ensures forall k {:trigger e[k]} :: 0 <= k < |e| ==> e[k].0 < |b| && e[k].1 < |b| && b[e[k].0][e[k].1] == 0
    decreases x, y
  {
    if y > 0 then Empties(b, x, y - 1) + (if b[x][y - 1] == 0 then [(x, y - 1)] else [])
    else if x > 0 then Empties(b, x - 1, |b|)
    else []
  }

  function NewTile(r: nat): (v: nat)
    ensures 1 <= v <= 2 && (v == 2 <==> r % 10 == 9)
  {
    r % 10 / 9 + 1
  }

  /** addRandom; rand() is only called when there is an empty cell. */
  function Spawned(p: Position, dice: Dice): (q: Position)
    requires Square(p.board)
    ensures Square(q.board) && |q.board| == |p.board|
  {
    var e := Empties(p.board, |p.board|, 0);
    if e == [] then p else
    var c, v := e[dice(p.rolled) % |e|], NewTile(dice(p.rolled + 1));
    p.(board := Put(p.board, c.0, c.1, v), rolled := p.rolled + 2, fours := p.fours + (if v == 2 then 1 else 0))
  }

  function Blank(n: nat): (b: seq<seq<nat>>)
    ensures |b| == n && Square(b) && forall i, j {:trigger b[i][j]} :: 0 <= i < n && 0 <= j < n ==> b[i][j] == 0
  {
    seq(n, _ => Zeros(n))
  }

  /** initBoard */
  function Deal(n: nat, dice: Dice, rolled: nat): (p: Position)
    ensures Square(p.board) && |p.board| == n
  {
    Spawned(Spawned(Position(Blank(n), 0, 0, rolled, Running), dice), dice)
  }

  function Key(c: char): Option<Direction>
  {
    if c == 'a' || c == 'h' || c == 'D' then Some(ToLeft)
    else if c == 'd' || c == 'l' || c == 'C' then Some(ToRight)
    else if c == 'w' || c == 'k' || c == 'A' then Some(ToUp)
    else if c == 's' || c == 'j' || c == 'B' then Some(ToDown)
    else None
  }

  ghost function Press(p: Position, c: char, dice: Dice): (q: Position)
    requires Square(p.board)
    ensures Square(q.board) && |q.board| == |p.board|
  {
    if Key(c).None? || Moved(Key(c).value, p.board) == p.board then p else
    var d := Key(c).value;
    var q := Spawned(p.(board := Moved(d, p.board), score := p.score + MovePoints(d, p.board)), dice);
    if Over(q.board) then q.(status := GameOver) else q
  }

  /** What the keys from a 'q' or 'r' on lead to, and how many of them are used up. */
  datatype Ask = Quits | Restarts(used: nat) | GoesOn(used: nat)

  /** Both prompts; the answer to the first may be the key for the second. */
  function Asked(input: string): (a: Ask)
    requires input != []
    ensures !a.Quits? ==> 0 < a.used <= |input|
  {
    if input[0] == 'q' && |input| > 1 then
      if input[1] == 'y' then Quits
      else if input[1] != 'r' || |input| == 2 then GoesOn(2)
      else if input[2] == 'y' then Restarts(3) else GoesOn(3)
    else if input[0] == 'r' && |input| > 1 then
      if input[1] == 'y' then Restarts(2) else GoesOn(2)
    else GoesOn(1)
  }

  /** The main loop, from a position that waits for a key. */
  ghost function Play(p: Position, input: string, dice: Dice): (q: Position)
    requires Square(p.board)
    ensures Square(q.board) && |q.board| == |p.board|
    decreases |input|
  {
    hide Press, Deal;
    if input == [] then p else
    var q := Press(p, input[0], dice);
    if q.status == GameOver then q else
    match Asked(input)
    case Quits => q.(status := Quit)
    case Restarts(k) => Play(Deal(|p.board|, dice, q.rolled), input[k..], dice)
    case GoesOn(k) => Play(q, input[k..], dice)
  }

  // ------------------------------------------------------- what the keys mean

  /** The slide of every line that a key asks for: (x, y) is column x of the screen and row y. */
  ghost predicate Slides(c: char, b: seq<seq<nat>>, m: seq<seq<nat>>)
    requires Square(b) && Square(m) && |m| == |b|
  {
    if c == 'a' || c == 'h' || c == 'D' then forall y :: 0 <= y < |b| ==> Column(m, y) == Slid(Column(b, y))
    else if c == 'd' || c == 'l' || c == 'C' then forall y :: 0 <= y < |b| ==> Column(m, y) == Rev(Slid(Rev(Column(b, y))))
    else if c == 'w' || c == 'k' || c == 'A' then forall x :: 0 <= x < |b| ==> m[x] == Slid(b[x])
    else if c == 's' || c == 'j' || c == 'B' then forall x :: 0 <= x < |b| ==> m[x] == Rev(Slid(Rev(b[x])))
    else m == b
  }

  /** The move of a key is the slide of its lines. */
  lemma KeySlides(c: char, b: seq<seq<nat>>)
    requires Square(b)
    ensures Slides(c, b, if Key(c).None? then b else Moved(Key(c).value, b))
  {
    hide Left, Right, Down, Slid;
    forall i | 0 <= i < |b|
      ensures Column(Left(b), i) == Slid(Column(b, i)) && Column(Right(b), i) == Rev(Slid(Rev(Column(b, i))))
      ensures Down(b)[i] == Rev(Slid(Rev(b[i])))
    {
      LeftSlides(b, i);
      RightSlides(b, i);
      DownSlides(b, i);
    }
  }

  /** A key slides the board; if that changes it, one empty cell gets a 2, or a 4 once in ten numbers, and nothing else happens. */
  lemma PressMeans(p: Position, c: char, dice: Dice) returns (m: seq<seq<nat>>, x: nat, y: nat, v: nat)
    requires Square(p.board)
    ensures Square(m) && |m| == |p.board| && Slides(c, p.board, m)
    ensures m == p.board ==> Press(p, c, dice) == p
    ensures m != p.board ==>
              && x < |m| && y < |m| && m[x][y] == 0 && Press(p, c, dice).board == Put(m, x, y, v)
              && Empties(m, |m|, 0) != [] && (x, y) == Empties(m, |m|, 0)[dice(p.rolled) % |Empties(m, |m|, 0)|]
              && v == (if dice(p.rolled + 1) % 10 == 9 then 2 else 1)
              && Press(p, c, dice).rolled == p.rolled + 2
  {
    hide Moved, Over, Put, MovePoints, Slides;
    KeySlides(c, p.board);
    m := if Key(c).None? then p.board else Moved(Key(c).value, p.board);
    x, y, v := 0, 0, 0;
    if m != p.board {
      MoveLeavesRoom(Key(c).value, p.board);
      EmptiesFull(m);
      var e := Empties(m, |m|, 0);
      var cell := e[dice(p.rolled) % |e|];
      x, y, v := cell.0, cell.1, NewTile(dice(p.rolled + 1));
    }
  }

  /** Row by row. */
  ghost predicate Earlier(a: (nat, nat), x: nat, y: nat)
  {
    a.0 < x || (a.0 == x && a.1 < y)
  }

  /** The list of empty cells is in order, so each has one place in the draw. */
  lemma {:induction false} EmptiesOrdered(b: seq<seq<nat>>, x: nat, y: nat)
    requires Square(b) && x <= |b| && y <= |b| && (x < |b| || y == 0)
    ensures forall k {:trigger Empties(b, x, y)[k]} :: 0 <= k < |Empties(b, x, y)| ==> Earlier(Empties(b, x, y)[k], x, y)
    ensures forall j, k {:trigger Empties(b, x, y)[j], Empties(b, x, y)[k]} :: 0 <= j < k < |Empties(b, x, y)| ==>
              Earlier(Empties(b, x, y)[j], Empties(b, x, y)[k].0, Empties(b, x, y)[k].1)
    decreases x, y
  {
    if y > 0 {
      EmptiesOrdered(b, x, y - 1);
    } else if x > 0 {
      EmptiesOrdered(b, x - 1, |b|);
    }
  }

  /** What follows the two questions: quit on 'y', restart on 'y', and a restart asked for by the answer to the first. */
  lemma Prompts(p: Position, rest: string, c: char, dice: Dice)
    requires Square(p.board) && p.status == Running
    ensures Play(p, "qy" + rest, dice) == p.(status := Quit)
    ensures Play(p, "ry" + rest, dice) == Play(Deal(|p.board|, dice, p.rolled), rest, dice)
    ensures Play(p, "qry" + rest, dice) == Play(Deal(|p.board|, dice, p.rolled), rest, dice)
    ensures c != 'y' ==> Play(p, "r" + [c] + rest, dice) == Play(p, "qr" + [c] + rest, dice) == Play(p, rest, dice)
    ensures c != 'y' && c != 'r' ==> Play(p, "q" + [c] + rest, dice) == Play(p, rest, dice)
  {
    hide Play, Deal;
    NoMove(p, 'q', dice);
    NoMove(p, 'r', dice);
    PromptStep(p, "qy" + rest, dice);
    PromptStep(p, "ry" + rest, dice);
    PromptStep(p, "qry" + rest, dice);
    PromptStep(p, "r" + [c] + rest, dice);
    PromptStep(p, "qr" + [c] + rest, dice);
    PromptStep(p, "q" + [c] + rest, dice);
    assert ("ry" + rest)[2..] == rest && ("qry" + rest)[3..] == rest;
    assert ("r" + [c] + rest)[2..] == rest && ("qr" + [c] + rest)[3..] == rest && ("q" + [c] + rest)[2..] == rest;
  }

  lemma NoMove(p: Position, c: char, dice: Dice)
    requires Square(p.board) && (c == 'q' || c == 'r')
    ensures Press(p, c, dice) == p
  {
    hide Key, Moved, Over, MovePoints, Spawned, Square;
    KeyNone(c);
  }

  lemma KeyNone(c: char)
    requires c == 'q' || c == 'r'
    ensures Key(c).None?
  {
  }

  lemma PromptStep(p: Position, input: string, dice: Dice)
    requires Square(p.board) && input != [] && Press(p, input[0], dice) == p
    ensures p.status == GameOver ==> Play(p, input, dice) == p
    ensures p.status != GameOver ==>
              && (Asked(input).Quits? ==> Play(p, input, dice) == p.(status := Quit))
              && (Asked(input).Restarts? ==>
                    Play(p, input, dice) == Play(Deal(|p.board|, dice, p.rolled), input[Asked(input).used..], dice))
              && (Asked(input).GoesOn? ==> Play(p, input, dice) == Play(p, input[Asked(input).used..], dice))
  {
    PlayStep(p, input, dice);
  }

  // ------------------------------------------------------------ what they keep

  lemma {:induction false} EmptiesAll(b: seq<seq<nat>>, x: nat, y: nat, i: nat, j: nat)
    requires Square(b) && x <= |b| && y <= |b| && (x < |b| || y == 0)
    requires i < |b| && j < |b| && (i < x || (i == x && j < y)) && b[i][j] == 0
    ensures (i, j) in Empties(b, x, y)
    decreases x, y
  {
    if y > 0 {
      if !(i == x && j == y - 1) { EmptiesAll(b, x, y - 1, i, j); }
    } else {
      EmptiesAll(b, x - 1, |b|, i, j);
    }
  }

  /** addRandom finds a cell whenever there is one. */
  lemma EmptiesFull(b: seq<seq<nat>>)
    requires Square(b)
    ensures Empties(b, |b|, 0) == [] <==> Full(b)
  {
    var e := Empties(b, |b|, 0);
    if e == [] {
      forall i, j | 0 <= i < |b| && 0 <= j < |b| ensures b[i][j] != 0 {
        if b[i][j] == 0 { EmptiesAll(b, |b|, 0, i, j); }
      }
    } else {
      assert b[e[0].0][e[0].1] == 0;
    }
  }

  /**
   * What every position keeps: the tiles stay within what the cells can
   * carry; the score is what the tiles are worth less four for every 4 that
   * was spawned; there is a tile; the game is over exactly when it should be.
   */
  ghost predicate Sound(p: Position)
  {
    && Square(p.board) && Bounded(p.board)
    && p.score + 4 * p.fours == Sum(Worth, p.board)
    && (p.board != [] ==> Sum(Count, p.board) > 0)
    && (p.status == GameOver ==> Over(p.board))
    && (p.status == Running && |p.board| > 1 ==> !Over(p.board))
  }

  lemma SpawnKeeps(p: Position, dice: Dice)
    requires Square(p.board) && Bounded(p.board) && p.score + 4 * p.fours == Sum(Worth, p.board)
    ensures var q := Spawned(p, dice);
            && Bounded(q.board) && q.score + 4 * q.fours == Sum(Worth, q.board)
            && Sum(Count, q.board) == Sum(Count, p.board) + (if Full(p.board) then 0 else 1)
  {
    hide Bounded, Sum;
    var b := p.board;
    var e := Empties(b, |b|, 0);
    EmptiesFull(b);
    if e != [] {
      var c, v := e[dice(p.rolled) % |e|], NewTile(dice(p.rolled + 1));
      SpawnBound(b, c.0, c.1, v);
      SumPut(Worth, b, c.0, c.1, v);
      SumPut(Count, b, c.0, c.1, v);
      assert Pow2(2) == 2 * Pow2(1) && Pow2(1) == 2 * Pow2(0);
    }
  }

  lemma {:induction false} BlankSum(w: Measure, n: nat, k: nat)
    requires k <= n
    ensures Sum(w, Blank(n)[..k]) == 0
  {
    if k > 0 {
      var b := Blank(n)[..k];
      BlankSum(w, n, k - 1);
      SumLast(w, Blank(n)[..k - 1], b[k - 1]);
      assert b == Blank(n)[..k - 1] + [b[k - 1]];
      TotalZeros(w, b[k - 1]);
    }
  }

  lemma BlankTotal(w: Measure, n: nat)
    ensures Sum(w, Blank(n)) == 0
  {
    BlankSum(w, n, n);
    assert Blank(n)[..n] == Blank(n);
  }

  lemma {:induction false} SumLast(w: Measure, b: seq<seq<nat>>, row: seq<nat>)
    ensures Sum(w, b + [row]) == Sum(w, b) + Total(w, row)
  {
    if b != [] {
      SumLast(w, b[1..], row);
      assert (b + [row])[1..] == b[1..] + [row];
    } else {
      assert (b + [row])[1..] == [];
    }
  }

  lemma DealSound(n: nat, dice: Dice, rolled: nat)
    ensures Sound(Deal(n, dice, rolled))
    ensures Sum(Count, Deal(n, dice, rolled).board) == if n > 1 then 2 else n
  {
    hide Sum, Spawned;
    var p := Position(Blank(n), 0, 0, rolled, Running);
    forall w: Measure ensures Sum(w, Blank(n)) == 0 { BlankTotal(w, n); }
    assert Pow2(n * n + 1) == 2 * Pow2(n * n);
    var q := Spawned(p, dice);
    SpawnKeeps(p, dice);
    SpawnKeeps(q, dice);
    FullCount(p.board);
    FullCount(q.board);
    var d := Deal(n, dice, rolled);
    FullCount(d.board);
    SpawnStatus(p, dice);
    SpawnStatus(q, dice);
    if n > 1 { assert n * n >= 4; }
  }

  lemma SpawnStatus(p: Position, dice: Dice)
    requires Square(p.board)
    ensures Spawned(p, dice).status == p.status && Spawned(p, dice).score == p.score
  {
  }

  /** A key that moves something always gets its new tile. */
  lemma PressSound(p: Position, c: char, dice: Dice)
    requires Sound(p) && p.status == Running
    ensures Sound(Press(p, c, dice)) && Press(p, c, dice).status != Quit
    ensures Press(p, c, dice) == p || Sum(Count, Press(p, c, dice).board) == Sum(Count, Moved(Key(c).value, p.board)) + 1
  {
    hide Moved, Sum, Over, Spawned, Bounded, MovePoints;
    if Key(c).Some? && Moved(Key(c).value, p.board) != p.board {
      var d := Key(c).value;
      var m := p.(board := Moved(d, p.board), score := p.score + MovePoints(d, p.board));
      MoveTotals(d, p.board);
      MoveLeavesRoom(d, p.board);
      SameHalf(p.board, m.board);
      SpawnKeeps(m, dice);
      SpawnStatus(m, dice);
    }
  }

  lemma SameHalf(a: seq<seq<nat>>, b: seq<seq<nat>>)
    requires |a| == |b| && Sum(Half, a) == Sum(Half, b) && Bounded(a)
    ensures Bounded(b)
  {
  }

  lemma {:induction false} PlaySound(p: Position, input: string, dice: Dice)
    requires Sound(p) && p.status == Running
    ensures Sound(Play(p, input, dice))
    decreases |input|
  {
    hide Sound, Press, Deal;
    SoundSquare(p);
    if input != [] {
      var q := Press(p, input[0], dice);
      PressSound(p, input[0], dice);
      if q.status == Running {
        match Asked(input)
        case Quits => SoundQuit(q);
        case Restarts(k) =>
          DealSound(|p.board|, dice, q.rolled);
          DealRuns(|p.board|, dice, q.rolled);
          PlaySound(Deal(|p.board|, dice, q.rolled), input[k..], dice);
        case GoesOn(k) => PlaySound(q, input[k..], dice);
      }
    }
  }

  lemma SoundSquare(p: Position)
    requires Sound(p)
    ensures Square(p.board)
  {
  }

  lemma SoundQuit(p: Position)
    requires Sound(p)
    ensures Sound(p.(status := Quit))
  {
  }

  lemma DealRuns(n: nat, dice: Dice, rolled: nat)
    ensures Deal(n, dice, rolled).status == Running
  {
  }

  /** Every position any run of keys reaches, whatever the dice. */
  lemma EveryRun(n: nat, dice: Dice, input: string)
    ensures Sound(Play(Deal(n, dice, 0), input, dice))
  {
    DealSound(n, dice, 0);
    DealRuns(n, dice, 0);
    PlaySound(Deal(n, dice, 0), input, dice);
  }

  /** No tile beyond cells + 1, and a score to match. */
  ghost predicate Within(p: Position)
    requires Square(p.board)
  {
    var m := |p.board| * |p.board|;
    && (forall i, j :: 0 <= i < |p.board| && 0 <= j < |p.board| ==> p.board[i][j] <= m + 1)
    && p.score <= (2 * m) * (Pow2(m + 1) - 2)
  }

  lemma SoundWithin(p: Position)
    requires Sound(p)
    ensures Within(p)
  {
    hide Pow2, Sum;
    var m := |p.board| * |p.board|;
    forall i, j | 0 <= i < |p.board| && 0 <= j < |p.board| ensures p.board[i][j] <= m + 1 {
      TileBound(p.board, i, j);
    }
    WorthSum(p.board, m);
    PowRoom(m);
    Scaled(2 * m, Sum(Half, p.board), Pow2(m + 1) - 2);
  }

  lemma PowRoom(m: nat)
    ensures Pow2(m + 1) >= 2
  {
    assert Pow2(m + 1) == 2 * Pow2(m);
  }

  lemma EveryRunLimits(n: nat, dice: Dice, input: string)
    ensures Within(Play(Deal(n, dice, 0), input, dice))
  {
    EveryRun(n, dice, input);
    SoundWithin(Play(Deal(n, dice, 0), input, dice));
  }

  lemma Scaled(k: nat, a: nat, b: nat)
    requires a <= b
    ensures k * a <= k * b
  {
  }

  /** On the 4 x 4 board no exponent passes 17, so neither the shift nor the 32-bit score overflows. */
  lemma FourByFour(dice: Dice, input: string)
    ensures var p := Play(Deal(4, dice, 0), input, dice);
            && (forall i, j :: 0 <= i < 4 && 0 <= j < 4 ==> p.board[i][j] <= 17)
            && p.score < 0x1_0000_0000
  {
    EveryRunLimits(4, dice, input);
    WithinFour(Play(Deal(4, dice, 0), input, dice));
    hide Play, Deal, Pow2, Within;
  }

  lemma WithinFour(p: Position)
    requires |p.board| == 4 && Square(p.board) && Within(p)
    ensures forall i, j :: 0 <= i < 4 && 0 <= j < 4 ==> p.board[i][j] <= 17
    ensures p.score < 0x1_0000_0000
  {
    Pow2Value();
    hide Pow2;
    assert |p.board| * |p.board| == 16;
  }

  lemma Pow2Value()
    ensures Pow2(17) == 0x2_0000
  {
    assert Pow2(4) == 16;
    assert Pow2(8) == 256;
    assert Pow2(12) == 4096;
    assert Pow2(16) == 65536;
  }

  lemma AllMoves(b: seq<seq<nat>>)
    requires Square(b)
    ensures (forall d: Direction :: Moved(d, b) == b) <==> Immovable(b)
  {
    hide Up, Left, Down, Right;
    if forall d: Direction :: Moved(d, b) == b {
      assert Moved(ToUp, b) == Moved(ToLeft, b) == Moved(ToDown, b) == Moved(ToRight, b) == b;
    }
  }

  /** The program declares the game over exactly when no move would change the board. */
  lemma OverWhenStuck(n: nat, dice: Dice, input: string)
    requires n > 1
    ensures var p := Play(Deal(n, dice, 0), input, dice);
            p.status != Quit ==> (p.status == GameOver <==> forall d: Direction :: Moved(d, p.board) == p.board)
  {
    EveryRun(n, dice, input);
    hide Play, Deal, Over, Immovable, Moved;
    var p := Play(Deal(n, dice, 0), input, dice);
    var i, j := SomeTile(p.board);
    OverIsImmovable(p.board, i, j);
    AllMoves(p.board);
  }

  lemma SomeTile(b: seq<seq<nat>>) returns (i: nat, j: nat)
    requires Square(b) && Sum(Count, b) > 0
    ensures i < |b| && j < |b| && b[i][j] != 0
  {
    if forall i, j :: 0 <= i < |b| && 0 <= j < |b| ==> b[i][j] == 0 {
      var z := Blank(|b|);
      SameGrid(b, z);
      BlankTotal(Count, |b|);
    }
    i, j :| 0 <= i < |b| && 0 <= j < |b| && b[i][j] != 0;
  }

  // ------------------------------------------------- rotation, four at a time

  /** The cells (p, q) from which rotateBoard starts a four-cycle, before it reaches (i, j). */
  predicate Before(n: nat, i: nat, j: nat, p: int, q: int)
  {
    0 <= p <= q < n - 1 - p && (p < i || (p == i && q < j))
  }

  predicate Turned(n: nat, i: nat, j: nat, x: nat, y: nat)
  {
    || Before(n, i, j, x, y) || Before(n, i, j, n - 1 - y, x)
    || Before(n, i, j, n - 1 - x, n - 1 - y) || Before(n, i, j, y, n - 1 - x)
  }

  /** The board when rotateBoard reaches (i, j). */
  function Partly(b: seq<seq<nat>>, i: nat, j: nat): (r: seq<seq<nat>>)
    requires Square(b)
    ensures |r| == |b| && Square(r)
    ensures forall x, y {:trigger r[x][y]} :: 0 <= x < |b| && 0 <= y < |b| ==> r[x][y] == PartAt(b, i, j, x, y)
  {
    seq(|b|, x requires 0 <= x < |b| => seq(|b|, y requires 0 <= y < |b| => PartAt(b, i, j, x, y)))
  }

  function PartAt(b: seq<seq<nat>>, i: nat, j: nat, x: nat, y: nat): nat
    requires Square(b) && x < |b| && y < |b|
  {
    if Turned(|b|, i, j, x, y) then b[y][|b| - 1 - x] else b[x][y]
  }

  /** One four-cycle. */
  function Cycle(g: seq<seq<nat>>, i: nat, j: nat): (r: seq<seq<nat>>)
    requires Square(g) && i <= j < |g| - 1 - i
    ensures |r| == |g| && Square(r)
  {
    var n := |g|;
    var g1 := Put(g, i, j, g[j][n - 1 - i]);
    var g2 := Put(g1, j, n - 1 - i, g1[n - 1 - i][n - 1 - j]);
    var g3 := Put(g2, n - 1 - i, n - 1 - j, g2[n - 1 - j][i]);
    Put(g3, n - 1 - j, i, g[i][j])
  }

  lemma CycleAt(g: seq<seq<nat>>, i: nat, j: nat, x: nat, y: nat)
    requires Square(g) && i <= j < |g| - 1 - i && x < |g| && y < |g|
    ensures var n := |g|;
            Cycle(g, i, j)[x][y] ==
              if (x == i && y == j) || (x == j && y == n - 1 - i)
                 || (x == n - 1 - i && y == n - 1 - j) || (x == n - 1 - j && y == i)
              then g[y][n - 1 - x] else g[x][y]
  {
  }

  lemma CycleStep(b: seq<seq<nat>>, i: nat, j: nat)
    requires Square(b) && i <= j < |b| - 1 - i
    ensures Cycle(Partly(b, i, j), i, j) == Partly(b, i, j + 1)
  {
    hide Cycle;
    forall x, y | 0 <= x < |b| && 0 <= y < |b|
      ensures Cycle(Partly(b, i, j), i, j)[x][y] == Partly(b, i, j + 1)[x][y]
    {
      CycleAt(Partly(b, i, j), i, j, x, y);
    }
    SameGrid(Cycle(Partly(b, i, j), i, j), Partly(b, i, j + 1));
  }

  lemma RingStep(b: seq<seq<nat>>, i: nat, j: nat)
    requires Square(b) && i < |b| / 2 && j == |b| - i - 1
    ensures Partly(b, i, j) == Partly(b, i + 1, i + 1)
  {
    SameGrid(Partly(b, i, j), Partly(b, i + 1, i + 1));
  }

  lemma RotateStart(b: seq<seq<nat>>)
    requires Square(b)
    ensures Partly(b, 0, 0) == b
  {
    SameGrid(Partly(b, 0, 0), b);
  }

  lemma RotateEnd(b: seq<seq<nat>>)
    requires Square(b)
    ensures Partly(b, |b| / 2, |b| / 2) == Rot(b)
  {
    SameGrid(Partly(b, |b| / 2, |b| / 2), Rot(b));
  }

  lemma {:induction false} UpPointsLast(b: seq<seq<nat>>, x: nat)
    requires x < |b|
    ensures UpPoints(b[..x + 1]) == UpPoints(b[..x]) + Points(Compact(b[x]))
  {
    if x == 0 {
      assert b[..1][1..] == [];
    } else {
      UpPointsLast(b[1..], x - 1);
      assert b[..x + 1][1..] == b[1..][..x] && b[..x][1..] == b[1..][..x - 1];
    }
  }

  /** The first x rows slid. */
  function UpTo(b: seq<seq<nat>>, x: nat): (r: seq<seq<nat>>)
    requires x <= |b|
    ensures |r| == |b|
  {
    Up(b)[..x] + b[x..]
  }

  lemma UpStart(b: seq<seq<nat>>)
    ensures UpTo(b, 0) == b && UpPoints(b[..0]) == 0 && UpTo(b, |b|) == Up(b)
  {
  }

  lemma UpStep(b: seq<seq<nat>>, x: nat)
    requires x < |b|
    ensures UpTo(b, x)[x] == b[x] && UpTo(b, x + 1) == UpTo(b, x)[x := Slid(b[x])]
    ensures UpTo(b, x + 1) == b <==> UpTo(b, x) == b && Slid(b[x]) == b[x]
  {
    hide Slid;
    var u, v := UpTo(b, x), UpTo(b, x + 1);
    assert v == u[x := Slid(b[x])];
    if v == b { assert u == v[x := b[x]] == b; }
  }

  lemma PlayStep(p: Position, input: string, dice: Dice)
    requires Square(p.board) && input != []
    ensures var q := Press(p, input[0], dice);
            q.status == GameOver ==> Play(p, input, dice) == q
    ensures var q := Press(p, input[0], dice);
            q.status != GameOver ==>
              && (Asked(input).Quits? ==> Play(p, input, dice) == q.(status := Quit))
              && (Asked(input).Restarts? ==>
                    Play(p, input, dice) == Play(Deal(|p.board|, dice, q.rolled), input[Asked(input).used..], dice))
              && (Asked(input).GoesOn? ==> Play(p, input, dice) == Play(q, input[Asked(input).used..], dice))
  {
    hide Press, Deal;
  }

  lemma PlayEnd(p: Position, dice: Dice)
    requires Square(p.board)
    ensures Play(p, "", dice) == p
  {
  }

  lemma MovePointsUp(b: seq<seq<nat>>)
    requires Square(b)
    ensures MovePoints(ToUp, b) == UpPoints(b)
  {
  }

  // -------------------------------------------------------------- the program

  class Game {
    const n: nat
    const rows: seq<array<nat>>
    const dice: Dice
    var score: nat
    var rolled: nat
    ghost var fours: nat

    ghost predicate Valid()
    {
      && |rows| == n
      && (forall i :: 0 <= i < n ==> rows[i].Length == n)
      && (forall i, j :: 0 <= i < j < n ==> rows[i] != rows[j])
    }

    ghost function Grid(): (b: seq<seq<nat>>)
      requires Valid()
      reads rows
      ensures |b| == n && Square(b)
    {
      seq(n, i requires 0 <= i < n reads rows => rows[i][..])
    }

    function At(x: nat, y: nat): (v: nat)
      requires Valid() && x < n && y < n
      reads rows
      ensures v == Grid()[x][y]
    {
      rows[x][y]
    }

    ghost function Here(): (p: Position)
      requires Valid()
      reads this, rows
      ensures Square(p.board) && |p.board| == n
    {
      Position(Grid(), score, fours, rolled, Running)
    }

    lemma Apart(i: nat, j: nat)
      requires Valid() && i < n && j < n && i != j
      ensures rows[i] != rows[j]
    {
    }

    constructor (n: nat, dice: Dice)
      ensures Valid() && this.n == n && this.dice == dice && fresh(rows) && rolled == 0
    {
      var rs: seq<array<nat>> := [];
      for i := 0 to n
        invariant |rs| == i && fresh(rs)
        invariant forall k :: 0 <= k < i ==> rs[k].Length == n
        invariant forall k, l :: 0 <= k < l < i ==> rs[k] != rs[l]
      {
        var a := new nat[n];
        rs := rs + [a];
      }
      this.n, this.dice, this.rows := n, dice, rs;
      score, rolled, fours := 0, 0, 0;
    }

    method Set(x: nat, y: nat, v: nat)
      requires Valid() && x < n && y < n
      modifies rows
      ensures Grid() == Put(old(Grid()), x, y, v)
    {
      ghost var b := Grid();
      rows[x][y] := v;
      forall i | 0 <= i < n ensures Grid()[i] == Put(b, x, y, v)[i] {
        if i != x { Apart(i, x); }
      }
    }

    /** The body of rotateBoard's loop. */
    method FourCycle(i: nat, j: nat)
      requires Valid() && i <= j < n - 1 - i
      modifies rows
      ensures Grid() == Cycle(old(Grid()), i, j)
    {
      hide Put, Valid, Grid;
      var tmp := At(i, j);
      Set(i, j, At(j, n - i - 1));
      Set(j, n - i - 1, At(n - i - 1, n - j - 1));
      Set(n - i - 1, n - j - 1, At(n - j - 1, i));
      Set(n - j - 1, i, tmp);
    }

    method RotateBoard()
      requires Valid()
      modifies rows
      ensures Grid() == Rot(old(Grid()))
    {
      hide Rot, Partly, Cycle, Valid, Grid, Square;
      ghost var b := Grid();
      RotateStart(b);
      for i := 0 to n / 2
        invariant Grid() == Partly(b, i, i)
      {
        for j := i to n - i - 1
          invariant Grid() == Partly(b, i, j)
        {
          FourCycle(i, j);
          CycleStep(b, i, j);
        }
        RingStep(b, i, n - i - 1);
      }
      RotateEnd(b);
    }

    /** slideArray on row x. */
    method SlideRow(x: nat) returns (success: bool)
      requires Valid() && x < n
      modifies this`score, rows
      ensures Grid() == old(Grid())[x := Slid(old(Grid())[x])]
      ensures score == old(score) + Points(Compact(old(Grid())[x]))
      ensures success <==> Slid(old(Grid())[x]) != old(Grid())[x]
    {
      hide Slid, Points, Compact;
      ghost var b := Grid();
      var points;
      success, points := SlideArray(rows[x]);
      score := score + points;
      forall i | 0 <= i < n ensures Grid()[i] == b[x := Slid(b[x])][i] {
        if i != x { Apart(i, x); }
      }
    }

    method MoveUp() returns (success: bool)
      requires Valid()
      modifies this`score, rows
      ensures Grid() == Up(old(Grid())) && score == old(score) + UpPoints(old(Grid()))
      ensures success <==> Grid() != old(Grid())
    {
      ghost var b := Grid();
      UpStart(b);
      hide Slid, UpPoints, Valid, Grid, Square, Up, UpTo;
      success := false;
      for x := 0 to n
        invariant Grid() == UpTo(b, x) && score == old(score) + UpPoints(b[..x])
        invariant success <==> Grid() != b
      {
        UpStep(b, x);
        UpPointsLast(b, x);
        var s := SlideRow(x);
        success := success || s;
      }
      assert b[..n] == b;
    }

    method MoveLeft() returns (success: bool)
      requires Valid()
      modifies this`score, rows
      ensures Grid() == Left(old(Grid())) && score == old(score) + MovePoints(ToLeft, old(Grid()))
      ensures success <==> Grid() != old(Grid())
    {
      hide Rot, Up, UpPoints, Valid, Grid, Square;
      MovedIff(ToLeft, Grid());
      RotateBoard();
      success := MoveUp();
      RotateBoard();
      RotateBoard();
      RotateBoard();
    }

    method MoveDown() returns (success: bool)
      requires Valid()
      modifies this`score, rows
      ensures Grid() == Down(old(Grid())) && score == old(score) + MovePoints(ToDown, old(Grid()))
      ensures success <==> Grid() != old(Grid())
    {
      hide Rot, Up, UpPoints, Valid, Grid, Square;
      MovedIff(ToDown, Grid());
      RotateBoard();
      RotateBoard();
      success := MoveUp();
      RotateBoard();
      RotateBoard();
    }

    method MoveRight() returns (success: bool)
      requires Valid()
      modifies this`score, rows
      ensures Grid() == Right(old(Grid())) && score == old(score) + MovePoints(ToRight, old(Grid()))
      ensures success <==> Grid() != old(Grid())
    {
      hide Rot, Up, UpPoints, Valid, Grid, Square;
      MovedIff(ToRight, Grid());
      RotateBoard();
      RotateBoard();
      RotateBoard();
      success := MoveUp();
      RotateBoard();
    }

    method FindPairDown() returns (success: bool)
      requires Valid()
      ensures success <==> RowPair(Grid())
    {
      ghost var b := Grid();
      for x := 0 to n
        invariant forall i, j :: 0 <= i < x && 0 < j < n ==> b[i][j - 1] != b[i][j]
      {
        for y := 0 to n - 1
          invariant forall j :: 0 < j <= y ==> b[x][j - 1] != b[x][j]
        {
          if At(x, y) == At(x, y + 1) { return true; }
        }
      }
      return false;
    }

    method CountEmpty() returns (count: nat)
      requires Valid()
      ensures count == |Empties(Grid(), n, 0)|
    {
      ghost var b := Grid();
      count := 0;
      for x := 0 to n
        invariant count == |Empties(b, x, 0)|
      {
        for y := 0 to n
          invariant count == |Empties(b, x, y)|
        {
          if At(x, y) == 0 { count := count + 1; }
        }
      }
    }

    method GameEnded() returns (ended: bool)
      requires Valid()
      modifies rows
      ensures Grid() == old(Grid()) && ended == Over(Grid())
    {
      hide Rot, Empties, Valid, Grid, Square;
      EmptiesFull(Grid());
      RotFour(Grid());
      ended := true;
      var count := CountEmpty();
      if count > 0 { return false; }
      var pair := FindPairDown();
      if pair { return false; }
      RotateBoard();
      pair := FindPairDown();
      if pair { ended := false; }
      RotateBoard();
      RotateBoard();
      RotateBoard();
    }

    method Rand() returns (r: nat)
      modifies this`rolled
      ensures r == dice(old(rolled)) && rolled == old(rolled) + 1
    {
      r := dice(rolled);
      rolled := rolled + 1;
    }

    method AddRandom()
      requires Valid()
      modifies this`rolled, this`fours, rows
      ensures Here() == Spawned(old(Here()), dice)
    {
      hide Put, Valid, Grid, Square;
      ghost var b := Grid();
      var list: seq<(nat, nat)> := [];
      for x := 0 to n
        invariant list == Empties(b, x, 0)
      {
        for y := 0 to n
          invariant list == Empties(b, x, y)
        {
          if At(x, y) == 0 { list := list + [(x, y)]; }
        }
      }
      if |list| > 0 {
        var r := Rand();
        var c := list[r % |list|];
        r := Rand();
        Set(c.0, c.1, r % 10 / 9 + 1);
        fours := fours + (if r % 10 / 9 + 1 == 2 then 1 else 0);
      }
    }

    method InitBoard()
      requires Valid()
      modifies this, rows
      ensures Here() == Deal(n, dice, old(rolled))
    {
      hide Valid, Grid, Put;
      for x := 0 to n
        invariant rolled == old(rolled)
        invariant forall i, j {:trigger At(i, j)} :: 0 <= i < x && 0 <= j < n ==> At(i, j) == 0
      {
        for y := 0 to n
          invariant rolled == old(rolled)
          invariant forall i, j {:trigger At(i, j)} :: 0 <= i <= x && 0 <= j < (if i < x then n else y) ==> At(i, j) == 0
        {
          ghost var b := Grid();
          forall i, j | 0 <= i <= x && 0 <= j < (if i < x then n else y) ensures b[i][j] == 0 { assert At(i, j) == 0; }
          Set(x, y, 0);
        }
      }
      forall i, j | 0 <= i < n && 0 <= j < n ensures Grid()[i][j] == Blank(n)[i][j] { assert At(i, j) == 0; }
      SameGrid(Grid(), Blank(n));
      score, fours := 0, 0;
      AddRandom();
      AddRandom();
      score := 0;
      SpawnStatus(Position(Blank(n), 0, 0, old(rolled), Running), dice);
      SpawnStatus(Spawned(Position(Blank(n), 0, 0, old(rolled), Running), dice), dice);
    }

    method Move(c: char) returns (success: bool)
      requires Valid()
      modifies this`score, rows
      ensures success <==> Key(c).Some? && Moved(Key(c).value, old(Grid())) != old(Grid())
      ensures Grid() == if success then Moved(Key(c).value, old(Grid())) else old(Grid())
      ensures score == old(score) + if success then MovePoints(Key(c).value, old(Grid())) else 0
      ensures Slides(c, old(Grid()), Grid())
    {
      hide Valid, Grid, Square, Up, Left, Down, Right, Sum, MovePoints;
      ghost var b := Grid();
      MovePointsUp(b);
      if c == 'a' || c == 'h' || c == 'D' {
        success := MoveLeft();
      } else if c == 'd' || c == 'l' || c == 'C' {
        success := MoveRight();
      } else if c == 'w' || c == 'k' || c == 'A' {
        success := MoveUp();
      } else if c == 's' || c == 'j' || c == 'B' {
        success := MoveDown();
      } else {
        success := false;
      }
      KeySlides(c, b);
      if Key(c).Some? && !success { MoveTotals(Key(c).value, b); }
    }

    /** One key: move, and if that changed something, spawn and look for the end. */
    method Turn(c: char) returns (ended: bool)
      requires Valid()
      modifies this, rows
      ensures Here().(status := if ended then GameOver else Running) == Press(old(Here()), c, dice)
    {
      hide Moved, MovePoints, Over, Key, Spawned, Valid, Grid, Square;
      ghost var p := Here();
      ended := false;
      var success := Move(c);
      if success {
        SpawnStatus(Here(), dice);
        AddRandom();
        ended := GameEnded();
      }
    }

    /** The main loop: one call plays a whole game. */
    method Run(input: string) returns (status: Status)
      requires Valid()
      modifies this, rows
      ensures Here().(status := status) == Play(Deal(n, dice, old(rolled)), input, dice)
    {
      hide Press, Deal, Valid, Grid, Square, Play;
      ghost var p := Deal(n, dice, rolled);
      InitBoard();
      var i := 0;
      while i < |input|
        invariant i <= |input|
        invariant Play(Here(), input[i..], dice) == Play(p, input, dice)
      {
        ghost var q, rest := Here(), input[i..];
        var c := input[i];
        i := i + 1;
        PlayStep(q, rest, dice);
        var ended := Turn(c);
        if ended { return GameOver; }
        ghost var from := i - 1;
        if c == 'q' && i < |input| {
          c := input[i];
          i := i + 1;
          if c == 'y' { return Quit; }
        }
        if c == 'r' && i < |input| {
          c := input[i];
          i := i + 1;
          if c == 'y' { InitBoard(); }
        }
        assert rest[i - from..] == input[i..];
      }
      PlayEnd(Here(), dice);
      assert input[i..] == "";
      return Running;
    }
  }
}
