/**
 * The value of a position under exhaustive minimax search, and the move the
 * engine picks for 'O', as functions on the board's contents. 'O' is the
 * maximizing side (+1 for an 'O' win), 'X' the minimizing side (-1).
 */
module Minimax {
  import opened Wrappers
  import opened Board

  /** Stand-ins for the search's `-inf` and `+inf` starting values. */
  const MinusInf: int := -2
  const PlusInf: int := 2

  function Max(a: int, b: int): int { if a >= b then a else b }

  function Min(a: int, b: int): int { if a <= b then a else b }

  /** Where the running value starts: `-inf` for 'O', `+inf` for 'X'. */
  function Start(maximizing: bool): int { if maximizing then MinusInf else PlusInf }

  /** The running value after seeing a child of value `s`. */
  function Better(maximizing: bool, s: int, acc: int): int {
    if maximizing then Max(s, acc) else Min(s, acc)
  }

  /** The mark the side to move places. */
  function Mover(maximizing: bool): char { if maximizing then O else X }

  /** Number of empty cells: the search measure. */
  function EmptyCount(b: seq<char>): nat { Count(b, Empty) }

  /** Minimax value of `b` with `maximizing` telling whether 'O' is to move.
      Terminal positions are tested in the order: 'X' has won, 'O' has won,
      the board is full. */
  function Score(b: seq<char>, maximizing: bool): (r: int)
    decreases EmptyCount(b), 1, 0
    ensures -1 <= r <= 1
  {
    if Wins(b, X) then -1
    else if Wins(b, O) then 1
    else if IsFull(b) then 0
    else
      EmptyCellsSpec(b);
      Fold(b, maximizing, EmptyCells(b), Start(maximizing))
  }

  /** Running maximum (or minimum) of the children's values over the
      moves `ms`, taken left to right starting from `acc`. */
  function Fold(b: seq<char>, maximizing: bool, ms: seq<nat>, acc: int): (r: int)
    requires AllEmpty(b, ms)
    requires MinusInf <= acc <= PlusInf
    requires if maximizing then acc <= 1 else -1 <= acc
    decreases EmptyCount(b), 0, |ms|
    ensures ms == [] ==> r == acc
    ensures ms != [] ==> -1 <= r <= 1
  {
    if ms == [] then acc
    else
      var m := ms[0];
      PlaceCounts(b, m, Mover(maximizing));
      var s := Score(b[m := Mover(maximizing)], !maximizing);
      Fold(b, maximizing, ms[1..], Better(maximizing, s, acc))
  }

  /** The value 'O' obtains by playing on cell `m`, 'X' then being to move. */
  function MoveScore(b: seq<char>, m: nat): int
    requires m < |b|
  {
    ChildScore(b, m, true)
  }

  /** The move chosen among `ms`: the first one whose value strictly exceeds
      every value seen before it, starting from `bestScore` and `best`. */
  function BestFrom(b: seq<char>, ms: seq<nat>, bestScore: int, best: Option<nat>): Option<nat>
    requires AllEmpty(b, ms)
  {
    if ms == [] then best
    else
      var s := MoveScore(b, ms[0]);
      if s > bestScore then BestFrom(b, ms[1..], s, Some(ms[0]))
      else BestFrom(b, ms[1..], bestScore, best)
  }

  /** The engine's move for 'O' on board `b`, if there is an empty cell. */
  function BestMove(b: seq<char>): Option<nat> {
    EmptyCellsSpec(b);
    BestFrom(b, EmptyCells(b), MinusInf, None)
  }

  lemma AscendingIndex(s: seq<nat>, k: nat, i: nat)
    requires StrictlyAscending(s) && k < |s| && i < |s| && s[k] < s[i]
    ensures k < i
  {
  }

  /** Value of the child reached when the side to move plays on `m`. */
  function ChildScore(b: seq<char>, m: nat, maximizing: bool): int
    requires m < |b|
  {
    Score(b[m := Mover(maximizing)], !maximizing)
  }

  /** Ahead of `acc`, the fold is the best child value for the side to move
      (an upper bound when maximizing, a lower bound when minimizing) and it
      is attained by one of the moves unless it is still `acc`. */
  lemma {:induction false} FoldIsExtreme(b: seq<char>, maximizing: bool, ms: seq<nat>, acc: int)
    requires AllEmpty(b, ms)
    requires MinusInf <= acc <= PlusInf
    requires if maximizing then acc <= 1 else -1 <= acc
    ensures var r := Fold(b, maximizing, ms, acc);
      && (forall i :: 0 <= i < |ms| ==>
            if maximizing then ChildScore(b, ms[i], maximizing) <= r else r <= ChildScore(b, ms[i], maximizing))
      && (if maximizing then acc <= r else r <= acc)
      && (r == acc || exists i :: 0 <= i < |ms| && r == ChildScore(b, ms[i], maximizing))
  {
    if ms != [] {
      var s := ChildScore(b, ms[0], maximizing);
      var acc' := Better(maximizing, s, acc);
      FoldIsExtreme(b, maximizing, ms[1..], acc');
      var r := Fold(b, maximizing, ms, acc);
      assert r == Fold(b, maximizing, ms[1..], acc');
      forall i | 0 <= i < |ms|
        ensures if maximizing then ChildScore(b, ms[i], maximizing) <= r else r <= ChildScore(b, ms[i], maximizing)
      {
        if i > 0 {
          assert ms[i] == ms[1..][i - 1];
        }
      }
      if r != acc && r != acc' {
        var i :| 0 <= i < |ms[1..]| && r == ChildScore(b, ms[1..][i], maximizing);
        assert ms[1..][i] == ms[i + 1];
      }
    }
  }

  /** In a position that is not over, the minimax value is the maximum of the
      children's values when 'O' is to move and their minimum when 'X' is. */
  lemma ScoreIsBestChild(b: seq<char>, maximizing: bool)
    requires !Wins(b, X) && !Wins(b, O) && !IsFull(b)
    ensures forall m :: 0 <= m < |b| && b[m] == Empty ==>
      if maximizing then ChildScore(b, m, maximizing) <= Score(b, maximizing)
      else Score(b, maximizing) <= ChildScore(b, m, maximizing)
    ensures exists m :: 0 <= m < |b| && b[m] == Empty && Score(b, maximizing) == ChildScore(b, m, maximizing)
  {
    EmptyCellsSpec(b);
    var ms := EmptyCells(b);
    var acc := Start(maximizing);
    FoldIsExtreme(b, maximizing, ms, acc);
    assert Score(b, maximizing) == Fold(b, maximizing, ms, acc);
    var i :| 0 <= i < |ms| && Score(b, maximizing) == ChildScore(b, ms[i], maximizing);
    assert b[ms[i]] == Empty;
    forall m | 0 <= m < |b| && b[m] == Empty
      ensures if maximizing then ChildScore(b, m, maximizing) <= Score(b, maximizing)
              else Score(b, maximizing) <= ChildScore(b, m, maximizing)
    {
      assert m in ms;
    }
  }

  /** Some move of `ms` has a value above `bestScore`. */
  predicate Beats(b: seq<char>, ms: seq<nat>, bestScore: int)
    requires AllEmpty(b, ms)
  {
    exists j :: 0 <= j < |ms| && bestScore < MoveScore(b, ms[j])
  }

  /** `ms[i]` has the greatest value among `ms`, and every move listed
      before it has a strictly smaller value. */
  predicate FirstBest(b: seq<char>, ms: seq<nat>, i: nat)
    requires AllEmpty(b, ms) && i < |ms|
  {
    && (forall j :: 0 <= j < |ms| ==> MoveScore(b, ms[j]) <= MoveScore(b, ms[i]))
    && (forall j :: 0 <= j < i ==> MoveScore(b, ms[j]) < MoveScore(b, ms[i]))
  }

  /** A first best move of the tail stays first best once a head of value
      below it is put in front. */
  lemma FirstBestCons(b: seq<char>, ms: seq<nat>, i: nat)
    requires AllEmpty(b, ms) && 0 < |ms| && i < |ms| - 1
    requires FirstBest(b, ms[1..], i)
    requires MoveScore(b, ms[0]) < MoveScore(b, ms[i + 1])
    ensures FirstBest(b, ms, i + 1)
  {
  }

  /** The head is first best when nothing in the tail beats it. */
  lemma FirstBestHead(b: seq<char>, ms: seq<nat>)
    requires AllEmpty(b, ms) && 0 < |ms|
    requires !Beats(b, ms[1..], MoveScore(b, ms[0]))
    ensures FirstBest(b, ms, 0)
  {
  }

  /** Scanning `ms` with a strict comparison picks the first move of greatest
      value, provided some move beats `bestScore`; otherwise it keeps `best`. */
  lemma {:induction false} BestFromSpec(b: seq<char>, ms: seq<nat>, bestScore: int, best: Option<nat>)
    requires AllEmpty(b, ms)
    ensures Beats(b, ms, bestScore) ==>
      exists i :: 0 <= i < |ms| && BestFrom(b, ms, bestScore, best) == Some(ms[i])
        && bestScore < MoveScore(b, ms[i]) && FirstBest(b, ms, i)
    ensures !Beats(b, ms, bestScore) ==> BestFrom(b, ms, bestScore, best) == best
  {
    if ms != [] {
      var s := MoveScore(b, ms[0]);
      var tail := ms[1..];
      var r := BestFrom(b, ms, bestScore, best);
      var bs', best' := if s > bestScore then s else bestScore, if s > bestScore then Some(ms[0]) else best;
      BestFromSpec(b, tail, bs', best');
      assert r == BestFrom(b, tail, bs', best');
      if Beats(b, tail, bs') {
        var i :| 0 <= i < |tail| && r == Some(tail[i]) && bs' < MoveScore(b, tail[i]) && FirstBest(b, tail, i);
        FirstBestCons(b, ms, i);
        assert tail[i] == ms[i + 1];
      } else if s > bestScore {
        FirstBestHead(b, ms);
        assert r == Some(ms[0]);
      } else {
        forall j | 0 <= j < |ms| ensures MoveScore(b, ms[j]) <= bestScore {
          if j > 0 { assert ms[j] == tail[j - 1]; }
        }
      }
    }
  }

  /** On a board with an empty cell, the engine's move is an empty cell of
      greatest value for 'O', and every empty cell of lower index has a
      strictly smaller value; with no empty cell there is no move. */
  lemma BestMoveSpec(b: seq<char>)
    ensures BestMove(b) == None <==> IsFull(b)
    ensures BestMove(b).Some? ==>
      var m := BestMove(b).value;
      && m < |b| && b[m] == Empty
      && (forall j :: 0 <= j < |b| && b[j] == Empty ==> MoveScore(b, j) <= MoveScore(b, m))
      && (forall j :: 0 <= j < m && b[j] == Empty ==> MoveScore(b, j) < MoveScore(b, m))
  {
    EmptyCellsSpec(b);
    var ms := EmptyCells(b);
    BestFromSpec(b, ms, MinusInf, None);
    assert BestMove(b) == BestFrom(b, ms, MinusInf, None);
    if ms != [] {
      assert MinusInf < MoveScore(b, ms[0]);
      var i :| 0 <= i < |ms| && BestMove(b) == Some(ms[i]) && FirstBest(b, ms, i);
      forall j | 0 <= j < |b| && b[j] == Empty
        ensures MoveScore(b, j) <= MoveScore(b, ms[i])
        ensures j < ms[i] ==> MoveScore(b, j) < MoveScore(b, ms[i])
      {
        assert j in ms;
        var k :| 0 <= k < |ms| && ms[k] == j;
        if j < ms[i] {
          AscendingIndex(ms, k, i);
        }
      }
    }
  }

  /** In a position that is not over, the engine's move achieves exactly the
      minimax value of the position with 'O' to move. */
  lemma BestMoveAttainsScore(b: seq<char>)
    requires !Wins(b, X) && !Wins(b, O) && !IsFull(b)
    ensures BestMove(b).Some?
    ensures BestMove(b).value < |b| && MoveScore(b, BestMove(b).value) == Score(b, true)
  {
    BestMoveSpec(b);
    ScoreIsBestChild(b, true);
  }

  /** 'X' to move in an open position with an empty cell `t` on which it
      completes a line: the position is lost for 'O'. */
  lemma ThreatLoses(b: seq<char>, t: nat)
    requires !Wins(b, X) && !Wins(b, O)
    requires t < |b| && b[t] == Empty && Wins(b[t := X], X)
    ensures Score(b, false) == -1
  {
    ScoreIsBestChild(b, false);
    assert ChildScore(b, t, false) == -1;
  }

  /** 'O' to move, playing on `m` while 'X' would complete a line on another
      empty cell `t`: unless the move on `m` wins, 'O' loses. */
  lemma IgnoringThreatLoses(b: seq<char>, m: nat, t: nat)
    requires !Wins(b, X)
    requires m < |b| && b[m] == Empty && !Wins(b[m := O], O)
    requires t < |b| && b[t] == Empty && Wins(b[t := X], X)
    requires m != t
    ensures ChildScore(b, m, true) == -1
  {
    var c := b[m := O];
    WinsKept(c, b, X);
    WinsKept(b[t := X], c[t := X], X);
    ThreatLoses(c, t);
  }

  /** 'O' to move in an open position, with no line 'O' can complete and two
      cells on which 'X' would complete one: every move of 'O' loses. */
  lemma ForkLoses(b: seq<char>, t1: nat, t2: nat)
    requires !Wins(b, X) && !Wins(b, O)
    requires forall m :: 0 <= m < |b| && b[m] == Empty ==> !Wins(b[m := O], O)
    requires t1 < |b| && b[t1] == Empty && Wins(b[t1 := X], X)
    requires t2 < |b| && b[t2] == Empty && Wins(b[t2 := X], X)
    requires t1 != t2
    ensures Score(b, true) == -1
  {
    ScoreIsBestChild(b, true);
    forall m | 0 <= m < |b| && b[m] == Empty
      ensures ChildScore(b, m, true) == -1
    {
      IgnoringThreatLoses(b, m, if m == t1 then t2 else t1);
    }
  }

  /** The engine blocks an immediate threat: in an open position where 'O'
      cannot complete a line, 'X' would complete one on `t`, and the position
      is not lost for 'O', the engine plays on `t`. */
  lemma BlocksThreat(b: seq<char>, t: nat)
    requires !Wins(b, X) && !Wins(b, O)
    requires forall m :: 0 <= m < |b| && b[m] == Empty ==> !Wins(b[m := O], O)
    requires t < |b| && b[t] == Empty && Wins(b[t := X], X)
    requires Score(b, true) >= 0
    ensures BestMove(b) == Some(t)
  {
    assert !IsFull(b);
    BestMoveAttainsScore(b);
    BestMoveSpec(b);
    forall m | 0 <= m < |b| && b[m] == Empty && m != t
      ensures MoveScore(b, m) == -1
    {
      IgnoringThreatLoses(b, m, t);
    }
  }

  /** In a lost position every move has value -1, so the strict `>` scan
      keeps the lowest empty cell `m`. */
  lemma LostPlaysLowest(b: seq<char>, m: nat)
    requires !Wins(b, X) && !Wins(b, O) && Score(b, true) == -1
    requires m < |b| && b[m] == Empty
    requires forall j :: 0 <= j < m ==> b[j] != Empty
    ensures BestMove(b) == Some(m)
  {
    assert !IsFull(b);
    BestMoveAttainsScore(b);
    BestMoveSpec(b);
  }

  /** With 'X' on 0, 4 and 6, 'O' on 1 and 8, every other cell empty and
      'O' to move, 'X' threatens both 2 and 3 and 'O' cannot win at once. */
  lemma DoubleThreatLoses(d: seq<char>)
    requires |d| == Size
    requires d[0] == X && d[1] == O && d[4] == X && d[6] == X && d[8] == O
    requires forall i :: 0 <= i < Size && i != 0 && i != 1 && i != 4 && i != 6 && i != 8 ==> d[i] == Empty
    ensures Score(d, true) == -1
  {
    NoLineAmong(d, X, 0, 4, 6);
    NoLineThrough(d, O, 1, 8);
    assert Holds(d[2 := X], Lines[7], X);
    assert Holds(d[3 := X], Lines[3], X);
    ForkLoses(d, 2, 3);
  }

  /** With 'X' on 0 and 4, 'O' on 1 and 8, every other cell empty and 'X'
      to move, 'X' plays 6 and then threatens both 2 and 3. */
  lemma BlockOnEightLoses(c: seq<char>)
    requires |c| == Size
    requires c[0] == X && c[1] == O && c[4] == X && c[8] == O
    requires forall i :: 0 <= i < Size && i != 0 && i != 1 && i != 4 && i != 8 ==> c[i] == Empty
    ensures Score(c, false) == -1
  {
    NoLineAmong(c, X, 0, 4, 4);
    NoLineAmong(c, O, 1, 8, 8);
    DoubleThreatLoses(c[6 := X]);
    assert c[6] == Empty;
    ScoreIsBestChild(c, false);
  }

  /** With 'X' on 0 and 4, 'O' on 1, every other cell empty and 'O' to move,
      every move of 'O' loses. */
  lemma ThreatOnEightLost(b: seq<char>)
    requires |b| == Size
    requires b[0] == X && b[1] == O && b[4] == X
    requires forall i :: 0 <= i < Size && i != 0 && i != 1 && i != 4 ==> b[i] == Empty
    ensures !Wins(b, X) && !Wins(b, O) && Score(b, true) == -1
  {
    NoLineAmong(b, X, 0, 4, 4);
    NoLineAmong(b, O, 1, 1, 1);
    assert Holds(b[8 := X], Lines[6], X);
    forall e | 0 <= e < Size && b[e] == Empty
      ensures ChildScore(b, e, true) == -1
    {
      if e != 8 {
        NoLineAmong(b[e := O], O, 1, e, e);
        IgnoringThreatLoses(b, e, 8);
      } else {
        BlockOnEightLoses(b[e := O]);
      }
    }
    assert b[2] == Empty;
    ScoreIsBestChild(b, true);
  }

  /** With 'X' on 0 and 4, 'O' on 1, every other cell empty and 'O' to move,
      'X' threatens to complete the diagonal on cell 8, yet the engine plays
      cell 2: blocking on 8 loses to 'X' on 6, which threatens both 2 and 3,
      so every move has value -1 and the lowest empty cell is kept. */
  lemma DoesNotBlockLostThreat(b: seq<char>)
    requires |b| == Size
    requires b[0] == X && b[1] == O && b[4] == X
    requires forall i :: 0 <= i < Size && i != 0 && i != 1 && i != 4 ==> b[i] == Empty
    ensures b[8] == Empty && Wins(b[8 := X], X)
    ensures BestMove(b) == Some(2)
  {
    assert Holds(b[8 := X], Lines[6], X);
    ThreatOnEightLost(b);
    LostPlaysLowest(b, 2);
  }

  /** With 'O' on 0 and 1, 'X' on 3 and 4, every other cell empty and 'O' to
      move, the engine completes the top row on cell 2. */
  lemma CompletesTopRow(b: seq<char>)
    requires |b| == Size
    requires b[0] == O && b[1] == O && b[2] == Empty && b[3] == X && b[4] == X
    requires forall i :: 5 <= i < Size ==> b[i] == Empty
    ensures BestMove(b) == Some(2)
  {
    var c := b[2 := O];
    WinsIffGeometry(c, X);
    assert Holds(c, Lines[0], O);
    assert MoveScore(b, 2) == 1;
    BestMoveSpec(b);
  }
}
