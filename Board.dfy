/**
 * The rules of the 3x3 board as pure functions on the board's contents.
 * A board is the sequence of its nine cells in row-major order; each cell
 * holds one of the characters ' ' (empty), 'X' or 'O', exactly as the game
 * class stores them.
 */
module Board {
  import opened Wrappers

  const Empty: char := ' '
  const X: char := 'X'
  const O: char := 'O'

  /** Number of cells on the board. */
  const Size: nat := 9

  /** The eight winning combinations: three rows, three columns, two diagonals. */
  const Lines: seq<seq<nat>> :=
    [[0, 1, 2], [3, 4, 5], [6, 7, 8],
     [0, 3, 6], [1, 4, 7], [2, 5, 8],
     [0, 4, 8], [2, 4, 6]]

  predicate IsMark(c: char) { c == X || c == O }

  predicate IsCell(c: char) { c == Empty || IsMark(c) }

  /** The player who moves after `p`. */
  function Other(p: char): (q: char)
    ensures IsMark(p) ==> IsMark(q) && q != p
  {
    if p == O then X else O
  }

  /** Every cell of `line` is on the board and holds `p`. */
  predicate Holds(b: seq<char>, line: seq<nat>, p: char) {
    forall j :: 0 <= j < |line| ==> line[j] < |b| && b[line[j]] == p
  }

  /** Some winning combination is entirely held by `p`. */
  predicate Wins(b: seq<char>, p: char) {
    exists k :: 0 <= k < |Lines| && Holds(b, Lines[k], p)
  }

  /** Reference formulation of a win in terms of rows (index / 3),
      columns (index % 3) and the two diagonals. */
  predicate WinsByGeometry(b: seq<char>, p: char)
    requires |b| == Size
  {
    (exists r :: 0 <= r < 3 && b[3 * r] == p && b[3 * r + 1] == p && b[3 * r + 2] == p)
    || (exists c :: 0 <= c < 3 && b[c] == p && b[c + 3] == p && b[c + 6] == p)
    || (b[0] == p && b[4] == p && b[8] == p)
    || (b[2] == p && b[4] == p && b[6] == p)
  }

  lemma LinesOnBoard()
    ensures |Lines| == 8
    ensures forall k :: 0 <= k < |Lines| ==> |Lines[k]| == 3
    ensures forall k, j :: 0 <= k < |Lines| && 0 <= j < |Lines[k]| ==> Lines[k][j] < Size
  {
  }

  lemma WinsToGeometry(b: seq<char>, p: char)
    requires |b| == Size && Wins(b, p)
    ensures WinsByGeometry(b, p)
  {
    var k :| 0 <= k < |Lines| && Holds(b, Lines[k], p);
    var line := Lines[k];
    assert b[line[0]] == p && b[line[1]] == p && b[line[2]] == p;
    if k < 3 {
      assert line == [3 * k, 3 * k + 1, 3 * k + 2];
    } else if k < 6 {
      assert line == [k - 3, k, k + 3];
    }
  }

  lemma GeometryToWins(b: seq<char>, p: char)
    requires |b| == Size && WinsByGeometry(b, p)
    ensures Wins(b, p)
  {
    if exists r :: 0 <= r < 3 && b[3 * r] == p && b[3 * r + 1] == p && b[3 * r + 2] == p {
      var r :| 0 <= r < 3 && b[3 * r] == p && b[3 * r + 1] == p && b[3 * r + 2] == p;
      assert Lines[r] == [3 * r, 3 * r + 1, 3 * r + 2];
      assert Holds(b, Lines[r], p);
    } else if exists c :: 0 <= c < 3 && b[c] == p && b[c + 3] == p && b[c + 6] == p {
      var c :| 0 <= c < 3 && b[c] == p && b[c + 3] == p && b[c + 6] == p;
      assert Lines[c + 3] == [c, c + 3, c + 6];
      assert Holds(b, Lines[c + 3], p);
    } else if b[0] == p && b[4] == p && b[8] == p {
      assert Holds(b, Lines[6], p);
    } else {
      assert Holds(b, Lines[7], p);
    }
  }

  /** The list of winning combinations is exactly the rows, columns and diagonals. */
  lemma WinsIffGeometry(b: seq<char>, p: char)
    requires |b| == Size
    ensures Wins(b, p) <==> WinsByGeometry(b, p)
  {
    if Wins(b, p) {
      WinsToGeometry(b, p);
    }
    if WinsByGeometry(b, p) {
      GeometryToWins(b, p);
    }
  }

  /** A line `p` holds on `b` is still held on any board that keeps every
      mark `p` has on `b`. */
  lemma WinsKept(b: seq<char>, c: seq<char>, p: char)
    requires |b| == |c|
    requires forall i :: 0 <= i < |b| && b[i] == p ==> c[i] == p
    ensures Wins(b, p) ==> Wins(c, p)
  {
    if Wins(b, p) {
      var k :| 0 <= k < |Lines| && Holds(b, Lines[k], p);
      assert Holds(c, Lines[k], p);
    }
  }

  /** `p` has no line when its marks lie among at most three cells that no
      line covers; with a repeated cell, fewer than three. */
  lemma NoLineAmong(b: seq<char>, p: char, i: nat, j: nat, f: nat)
    requires |b| == Size
    requires forall n :: 0 <= n < |b| && b[n] == p ==> n == i || n == j || n == f
    requires i == j || j == f || i == f
      || forall k :: 0 <= k < |Lines| ==> !(i in Lines[k] && j in Lines[k] && f in Lines[k])
    ensures !Wins(b, p)
  {
    forall k | 0 <= k < |Lines|
      ensures !Holds(b, Lines[k], p)
    {
      var line := Lines[k];
      assert |line| == 3 && line[0] != line[1] && line[1] != line[2] && line[0] != line[2];
    }
  }

  /** When `p` holds only cells `i` and `j` and no line passes through
      both, one more mark of `p` on an empty cell completes no line. */
  lemma NoLineThrough(b: seq<char>, p: char, i: nat, j: nat)
    requires |b| == Size
    requires forall n :: 0 <= n < |b| && b[n] == p ==> n == i || n == j
    requires forall k :: 0 <= k < |Lines| ==> !(i in Lines[k] && j in Lines[k])
    ensures forall f :: 0 <= f < |b| && b[f] == Empty ==> !Wins(b[f := p], p)
  {
    forall f | 0 <= f < |b| && b[f] == Empty
      ensures !Wins(b[f := p], p)
    {
      NoLineAmong(b[f := p], p, i, j, f);
    }
  }

  /** No cell is empty. */
  predicate IsFull(b: seq<char>) {
    forall i :: 0 <= i < |b| ==> b[i] != Empty
  }

  /** Indices below `n` whose cell is empty, in the order they are visited. */
  function EmptyBelow(b: seq<char>, n: nat): seq<nat>
    requires n <= |b|
  {
    if n == 0 then []
    else EmptyBelow(b, n - 1) + (if b[n - 1] == Empty then [n - 1] else [])
  }

  /** The legal moves: every empty index, ascending. */
  function EmptyCells(b: seq<char>): seq<nat> {
    EmptyBelow(b, |b|)
  }

  predicate StrictlyAscending(s: seq<nat>) {
    forall i, j :: 0 <= i < j < |s| ==> s[i] < s[j]
  }

  /** Every index lists an empty cell of `b`. */
  predicate AllEmpty(b: seq<char>, ms: seq<nat>) {
    forall i :: 0 <= i < |ms| ==> ms[i] < |b| && b[ms[i]] == Empty
  }

  lemma {:induction false} EmptyBelowSpec(b: seq<char>, n: nat)
    requires n <= |b|
    ensures AllEmpty(b, EmptyBelow(b, n))
    ensures forall i :: 0 <= i < |EmptyBelow(b, n)| ==> EmptyBelow(b, n)[i] < n
    ensures StrictlyAscending(EmptyBelow(b, n))
    ensures forall c :: 0 <= c < n && b[c] == Empty ==> c in EmptyBelow(b, n)
  {
    if n > 0 {
      EmptyBelowSpec(b, n - 1);
    }
  }

  /** The legal moves are exactly the empty cells, strictly ascending. */
  lemma EmptyCellsSpec(b: seq<char>)
    ensures AllEmpty(b, EmptyCells(b))
    ensures StrictlyAscending(EmptyCells(b))
    ensures forall c :: 0 <= c < |b| && b[c] == Empty ==> c in EmptyCells(b)
    ensures EmptyCells(b) == [] <==> IsFull(b)
  {
    EmptyBelowSpec(b, |b|);
    if !IsFull(b) {
      var c :| 0 <= c < |b| && b[c] == Empty;
      assert c in EmptyCells(b);
    }
    if EmptyCells(b) != [] {
      assert b[EmptyCells(b)[0]] == Empty;
    }
  }

  /** How many times `c` occurs on the board. */
  function Count(b: seq<char>, c: char): nat {
    multiset(b)[c]
  }

  /** Placing a mark on an empty cell turns one empty cell into one more
      of that mark and leaves every other count alone. */
  lemma PlaceCounts(b: seq<char>, m: nat, p: char)
    requires m < |b| && b[m] == Empty && p != Empty
    ensures Count(b[m := p], Empty) == Count(b, Empty) - 1
    ensures Count(b[m := p], p) == Count(b, p) + 1
    ensures forall c :: c != Empty && c != p ==> Count(b[m := p], c) == Count(b, c)
  {
  }

  /** The decimal digit naming cell `d`. */
  function Digit(d: nat): (c: char)
    requires d < 10
  {
    ('0' as int + d) as char
  }

  /** The log entry `p:m` recorded for a move. */
  function Token(p: char, m: nat): (t: string)
    requires m < Size
    ensures ParseToken(t) == Some((p, m))
  {
    [p, ':'] + [Digit(m)]
  }

  /** Reads a log entry back into its mark and cell. */
  function ParseToken(t: string): Option<(char, nat)> {
    if |t| == 3 && t[1] == ':' && '0' <= t[2] <= '9'
    then Some((t[0], (t[2] as int - '0' as int) as nat))
    else None
  }
}
