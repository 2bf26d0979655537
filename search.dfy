/**
  The backtracking search of `solve` on board values: one step of
  `test_cell`, the invariant the search loop keeps, its outcome, and the
  measure that shows the loop ends.
*/
module Search {
  import opened Grid

  // ---------------------------------------------------------------------
  // One step of `test_cell`

  datatype StepResult = StepResult(board: Board, code: int)

  /**
    `test_cell(index)` on the free-cell list `fs`: an empty cell tries 1, a
    value k in 1..8 is cleared and k + 1 is tried; anything else (a 9) stops
    the search at index 0 and is cleared with a step back elsewhere. The
    candidate is written whether it is legal or not; a legal one moves
    forward (or stops at the last index), an illegal one stays.
  */
  function TestStep(b: Board, fs: seq<Point>, index: int): (r: StepResult)
    requires IsBoard(b) && AllInGrid(fs) && 0 <= index < |fs|
    ensures IsBoard(r.board) && r.code in {-1, 0, 1, 5}
    ensures forall q :: InGrid(q) && q != fs[index] ==> At(r.board, q) == At(b, q)
  {
    var loc := fs[index];
    var x := At(b, loc);
    if x == 0 || 0 < x < 9 then
      var v := if x == 0 then 1 else x + 1;
      var cleared := if x == 0 then b else Set(b, loc, 0);
      var placed := Set(cleared, loc, v);
      if Legal(cleared, v, loc) then
        StepResult(placed, if index == |fs| - 1 then 5 else 1)
      else
        StepResult(placed, 0)
    else if index == 0 then
      StepResult(b, 5)
    else
      StepResult(Set(b, loc, 0), -1)
  }

  // ---------------------------------------------------------------------
  // Views of a board along the free-cell list

  /** The values of the free cells, in list order. */
  function Digits(b: Board, fs: seq<Point>): (d: seq<int>)
    requires IsBoard(b) && AllInGrid(fs)
    ensures |d| == |fs| && forall j :: 0 <= j < |fs| ==> d[j] == At(b, fs[j])
  {
    seq(|fs|, j requires 0 <= j < |fs| => At(b, fs[j]))
  }

  /** The board with the free cells from index `j` on emptied. */
  function Masked(b: Board, fs: seq<Point>, j: nat): (m: Board)
    requires IsBoard(b) && AllInGrid(fs) && j <= |fs|
    ensures IsBoard(m)
    ensures forall q :: InGrid(q) ==> At(m, q) == if q in fs[j..] then 0 else At(b, q)
  {
    IndexRoundTrip();
    seq(81, k requires 0 <= k < 81 => if FromIndex(k) in fs[j..] then 0 else b[k])
  }

  /** No position occurs twice. */
  predicate Distinct(fs: seq<Point>)
  {
    forall i, j :: 0 <= i < j < |fs| ==> fs[i] != fs[j]
  }

  lemma FreeCellsDistinct(b: Board)
    requires IsBoard(b)
    ensures Distinct(FreeCells(b))
  {
  }

  /** Writing free cell `i` changes the digit vector only at `i`. */
  lemma DigitsSet(b: Board, fs: seq<Point>, i: int, v: int)
    requires IsBoard(b) && AllInGrid(fs) && Distinct(fs) && 0 <= i < |fs|
    ensures Digits(Set(b, fs[i], v), fs) == Digits(b, fs)[i := v]
  {
  }

  /** Writing free cell `i` does not change the boards masked from `j <= i` on. */
  lemma MaskedSet(b: Board, fs: seq<Point>, i: int, j: nat, v: int)
    requires IsBoard(b) && AllInGrid(fs) && 0 <= j <= i < |fs|
    ensures Masked(Set(b, fs[i], v), fs, j) == Masked(b, fs, j)
  {
    assert fs[i] == fs[j..][i - j];
    BoardExt(Masked(Set(b, fs[i], v), fs, j), Masked(b, fs, j));
  }

  /** When the free cells after `i` are empty, masking from `i` on empties exactly cell `i`. */
  lemma MaskedAt(b: Board, fs: seq<Point>, i: int)
    requires IsBoard(b) && AllInGrid(fs) && 0 <= i < |fs|
    requires forall j :: i < j < |fs| ==> At(b, fs[j]) == 0
    ensures Masked(b, fs, i) == Set(b, fs[i], 0)
  {
    forall q | InGrid(q)
      ensures At(Masked(b, fs, i), q) == At(Set(b, fs[i], 0), q)
    {
      if q in fs[i..] && q != fs[i] {
        var k :| 0 <= k < |fs[i..]| && fs[i..][k] == q;
        assert fs[i + k] == q;
      }
    }
    BoardExt(Masked(b, fs, i), Set(b, fs[i], 0));
  }

  // ---------------------------------------------------------------------
  // Completions and the lexicographic frontier of the search

  /**
    `s` fills every empty cell of `g0` with 1..9, keeps every given, and
    breaks no Sudoku rule.
  */
  ghost predicate IsCompletion(g0: Board, s: Board)
    requires IsBoard(g0)
  {
    && IsBoard(s) && Consistent(s)
    && forall q :: InGrid(q) ==> if At(g0, q) != 0 then At(s, q) == At(g0, q) else 1 <= At(s, q) <= 9
  }

  /** Every non-empty cell of `c` holds the same value in `s`. */
  ghost predicate AgreesOnFilled(c: Board, s: Board)
    requires IsBoard(c) && IsBoard(s)
  {
    forall q :: InGrid(q) && At(c, q) != 0 ==> At(s, q) == At(c, q)
  }

  /** A completion that agrees with `c` passes `legal_next` at every empty cell of `c`. */
  lemma CompletionIsLegal(g0: Board, s: Board, c: Board, p: Point)
    requires IsBoard(g0) && IsCompletion(g0, s) && IsBoard(c) && AgreesOnFilled(c, s)
    requires InGrid(p) && At(c, p) == 0
    ensures Legal(c, At(s, p), p)
  {
    forall q | InGrid(q) && Peer(p, q)
      ensures At(c, q) != At(s, p)
    {
    }
    LegalIffNoPeer(c, At(s, p), p);
  }

  /** Digits `s[k..i]` are lexicographically at most `d[k..i]`, given equal digits before `k`. */
  predicate AtMostFrom(s: seq<int>, d: seq<int>, k: nat, i: nat)
    requires k <= i < |s| && |s| == |d|
    decreases i - k
  {
    if k == i then s[i] <= d[i]
    else s[k] < d[k] || (s[k] == d[k] && AtMostFrom(s, d, k + 1, i))
  }

  /** The first `i + 1` digits of `s` are lexicographically at most those of `d`. */
  predicate LexAtMost(s: seq<int>, d: seq<int>, i: nat)
    requires i < |s| && |s| == |d|
  {
    AtMostFrom(s, d, 0, i)
  }

  /** Raising digit `i` by one admits exactly the digit vectors that equal the new prefix. */
  lemma {:induction false} AtMostRaise(s: seq<int>, d: seq<int>, k: nat, i: nat)
    requires k <= i < |s| && |s| == |d|
    ensures AtMostFrom(s, d[i := d[i] + 1], k, i) ==>
      AtMostFrom(s, d, k, i) || ((forall m :: k <= m < i ==> s[m] == d[m]) && s[i] == d[i] + 1)
    decreases i - k
  {
    if k < i {
      AtMostRaise(s, d, k + 1, i);
    }
  }

  /** After a forward step onto an empty cell, nothing new is below the frontier. */
  lemma {:induction false} AtMostForward(s: seq<int>, d: seq<int>, v: int, k: nat, i: nat)
    requires k <= i && i + 1 < |s| && |s| == |d|
    requires v == d[i] + 1 && d[i + 1] == 0 && s[i + 1] >= 1
    ensures AtMostFrom(s, d[i := v], k, i + 1) ==> AtMostFrom(s, d, k, i)
    decreases i - k
  {
    if k < i {
      AtMostForward(s, d, v, k + 1, i);
    } else {
      assert AtMostFrom(s, d[i := v], i + 1, i + 1) == (s[i + 1] <= 0);
    }
  }

  /** After a step back from an exhausted cell, nothing new is below the frontier. */
  lemma {:induction false} AtMostBack(s: seq<int>, d: seq<int>, k: nat, i: nat)
    requires k < i < |s| && |s| == |d|
    requires d[i] == 9 && s[i] <= 9
    ensures AtMostFrom(s, d[i := 0], k, i - 1) ==> AtMostFrom(s, d, k, i)
    decreases i - k
  {
    if k < i - 1 {
      AtMostBack(s, d, k + 1, i);
    }
  }

  // ---------------------------------------------------------------------
  // The measure: the free-cell digits read as a base-11 numeral

  function Pow11(e: nat): (r: nat)
    ensures r >= 1
  {
    if e == 0 then 1 else 11 * Pow11(e - 1)
  }

  lemma {:induction false} Pow11Add(a: nat, b: nat)
    ensures Pow11(a + b) == Pow11(a) * Pow11(b)
    decreases a
  {
    if a > 0 {
      Pow11Add(a - 1, b);
      assert Pow11(a + b) == 11 * Pow11(a - 1 + b);
    }
  }

  /** The digits of `s`, most significant first, read in base 11. */
  function Val(s: seq<int>): int
  {
    if s == [] then 0 else Val(s[..|s| - 1]) * 11 + s[|s| - 1]
  }

  /** Digits in 0..10 make a numeral below 11^|s|. */
  lemma {:induction false} ValBound(s: seq<int>)
    requires forall m :: 0 <= m < |s| ==> 0 <= s[m] <= 10
    ensures 0 <= Val(s) < Pow11(|s|)
    decreases |s|
  {
    if s != [] {
      var t := s[..|s| - 1];
      ValBound(t);
      assert Val(s) <= (Pow11(|t|) - 1) * 11 + 10;
    }
  }

  lemma ValSnoc(d: seq<int>, k: nat)
    requires k < |d|
    ensures Val(d[..k + 1]) == Val(d[..k]) * 11 + d[k]
  {
    assert d[..k + 1][..k] == d[..k];
  }

  /**
    The search state as a number: the digits up to the cursor `i` in base 11,
    scaled to the list length, plus the count of states below a tried cell
    (a non-zero cell at the cursor has had every extension below it tried).
  */
  function Key(d: seq<int>, i: nat): int
    requires i < |d|
  {
    var w := Pow11(|d| - 1 - i);
    Val(d[..i + 1]) * w + (if d[i] != 0 then w - 1 else 0)
  }

  lemma MulMono(a: int, b: int, c: nat)
    requires a <= b
    ensures a * c <= b * c
  {
  }

  /** With digits in 0..9 the key stays below 11^|d|. */
  lemma KeyBound(d: seq<int>, i: nat)
    requires i < |d| && forall m :: 0 <= m < |d| ==> 0 <= d[m] <= 9
    ensures 0 <= Key(d, i) < Pow11(|d|)
  {
    var w := Pow11(|d| - 1 - i);
    var p := Pow11(i + 1);
    ValBound(d[..i + 1]);
    Pow11Add(i + 1, |d| - 1 - i);
    ScaledBound(Val(d[..i + 1]), p, w);
  }

  /** A numeral below `p`, scaled by `w` and topped up by less than `w`, stays below `p * w`. */
  lemma ScaledBound(v: int, p: int, w: int)
    requires 0 <= v < p && w >= 1
    ensures 0 <= v * w && v * w + w - 1 < p * w
  {
    MulMono(0, v, w);
    MulMono(v, p - 1, w);
    assert (p - 1) * w == p * w - w;
  }

  /** Raising digit `i` by one raises the numeral of the first `i + 1` digits by one. */
  lemma ValRaise(d: seq<int>, i: nat)
    requires i < |d|
    ensures Val(d[i := d[i] + 1][..i + 1]) == Val(d[..i + 1]) + 1
  {
    var d' := d[i := d[i] + 1];
    ValSnoc(d, i);
    ValSnoc(d', i);
    assert d'[..i] == d[..i];
  }

  /** Trying the next candidate at the cursor raises the key. */
  lemma KeyRaise(d: seq<int>, i: nat)
    requires i < |d| && 0 <= d[i] <= 8
    ensures Key(d[i := d[i] + 1], i) > Key(d, i)
  {
    var w := Pow11(|d| - 1 - i);
    ValRaise(d, i);
    var v := Val(d[..i + 1]);
    assert (v + 1) * w == v * w + w;
  }

  /** Moving forward onto an empty cell after a candidate raises the key. */
  lemma KeyForward(d: seq<int>, i: nat)
    requires i + 1 < |d| && 0 <= d[i] <= 8 && d[i + 1] == 0
    ensures Key(d[i := d[i] + 1], i + 1) > Key(d, i)
  {
    var d' := d[i := d[i] + 1];
    var w' := Pow11(|d| - 2 - i);
    var w := Pow11(|d| - 1 - i);
    assert w == 11 * w';
    ValRaise(d, i);
    ValSnoc(d', i + 1);
    var v := Val(d[..i + 1]);
    assert Key(d', i + 1) == (v + 1) * 11 * w';
    assert Key(d, i) <= v * w + w - 1;
    ForwardArith(v, w');
  }

  lemma ForwardArith(v: int, w': int)
    ensures (v + 1) * 11 * w' == v * (11 * w') + 11 * w'
  {
  }

  /** Stepping back from an exhausted cell to a filled one raises the key. */
  lemma KeyBack(d: seq<int>, i: nat)
    requires 0 < i < |d| && d[i] == 9 && d[i - 1] != 0
    ensures Key(d[i := 0], i - 1) > Key(d, i)
  {
    var d' := d[i := 0];
    var w := Pow11(|d| - 1 - i);
    var w' := Pow11(|d| - i);
    assert w' == 11 * w;
    ValSnoc(d, i);
    assert d'[..i] == d[..i];
    var u := Val(d[..i]);
    assert Key(d, i) == (u * 11 + 9) * w + w - 1;
    assert Key(d', i - 1) == u * w' + w' - 1;
    assert u * w' == u * 11 * w;
    assert (u * 11 + 9) * w + w == u * 11 * w + 10 * w;
  }

  // ---------------------------------------------------------------------
  // The invariant of the search loop and its outcome

  /** Every cell outside the free-cell list keeps its value from `g0`. */
  ghost predicate GivensKept(g0: Board, fs: seq<Point>, b: Board)
    requires IsBoard(g0) && IsBoard(b)
  {
    forall q :: InGrid(q) && q !in fs ==> At(b, q) == At(g0, q)
  }

  /**
    Free cell `j` holds a digit that `legal_next` allowed against the givens
    and the free cells before it, the cells after it being empty.
  */
  predicate PlacedLegally(b: Board, fs: seq<Point>, j: int)
    requires IsBoard(b) && AllInGrid(fs) && 0 <= j < |fs|
  {
    1 <= At(b, fs[j]) <= 9 && Legal(Masked(b, fs, j), At(b, fs[j]), fs[j])
  }

  /** No completion of `g0` has free-cell digits at most those of `b` up to `i`. */
  ghost predicate NoCompletionAtMost(g0: Board, fs: seq<Point>, b: Board, i: int)
    requires IsBoard(g0) && IsBoard(b) && AllInGrid(fs) && 0 <= i < |fs|
  {
    forall s :: IsCompletion(g0, s) ==> !LexAtMost(Digits(s, fs), Digits(b, fs), i)
  }

  /**
    What holds before each step of `solve` at cursor `i`: free cells before
    the cursor were placed legally, the cursor cell holds 0..9, the cells
    after it are empty, the givens are untouched, and every completion of
    the puzzle lies beyond the part of the search already done.
  */
  ghost predicate SearchInv(g0: Board, fs: seq<Point>, b: Board, i: int)
  {
    && IsBoard(g0) && fs == FreeCells(g0) && IsBoard(b) && 0 <= i < |fs|
    && GivensKept(g0, fs, b)
    && (forall j :: 0 <= j < i ==> PlacedLegally(b, fs, j))
    && 0 <= At(b, fs[i]) <= 9
    && (forall j :: i < j < |fs| ==> At(b, fs[j]) == 0)
    && NoCompletionAtMost(g0, fs, b, i)
  }

  /** Every free cell was placed legally: the search ended at the last index. */
  predicate Solved(fs: seq<Point>, b: Board)
    requires IsBoard(b) && AllInGrid(fs)
  {
    forall j :: 0 <= j < |fs| ==> PlacedLegally(b, fs, j)
  }

  /** The first free cell holds 9, the others are empty, and the puzzle has no completion. */
  ghost predicate Exhausted(g0: Board, fs: seq<Point>, b: Board)
    requires IsBoard(g0) && IsBoard(b) && AllInGrid(fs)
  {
    && |fs| > 0 && At(b, fs[0]) == 9
    && (forall j :: 0 < j < |fs| ==> At(b, fs[j]) == 0)
    && (forall s :: !IsCompletion(g0, s))
  }

  /** How `solve` ends. */
  ghost predicate Outcome(g0: Board, fs: seq<Point>, b: Board)
  {
    && IsBoard(g0) && fs == FreeCells(g0) && IsBoard(b)
    && GivensKept(g0, fs, b)
    && (Solved(fs, b) || Exhausted(g0, fs, b))
  }

  /** The search starts at index 0 of a non-empty free-cell list on the unchanged board. */
  lemma SearchStarts(g0: Board)
    requires IsBoard(g0) && FreeCells(g0) != []
    ensures SearchInv(g0, FreeCells(g0), g0, 0)
  {
    var fs := FreeCells(g0);
    forall s | IsCompletion(g0, s)
      ensures !LexAtMost(Digits(s, fs), Digits(g0, fs), 0)
    {
      assert At(g0, fs[0]) == 0;
    }
  }

  /**
    A completion that matches the free cells before `i` agrees with the
    board once free cell `i` is cleared.
  */
  lemma AgreesBeforeCursor(g0: Board, fs: seq<Point>, b: Board, i: int, s: Board)
    requires IsBoard(g0) && IsBoard(b) && fs == FreeCells(g0) && 0 <= i < |fs|
    requires GivensKept(g0, fs, b) && (forall j :: i < j < |fs| ==> At(b, fs[j]) == 0)
    requires IsCompletion(g0, s) && forall m :: 0 <= m < i ==> At(s, fs[m]) == At(b, fs[m])
    ensures AgreesOnFilled(Set(b, fs[i], 0), s)
  {
    var c := Set(b, fs[i], 0);
    forall q | InGrid(q) && At(c, q) != 0
      ensures At(s, q) == At(c, q)
    {
      if q in fs {
        var j :| 0 <= j < |fs| && fs[j] == q;
        assert j < i;
      } else {
        FreeCellsExact(g0, q);
      }
    }
  }

  /** Facts shared by the steps that write a candidate into free cell `i`. */
  lemma WriteKeeps(g0: Board, fs: seq<Point>, b: Board, i: int, v: int)
    requires IsBoard(g0) && IsBoard(b) && fs == FreeCells(g0) && 0 <= i < |fs|
    requires GivensKept(g0, fs, b)
    requires forall j :: 0 <= j < i ==> PlacedLegally(b, fs, j)
    requires forall j :: i < j < |fs| ==> At(b, fs[j]) == 0
    ensures var b' := Set(b, fs[i], v);
      && GivensKept(g0, fs, b')
      && (forall j :: 0 <= j < i ==> PlacedLegally(b', fs, j))
      && (forall j :: i < j < |fs| ==> At(b', fs[j]) == 0)
      && Digits(b', fs) == Digits(b, fs)[i := v]
  {
    var b' := Set(b, fs[i], v);
    FreeCellsDistinct(g0);
    DigitsSet(b, fs, i, v);
    forall j | 0 <= j < i
      ensures PlacedLegally(b', fs, j)
    {
      MaskedSet(b, fs, i, j, v);
      assert At(b', fs[j]) == At(b, fs[j]);
      assert PlacedLegally(b, fs, j);
    }
    assert forall j :: i < j < |fs| ==> At(b', fs[j]) == 0 by {
      forall j | i < j < |fs| ensures At(b', fs[j]) == 0 {
        assert fs[j] != fs[i];
      }
    }
  }

  /**
    No completion reaches the raised candidate at `i` when `legal_next`
    rejects it: the completion would agree with the board and so pass.
  */
  lemma RejectedCandidateExcludes(g0: Board, fs: seq<Point>, b: Board, i: int, s: Board)
    requires IsBoard(g0) && IsBoard(b) && fs == FreeCells(g0) && 0 <= i < |fs|
    requires GivensKept(g0, fs, b) && (forall j :: i < j < |fs| ==> At(b, fs[j]) == 0)
    requires !Legal(Set(b, fs[i], 0), At(b, fs[i]) + 1, fs[i])
    requires IsCompletion(g0, s) && !LexAtMost(Digits(s, fs), Digits(b, fs), i)
    ensures !LexAtMost(Digits(s, fs), Digits(b, fs)[i := At(b, fs[i]) + 1], i)
  {
    var d := Digits(b, fs);
    assert d[i := d[i] + 1] == d[i := At(b, fs[i]) + 1];
    RejectedCandidateUnmatched(g0, fs, b, i, s);
    RaiseExcludes(Digits(s, fs), d, i);
  }

  /** No completion matches the board before `i` and holds the rejected candidate at `i`. */
  lemma RejectedCandidateUnmatched(g0: Board, fs: seq<Point>, b: Board, i: int, s: Board)
    requires IsBoard(g0) && IsBoard(b) && fs == FreeCells(g0) && 0 <= i < |fs|
    requires GivensKept(g0, fs, b) && (forall j :: i < j < |fs| ==> At(b, fs[j]) == 0)
    requires !Legal(Set(b, fs[i], 0), At(b, fs[i]) + 1, fs[i])
    requires IsCompletion(g0, s)
    ensures !((forall m :: 0 <= m < i ==> Digits(s, fs)[m] == Digits(b, fs)[m]) &&
              Digits(s, fs)[i] == Digits(b, fs)[i] + 1)
  {
    if (forall m :: 0 <= m < i ==> Digits(s, fs)[m] == Digits(b, fs)[m]) && Digits(s, fs)[i] == Digits(b, fs)[i] + 1 {
      MatchingCompletionPasses(g0, fs, b, i, s, At(b, fs[i]) + 1);
      assert false;
    }
  }

  /**
    Raising digit `i` admits no digit vector beyond those already admitted
    except the ones equal to the raised prefix.
  */
  lemma RaiseExcludes(e: seq<int>, d: seq<int>, i: nat)
    requires i < |e| && |e| == |d| && !LexAtMost(e, d, i)
    requires !((forall m :: 0 <= m < i ==> e[m] == d[m]) && e[i] == d[i] + 1)
    ensures !LexAtMost(e, d[i := d[i] + 1], i)
  {
    AtMostRaise(e, d, 0, i);
  }

  /** A completion whose digits match the board's before `i` passes `legal_next` at free cell `i`. */
  lemma MatchingCompletionPasses(g0: Board, fs: seq<Point>, b: Board, i: int, s: Board, v: int)
    requires IsBoard(g0) && IsBoard(b) && fs == FreeCells(g0) && 0 <= i < |fs|
    requires GivensKept(g0, fs, b) && (forall j :: i < j < |fs| ==> At(b, fs[j]) == 0)
    requires IsCompletion(g0, s) && forall m :: 0 <= m < i ==> Digits(s, fs)[m] == Digits(b, fs)[m]
    requires Digits(s, fs)[i] == v
    ensures Legal(Set(b, fs[i], 0), v, fs[i])
  {
    forall m | 0 <= m < i
      ensures At(s, fs[m]) == At(b, fs[m])
    {
      assert Digits(s, fs)[m] == Digits(b, fs)[m];
    }
    AgreesBeforeCursor(g0, fs, b, i, s);
    CompletionIsLegal(g0, s, Set(b, fs[i], 0), fs[i]);
  }

  /** An illegal candidate is written and the search stays at `i`, with a larger key. */
  lemma StayKeepsSearch(g0: Board, fs: seq<Point>, b: Board, i: int)
    requires SearchInv(g0, fs, b, i) && At(b, fs[i]) <= 8
    requires !Legal(Set(b, fs[i], 0), At(b, fs[i]) + 1, fs[i])
    ensures var b' := Set(b, fs[i], At(b, fs[i]) + 1);
      SearchInv(g0, fs, b', i) && Key(Digits(b', fs), i) > Key(Digits(b, fs), i)
  {
    var v := At(b, fs[i]) + 1;
    WriteKeeps(g0, fs, b, i, v);
    RejectedKeepsFrontier(g0, fs, b, i);
    KeyRaise(Digits(b, fs), i);
  }

  /** Writing a rejected candidate skips no completion. */
  lemma RejectedKeepsFrontier(g0: Board, fs: seq<Point>, b: Board, i: int)
    requires SearchInv(g0, fs, b, i) && At(b, fs[i]) <= 8
    requires !Legal(Set(b, fs[i], 0), At(b, fs[i]) + 1, fs[i])
    ensures NoCompletionAtMost(g0, fs, Set(b, fs[i], At(b, fs[i]) + 1), i)
  {
    var v := At(b, fs[i]) + 1;
    var b' := Set(b, fs[i], v);
    FreeCellsDistinct(g0);
    DigitsSet(b, fs, i, v);
    forall s | IsCompletion(g0, s)
      ensures !LexAtMost(Digits(s, fs), Digits(b', fs), i)
    {
      RejectedCandidateExcludes(g0, fs, b, i, s);
    }
  }

  /** A legal candidate at `i` is placed legally. */
  lemma PlaceIsLegal(g0: Board, fs: seq<Point>, b: Board, i: int)
    requires SearchInv(g0, fs, b, i) && At(b, fs[i]) <= 8
    requires Legal(Set(b, fs[i], 0), At(b, fs[i]) + 1, fs[i])
    ensures var b' := Set(b, fs[i], At(b, fs[i]) + 1);
      forall j :: 0 <= j <= i ==> PlacedLegally(b', fs, j)
  {
    var v := At(b, fs[i]) + 1;
    var b' := Set(b, fs[i], v);
    WriteKeeps(g0, fs, b, i, v);
    MaskedAt(b', fs, i);
    BoardExt(Set(b', fs[i], 0), Set(b, fs[i], 0));
  }

  /** A legal candidate is placed and the search moves to `i + 1`, with a larger key. */
  lemma ForwardKeepsSearch(g0: Board, fs: seq<Point>, b: Board, i: int)
    requires SearchInv(g0, fs, b, i) && At(b, fs[i]) <= 8 && i < |fs| - 1
    requires Legal(Set(b, fs[i], 0), At(b, fs[i]) + 1, fs[i])
    ensures var b' := Set(b, fs[i], At(b, fs[i]) + 1);
      SearchInv(g0, fs, b', i + 1) && Key(Digits(b', fs), i + 1) > Key(Digits(b, fs), i)
  {
    var v := At(b, fs[i]) + 1;
    var b' := Set(b, fs[i], v);
    WriteKeeps(g0, fs, b, i, v);
    PlaceIsLegal(g0, fs, b, i);
    var d := Digits(b, fs);
    forall s | IsCompletion(g0, s)
      ensures !LexAtMost(Digits(s, fs), Digits(b', fs), i + 1)
    {
      var e := Digits(s, fs);
      assert At(g0, fs[i + 1]) == 0;
      AtMostForward(e, d, v, 0, i);
    }
    KeyForward(d, i);
  }

  /** A legal candidate at the last index ends the search with every free cell placed legally. */
  lemma LastPlacementSolves(g0: Board, fs: seq<Point>, b: Board, i: int)
    requires SearchInv(g0, fs, b, i) && At(b, fs[i]) <= 8 && i == |fs| - 1
    requires Legal(Set(b, fs[i], 0), At(b, fs[i]) + 1, fs[i])
    ensures Outcome(g0, fs, Set(b, fs[i], At(b, fs[i]) + 1))
  {
    WriteKeeps(g0, fs, b, i, At(b, fs[i]) + 1);
    PlaceIsLegal(g0, fs, b, i);
  }

  /** An exhausted cell after the first is cleared and the search moves back, with a larger key. */
  lemma BackKeepsSearch(g0: Board, fs: seq<Point>, b: Board, i: int)
    requires SearchInv(g0, fs, b, i) && At(b, fs[i]) == 9 && i > 0
    ensures var b' := Set(b, fs[i], 0);
      SearchInv(g0, fs, b', i - 1) && Key(Digits(b', fs), i - 1) > Key(Digits(b, fs), i)
  {
    var b' := Set(b, fs[i], 0);
    WriteKeeps(g0, fs, b, i, 0);
    var d := Digits(b, fs);
    forall s | IsCompletion(g0, s)
      ensures !LexAtMost(Digits(s, fs), Digits(b', fs), i - 1)
    {
      var e := Digits(s, fs);
      assert At(g0, fs[i]) == 0;
      AtMostBack(e, d, 0, i);
    }
    assert PlacedLegally(b, fs, i - 1);
    KeyBack(d, i);
  }

  /** An exhausted first cell ends the search: no completion exists. */
  lemma ExhaustedFirstCell(g0: Board, fs: seq<Point>, b: Board)
    requires SearchInv(g0, fs, b, 0) && At(b, fs[0]) == 9
    ensures Outcome(g0, fs, b) && Exhausted(g0, fs, b)
  {
    assert At(g0, fs[0]) == 0;
  }

  /**
    A step from cursor `i` on board `b` to board `b'` with code `code`
    advances the search: code 5 ends it with its outcome; any other code
    moves the cursor by that code to a state satisfying the invariant
    again, with a larger key.
  */
  ghost predicate Advances(g0: Board, fs: seq<Point>, b: Board, i: int, b': Board, code: int)
    requires IsBoard(b) && AllInGrid(fs) && 0 <= i < |fs|
  {
    if code == 5 then Outcome(g0, fs, b')
    else SearchInv(g0, fs, b', i + code) && Key(Digits(b', fs), i + code) > Key(Digits(b, fs), i)
  }

  /** What one step of `test_cell` achieves from cursor `i`. */
  ghost predicate StepAdvances(g0: Board, fs: seq<Point>, b: Board, i: int)
    requires IsBoard(b) && AllInGrid(fs) && 0 <= i < |fs|
  {
    Advances(g0, fs, b, i, TestStep(b, fs, i).board, TestStep(b, fs, i).code)
  }

  /** Every step of `test_cell` from a state satisfying the search invariant advances the search. */
  lemma StepKeepsSearch(g0: Board, fs: seq<Point>, b: Board, i: int)
    requires SearchInv(g0, fs, b, i)
    ensures StepAdvances(g0, fs, b, i)
  {
    if At(b, fs[i]) <= 8 {
      WriteStepAdvances(g0, fs, b, i);
    } else {
      ExhaustedStepAdvances(g0, fs, b, i);
    }
  }

  /** The state of the search loop: the invariant while it runs, its outcome once it stopped. */
  ghost predicate Searching(g0: Board, fs: seq<Point>, b: Board, i: int, stop: bool)
  {
    if stop then Outcome(g0, fs, b) else SearchInv(g0, fs, b, i)
  }

  /** The loop's measure: 0 once stopped, else above the key and so positive. */
  ghost function Measure(fs: seq<Point>, b: Board, i: int, stop: bool): int
    requires IsBoard(b) && AllInGrid(fs) && (stop || 0 <= i < |fs|)
  {
    if stop then 0 else Pow11(|fs|) + 1 - Key(Digits(b, fs), i)
  }

  /**
    One step of `test_cell` on a running search moves the cursor by its
    code, stops exactly on code 5, keeps the loop state, and lowers the
    measure, which stays non-negative.
  */
  lemma StepLands(g0: Board, fs: seq<Point>, b: Board, i: int, b': Board, code: int, i': int, stop': bool)
    requires Searching(g0, fs, b, i, false)
    requires b' == TestStep(b, fs, i).board && code == TestStep(b, fs, i).code
    requires i' == i + code && stop' == (code == 5)
    ensures AllInGrid(fs) && IsBoard(b) && IsBoard(b') && 0 <= i < |fs|
    ensures !stop' ==> 0 <= i' < |fs|
    ensures Searching(g0, fs, b', i', stop')
    ensures 0 <= Measure(fs, b', i', stop') < Measure(fs, b, i, false)
  {
    StepKeepsSearch(g0, fs, b, i);
    AdvanceLands(g0, fs, b, i, b', code, i', stop');
  }

  /** An advancing step keeps the loop state and lowers the non-negative measure. */
  lemma AdvanceLands(g0: Board, fs: seq<Point>, b: Board, i: int, b': Board, code: int, i': int, stop': bool)
    requires SearchInv(g0, fs, b, i) && IsBoard(b') && Advances(g0, fs, b, i, b', code)
    requires i' == i + code && stop' == (code == 5)
    ensures !stop' ==> 0 <= i' < |fs|
    ensures Searching(g0, fs, b', i', stop')
    ensures 0 <= Measure(fs, b', i', stop') < Measure(fs, b, i, false)
  {
    SearchKeyBound(g0, fs, b, i);
    if code != 5 {
      SearchKeyBound(g0, fs, b', i + code);
    }
  }

  /** A step that writes the next candidate advances the search. */
  lemma WriteStepAdvances(g0: Board, fs: seq<Point>, b: Board, i: int)
    requires SearchInv(g0, fs, b, i) && At(b, fs[i]) <= 8
    ensures StepAdvances(g0, fs, b, i)
  {
    if !Legal(Set(b, fs[i], 0), At(b, fs[i]) + 1, fs[i]) {
      StayStepAdvances(g0, fs, b, i);
    } else if i == |fs| - 1 {
      LastStepAdvances(g0, fs, b, i);
    } else {
      ForwardStepAdvances(g0, fs, b, i);
    }
  }

  lemma StayStepAdvances(g0: Board, fs: seq<Point>, b: Board, i: int)
    requires SearchInv(g0, fs, b, i) && At(b, fs[i]) <= 8
    requires !Legal(Set(b, fs[i], 0), At(b, fs[i]) + 1, fs[i])
    ensures StepAdvances(g0, fs, b, i)
  {
    TestStepWrites(b, fs, i);
    StayKeepsSearch(g0, fs, b, i);
  }

  lemma LastStepAdvances(g0: Board, fs: seq<Point>, b: Board, i: int)
    requires SearchInv(g0, fs, b, i) && At(b, fs[i]) <= 8 && i == |fs| - 1
    requires Legal(Set(b, fs[i], 0), At(b, fs[i]) + 1, fs[i])
    ensures StepAdvances(g0, fs, b, i)
  {
    TestStepWrites(b, fs, i);
    LastPlacementSolves(g0, fs, b, i);
  }

  lemma ForwardStepAdvances(g0: Board, fs: seq<Point>, b: Board, i: int)
    requires SearchInv(g0, fs, b, i) && At(b, fs[i]) <= 8 && i < |fs| - 1
    requires Legal(Set(b, fs[i], 0), At(b, fs[i]) + 1, fs[i])
    ensures StepAdvances(g0, fs, b, i)
  {
    TestStepWrites(b, fs, i);
    ForwardKeepsSearch(g0, fs, b, i);
  }

  /** A step on an exhausted cell advances the search. */
  lemma ExhaustedStepAdvances(g0: Board, fs: seq<Point>, b: Board, i: int)
    requires SearchInv(g0, fs, b, i) && At(b, fs[i]) == 9
    ensures StepAdvances(g0, fs, b, i)
  {
    TestStepExhausted(b, fs, i);
    if i == 0 {
      ExhaustedFirstCell(g0, fs, b);
    } else {
      BackKeepsSearch(g0, fs, b, i);
    }
  }

  /** For a cell holding 9, `test_cell` stops at index 0 and otherwise clears it and steps back. */
  lemma TestStepExhausted(b: Board, fs: seq<Point>, i: int)
    requires IsBoard(b) && AllInGrid(fs) && 0 <= i < |fs| && At(b, fs[i]) == 9
    ensures TestStep(b, fs, i) == if i == 0 then StepResult(b, 5) else StepResult(Set(b, fs[i], 0), -1)
  {
  }

  /** For a cell holding 0..8, `test_cell` writes the next candidate, legal or not. */
  lemma TestStepWrites(b: Board, fs: seq<Point>, i: int)
    requires IsBoard(b) && AllInGrid(fs) && 0 <= i < |fs| && 0 <= At(b, fs[i]) <= 8
    ensures var v := At(b, fs[i]) + 1;
      TestStep(b, fs, i) == StepResult(Set(b, fs[i], v),
        if !Legal(Set(b, fs[i], 0), v, fs[i]) then 0 else if i == |fs| - 1 then 5 else 1)
  {
    var loc := fs[i];
    var x := At(b, loc);
    var cleared := if x == 0 then b else Set(b, loc, 0);
    BoardExt(cleared, Set(b, loc, 0));
    BoardExt(Set(cleared, loc, x + 1), Set(b, loc, x + 1));
  }

  /** Under the invariant the key is a natural number below 11^|fs|. */
  lemma SearchKeyBound(g0: Board, fs: seq<Point>, b: Board, i: int)
    requires SearchInv(g0, fs, b, i)
    ensures 0 <= Key(Digits(b, fs), i) < Pow11(|fs|)
  {
    var d := Digits(b, fs);
    forall m | 0 <= m < |d|
      ensures 0 <= d[m] <= 9
    {
      if m < i {
        assert PlacedLegally(b, fs, m);
      }
    }
    KeyBound(d, i);
  }

  /**
    A free cell placed legally differs from each of its peers that is a
    given or an earlier free cell.
  */
  lemma PlacedDiffersFromEarlier(b: Board, fs: seq<Point>, j: int, q: Point)
    requires IsBoard(b) && AllInGrid(fs) && 0 <= j < |fs| && PlacedLegally(b, fs, j)
    requires InGrid(q) && Peer(fs[j], q) && q !in fs[j..]
    ensures At(b, q) != At(b, fs[j])
  {
    LegalIffNoPeer(Masked(b, fs, j), At(b, fs[j]), fs[j]);
  }

  /**
    When the puzzle's givens break no rule, a search that ended with every
    free cell placed legally leaves a board that breaks no rule.
  */
  lemma SolvedIsConsistent(g0: Board, fs: seq<Point>, b: Board)
    requires Outcome(g0, fs, b) && Solved(fs, b) && Consistent(g0)
    ensures Consistent(b)
  {
    forall p, q | InGrid(p) && InGrid(q) && Peer(p, q) && At(b, p) != 0
      ensures At(b, p) != At(b, q)
    {
      SolvedPairDiffers(g0, fs, b, p, q);
    }
  }

  /** Two free cells that are peers: the one placed later sees the other one. */
  lemma FreePairDiffers(b: Board, fs: seq<Point>, j: int, k: int)
    requires IsBoard(b) && AllInGrid(fs) && Distinct(fs) && Solved(fs, b)
    requires 0 <= j < |fs| && 0 <= k < |fs| && Peer(fs[j], fs[k])
    ensures At(b, fs[j]) != At(b, fs[k])
  {
    assert PlacedLegally(b, fs, j) && PlacedLegally(b, fs, k);
    assert Peer(fs[k], fs[j]);
    if k < j {
      NotInSuffix(fs, k, j);
      PlacedDiffersFromEarlier(b, fs, j, fs[k]);
    } else {
      NotInSuffix(fs, j, k);
      PlacedDiffersFromEarlier(b, fs, k, fs[j]);
    }
  }

  /** One pair of peers on a solved board: the free cell placed later sees the other one. */
  lemma SolvedPairDiffers(g0: Board, fs: seq<Point>, b: Board, p: Point, q: Point)
    requires Outcome(g0, fs, b) && Solved(fs, b) && Consistent(g0)
    requires InGrid(p) && InGrid(q) && Peer(p, q) && At(b, p) != 0
    ensures At(b, p) != At(b, q)
  {
    FreeCellsDistinct(g0);
    if p in fs && q in fs {
      var j :| 0 <= j < |fs| && fs[j] == p;
      var k :| 0 <= k < |fs| && fs[k] == q;
      FreePairDiffers(b, fs, j, k);
    } else if p in fs {
      var j :| 0 <= j < |fs| && fs[j] == p;
      assert PlacedLegally(b, fs, j);
      PlacedDiffersFromEarlier(b, fs, j, q);
    } else if q in fs {
      var k :| 0 <= k < |fs| && fs[k] == q;
      assert PlacedLegally(b, fs, k) && Peer(q, p);
      PlacedDiffersFromEarlier(b, fs, k, p);
    } else {
      FreeCellsExact(g0, p);
    }
  }

  /**
    When the puzzle's givens break no rule, a search that ended with every
    free cell placed legally has produced a completion of the puzzle.
  */
  lemma SolvedIsCompletion(g0: Board, fs: seq<Point>, b: Board)
    requires Outcome(g0, fs, b) && Solved(fs, b) && Consistent(g0)
    ensures IsCompletion(g0, b)
  {
    SolvedIsConsistent(g0, fs, b);
    forall q | InGrid(q)
      ensures if At(g0, q) != 0 then At(b, q) == At(g0, q) else 1 <= At(b, q) <= 9
    {
      FreeCellsExact(g0, q);
      if At(g0, q) == 0 {
        var j :| 0 <= j < |fs| && fs[j] == q;
        assert PlacedLegally(b, fs, j);
      }
    }
  }

  lemma NotInSuffix(fs: seq<Point>, k: int, j: int)
    requires Distinct(fs) && 0 <= k < j < |fs|
    ensures fs[k] !in fs[j..]
  {
  }
}
