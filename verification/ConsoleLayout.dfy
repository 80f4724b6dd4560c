/**
  How console output is laid out in rows of `cols` cells, as functions of the
  text written (kernel/console.c).  A newline fills its row with blanks, also
  when it stands at the start of a row.
 */
module ConsoleLayout {
  import opened Arith
  import opened Bytes

  const NL: byte := 10

  // calc_window_delta: by how many cells c makes a window of ws cells grow.
  function Delta(ws: int, c: byte, cols: int): (d: int)
    requires cols > 0 && ws >= 0
    ensures 1 <= d <= cols
    ensures c == NL ==> (ws + d) % cols == 0
    ensures c != NL ==> d == 1
  {
    if c == NL then
      RowEnd(ws, cols);
      var newWs := ws + cols - 1 + 1;
      newWs - newWs % cols - ws
    else 1
  }

  lemma RowEnd(ws: int, cols: int)
    requires cols > 0 && ws >= 0
    ensures var e := ws + cols - (ws + cols) % cols;
            e % cols == 0 && ws < e <= ws + cols && e == (ws / cols + 1) * cols
  {
    DivMod(ws, cols);
    Distrib(ws / cols, 1, cols);
    DivIs(ws + cols, ws / cols + 1, ws % cols, cols);
    DivIs((ws / cols + 1) * cols, ws / cols + 1, 0, cols);
  }

  function Blanks(n: nat): seq<byte> { seq(n, _ => 0) }

  // The cells one character adds to a layout of ws cells; a newline is drawn as 0.
  function Glyph(ws: int, c: byte, cols: int): (g: seq<byte>)
    requires cols > 0 && ws >= 0
    ensures |g| == Delta(ws, c, cols)
  {
    if c == NL then Blanks(Delta(ws, c, cols)) else [c]
  }

  // The layout of a text, as drawn.
  function Cells(s: seq<byte>, cols: int): (r: seq<byte>)
    requires cols > 0
  {
    if s == [] then []
    else
      var pre := Cells(s[..|s| - 1], cols);
      pre + Glyph(|pre|, s[|s| - 1], cols)
  }

  lemma CellsSnoc(s: seq<byte>, c: byte, cols: int)
    requires cols > 0
    ensures Cells(s + [c], cols) == Cells(s, cols) + Glyph(|Cells(s, cols)|, c, cols)
    ensures |Cells(s + [c], cols)| == |Cells(s, cols)| + Delta(|Cells(s, cols)|, c, cols)
  {
    assert (s + [c])[..|s|] == s;
  }

  // Every character takes a cell.
  lemma {:induction false} CellsCount(s: seq<byte>, cols: int)
    requires cols > 0
    ensures |Cells(s, cols)| >= |s|
    decreases |s|
  {
    if s != [] { CellsCount(s[..|s| - 1], cols); }
  }

  lemma DeltaShift(ws: int, k: int, c: byte, cols: int)
    requires cols > 0 && ws >= 0 && k >= 0 && k % cols == 0
    ensures Delta(k + ws, c, cols) == Delta(ws, c, cols)
  {
    DivMod(k, cols);
    RowEnd(ws, cols);
    RowEnd(k + ws, cols);
    DivMod(ws, cols);
    Distrib(k / cols, ws / cols, cols);
    DivIs(k + ws, k / cols + ws / cols, ws % cols, cols);
    Distrib(k / cols, ws / cols + 1, cols);
  }

  lemma GlyphShift(a: seq<byte>, b: seq<byte>, c: byte, cols: int)
    requires cols > 0 && |a| % cols == 0
    ensures (a + b) + Glyph(|a + b|, c, cols) == a + (b + Glyph(|b|, c, cols))
  {
    DeltaShift(|b|, |a|, c, cols);
  }

  // A text whose layout fills whole rows can be laid out on its own.
  lemma {:induction false} CellsSplit(s: seq<byte>, t: seq<byte>, cols: int)
    requires cols > 0 && |Cells(s, cols)| % cols == 0
    ensures Cells(s + t, cols) == Cells(s, cols) + Cells(t, cols)
    decreases |t|
  {
    if t == [] {
      assert s + t == s;
    } else {
      var t', c := t[..|t| - 1], t[|t| - 1];
      assert t == t' + [c] && s + t == (s + t') + [c];
      CellsSplit(s, t', cols);
      CellsSnoc(s + t', c, cols);
      CellsSnoc(t', c, cols);
      GlyphShift(Cells(s, cols), Cells(t', cols), c, cols);
    }
  }

  // Longer texts take more cells.
  lemma {:induction false} CellsGrow(s: seq<byte>, i: nat, j: nat, cols: int)
    requires cols > 0 && i <= j <= |s|
    ensures |Cells(s[..i], cols)| + (j - i) <= |Cells(s[..j], cols)|
    decreases j
  {
    if i < j {
      CellsGrow(s, i, j - 1, cols);
      assert s[..j] == s[..j - 1] + [s[j - 1]];
      CellsSnoc(s[..j - 1], s[j - 1], cols);
    }
  }

  // ---------------------------------------------------------------- line starts

  // next_line_start, with k characters of the row behind us.
  function NextFrom(log: seq<byte>, o: int, k: int, cols: int): (r: int)
    requires 0 <= o <= |log| && 0 <= k <= cols
    ensures o <= r <= |log| && r - o <= cols - k
    decreases cols - k
  {
    if o < |log| && k < cols then
      if log[o] == NL then o + 1 else NextFrom(log, o + 1, k + 1, cols)
    else o
  }

  function NextLine(log: seq<byte>, x: int, cols: int): (r: int)
    requires 0 <= x <= |log| && cols > 0
    ensures x <= r <= |log| && r - x <= cols && (x < |log| ==> x < r)
  {
    NextFrom(log, x, 0, cols)
  }

  // prev_line_start, with the oldest retained offset lo.
  function PrevFrom(log: seq<byte>, x: int, o: int, lo: int, cols: int): (r: int)
    requires 0 <= lo <= o <= x <= |log| && x - o <= cols
    ensures lo <= r <= o && x - r <= cols
    decreases o
  {
    if o > lo && x - o < cols && !(log[o - 1] == NL && o != x) then PrevFrom(log, x, o - 1, lo, cols) else o
  }

  function PrevLine(log: seq<byte>, x: int, lo: int, cols: int): (r: int)
    requires 0 <= lo <= x <= |log| && cols > 0
    ensures lo <= r <= x && x - r <= cols && (lo < x ==> r < x)
  {
    PrevFrom(log, x, x, lo, cols)
  }

  // What next_line_start stops at: a newline, a full row, or the end of the text.
  lemma {:induction false} NextFromStops(log: seq<byte>, o: int, k: int, cols: int)
    requires 0 <= o <= |log| && 0 <= k <= cols
    ensures var r := NextFrom(log, o, k, cols);
            && (forall i :: o <= i < r - 1 ==> log[i] != NL)
            && ((r > o && log[r - 1] == NL) || r - o == cols - k || r == |log|)
            && (r > o && log[r - 1] != NL ==> r - o == cols - k || r == |log|)
    decreases cols - k
  {
    if o < |log| && k < cols && log[o] != NL { NextFromStops(log, o + 1, k + 1, cols); }
  }

  lemma {:induction false} PrevFromStops(log: seq<byte>, x: int, o: int, lo: int, cols: int)
    requires 0 <= lo <= o <= x <= |log| && x - o <= cols
    ensures var r := PrevFrom(log, x, o, lo, cols);
            && (forall i :: r <= i < o && i < x - 1 ==> log[i] != NL)
            && (r == lo || x - r == cols || (r < x && log[r - 1] == NL))
    decreases o
  {
    if o > lo && x - o < cols && !(log[o - 1] == NL && o != x) { PrevFromStops(log, x, o - 1, lo, cols); }
  }

  // Going back a line and forward again.
  lemma BackThenForward(log: seq<byte>, x: int, lo: int, cols: int)
    requires 0 <= lo < x <= |log| && cols > 0
    ensures var p := PrevLine(log, x, lo, cols);
            && NextLine(log, p, cols) >= x
            && (x - p == cols || log[x - 1] == NL ==> NextLine(log, p, cols) == x)
  {
    var p := PrevLine(log, x, lo, cols);
    PrevFromStops(log, x, x, lo, cols);
    var n := NextLine(log, p, cols);
    NextFromStops(log, p, 0, cols);
  }

  // Going forward a line and back again.
  lemma ForwardThenBack(log: seq<byte>, x: int, lo: int, cols: int)
    requires 0 <= lo <= x < |log| && cols > 0
    ensures PrevLine(log, NextLine(log, x, cols), lo, cols) <= x
  {
    var n := NextLine(log, x, cols);
    NextFromStops(log, x, 0, cols);
    PrevFromStops(log, n, n, lo, cols);
  }

  // A text of fewer than cols characters without newline takes a cell each.
  lemma {:induction false} PlainCells(s: seq<byte>, cols: int)
    requires cols > 0 && forall i :: 0 <= i < |s| ==> s[i] != NL
    ensures Cells(s, cols) == s
    decreases |s|
  {
    if s != [] {
      PlainCells(s[..|s| - 1], cols);
      assert s == s[..|s| - 1] + [s[|s| - 1]];
    }
  }

  lemma OneRow(pre: seq<byte>, c: byte, cols: int)
    requires cols > 0 && |pre| < cols && forall i :: 0 <= i < |pre| ==> pre[i] != NL
    ensures |Cells(pre + [c], cols)| == if c == NL then cols else |pre| + 1
  {
    assert |Cells(pre, cols)| == |pre| by { PlainCells(pre, cols); }
    assert |Cells(pre + [c], cols)| == |pre| + Delta(|pre|, c, cols) by { CellsSnoc(pre, c, cols); }
    FirstRowEnd(|pre|, cols);
  }

  lemma FirstRowEnd(ws: int, cols: int)
    requires 0 <= ws < cols
    ensures Delta(ws, NL, cols) == cols - ws
  {
    RowEnd(ws, cols);
    DivIs(ws, 0, ws, cols);
  }

  // A line that is shorter than a row is followed by blanks up to its end, and then
  // by the layout of what follows the newline.
  lemma LineCells(line: seq<byte>, rest: seq<byte>, cols: int)
    requires cols > 0 && |line| < cols && forall i :: 0 <= i < |line| ==> line[i] != NL
    ensures Cells(line + [NL] + rest, cols) == line + Blanks(cols - |line|) + Cells(rest, cols)
  {
    assert Cells(line + [NL], cols) == line + Blanks(cols - |line|) by {
      PlainCells(line, cols);
      CellsSnoc(line, NL, cols);
      FirstRowEnd(|line|, cols);
    }
    DivIs(cols, 1, 0, cols);
    CellsSplit(line + [NL], rest, cols);
  }

  // The row from x to the next line start fills exactly cols cells, unless the
  // text ends first.
  lemma RowCells(log: seq<byte>, x: int, cols: int)
    requires 0 <= x <= |log| && cols > 0
    ensures var n := NextLine(log, x, cols);
            |Cells(log[x..n], cols)| == cols || (n == |log| && |Cells(log[x..n], cols)| < cols)
  {
    var n := NextLine(log, x, cols);
    NextFromStops(log, x, 0, cols);
    if n > x {
      assert log[x..n] == log[x..n - 1] + [log[n - 1]];
      OneRow(log[x..n - 1], log[n - 1], cols);
    }
  }
}
