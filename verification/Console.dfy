/**
  The console output window of kernel/console.c: a ring buffer with the latest
  output, a window buffer kept up to date character by character, and the cells
  drawn on the screen.
 */
module Console {
  import opened Arith
  import opened Bytes
  import opened ConsoleLayout

  // output_window_one_to_vga draws a newline as 0.
  function Draw(c: byte): byte { if c == NL then 0 else c }

  // The first `size` cells of the window are the layout of text s, as drawn.
  ghost predicate Laid(window: seq<byte>, size: int, s: seq<byte>, cols: int)
    requires cols > 0
  {
    && size == |Cells(s, cols)| <= |window|
    && (forall i :: 0 <= i < size ==> Draw(window[i]) == Cells(s, cols)[i])
  }

  // ... and the other cells are zero.
  ghost predicate Shows(window: seq<byte>, size: int, s: seq<byte>, cols: int)
    requires cols > 0
  {
    && Laid(window, size, s, cols)
    && (forall i :: size <= i < |window| ==> window[i] == 0)
  }

  // One more character: its own cell is somewhere in the cells it adds (a newline
  // may stand in the first or in the last of its row), the others are zero.
  lemma LaidSnoc(window: seq<byte>, window': seq<byte>, size: int, s: seq<byte>, c: byte, cols: int)
    requires cols > 0 && Laid(window, size, s, cols)
    requires |window'| == |window| && size + Delta(size, c, cols) <= |window|
    requires forall i :: 0 <= i < size ==> window'[i] == window[i]
    requires c != NL ==> window'[size] == c
    requires c == NL ==> forall i :: size <= i < size + Delta(size, c, cols) ==> window'[i] == 0 || window'[i] == NL
    ensures Laid(window', size + Delta(size, c, cols), s + [c], cols)
  {
    CellsSnoc(s, c, cols);
  }

  // The oldest offset still in a ring of H characters.
  function Oldest(cnt: int, H: int): int { if cnt > H then cnt - H else 0 }

  // The ring holds character i of the output.
  ghost predicate InRing(ring: seq<byte>, log: seq<byte>, i: int) {
    |ring| > 0 && 0 <= i < |log| && ring[i % |ring|] == log[i]
  }

  ghost predicate Retained(ring: seq<byte>, log: seq<byte>) {
    && |ring| > 0
    && forall i {:trigger InRing(ring, log, i)} :: Oldest(|log|, |ring|) <= i < |log| ==> InRing(ring, log, i)
  }

  lemma ModDiffer(i: int, j: int, H: int)
    requires 0 <= i < j < i + H
    ensures i % H != j % H
  {
    DivMod(i, H);
    DivMod(j, H);
    if i % H == j % H {
      if i / H < j / H { MulGap(i / H, j / H, H); } else { MulMono(j / H, i / H, H); }
    }
  }

  lemma RingWrite(ring: seq<byte>, log: seq<byte>, c: byte)
    requires Retained(ring, log)
    ensures Retained(ring[|log| % |ring| := c], log + [c])
  {
    var H := |ring|;
    var ring', log' := ring[|log| % H := c], log + [c];
    forall i | Oldest(|log'|, H) <= i < |log'| ensures InRing(ring', log', i) {
      if i < |log| {
        assert InRing(ring, log, i);
        ModDiffer(i, |log|, H);
      }
    }
  }

  // A window of whole rows that is not full has room for one more character.
  lemma RoomForOne(size: int, W: int, c: byte, cols: int)
    requires cols > 0 && 0 <= size < W && W % cols == 0
    ensures size + Delta(size, c, cols) <= W
  {
    RowEnd(size, cols);
    DivMod(size, cols);
    DivMod(W, cols);
    if W / cols < size / cols + 1 { MulMono(W / cols, size / cols, cols); }
    MulMono(size / cols + 1, W / cols, cols);
  }

  lemma FullIfOverflow(size: int, W: int, c: byte, cols: int)
    requires cols > 0 && 0 <= size <= W && W % cols == 0
    ensures size + Delta(size, c, cols) > W ==> size == W
  {
    if size < W { RoomForOne(size, W, c, cols); }
  }

  class Console {
    const cols: int            // console_max_col
    const visible: int         // window cells that fit on the screen below the input area
    const history: array<byte>
    const window: array<byte>  // max_window_size cells
    const screen: array<byte>
    var historyCnt: int
    var windowFirst: int       // window_first_history
    var windowLast: int        // window_last_history
    var windowSize: int

    // Everything written so far.
    ghost var log: seq<byte>

    ghost predicate Shape() {
      && cols > 0 && window.Length > 0 && window.Length % cols == 0 && window.Length < history.Length
      && 0 <= visible <= window.Length && screen.Length == visible
      && history != window && history != screen && window != screen
    }

    // The ring holds the latest output and the window starts inside it.
    ghost predicate Kept()
      reads this, history
    {
      && Shape() && historyCnt == |log| && Retained(history[..], log)
      && Oldest(historyCnt, history.Length) <= windowFirst <= windowLast <= historyCnt
    }

    // The screen shows the window.
    ghost predicate Drawn()
      reads window, screen
    {
      && Shape()
      && forall i :: 0 <= i < visible ==> screen[i] == Draw(window[i])
    }

    // The window holds the text from windowFirst to windowLast, which goes on to
    // the latest output or until the window is full.
    ghost predicate Windowed()
      reads this, window
    {
      Shape() && Filled(window[..], windowSize, log, windowFirst, windowLast, cols)
    }

    ghost predicate Valid()
      reads this, history, window, screen
    {
      Kept() && Windowed() && Drawn()
    }

    // A console with a zeroed window.
    constructor (cols: int, rows: int, historySize: int, visible: int)
      requires cols > 0 && rows > 0 && rows * cols < historySize && 0 <= visible <= rows * cols
      ensures Valid() && log == [] && windowFirst == windowLast == historyCnt
      ensures window.Length == rows * cols && history.Length == historySize && this.cols == cols && this.visible == visible
      ensures fresh(history) && fresh(window) && fresh(screen)
    {
      MulMono(1, rows, cols);
      this.cols, this.visible := cols, visible;
      history := new byte[historySize](_ => 0);
      window := new byte[rows * cols](_ => 0);
      screen := new byte[visible](_ => 0);
      historyCnt, windowFirst, windowLast, windowSize := 0, 0, 0, 0;
      log := [];
      new;
      DivIs(rows * cols, rows, 0, cols);
    }

    // The zero cells after a newline, up to the end of its row.
    method PadRow(size: int) returns (size': int)
      requires Shape() && 0 < size <= window.Length
      modifies window
      ensures size' == size - 1 + Delta(size - 1, NL, cols)
      ensures size <= size' <= window.Length
      ensures forall i :: 0 <= i < window.Length ==> window[i] == if size <= i < size' then 0 else old(window[i])
    {
      RoomForOne(size - 1, window.Length, NL, cols);
      ghost var end := size - 1 + Delta(size - 1, NL, cols);
      size' := size;
      while size' % cols != 0 && size' < window.Length
        invariant size <= size' <= end
        invariant forall i :: 0 <= i < window.Length ==> window[i] == if size <= i < size' then 0 else old(window[i])
        decreases end - size'
      {
        window[size'] := 0;
        size' := size' + 1;
      }
      RowEndIs(size - 1, size', cols);
    }

    method NextLineStart(x: int) returns (r: int)
      requires Shape() && historyCnt == |log| && Retained(history[..], log)
      requires Oldest(historyCnt, history.Length) <= x <= historyCnt
      ensures r == NextLine(log, x, cols)
    {
      r := x;
      var cnt := 0;
      while r < historyCnt && cnt < cols
        invariant x <= r <= historyCnt && 0 <= cnt <= cols
        invariant NextFrom(log, r, cnt, cols) == NextLine(log, x, cols)
      {
        assert InRing(history[..], log, r);
        if history[r % history.Length] == NL {
          r := r + 1;
          break;
        }
        r := r + 1;
        cnt := cnt + 1;
      }
    }

    method PrevLineStart(x: int) returns (r: int)
      requires Shape() && historyCnt == |log| && Retained(history[..], log)
      requires Oldest(historyCnt, history.Length) <= x <= historyCnt
      ensures r == PrevLine(log, x, Oldest(historyCnt, history.Length), cols)
    {
      r := x;
      var lo := if historyCnt > history.Length then historyCnt - history.Length else 0;
      var cnt := 0;
      while r > lo && cnt < cols && !(history[(r - 1) % history.Length] == NL && r != x)
        invariant lo <= r <= x && cnt == x - r <= cols && (r > lo ==> InRing(history[..], log, r - 1))
        invariant PrevFrom(log, x, r, lo, cols) == PrevLine(log, x, lo, cols)
      {
        r := r - 1;
        cnt := cnt + 1;
      }
    }

    // One character of update_window_buffer.
    method PutChar(size: int, c: byte, ghost s: seq<byte>) returns (size': int)
      requires Shape() && 0 <= size < window.Length && Laid(window[..], size, s, cols)
      modifies window
      ensures size' == size + Delta(size, c, cols) <= window.Length && Laid(window[..], size', s + [c], cols)
    {
      RoomForOne(size, window.Length, c, cols);
      ghost var w := window[..];
      window[size] := c;
      size' := size + 1;
      if window[size' - 1] == NL {
        size' := PadRow(size');
      }
      LaidSnoc(w, window[..], size, s, c, cols);
    }

    // Rebuilds the window from windowFirst.
    method UpdateWindowBuffer()
      requires Shape() && historyCnt == |log| && Retained(history[..], log)
      requires Oldest(historyCnt, history.Length) <= windowFirst <= historyCnt
      modifies this`windowSize, this`windowLast, window
      ensures Windowed()
    {
      var size, idx := 0, windowFirst;
      ghost var text := [];
      while size < window.Length && idx < historyCnt
        invariant windowFirst <= idx <= historyCnt && 0 <= size
        invariant text == log[windowFirst..idx] && Laid(window[..], size, text, cols)
        decreases historyCnt - idx
      {
        var c := history[idx % history.Length];
        assert InRing(history[..], log, idx);
        size := PutChar(size, c, text);
        SliceSnoc(log, windowFirst, idx);
        text := text + [c];
        idx := idx + 1;
      }
      windowSize := size;
      windowLast := idx;
      ClearRest(size);
    }

    // The cells behind the text are zeroed.
    method ClearRest(from: int)
      requires 0 <= from <= window.Length
      modifies window
      ensures forall i :: 0 <= i < window.Length ==> window[i] == if i < from then old(window[i]) else 0
    {
      var size := from;
      while size < window.Length
        invariant from <= size <= window.Length
        invariant forall i :: 0 <= i < window.Length ==> window[i] == if from <= i < size then 0 else old(window[i])
      {
        window[size] := 0;
        size := size + 1;
      }
    }

    method DrawWindow()
      requires Shape()
      modifies screen
      ensures Drawn()
    {
      var i := 0;
      while i < window.Length
        invariant 0 <= i <= window.Length
        invariant forall j :: 0 <= j < i && j < visible ==> screen[j] == Draw(window[j])
      {
        if i >= visible {
          break;
        }
        screen[i] := Draw(window[i]);
        i := i + 1;
      }
    }

    // -1: the window already starts at the last line.
    method MoveDownWindowStartPosition() returns (r: int)
      requires Shape() && historyCnt == |log| && Retained(history[..], log)
      requires Oldest(historyCnt, history.Length) <= windowFirst <= historyCnt
      modifies this`windowFirst
      ensures windowFirst == NextLine(log, old(windowFirst), cols)
      ensures r == if windowFirst == old(windowFirst) then -1 else 0
    {
      var nextStart := NextLineStart(windowFirst);
      if nextStart <= windowFirst {
        return -1;
      }
      windowFirst := nextStart;
      r := 0;
    }

    method MoveUpWindowStartPosition() returns (r: int)
      requires Shape() && historyCnt == |log| && Retained(history[..], log)
      requires Oldest(historyCnt, history.Length) <= windowFirst <= historyCnt
      modifies this`windowFirst
      ensures windowFirst == PrevLine(log, old(windowFirst), Oldest(historyCnt, history.Length), cols)
      ensures r == if windowFirst == old(windowFirst) then -1 else 0
    {
      var newStart := PrevLineStart(windowFirst);
      if newStart >= windowFirst {
        return -1;
      }
      windowFirst := newStart;
      r := 0;
    }

    method WindowMoveUp()
      requires Valid()
      modifies this`windowFirst, this`windowLast, this`windowSize, window, screen
      ensures Valid()
      ensures windowFirst ==
              PrevLine(log, old(windowFirst), if historyCnt > history.Length then historyCnt - history.Length else 0, cols)
    {
      var r := MoveUpWindowStartPosition();
      if r < 0 {
        return;
      }
      UpdateWindowBuffer();
      DrawWindow();
    }

    method WindowMoveDown()
      requires Valid()
      modifies this`windowFirst, this`windowLast, this`windowSize, window, screen
      ensures Valid() && windowFirst == NextLine(log, old(windowFirst), cols)
    {
      var r := MoveDownWindowStartPosition();
      if r < 0 {
        return;
      }
      UpdateWindowBuffer();
      DrawWindow();
    }

    method ConsoleClear()
      requires Valid()
      modifies this`windowFirst, this`windowLast, this`windowSize, window, screen
      ensures Valid() && windowFirst == windowLast == historyCnt && windowSize == 0
      ensures forall i :: 0 <= i < visible ==> screen[i] == 0
    {
      windowFirst, windowLast := historyCnt, historyCnt;
      UpdateWindowBuffer();
      DrawWindow();
      assert log[historyCnt..windowLast] == [];
    }

    // The new character goes into the ring.
    method Store(c: byte)
      requires Shape() && historyCnt == |log| && Retained(history[..], log)
      modifies this`historyCnt, this`windowLast, this`log, history
      ensures historyCnt == |log| == windowLast && log == old(log) + [c] && Retained(history[..], log)
    {
      RingWrite(history[..], log, c);
      ghost var ring := history[..];
      history[historyCnt % history.Length] := c;
      assert history[..] == ring[|log| % |ring| := c];
      historyCnt := historyCnt + 1;
      log := log + [c];
      windowLast := historyCnt;
    }

    // The fast path: the cells the character adds.
    method PutAtEnd(from: int, c: byte)
      requires 0 <= from < windowSize <= window.Length
      modifies window
      ensures forall i :: 0 <= i < window.Length ==>
                window[i] == if i == windowSize - 1 then c else if from <= i < windowSize then 0 else old(window[i])
    {
      var i := from;
      while i < windowSize - 1
        invariant from <= i <= windowSize - 1
        invariant forall j :: 0 <= j < window.Length ==> window[j] == if from <= j < i then 0 else old(window[j])
      {
        window[i] := 0;
        i := i + 1;
      }
      window[windowSize - 1] := c;
    }

    method OutputWindowOneToVga(i: int, c: byte)
      requires Shape() && 0 <= i
      modifies screen
      ensures forall j :: 0 <= j < visible ==> screen[j] == if j == i then Draw(c) else old(screen[j])
    {
      if i >= visible {
        return;
      }
      screen[i] := Draw(c);
    }

    // Starts the window one line later and rebuilds it.
    method Advance()
      requires Shape() && historyCnt == |log| && Retained(history[..], log)
      requires Oldest(historyCnt, history.Length) <= windowFirst <= historyCnt
      modifies this`windowFirst, this`windowLast, this`windowSize, window
      ensures Kept() && Windowed() && windowFirst == NextLine(log, old(windowFirst), cols)
    {
      var _ := MoveDownWindowStartPosition();
      UpdateWindowBuffer();
    }

    // Drops the first row and rebuilds the window.
    method DropFirstRow(c: byte)
      requires Shape() && historyCnt == |log| == windowLast && Retained(history[..], log)
      requires |log| > 0 && log[|log| - 1] == c
      requires Oldest(historyCnt, history.Length) <= windowFirst < historyCnt
      requires |Cells(log[windowFirst..|log| - 1], cols)| == window.Length
      modifies this`windowFirst, this`windowLast, this`windowSize, window
      ensures Kept() && Windowed() && windowLast == historyCnt
      ensures windowFirst == NextLine(log, old(windowFirst), cols)
      ensures windowSize > 0 && Draw(window[windowSize - 1]) == Draw(c)
    {
      ghost var first := windowFirst;
      Advance();
      ScrolledEnd(log, first, c, window[..], windowSize, windowLast, cols);
    }

    // After an overflow.
    method Scroll(c: byte)
      requires Shape() && historyCnt == |log| == windowLast && Retained(history[..], log)
      requires |log| > 0 && log[|log| - 1] == c
      requires Oldest(historyCnt, history.Length) <= windowFirst < historyCnt
      requires |Cells(log[windowFirst..|log| - 1], cols)| == window.Length
      modifies this`windowFirst, this`windowLast, this`windowSize, window, screen
      ensures Kept() && Windowed() && Drawn() && windowLast == historyCnt
      ensures windowFirst == NextLine(log, old(windowFirst), cols)
    {
      DropFirstRow(c);
      Redraw(c);
    }

    // Draws the window and, once more, the cell of its last character.
    method Redraw(c: byte)
      requires Shape() && 0 < windowSize <= window.Length && Draw(window[windowSize - 1]) == Draw(c)
      modifies screen
      ensures Drawn()
    {
      DrawWindow();
      OutputWindowOneToVga(windowSize - 1, c);
    }

    // The fast path of write_console_one: the character fits.
    method Append(oldSize: int, c: byte, ghost text: seq<byte>)
      requires Shape() && historyCnt == |log| == windowLast && 0 <= windowFirst <= windowLast
      requires Shows(window[..], oldSize, text, cols) && log[windowFirst..windowLast] == text + [c]
      requires windowSize == oldSize + Delta(oldSize, c, cols) <= window.Length
      requires Drawn()
      modifies window, screen
      ensures Windowed() && Drawn()
    {
      ghost var w := window[..];
      PutAtEnd(oldSize, c);
      LaidSnoc(w, window[..], oldSize, text, c, cols);
      OutputWindowOneToVga(windowSize - 1, c);
    }

    // The window that ended before c, of which `text` was shown, now ends with c.
    method ShowNew(oldSize: int, c: byte, ghost text: seq<byte>)
      requires Shape() && historyCnt == |log| == windowLast && Retained(history[..], log)
      requires Oldest(historyCnt, history.Length) <= windowFirst < historyCnt && log[|log| - 1] == c
      requires log[windowFirst..|log| - 1] == text && log[windowFirst..windowLast] == text + [c]
      requires Shows(window[..], oldSize, text, cols) && Drawn()
      requires windowSize == oldSize + Delta(oldSize, c, cols)
      modifies this`windowFirst, this`windowLast, this`windowSize, window, screen
      ensures Valid() && windowLast == historyCnt
      ensures windowFirst == if old(windowSize) <= window.Length then old(windowFirst)
                             else NextLine(log, old(windowFirst), cols)
    {
      FullIfOverflow(oldSize, window.Length, c, cols);
      if windowSize > window.Length {
        Scroll(c);
      } else {
        Append(oldSize, c, text);
      }
    }

    // write_console_one while the window follows the output.
    method WriteFollowing(c: byte)
      requires Valid() && windowLast == historyCnt
      modifies this, history, window, screen
      ensures Valid() && windowLast == historyCnt && log == old(log) + [c]
      ensures windowFirst == if |Cells(log[old(windowFirst)..], cols)| <= window.Length then old(windowFirst)
                             else NextLine(log, old(windowFirst), cols)
    {
      ghost var text := log[windowFirst..];
      assert log[windowFirst..windowLast] == text;
      TextSnoc(log, windowFirst, c, cols);
      var oldSize := windowSize;
      windowSize := windowSize + Delta(windowSize, c, cols);
      Store(c);
      ShowNew(oldSize, c, text);
    }

    // write_console_one while the window shows older output: jump to the new
    // character.
    method WriteAndJump(c: byte)
      requires Valid()
      modifies this, history, window, screen
      ensures Valid() && windowLast == historyCnt && log == old(log) + [c]
      ensures windowFirst == old(historyCnt)
    {
      windowSize := 0;
      windowFirst := historyCnt;
      WholeRow(window.Length, cols);
      windowSize := windowSize + Delta(windowSize, c, cols);
      Store(c);
      if windowSize > window.Length {
        assert false;
      } else {
        PutAtEnd(0, c);
      }
      UpdateWindowBuffer();
      AfterJump(log, c, window[..], windowSize, windowLast, cols);
      DrawWindow();
    }

    // A window that follows the output keeps its start while the text fits and drops
    // one line when it does not; any other window jumps to the new character.
    method WriteConsoleOne(c: byte)
      requires Valid()
      modifies this, history, window, screen
      ensures Valid() && windowLast == historyCnt && log == old(log) + [c]
      ensures old(windowLast) == old(historyCnt) && |Cells(log[old(windowFirst)..], cols)| <= window.Length ==>
                windowFirst == old(windowFirst)
      ensures old(windowLast) == old(historyCnt) && |Cells(log[old(windowFirst)..], cols)| > window.Length ==>
                windowFirst == NextLine(log, old(windowFirst), cols)
      ensures old(windowLast) != old(historyCnt) ==> windowFirst == old(historyCnt)
    {
      if historyCnt == windowLast {
        WriteFollowing(c);
      } else {
        WriteAndJump(c);
      }
    }

    // Any sequence of writes, clears and moves.  With Valid() this fixes every cell of
    // the screen.
    method Perform(cmds: seq<Command>)
      requires Valid()
      modifies this, history, window, screen
      ensures Valid() && log == old(log) + Written(cmds)
      ensures windowFirst == StartAfter(old(log), old(windowFirst), cmds, history.Length, window.Length, cols)
      decreases |cmds|
    {
      if cmds != [] {
        WrittenStep(log, cmds);
        Do(cmds[0]);
        Perform(cmds[1..]);
      }
    }

    method Do(cmd: Command)
      requires Valid()
      modifies this, history, window, screen
      ensures Valid() && log == old(log) + Text(cmd)
      ensures cmd.Put? ==> windowLast == historyCnt
      ensures windowFirst == Start(old(log), old(windowFirst), cmd, history.Length, window.Length, cols)
    {
      FollowingIff(window[..], windowSize, log, windowFirst, windowLast, cols);
      match cmd
      case Put(c) => WriteConsoleOne(c);
      case Clear => ConsoleClear();
      case Up => WindowMoveUp();
      case Down => WindowMoveDown();
    }
  }

  datatype Command = Put(c: byte) | Clear | Up | Down

  function Text(cmd: Command): seq<byte> { if cmd.Put? then [cmd.c] else [] }

  function Written(cmds: seq<Command>): seq<byte> {
    if cmds == [] then []
    else Text(cmds[0]) + Written(cmds[1..])
  }

  // Where a window can start: inside the ring, which is longer than the window.
  predicate Startable(log: seq<byte>, first: int, H: int, W: int, cols: int) {
    cols > 0 && 0 < W < H && W % cols == 0 && Oldest(|log|, H) <= first <= |log|
  }

  // Where the window starts after one command.  It follows the output exactly if
  // all the text from its start on fits.
  function Start(log: seq<byte>, first: int, cmd: Command, H: int, W: int, cols: int): (n: int)
    requires Startable(log, first, H, W, cols)
    ensures Startable(log + Text(cmd), n, H, W, cols)
  {
    match cmd
    case Put(c) =>
      CellsCount(log[first..], cols);
      CellsCount((log + [c])[first..], cols);
      if |Cells(log[first..], cols)| > W then |log|
      else if |Cells((log + [c])[first..], cols)| <= W then first
      else NextLine(log + [c], first, cols)
    case Clear => |log|
    case Up => PrevLine(log, first, Oldest(|log|, H), cols)
    case Down => NextLine(log, first, cols)
  }

  function StartAfter(log: seq<byte>, first: int, cmds: seq<Command>, H: int, W: int, cols: int): int
    requires Startable(log, first, H, W, cols)
    decreases |cmds|
  {
    if cmds == [] then first
    else StartAfter(log + Text(cmds[0]), Start(log, first, cmds[0], H, W, cols), cmds[1..], H, W, cols)
  }

  // A window that is kept follows the output exactly if all the text from its start
  // on fits.
  lemma FollowingIff(window: seq<byte>, size: int, log: seq<byte>, first: int, last: int, cols: int)
    requires cols > 0 && Filled(window, size, log, first, last, cols)
    ensures last == |log| <==> |Cells(log[first..], cols)| <= |window|
  {
    assert last == |log| ==> log[first..last] == log[first..];
    if |Cells(log[first..], cols)| <= |window| && last < |log| { TailShown(log, first, last, |window|, cols); }
  }

  // Text that fits is shown from where the window started: no write takes a
  // character off the screen before it must.
  lemma {:induction false} NothingLost(log: seq<byte>, first: int, text: seq<byte>, H: int, W: int, cols: int)
    requires Startable(log, first, H, W, cols) && |Cells((log + text)[first..], cols)| <= W
    ensures StartAfter(log, first, Puts(text), H, W, cols) == first && Written(Puts(text)) == text
    decreases |text|
  {
    if text != [] {
      var c, rest := text[0], text[1..];
      assert (log + [c]) + rest == log + text && Puts(text) == [Put(c)] + Puts(rest);
      StartStays(log, first, c, rest, H, W, cols);
      NothingLost(log + [c], first, rest, H, W, cols);
      StartPuts(log, first, Put(c), Puts(rest), H, W, cols);
    }
  }

  lemma StartStays(log: seq<byte>, first: int, c: byte, rest: seq<byte>, H: int, W: int, cols: int)
    requires Startable(log, first, H, W, cols) && |Cells(((log + [c]) + rest)[first..], cols)| <= W
    ensures Start(log, first, Put(c), H, W, cols) == first
  {
    var all := ((log + [c]) + rest)[first..];
    assert all[..|log| - first] == log[first..] && all[..|log| + 1 - first] == (log + [c])[first..] && all[..|all|] == all;
    CellsGrow(all, |log| - first, |all|, cols);
    CellsGrow(all, |log| + 1 - first, |all|, cols);
  }

  lemma StartPuts(log: seq<byte>, first: int, cmd: Command, cmds: seq<Command>, H: int, W: int, cols: int)
    requires Startable(log, first, H, W, cols)
    ensures StartAfter(log, first, [cmd] + cmds, H, W, cols)
         == StartAfter(log + Text(cmd), Start(log, first, cmd, H, W, cols), cmds, H, W, cols)
    ensures Written([cmd] + cmds) == Text(cmd) + Written(cmds)
  {
    assert ([cmd] + cmds)[1..] == cmds;
  }

  function Puts(text: seq<byte>): seq<Command> {
    if text == [] then [] else [Put(text[0])] + Puts(text[1..])
  }

  // A write that scrolls leaves less than one row of the window unused.
  lemma ScrollsOneRow(log: seq<byte>, first: int, c: byte, H: int, W: int, cols: int)
    requires Startable(log, first, H, W, cols)
    requires |Cells(log[first..], cols)| <= W < |Cells((log + [c])[first..], cols)|
    ensures var n := Start(log, first, Put(c), H, W, cols);
            W - cols < |Cells((log + [c])[n..], cols)| <= W
  {
    assert (log + [c])[first..] == log[first..] + [c];
    CellsSnoc(log[first..], c, cols);
    FullIfOverflow(|Cells(log[first..], cols)|, W, c, cols);
    ScrollFits(log, first, c, W, cols);
  }

  lemma WrittenStep(log: seq<byte>, cmds: seq<Command>)
    requires cmds != []
    ensures log + Written(cmds) == (log + Text(cmds[0])) + Written(cmds[1..])
  {}

  // A window that ends at the latest output or is full.
  ghost predicate Filled(window: seq<byte>, size: int, log: seq<byte>, first: int, last: int, cols: int)
    requires cols > 0
  {
    && 0 <= first <= last <= |log|
    && Shows(window, size, log[first..last], cols)
    && (last == |log| || size == |window|)
  }

  // A window kept up to date character by character and one rebuilt from the
  // history are the same on the screen: where the window starts determines
  // where it ends, how many cells it uses and how each cell is drawn.
  lemma WindowDetermined(log: seq<byte>, first: int, cols: int,
                         w: seq<byte>, size: int, last: int, w': seq<byte>, size': int, last': int)
    requires cols > 0 && |w| == |w'|
    requires Filled(w, size, log, first, last, cols) && Filled(w', size', log, first, last', cols)
    ensures last == last' && size == size'
    ensures forall i :: 0 <= i < |w| ==> Draw(w[i]) == Draw(w'[i])
  {
    if last < last' { NotLonger(log, first, last, last', cols); }
    if last' < last { NotLonger(log, first, last', last, cols); }
  }

  lemma NotLonger(log: seq<byte>, first: int, a: int, b: int, cols: int)
    requires cols > 0 && 0 <= first <= a < b <= |log|
    ensures |Cells(log[first..a], cols)| < |Cells(log[first..b], cols)|
  {
    var s := log[first..b];
    assert s[..a - first] == log[first..a] && s[..|s|] == s;
    CellsGrow(s, a - first, |s|, cols);
  }

  // One more character at the end of the text from `first` on.
  lemma TextSnoc(log: seq<byte>, first: int, c: byte, cols: int)
    requires cols > 0 && 0 <= first <= |log|
    ensures var text, log' := log[first..], log + [c];
            && log'[first..|log'| - 1] == text && log'[first..|log'|] == log'[first..] == text + [c]
            && |Cells(log'[first..], cols)| == |Cells(text, cols)| + Delta(|Cells(text, cols)|, c, cols)
            && |text| <= |Cells(text, cols)|
  {
    assert (log + [c])[first..] == log[first..] + [c];
    CellsSnoc(log[first..], c, cols);
    CellsCount(log[first..], cols);
  }

  lemma SliceSnoc(s: seq<byte>, a: int, b: int)
    requires 0 <= a <= b < |s|
    ensures s[a..b + 1] == s[a..b] + [s[b]]
  {}

  // The last cell of a text shows its last character.
  lemma LastCell(s: seq<byte>, c: byte, cols: int)
    requires cols > 0
    ensures var r := Cells(s + [c], cols); |r| > 0 && r[|r| - 1] == Draw(c)
  {
    CellsSnoc(s, c, cols);
  }

  // A full window starts with a full row.
  lemma FirstRowFull(log: seq<byte>, first: int, c: byte, W: int, cols: int)
    requires cols > 0 && W > 0 && W % cols == 0 && 0 <= first <= |log|
    requires |Cells(log[first..], cols)| == W
    ensures var n := NextLine(log + [c], first, cols);
            first < n <= |log| && |Cells((log + [c])[first..n], cols)| == cols
  {
    var log' := log + [c];
    assert log'[first..|log'|] == log[first..] + [c];
    CellsSnoc(log[first..], c, cols);
    RowCells(log', first, cols);
    WholeRow(W, cols);
  }

  // Scrolling is exact: when one more character overflows a full window, going to
  // the next line start drops exactly the first row, and the rest fits.
  lemma ScrollFits(log: seq<byte>, first: int, c: byte, W: int, cols: int)
    requires cols > 0 && W > 0 && W % cols == 0 && 0 <= first <= |log|
    requires |Cells(log[first..], cols)| == W
    ensures var log' := log + [c];
            var n := NextLine(log', first, cols);
            && first < n <= |log|
            && Cells(log'[first..], cols) == Cells(log'[first..n], cols) + Cells(log'[n..], cols)
            && |Cells(log'[first..n], cols)| == cols
            && |Cells(log'[n..], cols)| <= W
  {
    var log' := log + [c];
    var n := NextLine(log', first, cols);
    FirstRowFull(log, first, c, W, cols);
    var row, rest := log'[first..n], log'[n..];
    assert row + rest == log'[first..] == log[first..] + [c];
    DropRow(row, rest, log[first..], c, W, cols);
  }

  lemma DropRow(row: seq<byte>, rest: seq<byte>, text: seq<byte>, c: byte, W: int, cols: int)
    requires cols > 0 && row + rest == text + [c] && |Cells(text, cols)| == W && |Cells(row, cols)| == cols
    ensures Cells(row + rest, cols) == Cells(row, cols) + Cells(rest, cols)
    ensures |Cells(rest, cols)| <= W
  {
    DivIs(cols, 1, 0, cols);
    CellsSplit(row, rest, cols);
    CellsSnoc(text, c, cols);
  }

  // A window rebuilt after scrolling ends at the newest character.
  lemma AfterScroll(log: seq<byte>, first: int, c: byte, window: seq<byte>, size: int, last: int, cols: int)
    requires cols > 0 && |window| > 0 && |window| % cols == 0 && 0 <= first <= |log|
    requires |Cells(log[first..], cols)| == |window|
    requires var n := NextLine(log + [c], first, cols);
             && n <= last <= |log| + 1 && Laid(window, size, (log + [c])[n..last], cols)
             && (last == |log| + 1 || size == |window|)
    ensures last == |log| + 1 && size > 0 && Draw(window[size - 1]) == Draw(c)
  {
    var log' := log + [c];
    var n := NextLine(log', first, cols);
    assert n <= |log| && |Cells(log'[n..], cols)| <= |window| by { ScrollFits(log, first, c, |window|, cols); }
    if last < |log'| { TailShown(log', n, last, |window|, cols); }
    assert log'[n..last] == log[n..] + [c];
    LastCell(log[n..], c, cols);
  }

  lemma ScrolledEnd(log: seq<byte>, first: int, c: byte, window: seq<byte>, size: int, last: int, cols: int)
    requires cols > 0 && |window| > 0 && |window| % cols == 0 && 0 <= first < |log| && log[|log| - 1] == c
    requires |Cells(log[first..|log| - 1], cols)| == |window|
    requires Filled(window, size, log, NextLine(log, first, cols), last, cols)
    ensures last == |log| && size > 0 && Draw(window[size - 1]) == Draw(c)
  {
    var before := log[..|log| - 1];
    assert log == before + [c] && before[first..] == log[first..|log| - 1];
    AfterScroll(before, first, c, window, size, last, cols);
  }

  // A window rebuilt from the newest character on holds just that character.
  lemma AfterJump(log: seq<byte>, c: byte, window: seq<byte>, size: int, last: int, cols: int)
    requires cols > 0 && |window| > 0 && |window| % cols == 0 && |log| > 0 && log[|log| - 1] == c
    requires Filled(window, size, log, |log| - 1, last, cols)
    ensures last == |log|
  {
    assert log[|log| - 1..] == [] + [c];
    CellsSnoc([], c, cols);
    WholeRow(|window|, cols);
    if last < |log| { TailShown(log, |log| - 1, last, |window|, cols); }
  }

  lemma WholeRow(W: int, cols: int)
    requires cols > 0 && W > 0 && W % cols == 0
    ensures W >= cols
  {
    DivMod(W, cols);
    if W / cols <= 0 { MulMono(W / cols, 0, cols); }
    MulMono(1, W / cols, cols);
  }

  // If all of the text from `first` on fits, a full window ends at its end.
  lemma TailShown(log: seq<byte>, first: int, last: int, W: int, cols: int)
    requires cols > 0 && 0 <= first <= last <= |log|
    requires |Cells(log[first..], cols)| <= W == |Cells(log[first..last], cols)|
    ensures last == |log|
  {
    var s := log[first..];
    assert s[..last - first] == log[first..last] && s[..|s|] == s;
    CellsGrow(s, last - first, |s|, cols);
  }

  // The first multiple of cols after ws is the end of ws's row.
  lemma RowEndIs(ws: int, e: int, cols: int)
    requires cols > 0 && 0 <= ws < e <= ws + Delta(ws, NL, cols) && e % cols == 0
    ensures e == ws + Delta(ws, NL, cols)
  {
    RowEnd(ws, cols);
    DivMod(ws, cols);
    DivMod(e, cols);
    if e / cols <= ws / cols { MulMono(e / cols, ws / cols, cols); }
    if e / cols > ws / cols { MulMono(ws / cols + 1, e / cols, cols); }
  }

  // A console of 4 rows of 20 columns, and what is on its screen after "ab", a
  // newline and "c".
  method FirstLines() returns (screen: seq<byte>)
    ensures |screen| == 80 && screen[0] == 'a' as int && screen[1] == 'b' as int && screen[20] == 'c' as int
    ensures forall i :: 0 <= i < 80 && i !in {0, 1, 20} ==> screen[i] == 0
  {
    var con := new Console(20, 4, 100, 80);
    var a: byte, b: byte, c: byte := 'a' as int, 'b' as int, 'c' as int;
    var text := [a, b, NL, c];
    FirstLinesLaid(a, b, c);
    assert ([] + text)[0..] == text;
    NothingLost([], 0, text, 100, 80, 20);
    con.Perform(Puts(text));
    assert con.log[0..] == text;
    FollowingIff(con.window[..], con.windowSize, con.log, con.windowFirst, con.windowLast, 20);
    assert con.log[0..con.windowLast] == text;
    screen := con.screen[..];
  }

  lemma FirstLinesLaid(a: byte, b: byte, c: byte)
    requires a != NL && b != NL && c != NL
    ensures Cells([a, b, NL, c], 20) == [a, b] + Blanks(18) + [c]
  {
    LineCells([a, b], [c], 20);
    PlainCells([c], 20);
    assert [a, b] + [NL] + [c] == [a, b, NL, c];
  }

  // ------------------------------------------------------- 32-bit wrap-around

  const WORD := 0x1_0000_0000

  // The counts are 32-bit words.  A count that has not wrapped gives every
  // character the ring position it has here; from then on all positions agree
  // exactly if the ring size divides 2^32, which 100 does not.
  lemma RingWordIff(H: int)
    requires H > 0
    ensures forall n :: 0 <= n < WORD ==> n % WORD % H == n % H
    ensures (forall n :: n >= 0 ==> n % WORD % H == n % H) <==> WORD % H == 0
    ensures WORD % 100 != 0
  {
    if WORD % H == 0 {
      forall n | n >= 0 ensures n % WORD % H == n % H { RingWord(n, H); }
    } else {
      assert WORD % WORD % H == 0 by { DivIs(0, 0, 0, H); }
    }
  }

  lemma RingWord(n: int, H: int)
    requires H > 0 && n >= 0 && WORD % H == 0
    ensures n % WORD % H == n % H
  {
    var q, k := n / WORD, WORD / H;
    DivMod(WORD, H);
    DivMod(n % WORD, H);
    assert q * (k * H) == q * k * H;
    Distrib(q * k, n % WORD / H, H);
    DivIs(n, q * k + n % WORD / H, n % WORD % H, H);
  }

  // The write that makes the count wrap is the first to leave the window's start
  // behind the count.
  lemma OrderKeptIff(first: int, cnt: int, H: int)
    requires 0 < H < WORD - 1 && Oldest(cnt, H) <= first <= cnt < WORD
    ensures first <= (cnt + 1) % WORD <==> cnt + 1 < WORD
  {}
}
