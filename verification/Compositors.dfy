/** The window compositor: the order of the windows, the painter and the hit test. */
module Compositors {
  const COLS: int := 80
  const ROWS: int := 25
  const MAX_WINDOWS: int := 8
  const TITLE_LEN: nat := 30
  const WIN_MAX_COLS: int := 78
  const WIN_BUF_SIZE: int := 78 * 22

  const DESKTOP: nat := 0x17
  const TITLEBAR: nat := 0x70
  const TITLEFOCUS: nat := 0x4F
  const BORDER: nat := 0x07
  const CONTENT: nat := 0x07
  const CLOSE_BTN: nat := 0xC0

  /** A character cell of the screen. */
  datatype Glyph = Glyph(ch: char, attr: nat)

  datatype Window = Window(
    x: int, y: int, w: int, h: int, active: bool, focused: bool, title: string, buf: seq<Glyph>)
  {
    predicate Covers(col: int, row: int) {
      x <= col < x + w && y <= row < y + h
    }
  }

  const NO_WINDOW := Window(0, 0, 0, 0, false, false, "", [])

  predicate OnScreen(col: int, row: int) {
    0 <= col < COLS && 0 <= row < ROWS
  }

  // ---- What a window looks like ----

  function TitleChars(win: Window): int {
    var inner := if win.w - 4 < 0 then 0 else win.w - 4;
    if |win.title| < inner then |win.title| else inner
  }

  /** The title bar: corners, the close button, as much of the title as there is room for, and dashes. */
  function TitleGlyph(win: Window, dx: int): Glyph {
    var attr := if win.focused then TITLEFOCUS else TITLEBAR;
    if dx == win.w - 1 then Glyph('+', BORDER)
    else if win.w >= 5 && dx == win.w - 4 then Glyph('[', CLOSE_BTN)
    else if win.w >= 5 && dx == win.w - 3 then Glyph('X', CLOSE_BTN)
    else if win.w >= 5 && dx == win.w - 2 then Glyph(']', CLOSE_BTN)
    else if dx == 0 then Glyph('+', BORDER)
    else if 1 <= dx <= TitleChars(win) && dx <= |win.title| then Glyph(win.title[dx - 1], attr)
    else Glyph('-', attr)
  }

  /** A row of the content between its borders. */
  function ContentGlyph(win: Window, dx: int, r: int): Glyph {
    if dx == win.w - 1 || dx == 0 then Glyph('|', BORDER)
    else
      var pos := r * WIN_MAX_COLS + dx - 1;
      if 0 <= pos < WIN_BUF_SIZE && pos < |win.buf| then win.buf[pos] else Glyph(' ', CONTENT)
  }

  function BottomGlyph(win: Window, dx: int): Glyph {
    if dx == 0 || dx == win.w - 1 then Glyph('+', BORDER) else Glyph('-', BORDER)
  }

  /** The cell of a window at an offset from its corner.  The bottom border is drawn last, over the title of a window of
      one row. */
  function Look(win: Window, dx: int, dy: int): Glyph {
    if dy == win.h - 1 then BottomGlyph(win, dx)
    else if dy == 0 then TitleGlyph(win, dx)
    else ContentGlyph(win, dx, dy - 1)
  }

  /** The top row shows the focus in its colour, the title as far as there is room, and the button that closes the window. */
  lemma TitleShows(win: Window, dx: int)
    requires win.h >= 2 && 0 < dx < win.w - 1
    ensures win.w >= 5 && dx >= win.w - 4 ==> Look(win, dx, 0) == Glyph("[X]"[dx - win.w + 4], 0xC0)
    ensures win.w < 5 || dx < win.w - 4 ==>
              && Look(win, dx, 0).attr == (if win.focused then 0x4F else 0x70)
              && Look(win, dx, 0).ch == if dx <= |win.title| && dx <= win.w - 4 then win.title[dx - 1] else '-'
  {
  }

  /** The corners, the borders, and the text between them. */
  lemma FrameShows(win: Window, dx: int, dy: int)
    requires win.w >= 2 && win.h >= 2 && 0 <= dx < win.w && 0 <= dy < win.h
    ensures dx in {0, win.w - 1} ==> Look(win, dx, dy) == Glyph(if dy in {0, win.h - 1} then '+' else '|', 0x07)
    ensures 0 < dx < win.w - 1 && dy == win.h - 1 ==> Look(win, dx, dy) == Glyph('-', 0x07)
    ensures 0 < dx < win.w - 1 && 0 < dy < win.h - 1 && (dy - 1) * 78 + dx - 1 < |win.buf| == 78 * 22 ==>
              Look(win, dx, dy) == win.buf[(dy - 1) * 78 + dx - 1]
  {
  }

  // ---- Which window owns a cell ----

  /** The topmost of the first `n` windows of the order that covers the cell, or -1. */
  function Owner(windows: seq<Window>, z: seq<int>, n: nat, col: int, row: int): (o: int)
    requires n <= |z| && forall i {:trigger z[i]} :: 0 <= i < |z| ==> 0 <= z[i] < |windows|
    ensures o == -1 || 0 <= o < |windows|
  {
    if n == 0 then -1
    else if windows[z[n - 1]].active && windows[z[n - 1]].Covers(col, row) then z[n - 1]
    else Owner(windows, z, n - 1, col, row)
  }

  /** Number `i` of the order, counted from the bottom, is a window that covers the cell. */
  predicate CoversAt(windows: seq<Window>, z: seq<int>, i: nat, col: int, row: int)
    requires i < |z| && forall i {:trigger z[i]} :: 0 <= i < |z| ==> 0 <= z[i] < |windows|
  {
    var win := windows[z[i]];
    win.active && win.x <= col < win.x + win.w && win.y <= row < win.y + win.h
  }

  /** The window that covers the cell with none above it that does, or -1 if none does. */
  ghost predicate Topmost(windows: seq<Window>, z: seq<int>, n: nat, col: int, row: int, o: int)
    requires n <= |z| && forall i {:trigger z[i]} :: 0 <= i < |z| ==> 0 <= z[i] < |windows|
  {
    if o == -1 then forall i: nat {:trigger CoversAt(windows, z, i, col, row)} :: i < n ==> !CoversAt(windows, z, i, col, row)
    else exists i: nat {:trigger CoversAt(windows, z, i, col, row)} ::
           && i < n && z[i] == o && CoversAt(windows, z, i, col, row)
           && forall j: nat {:trigger CoversAt(windows, z, j, col, row)} :: i < j < n ==> !CoversAt(windows, z, j, col, row)
  }

  lemma {:induction false} OwnerIsTopmost(windows: seq<Window>, z: seq<int>, n: nat, col: int, row: int)
    requires n <= |z| && forall i {:trigger z[i]} :: 0 <= i < |z| ==> 0 <= z[i] < |windows|
    ensures Topmost(windows, z, n, col, row, Owner(windows, z, n, col, row))
  {
    if n > 0 {
      if CoversAt(windows, z, n - 1, col, row) {
      } else {
        OwnerIsTopmost(windows, z, n - 1, col, row);
      }
    }
  }

  /** What a cell shows. */
  function Shown(windows: seq<Window>, z: seq<int>, n: nat, col: int, row: int): Glyph
    requires n <= |z| && forall i {:trigger z[i]} :: 0 <= i < |z| ==> 0 <= z[i] < |windows|
  {
    var o := Owner(windows, z, n, col, row);
    if o == -1 then Glyph(' ', DESKTOP) else Look(windows[o], col - windows[o].x, row - windows[o].y)
  }

  // ---- The order of the windows ----

  predicate Distinct(z: seq<int>) {
    forall i, j {:trigger z[i], z[j]} :: 0 <= i < j < |z| ==> z[i] != z[j]
  }

  /** The order lists each active window once, and the focus is on the last one of it. */
  ghost predicate Ordered(windows: seq<Window>, z: seq<int>) {
    && |windows| == MAX_WINDOWS && |z| <= MAX_WINDOWS && Distinct(z)
    && (forall i {:trigger z[i]} :: 0 <= i < |z| ==> 0 <= z[i] < MAX_WINDOWS && windows[z[i]].active)
    && (forall k {:trigger windows[k]} :: 0 <= k < MAX_WINDOWS && windows[k].active ==> k in z)
    && (forall k {:trigger windows[k]} :: 0 <= k < MAX_WINDOWS ==>
          (windows[k].focused <==> |z| > 0 && z[|z| - 1] == k))
  }

  function Without(z: seq<int>, pos: nat): seq<int>
    requires pos < |z|
  {
    z[..pos] + z[pos + 1..]
  }

  class Compositor {
    const windows: array<Window>
    const zOrder: array<int>
    var nwindows: nat
    const backbuf: array<Glyph>
    var mouseX: int
    var mouseY: int

    constructor ()
      ensures Valid() && nwindows == 0 && fresh(windows) && fresh(zOrder) && fresh(backbuf)
    {
      windows := new Window[MAX_WINDOWS](_ => NO_WINDOW);
      zOrder := new int[MAX_WINDOWS](_ => 0);
      backbuf := new Glyph[COLS * ROWS](_ => Glyph(' ', DESKTOP));
      nwindows := 0;
      mouseX, mouseY := COLS / 2, ROWS / 2;
    }

    ghost predicate Valid()
      reads this, windows, zOrder
    {
      && windows.Length == zOrder.Length == MAX_WINDOWS && backbuf.Length == COLS * ROWS
      && nwindows <= MAX_WINDOWS
      && Ordered(windows[..], Z())
    }

    /** The order, bottom window first. */
    ghost function Z(): seq<int>
      requires zOrder.Length == MAX_WINDOWS && nwindows <= MAX_WINDOWS
      reads this, zOrder
    {
      zOrder[..nwindows]
    }

    method CreateWindow(x: int, y: int, w: int, h: int, title: string) returns (idx: int)
      requires Valid()
      modifies this`nwindows, windows, zOrder
      ensures Valid()
      ensures idx == -1 <==> old(nwindows) == MAX_WINDOWS
      ensures idx == -1 ==> windows[..] == old(windows[..]) && Z() == old(Z())
      ensures idx != -1 ==>
                && 0 <= idx < MAX_WINDOWS && !old(windows[idx]).active && Z() == old(Z()) + [idx]
                && (forall k {:trigger windows[k]} :: 0 <= k < idx ==> old(windows[k]).active)
                && windows[idx] == Window(x, y, w, h, true, true, if |title| <= TITLE_LEN then title else title[..TITLE_LEN],
                                          seq(WIN_BUF_SIZE, _ => Glyph(' ', CONTENT)))
                && forall k | 0 <= k < MAX_WINDOWS && k != idx :: windows[k] == old(windows[k]).(focused := false)
    {
      hide Ordered;
      if nwindows >= MAX_WINDOWS {
        return -1;
      }
      ghost var before, z := windows[..], Z();
      idx := FreeWindow();
      NotAllActive(before, z, idx);
      OrderKnown(before, z);
      var short := if |title| <= TITLE_LEN then title else title[..TITLE_LEN];
      windows[idx] := Window(x, y, w, h, true, false, short, seq(WIN_BUF_SIZE, _ => Glyph(' ', CONTENT)));
      if nwindows > 0 {
        var top := zOrder[nwindows - 1];
        windows[top] := windows[top].(focused := false);
      }
      zOrder[nwindows] := idx;
      nwindows := nwindows + 1;
      windows[idx] := windows[idx].(focused := true);
      OpenedOrdered(before, z, idx, windows[idx], windows[..]);
      assert Z() == z + [idx];
    }

    /** The first slot without a window, or -1. */
    method FreeWindow() returns (idx: int)
      requires windows.Length == MAX_WINDOWS
      ensures -1 <= idx < MAX_WINDOWS
      ensures idx < 0 ==> AllActive(windows[..])
      ensures idx >= 0 ==> !windows[idx].active && forall k {:trigger windows[k]} :: 0 <= k < idx ==> windows[k].active
    {
      idx := -1;
      var i := 0;
      while i < MAX_WINDOWS && idx < 0
        invariant 0 <= i <= MAX_WINDOWS && -1 <= idx < MAX_WINDOWS
        invariant idx < 0 ==> forall k {:trigger windows[k]} :: 0 <= k < i ==> windows[k].active
        invariant idx >= 0 ==> !windows[idx].active && forall k {:trigger windows[k]} :: 0 <= k < idx ==> windows[k].active
      {
        if !windows[i].active {
          idx := i;
        }
        i := i + 1;
      }
    }

    /** Where a window is in the order, or -1. */
    method FindInOrder(idx: int) returns (pos: int)
      requires zOrder.Length == MAX_WINDOWS && nwindows <= MAX_WINDOWS
      ensures -1 <= pos < nwindows && (pos >= 0 ==> zOrder[pos] == idx) && (pos < 0 ==> idx !in Z())
    {
      pos := -1;
      var i := 0;
      while i < nwindows && pos < 0
        invariant 0 <= i <= nwindows && -1 <= pos < nwindows
        invariant pos >= 0 ==> zOrder[pos] == idx
        invariant pos < 0 ==> idx !in zOrder[..i]
      {
        if zOrder[i] == idx {
          pos := i;
        }
        assert zOrder[..i + 1] == zOrder[..i] + [zOrder[i]];
        i := i + 1;
      }
      assert zOrder[..nwindows] == Z();
    }

    /** Moves the windows above a place down by one. */
    method ShiftDown(pos: nat)
      requires zOrder.Length == MAX_WINDOWS && pos < nwindows <= MAX_WINDOWS
      modifies zOrder
      ensures zOrder[..nwindows - 1] == Without(old(zOrder[..nwindows]), pos)
    {
      ghost var z := zOrder[..nwindows];
      var i := pos;
      while i < nwindows - 1
        invariant pos <= i <= nwindows - 1
        invariant forall k {:trigger zOrder[k]} :: pos <= k < i ==> zOrder[k] == z[k + 1]
        invariant forall k {:trigger zOrder[k]} :: 0 <= k < pos || i <= k < nwindows ==> zOrder[k] == z[k]
      {
        zOrder[i] := zOrder[i + 1];
        i := i + 1;
      }
    }

    method CloseWindow(idx: int)
      requires Valid()
      modifies this`nwindows, windows, zOrder
      ensures Valid()
      ensures !(0 <= idx < MAX_WINDOWS && old(windows[idx]).active) ==> windows[..] == old(windows[..]) && Z() == old(Z())
      ensures 0 <= idx < MAX_WINDOWS && old(windows[idx]).active ==>
                && IsWithout(old(Z()), idx, Z())
                && windows[idx] == old(windows[idx]).(active := false, focused := false)
                && forall k | 0 <= k < MAX_WINDOWS && k != idx :: windows[k] == old(windows[k]).(focused := windows[k].focused)
    {
      hide Ordered, Without;
      if idx < 0 || idx >= MAX_WINDOWS || !windows[idx].active {
        return;
      }
      ghost var before, z := windows[..], Z();
      OrderKnown(before, z);
      var pos := FindInOrder(idx);
      ListedActive(before, z, idx);
      windows[idx] := windows[idx].(active := false, focused := false);
      if pos >= 0 {
        ShiftDown(pos);
        nwindows := nwindows - 1;
      }
      WithoutKeeps(z, pos);
      if nwindows > 0 {
        var top := zOrder[nwindows - 1];
        TopKnown(before, z, pos);
        assert Z()[nwindows - 1] == top;
        windows[top] := windows[top].(focused := true);
      }
      ClosedOrdered(before, z, pos, windows[..]);
    }

    method BringToFront(idx: int)
      requires Valid()
      modifies windows, zOrder
      ensures Valid() && nwindows == old(nwindows)
      ensures !(0 <= idx < MAX_WINDOWS && old(windows[idx]).active) ==> windows[..] == old(windows[..]) && Z() == old(Z())
      ensures 0 <= idx < MAX_WINDOWS && old(windows[idx]).active ==>
                && |Z()| > 0 && Z()[|Z()| - 1] == idx && IsWithout(old(Z()), idx, Z()[..|Z()| - 1])
                && forall k | 0 <= k < MAX_WINDOWS :: windows[k] == old(windows[k]).(focused := k == idx)
    {
      hide Ordered, Without;
      if idx < 0 || idx >= MAX_WINDOWS || !windows[idx].active {
        return;
      }
      ghost var before, z := windows[..], Z();
      OrderKnown(before, z);
      var pos := FindInOrder(idx);
      ListedActive(before, z, idx);
      WithoutKeeps(z, pos);
      var top := zOrder[nwindows - 1];
      if pos < 0 || pos == nwindows - 1 {
        windows[top] := windows[top].(focused := top == idx);
        windows[idx] := windows[idx].(focused := true);
        LastWithout(z);
      } else {
        windows[top] := windows[top].(focused := false);
        ShiftDown(pos);
        zOrder[nwindows - 1] := idx;
        windows[idx] := windows[idx].(focused := true);
      }
      assert Z() == Without(z, pos) + [idx];
      RaisedOrdered(before, z, pos, windows[..]);
    }

    method BbPut(col: int, row: int, ch: char, attr: nat)
      requires backbuf.Length == COLS * ROWS
      modifies backbuf
      ensures forall c, r {:trigger Pixel(backbuf[..], c, r)} :: OnScreen(c, r) ==>
                Pixel(backbuf[..], c, r) == if c == col && r == row then Glyph(ch, attr) else Pixel(old(backbuf[..]), c, r)
    {
      if col < 0 || col >= COLS || row < 0 || row >= ROWS {
        return;
      }
      backbuf[row * COLS + col] := Glyph(ch, attr);
    }

    /** A put into a row that is being painted. */
    method PutInRow(x: int, row: int, d: nat, ch: char, attr: nat, ghost bb0: seq<Glyph>, ghost line: seq<Glyph>)
      requires backbuf.Length == COLS * ROWS && d < |line| && RowIs(bb0, backbuf[..], x, row, line)
      modifies backbuf
      ensures RowIs(bb0, backbuf[..], x, row, line[d := Glyph(ch, attr)])
    {
      hide Pixel;
      ghost var before := backbuf[..];
      BbPut(x + d, row, ch, attr);
      forall c, r {:trigger Pixel(backbuf[..], c, r)} | OnScreen(c, r)
        ensures Pixel(backbuf[..], c, r) ==
          if r == row && x <= c < x + |line| then line[d := Glyph(ch, attr)][c - x] else Pixel(bb0, c, r)
      {
        var _ := Pixel(before, c, r);
      }
    }

    /** The title bar. */
    method RenderTitle(idx: int) returns (ghost line: seq<Glyph>)
      requires windows.Length == MAX_WINDOWS && backbuf.Length == COLS * ROWS && 0 <= idx < MAX_WINDOWS && windows[idx].w >= 1
      modifies backbuf
      ensures var win := windows[idx];
        && |line| == win.w && RowIs(old(backbuf[..]), backbuf[..], win.x, win.y, line)
        && forall d {:trigger line[d]} :: 0 <= d < win.w ==> line[d] == TitleGlyph(win, d)
    {
      hide Pixel, RowIs;
      var win := windows[idx];
      ghost var bb0 := backbuf[..];
      var x, y, w := win.x, win.y, win.w;
      var tbAttr := if win.focused then TITLEFOCUS else TITLEBAR;
      line := RowOf(bb0, x, y, w);
      PutInRow(x, y, 0, '+', BORDER, bb0, line);
      line := line[0 := Glyph('+', BORDER)];
      var col := 1;
      while col < w - 1
        invariant 1 <= col && (col <= w - 1 || col == 1)
        invariant |line| == w && RowIs(bb0, backbuf[..], x, y, line)
        invariant line[0] == Glyph('+', BORDER) && forall d {:trigger line[d]} :: 1 <= d < col && d < w ==> line[d] == Glyph('-', tbAttr)
      {
        PutInRow(x, y, col, '-', tbAttr, bb0, line);
        line := line[col := Glyph('-', tbAttr)];
        col := col + 1;
      }
      var tlen := TitleChars(win);
      var i := 0;
      while i < tlen
        invariant 0 <= i <= tlen && |line| == w && RowIs(bb0, backbuf[..], x, y, line)
        invariant line[0] == Glyph('+', BORDER)
        invariant forall d {:trigger line[d]} :: 1 <= d < w - 1 ==>
                    line[d] == if d <= i then Glyph(win.title[d - 1], tbAttr) else Glyph('-', tbAttr)
      {
        PutInRow(x, y, 1 + i, win.title[i], tbAttr, bb0, line);
        line := line[1 + i := Glyph(win.title[i], tbAttr)];
        i := i + 1;
      }
      if w >= 5 {
        PutInRow(x, y, w - 4, '[', CLOSE_BTN, bb0, line);
        line := line[w - 4 := Glyph('[', CLOSE_BTN)];
        PutInRow(x, y, w - 3, 'X', CLOSE_BTN, bb0, line);
        line := line[w - 3 := Glyph('X', CLOSE_BTN)];
        PutInRow(x, y, w - 2, ']', CLOSE_BTN, bb0, line);
        line := line[w - 2 := Glyph(']', CLOSE_BTN)];
      }
      PutInRow(x, y, w - 1, '+', BORDER, bb0, line);
      line := line[w - 1 := Glyph('+', BORDER)];
    }

    /** One row of the content, between its borders. */
    method RenderRow(idx: int, r: nat) returns (ghost line: seq<Glyph>)
      requires windows.Length == MAX_WINDOWS && backbuf.Length == COLS * ROWS && 0 <= idx < MAX_WINDOWS && windows[idx].w >= 1
      modifies backbuf
      ensures var win := windows[idx];
        && |line| == win.w && RowIs(old(backbuf[..]), backbuf[..], win.x, win.y + 1 + r, line)
        && forall d {:trigger line[d]} :: 0 <= d < win.w ==> line[d] == ContentGlyph(win, d, r)
    {
      hide Pixel, RowIs;
      var win := windows[idx];
      ghost var bb0 := backbuf[..];
      var x, row, w := win.x, win.y + 1 + r, win.w;
      line := RowOf(bb0, x, row, w);
      PutInRow(x, row, 0, '|', BORDER, bb0, line);
      line := line[0 := Glyph('|', BORDER)];
      var col := 0;
      while col < w - 2
        invariant 0 <= col && (col <= w - 2 || col == 0)
        invariant |line| == w && RowIs(bb0, backbuf[..], x, row, line)
        invariant line[0] == Glyph('|', BORDER)
        invariant forall d {:trigger line[d]} :: 1 <= d <= col && d < w - 1 ==> line[d] == ContentGlyph(win, d, r)
      {
        var bufPos := r * WIN_MAX_COLS + col;
        var glyph := Glyph(' ', CONTENT);
        if bufPos < WIN_BUF_SIZE && bufPos < |win.buf| {
          glyph := win.buf[bufPos];
        }
        PutInRow(x, row, 1 + col, glyph.ch, glyph.attr, bb0, line);
        line := line[1 + col := glyph];
        col := col + 1;
      }
      PutInRow(x, row, w - 1, '|', BORDER, bb0, line);
      line := line[w - 1 := Glyph('|', BORDER)];
    }

    /** The bottom border. */
    method RenderBottom(idx: int) returns (ghost line: seq<Glyph>)
      requires windows.Length == MAX_WINDOWS && backbuf.Length == COLS * ROWS && 0 <= idx < MAX_WINDOWS && windows[idx].w >= 1
      modifies backbuf
      ensures var win := windows[idx];
        && |line| == win.w && RowIs(old(backbuf[..]), backbuf[..], win.x, win.y + win.h - 1, line)
        && forall d {:trigger line[d]} :: 0 <= d < win.w ==> line[d] == BottomGlyph(win, d)
    {
      hide Pixel, RowIs;
      var win := windows[idx];
      ghost var bb0 := backbuf[..];
      var x, bot, w := win.x, win.y + win.h - 1, win.w;
      line := RowOf(bb0, x, bot, w);
      PutInRow(x, bot, 0, '+', BORDER, bb0, line);
      line := line[0 := Glyph('+', BORDER)];
      var col := 1;
      while col < w - 1
        invariant 1 <= col && (col <= w - 1 || col == 1)
        invariant |line| == w && RowIs(bb0, backbuf[..], x, bot, line)
        invariant line[0] == Glyph('+', BORDER) && forall d {:trigger line[d]} :: 1 <= d < col && d < w ==> line[d] == Glyph('-', BORDER)
      {
        PutInRow(x, bot, col, '-', BORDER, bb0, line);
        line := line[col := Glyph('-', BORDER)];
        col := col + 1;
      }
      PutInRow(x, bot, w - 1, '+', BORDER, bb0, line);
      line := line[w - 1 := Glyph('+', BORDER)];
    }

    method RenderWindow(idx: int)
      requires windows.Length == MAX_WINDOWS && backbuf.Length == COLS * ROWS && 0 <= idx < MAX_WINDOWS
      requires windows[idx].active ==> windows[idx].w >= 1 && windows[idx].h >= 1
      modifies backbuf
      ensures windows[idx].active ==> PaintedWindow(old(backbuf[..]), backbuf[..], windows[idx])
      ensures !windows[idx].active ==> backbuf[..] == old(backbuf[..])
    {
      hide Pixel, RowIs, PaintedRows, PaintedWindow, TitleGlyph, ContentGlyph, BottomGlyph;
      var win := windows[idx];
      if !win.active {
        return;
      }
      ghost var bb0 := backbuf[..];
      NothingPainted(bb0, win);
      ghost var line := RenderTitle(idx);
      RowPainted(bb0, bb0, backbuf[..], win, 0, line);
      var r := 0;
      while r < win.h - 2
        invariant 0 <= r && (r <= win.h - 2 || r == 0)
        invariant PaintedRows(bb0, backbuf[..], win, r + 1)
      {
        ghost var bb := backbuf[..];
        line := RenderRow(idx, r);
        RowPainted(bb0, bb, backbuf[..], win, r + 1, line);
        r := r + 1;
      }
      ghost var bb := backbuf[..];
      line := RenderBottom(idx);
      BottomPainted(bb0, bb, backbuf[..], win, r + 1, line);
    }

    /** Every window has at least one cell. */
    ghost predicate Sized()
      reads windows
    {
      forall k | 0 <= k < windows.Length :: windows[k].active ==> windows[k].w >= 1 && windows[k].h >= 1
    }

    /** Desktop, then the windows from back to front: what `comp_render` has painted before it draws the mouse cursor. */
    method Paint()
      requires Valid() && Sized()
      modifies backbuf
      ensures Valid() && OrderInRange(windows[..], Z())
      ensures Painted(backbuf[..], windows[..], Z(), nwindows)
    {
      hide Ordered, Pixel, Shown, PaintedWindow, Painted;
      ghost var ws, z := windows[..], Z();
      OrderKnown(ws, z);
      var i := 0;
      while i < backbuf.Length
        invariant 0 <= i <= backbuf.Length
        invariant forall k {:trigger backbuf[k]} :: 0 <= k < i ==> backbuf[k] == Glyph(' ', DESKTOP)
      {
        backbuf[i] := Glyph(' ', DESKTOP);
        i := i + 1;
      }
      DesktopPainted(backbuf[..], ws, z);
      i := 0;
      while i < nwindows
        invariant 0 <= i <= nwindows
        invariant Painted(backbuf[..], ws, z, i)
      {
        ghost var bb := backbuf[..];
        assert z[i] == zOrder[i];
        RenderWindow(zOrder[i]);
        NextPainted(bb, backbuf[..], ws, z, i);
        i := i + 1;
      }
    }

    /** The window under a point, or -1. */
    method HitTest(x: int, y: int) returns (hit: int)
      requires Valid()
      ensures OrderInRange(windows[..], Z()) && hit == Owner(windows[..], Z(), nwindows, x, y)
      ensures Topmost(windows[..], Z(), nwindows, x, y, hit)
    {
      hide Ordered;
      ghost var ws, z := windows[..], Z();
      OrderKnown(ws, z);
      OwnerIsTopmost(ws, z, nwindows, x, y);
      var i := nwindows - 1;
      while i >= 0
        invariant -1 <= i < nwindows
        invariant Owner(ws, z, nwindows, x, y) == Owner(ws, z, i + 1, x, y)
      {
        var idx := zOrder[i];
        assert z[i] == idx;
        var win := windows[idx];
        if win.active && win.x <= x && x < win.x + win.w && win.y <= y && y < win.y + win.h {
          return idx;
        }
        i := i - 1;
      }
      return -1;
    }

    /** The painter and the hit test agree: every cell of the screen shows the window the hit test finds there. */
    method PaintAgreesWithHitTest(col: int, row: int) returns (hit: int)
      requires Valid() && Sized() && OnScreen(col, row)
      modifies backbuf
      ensures Valid() && -1 <= hit < MAX_WINDOWS && (hit >= 0 ==> windows[hit].active && windows[hit].Covers(col, row))
      ensures backbuf[row * COLS + col] ==
                if hit == -1 then Glyph(' ', DESKTOP) else Look(windows[hit], col - windows[hit].x, row - windows[hit].y)
    {
      hide Ordered, Look;
      Paint();
      hit := HitTest(col, row);
      OwnerCovers(windows[..], Z(), nwindows, col, row);
      assert Pixel(backbuf[..], col, row) == Shown(windows[..], Z(), nwindows, col, row);
    }
  }

  // ---- The painter ----

  /** The cell of a screen image; outside the screen there is nothing. */
  function Pixel(bb: seq<Glyph>, col: int, row: int): Glyph {
    if OnScreen(col, row) && row * COLS + col < |bb| then bb[row * COLS + col] else Glyph(' ', 0)
  }

  /** The images agree but for the cells of one row from `x` on, which read `line`. */
  ghost predicate RowIs(bb0: seq<Glyph>, bb: seq<Glyph>, x: int, row: int, line: seq<Glyph>) {
    forall c, r {:trigger Pixel(bb, c, r)} :: OnScreen(c, r) ==>
      Pixel(bb, c, r) == if r == row && x <= c < x + |line| then line[c - x] else Pixel(bb0, c, r)
  }

  /** What a row shows before it is painted. */
  ghost function RowOf(bb: seq<Glyph>, x: int, row: int, w: nat): (line: seq<Glyph>)
    ensures |line| == w
    ensures RowIs(bb, bb, x, row, line)
  {
    seq(w, d requires 0 <= d < w => Pixel(bb, x + d, row))
  }

  /** The images agree but for the first `n` rows of a window, which show it without its bottom border. */
  ghost predicate PaintedRows(bb0: seq<Glyph>, bb: seq<Glyph>, win: Window, n: int) {
    forall c, r {:trigger Pixel(bb, c, r)} :: OnScreen(c, r) ==>
      Pixel(bb, c, r) ==
        if win.x <= c < win.x + win.w && win.y <= r < win.y + n then
          if r == win.y then TitleGlyph(win, c - win.x) else ContentGlyph(win, c - win.x, r - win.y - 1)
        else Pixel(bb0, c, r)
  }

  /** The images agree but for the cells of a window, which show it. */
  ghost predicate PaintedWindow(bb0: seq<Glyph>, bb: seq<Glyph>, win: Window) {
    forall c, r {:trigger Pixel(bb, c, r)} :: OnScreen(c, r) ==>
      Pixel(bb, c, r) == if win.Covers(c, r) then Look(win, c - win.x, r - win.y) else Pixel(bb0, c, r)
  }

  /** One more row of a window. */
  lemma RowPainted(bb0: seq<Glyph>, bb: seq<Glyph>, bb': seq<Glyph>, win: Window, n: int, line: seq<Glyph>)
    requires win.w >= 1 && 0 <= n && PaintedRows(bb0, bb, win, n) && RowIs(bb, bb', win.x, win.y + n, line)
    requires |line| == win.w
    requires forall d {:trigger line[d]} :: 0 <= d < win.w ==>
               line[d] == if n == 0 then TitleGlyph(win, d) else ContentGlyph(win, d, n - 1)
    ensures PaintedRows(bb0, bb', win, n + 1)
  {
    hide TitleGlyph, ContentGlyph, Pixel;
    forall c, r {:trigger Pixel(bb', c, r)} | OnScreen(c, r)
      ensures Pixel(bb', c, r) ==
        if win.x <= c < win.x + win.w && win.y <= r < win.y + n + 1 then
          if r == win.y then TitleGlyph(win, c - win.x) else ContentGlyph(win, c - win.x, r - win.y - 1)
        else Pixel(bb0, c, r)
    {
      var _ := Pixel(bb, c, r);
    }
  }

  /** The bottom border completes the window. */
  lemma BottomPainted(bb0: seq<Glyph>, bb: seq<Glyph>, bb': seq<Glyph>, win: Window, n: int, line: seq<Glyph>)
    requires win.w >= 1 && win.h >= 1 && n == (if win.h >= 2 then win.h - 1 else 1) && PaintedRows(bb0, bb, win, n)
    requires RowIs(bb, bb', win.x, win.y + win.h - 1, line) && |line| == win.w
    requires forall d {:trigger line[d]} :: 0 <= d < win.w ==> line[d] == BottomGlyph(win, d)
    ensures PaintedWindow(bb0, bb', win)
  {
    hide TitleGlyph, ContentGlyph, BottomGlyph, Pixel;
    forall c, r {:trigger Pixel(bb', c, r)} | OnScreen(c, r)
      ensures Pixel(bb', c, r) == if win.Covers(c, r) then Look(win, c - win.x, r - win.y) else Pixel(bb0, c, r)
    {
      var _ := Pixel(bb, c, r);
    }
  }

  /** The first `n` windows of the order are painted on the desktop. */
  ghost predicate Painted(bb: seq<Glyph>, windows: seq<Window>, z: seq<int>, n: nat)
    requires n <= |z| && forall i {:trigger z[i]} :: 0 <= i < |z| ==> 0 <= z[i] < |windows|
  {
    forall c, r {:trigger Pixel(bb, c, r)} :: OnScreen(c, r) ==> Pixel(bb, c, r) == Shown(windows, z, n, c, r)
  }

  lemma NextPainted(bb: seq<Glyph>, bb': seq<Glyph>, windows: seq<Window>, z: seq<int>, n: nat)
    requires n < |z| && forall i {:trigger z[i]} :: 0 <= i < |z| ==> 0 <= z[i] < |windows|
    requires windows[z[n]].active && Painted(bb, windows, z, n) && PaintedWindow(bb, bb', windows[z[n]])
    ensures Painted(bb', windows, z, n + 1)
  {
    hide Look, Pixel;
    forall c, r {:trigger Pixel(bb', c, r)} | OnScreen(c, r)
      ensures Pixel(bb', c, r) == Shown(windows, z, n + 1, c, r)
    {
      var _ := Pixel(bb, c, r);
    }
  }

  predicate OrderInRange(windows: seq<Window>, z: seq<int>) {
    forall i {:trigger z[i]} :: 0 <= i < |z| ==> 0 <= z[i] < |windows|
  }

  lemma NothingPainted(bb: seq<Glyph>, win: Window)
    ensures PaintedRows(bb, bb, win, 0)
  {
  }

  lemma DesktopPainted(bb: seq<Glyph>, windows: seq<Window>, z: seq<int>)
    requires OrderInRange(windows, z) && |bb| == COLS * ROWS
    requires forall k {:trigger bb[k]} :: 0 <= k < |bb| ==> bb[k] == Glyph(' ', DESKTOP)
    ensures Painted(bb, windows, z, 0)
  {
  }

  lemma {:induction false} OwnerCovers(windows: seq<Window>, z: seq<int>, n: nat, col: int, row: int)
    requires n <= |z| && OrderInRange(windows, z)
    ensures var o := Owner(windows, z, n, col, row); o != -1 ==> windows[o].active && windows[o].Covers(col, row)
  {
    if n > 0 {
      OwnerCovers(windows, z, n - 1, col, row);
    }
  }

  /** The order with window `idx` taken out. */
  ghost predicate IsWithout(z: seq<int>, idx: int, r: seq<int>) {
    exists pos: nat {:trigger Without(z, pos)} :: pos < |z| && z[pos] == idx && r == Without(z, pos)
  }

  lemma OrderKnown(windows: seq<Window>, z: seq<int>)
    requires Ordered(windows, z)
    ensures |windows| == MAX_WINDOWS && Distinct(z)
    ensures forall i {:trigger z[i]} :: 0 <= i < |z| ==> 0 <= z[i] < MAX_WINDOWS && windows[z[i]].active
    ensures forall k {:trigger windows[k]} :: 0 <= k < MAX_WINDOWS ==> (windows[k].focused <==> |z| > 0 && z[|z| - 1] == k)
  {
  }

  lemma ListedActive(windows: seq<Window>, z: seq<int>, idx: int)
    requires Ordered(windows, z) && 0 <= idx < MAX_WINDOWS && windows[idx].active
    ensures idx in z
  {
  }

  lemma OpenedOrdered(windows: seq<Window>, z: seq<int>, idx: int, win: Window, windows': seq<Window>)
    requires Ordered(windows, z) && |z| < MAX_WINDOWS && 0 <= idx < MAX_WINDOWS && !windows[idx].active
    requires |windows'| == MAX_WINDOWS && windows'[idx].active && windows'[idx].focused
    requires forall k {:trigger windows'[k]} :: 0 <= k < MAX_WINDOWS && k != idx ==> windows'[k] == windows[k].(focused := false)
    ensures Ordered(windows', z + [idx])
  {
    var z' := z + [idx];
    forall k | 0 <= k < MAX_WINDOWS && windows'[k].active
      ensures k in z'
    {
      if k != idx {
        assert windows[k].active && k in z;
      }
    }
    forall i | 0 <= i < |z'|
      ensures 0 <= z'[i] < MAX_WINDOWS && windows'[z'[i]].active
    {
      if i < |z| {
        assert z'[i] == z[i];
      }
    }
  }

  /** The windows after window number `pos` of the order was closed: the one on top of the others has the focus. */
  ghost predicate ClosedAt(windows: seq<Window>, z: seq<int>, pos: nat, windows': seq<Window>)
    requires Ordered(windows, z) && pos < |z|
  {
    var r := Without(z, pos);
    && |windows'| == MAX_WINDOWS && !windows'[z[pos]].active && !windows'[z[pos]].focused
    && forall k {:trigger windows'[k]} :: 0 <= k < MAX_WINDOWS && k != z[pos] ==>
         windows'[k] == windows[k].(focused := if |r| > 0 && r[|r| - 1] == k then true else windows[k].focused)
  }

  lemma ClosedFocus(windows: seq<Window>, z: seq<int>, pos: nat, windows': seq<Window>, k: nat)
    requires Ordered(windows, z) && pos < |z| && ClosedAt(windows, z, pos, windows') && k < MAX_WINDOWS
    ensures windows'[k].focused <==> |Without(z, pos)| > 0 && Without(z, pos)[|Without(z, pos)| - 1] == k
  {
    WithoutKeeps(z, pos);
    var r := Without(z, pos);
    assert pos < |z| - 1 ==> r[|r| - 1] == z[|z| - 1];
    assert |r| > 0 ==> r[|r| - 1] in r;
    hide Without, Distinct;
    var _ := windows[k];
  }

  lemma ClosedActive(windows: seq<Window>, z: seq<int>, pos: nat, windows': seq<Window>, k: nat)
    requires Ordered(windows, z) && pos < |z| && ClosedAt(windows, z, pos, windows') && k < MAX_WINDOWS
    ensures windows'[k].active <==> k in Without(z, pos)
  {
    WithoutKeeps(z, pos);
    hide Without, Distinct;
    var _ := windows[k];
    assert k in z <==> windows[k].active by {
      if k in z {
        var i :| 0 <= i < |z| && z[i] == k;
        assert windows[z[i]].active;
      }
    }
  }

  lemma ClosedOrdered(windows: seq<Window>, z: seq<int>, pos: nat, windows': seq<Window>)
    requires Ordered(windows, z) && pos < |z| && ClosedAt(windows, z, pos, windows')
    ensures Ordered(windows', Without(z, pos))
  {
    WithoutKeeps(z, pos);
    OrderKnown(windows, z);
    ClosedLength(windows, z, pos, windows');
    var r := Without(z, pos);
    hide Without, Distinct, ClosedAt;
    forall i | 0 <= i < |r|
      ensures 0 <= r[i] < MAX_WINDOWS && windows'[r[i]].active
    {
      assert r[i] in r && r[i] in z;
      ClosedActive(windows, z, pos, windows', r[i]);
    }
    forall k | 0 <= k < MAX_WINDOWS
      ensures windows'[k].active ==> k in r
      ensures windows'[k].focused <==> |r| > 0 && r[|r| - 1] == k
    {
      ClosedFocus(windows, z, pos, windows', k);
      ClosedActive(windows, z, pos, windows', k);
    }
  }

  lemma ClosedLength(windows: seq<Window>, z: seq<int>, pos: nat, windows': seq<Window>)
    requires Ordered(windows, z) && pos < |z| && ClosedAt(windows, z, pos, windows')
    ensures |windows'| == MAX_WINDOWS
  {
  }

  lemma RaisedOrdered(windows: seq<Window>, z: seq<int>, pos: nat, windows': seq<Window>)
    requires Ordered(windows, z) && pos < |z| && |windows'| == MAX_WINDOWS
    requires forall k {:trigger windows'[k]} :: 0 <= k < MAX_WINDOWS ==> windows'[k] == windows[k].(focused := k == z[pos])
    ensures Ordered(windows', Without(z, pos) + [z[pos]])
  {
    WithoutKeeps(z, pos);
    var z' := Without(z, pos) + [z[pos]];
    forall i | 0 <= i < |z'|
      ensures 0 <= z'[i] < MAX_WINDOWS && windows'[z'[i]].active
    {
      assert z'[i] in z;
    }
    forall k | 0 <= k < MAX_WINDOWS && windows'[k].active
      ensures k in z'
    {
      assert windows[k].active && k in z;
    }
  }

  lemma LastWithout(z: seq<int>)
    requires |z| > 0
    ensures Without(z, |z| - 1) + [z[|z| - 1]] == z
  {
  }

  predicate AllActive(windows: seq<Window>) {
    forall k {:trigger windows[k]} :: 0 <= k < |windows| ==> windows[k].active
  }

  lemma TopKnown(windows: seq<Window>, z: seq<int>, pos: nat)
    requires Ordered(windows, z) && pos < |z|
    ensures var r := Without(z, pos); |r| > 0 ==> 0 <= r[|r| - 1] < MAX_WINDOWS && r[|r| - 1] != z[pos]
  {
    WithoutKeeps(z, pos);
    var r := Without(z, pos);
    assert |r| > 0 ==> r[|r| - 1] in r && r[|r| - 1] in z;
  }

  /** With fewer windows than there are slots, some slot is free. */
  lemma NotAllActive(windows: seq<Window>, z: seq<int>, idx: int)
    requires Ordered(windows, z) && |z| < MAX_WINDOWS
    requires idx < 0 ==> AllActive(windows)
    ensures idx >= 0
  {
    if AllActive(windows) {
      forall k | 0 <= k < MAX_WINDOWS
        ensures k in z
      {
        assert windows[k].active;
      }
      AllIn(z, 8);
    }
  }

  /** A sequence that names all of the first `n` numbers is at least that long. */
  lemma {:induction false} AllIn(z: seq<int>, n: nat)
    requires forall k {:trigger k in z} :: 0 <= k < n ==> k in z
    ensures |z| >= n
  {
    if n > 0 {
      assert n - 1 in z;
      var p :| 0 <= p < |z| && z[p] == n - 1;
      var rest := Without(z, p);
      forall k | 0 <= k < n - 1
        ensures k in rest
      {
        assert k in z;
        var q :| 0 <= q < |z| && z[q] == k;
        assert rest[if q < p then q else q - 1] == k;
      }
      AllIn(rest, n - 1);
    }
  }

  /** Taking one place out of an order without repetitions. */
  lemma WithoutKeeps(z: seq<int>, pos: nat)
    requires Distinct(z) && pos < |z|
    ensures |Without(z, pos)| == |z| - 1 && Distinct(Without(z, pos)) && z[pos] !in Without(z, pos)
    ensures forall k {:trigger k in z} {:trigger k in Without(z, pos)} :: k in z <==> k == z[pos] || k in Without(z, pos)
  {
    var r := Without(z, pos);
    forall i | 0 <= i < |r|
      ensures r[i] == if i < pos then z[i] else z[i + 1]
    {
    }
    forall k | k in z && k != z[pos]
      ensures k in r
    {
      var q :| 0 <= q < |z| && z[q] == k;
      assert r[if q < pos then q else q - 1] == k;
    }
  }
}
