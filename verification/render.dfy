/**
 * The frame-diff renderer (src/render.rs): given the frame last drawn and the
 * current one, decide which cells to write to the terminal. The terminal
 * commands themselves (colours, cursor moves, flushing) are not modelled;
 * the output is the ordered list of cell writes, plus whether the
 * clear-screen prelude is sent before them.
 */
module Rendering {
  import opened Config

  /** The text drawn in one cell. */
  type Glyph = string

  /** A frame is indexed `frame[x][y]`: a sequence of columns, each a sequence of cells. */
  type Frame = seq<seq<Glyph>>

  /** Move the cursor to `(x, y)` and print `glyph` there. */
  datatype Write = Write(x: nat, y: nat, glyph: Glyph)

  /**
   * What one call of `render` sends: when `clear` holds, the prelude that
   * paints the background and clears the screen, then `writes` in order.
   */
  datatype Output = Output(clear: bool, writes: seq<Write>)

  /** Every cell of `curr` also exists in `last` (so `last[x][y]` can be read). */
  predicate Covers(last: Frame, curr: Frame) {
    |curr| <= |last| && forall x :: 0 <= x < |curr| ==> |curr[x]| <= |last[x]|
  }

  predicate SameShape(a: Frame, b: Frame) {
    |a| == |b| && forall x :: 0 <= x < |a| ==> |a[x]| == |b[x]|
  }

  predicate InFrame(f: Frame, x: int, y: int) {
    0 <= x < |f| && 0 <= y < |f[x]|
  }

  /** Whether `render` writes cell `(x, y)`: always under `force`, else when it changed. */
  predicate Selected(last: Frame, curr: Frame, force: bool, x: nat, y: nat)
    requires Covers(last, curr) && InFrame(curr, x, y)
  {
    force || curr[x][y] != last[x][y]
  }

  /** Column-major order of cell writes: x first, then y. */
  predicate WriteBefore(a: Write, b: Write) {
    a.x < b.x || (a.x == b.x && a.y < b.y)
  }

  predicate ColumnMajor(ws: seq<Write>) {
    forall i, j :: 0 <= i < j < |ws| ==> WriteBefore(ws[i], ws[j])
  }

  /** A write of cell `(x, y)` carrying that cell's glyph of `curr`, for a selected cell. */
  predicate SoundWrite(last: Frame, curr: Frame, force: bool, w: Write)
    requires Covers(last, curr)
  {
    InFrame(curr, w.x, w.y) && w.glyph == curr[w.x][w.y] && Selected(last, curr, force, w.x, w.y)
  }

  /** The inner loop of `render`: the writes for cells `y..` of column `x`. */
  function CellWrites(last: Frame, curr: Frame, force: bool, x: nat, y: nat): (ws: seq<Write>)
    requires Covers(last, curr) && x < |curr| && y <= |curr[x]|
    ensures forall i :: 0 <= i < |ws| ==> ws[i].x == x && y <= ws[i].y && SoundWrite(last, curr, force, ws[i])
    ensures (forall y' :: y <= y' < |curr[x]| ==> !Selected(last, curr, force, x, y')) ==> ws == []
    decreases |curr[x]| - y
  {
    if y == |curr[x]| then []
    else
      var rest := CellWrites(last, curr, force, x, y + 1);
      if Selected(last, curr, force, x, y) then [Write(x, y, curr[x][y])] + rest else rest
  }

  /** The inner loop writes every selected cell of its column from row `y` on. */
  lemma {:induction false} CellWritesComplete(last: Frame, curr: Frame, force: bool, x: nat, y: nat)
    requires Covers(last, curr) && x < |curr| && y <= |curr[x]|
    ensures forall y' :: y <= y' < |curr[x]| && Selected(last, curr, force, x, y') ==>
      Write(x, y', curr[x][y']) in CellWrites(last, curr, force, x, y)
    decreases |curr[x]| - y
  {
    if y < |curr[x]| {
      CellWritesComplete(last, curr, force, x, y + 1);
    }
  }

  /** The inner loop writes in ascending row order. */
  lemma {:induction false} CellWritesOrdered(last: Frame, curr: Frame, force: bool, x: nat, y: nat)
    requires Covers(last, curr) && x < |curr| && y <= |curr[x]|
    ensures ColumnMajor(CellWrites(last, curr, force, x, y))
    decreases |curr[x]| - y
  {
    if y < |curr[x]| {
      CellWritesOrdered(last, curr, force, x, y + 1);
      var rest := CellWrites(last, curr, force, x, y + 1);
      if Selected(last, curr, force, x, y) {
        var ws := [Write(x, y, curr[x][y])] + rest;
        forall i, j | 0 <= i < j < |ws| ensures WriteBefore(ws[i], ws[j]) {
          assert ws[j] == rest[j - 1];
          if i > 0 {
            assert ws[i] == rest[i - 1];
          }
        }
      }
    }
  }

  /** The outer loop of `render`: the writes for columns `x..`. */
  function ColumnWrites(last: Frame, curr: Frame, force: bool, x: nat): (ws: seq<Write>)
    requires Covers(last, curr) && x <= |curr|
    ensures forall i :: 0 <= i < |ws| ==> x <= ws[i].x && SoundWrite(last, curr, force, ws[i])
    decreases |curr| - x
  {
    if x == |curr| then []
    else CellWrites(last, curr, force, x, 0) + ColumnWrites(last, curr, force, x + 1)
  }

  /** The outer loop writes every selected cell from column `x` on. */
  lemma {:induction false} ColumnWritesComplete(last: Frame, curr: Frame, force: bool, x: nat)
    requires Covers(last, curr) && x <= |curr|
    ensures forall x', y' :: x <= x' < |curr| && 0 <= y' < |curr[x']| && Selected(last, curr, force, x', y') ==>
      Write(x', y', curr[x'][y']) in ColumnWrites(last, curr, force, x)
    decreases |curr| - x
  {
    if x < |curr| {
      CellWritesComplete(last, curr, force, x, 0);
      ColumnWritesComplete(last, curr, force, x + 1);
    }
  }

  /** The outer loop writes in column-major order. */
  lemma {:induction false} ColumnWritesOrdered(last: Frame, curr: Frame, force: bool, x: nat)
    requires Covers(last, curr) && x <= |curr|
    ensures ColumnMajor(ColumnWrites(last, curr, force, x))
    decreases |curr| - x
  {
    if x < |curr| {
      var here := CellWrites(last, curr, force, x, 0);
      var rest := ColumnWrites(last, curr, force, x + 1);
      CellWritesOrdered(last, curr, force, x, 0);
      ColumnWritesOrdered(last, curr, force, x + 1);
      var ws := here + rest;
      forall i, j | 0 <= i < j < |ws| ensures WriteBefore(ws[i], ws[j]) {
        if j < |here| {
          assert ws[i] == here[i] && ws[j] == here[j];
        } else if i < |here| {
          assert ws[i] == here[i] && ws[j] == rest[j - |here|];
        } else {
          assert ws[i] == rest[i - |here|] && ws[j] == rest[j - |here|];
        }
      }
    }
  }

  /** When no cell from column `x` on is selected, the outer loop writes nothing. */
  lemma {:induction false} NothingSelectedNoWrites(last: Frame, curr: Frame, force: bool, x: nat)
    requires Covers(last, curr) && x <= |curr|
    requires forall x', y' :: x <= x' < |curr| && 0 <= y' < |curr[x']| ==> !Selected(last, curr, force, x', y')
    ensures ColumnWrites(last, curr, force, x) == []
    decreases |curr| - x
  {
    if x < |curr| {
      NothingSelectedNoWrites(last, curr, force, x + 1);
      assert CellWrites(last, curr, force, x, 0) == [];
    }
  }

  /**
   * `render(stdout, last_frame, curr_frame, force)`: the clear-screen prelude
   * exactly under `force`, then, in column-major order, one write per cell
   * that is forced or has changed, carrying the cell's own coordinates and
   * its glyph in the current frame.
   */
  function Render(last: Frame, curr: Frame, force: bool): (r: Output)
    requires Covers(last, curr)
    ensures r.clear == force
    ensures forall i :: 0 <= i < |r.writes| ==> SoundWrite(last, curr, force, r.writes[i])
    ensures forall x: nat, y: nat :: InFrame(curr, x, y) && (force || curr[x][y] != last[x][y]) ==>
      Write(x, y, curr[x][y]) in r.writes
    ensures ColumnMajor(r.writes)
  {
    ColumnWritesComplete(last, curr, force, 0);
    ColumnWritesOrdered(last, curr, force, 0);
    Output(force, ColumnWrites(last, curr, force, 0))
  }

  /** `render` writes nothing exactly when no cell is forced or changed. */
  lemma RenderNothingIff(last: Frame, curr: Frame, force: bool)
    requires Covers(last, curr)
    ensures Render(last, curr, force).writes == [] <==>
      forall x: nat, y: nat :: InFrame(curr, x, y) ==> !force && curr[x][y] == last[x][y]
  {
    if forall x: nat, y: nat :: InFrame(curr, x, y) ==> !force && curr[x][y] == last[x][y] {
      forall x', y' | 0 <= x' < |curr| && 0 <= y' < |curr[x']|
        ensures !Selected(last, curr, force, x', y')
      {
        assert InFrame(curr, x', y');
      }
      NothingSelectedNoWrites(last, curr, force, 0);
    }
  }

  /** Rendering a frame over an identical one without `force` writes nothing. */
  lemma RenderUnchanged(f: Frame)
    ensures Render(f, f, false) == Output(false, [])
  {
    RenderNothingIff(f, f, false);
  }

  // ---------------------------------------------------------------------------
  // The terminal as a frame
  // ---------------------------------------------------------------------------

  /** The screen after one write. */
  function SetCell(f: Frame, w: Write): (r: Frame)
    requires InFrame(f, w.x, w.y)
    ensures SameShape(r, f)
  {
    f[w.x := f[w.x][w.y := w.glyph]]
  }

  /** The screen after a sequence of writes, in order. */
  function Apply(f: Frame, ws: seq<Write>): (r: Frame)
    requires forall i :: 0 <= i < |ws| ==> InFrame(f, ws[i].x, ws[i].y)
    ensures SameShape(r, f)
    decreases |ws|
  {
    if ws == [] then f
    else
      var g := SetCell(f, ws[0]);
      assert forall i :: 0 <= i < |ws| - 1 ==> ws[1..][i] == ws[i + 1];
      assert forall i :: 0 <= i < |ws| ==> InFrame(g, ws[i].x, ws[i].y) by {
        forall i | 0 <= i < |ws| ensures InFrame(g, ws[i].x, ws[i].y) {
          assert InFrame(f, ws[i].x, ws[i].y);
          assert |g[ws[i].x]| == |f[ws[i].x]|;
        }
      }
      Apply(g, ws[1..])
  }

  /** Some write in `ws` targets cell `(x, y)`. */
  predicate Targets(ws: seq<Write>, x: int, y: int) {
    exists i :: 0 <= i < |ws| && ws[i].x == x && ws[i].y == y
  }

  /**
   * When every write carries the glyph `curr` holds at its cell, applying the
   * writes shows `curr` on every targeted cell and leaves the others alone.
   */
  lemma {:induction false} ApplyCells(f: Frame, ws: seq<Write>, curr: Frame)
    requires SameShape(f, curr)
    requires forall i :: 0 <= i < |ws| ==> InFrame(f, ws[i].x, ws[i].y) && ws[i].glyph == curr[ws[i].x][ws[i].y]
    ensures forall x, y :: InFrame(f, x, y) ==>
      Apply(f, ws)[x][y] == if Targets(ws, x, y) then curr[x][y] else f[x][y]
    decreases |ws|
  {
    if ws != [] {
      var g := SetCell(f, ws[0]);
      ApplyCells(g, ws[1..], curr);
      forall x, y | InFrame(f, x, y)
        ensures Apply(f, ws)[x][y] == if Targets(ws, x, y) then curr[x][y] else f[x][y]
      {
        if Targets(ws[1..], x, y) {
          var i :| 0 <= i < |ws[1..]| && ws[1..][i].x == x && ws[1..][i].y == y;
          assert ws[i + 1].x == x && ws[i + 1].y == y;
        } else if ws[0].x == x && ws[0].y == y {
          assert Targets(ws, x, y);
        } else {
          assert forall i :: 1 <= i < |ws| ==> ws[i] == ws[1..][i - 1];
        }
      }
    }
  }

  /** Frames of the same shape that agree on every cell are equal. */
  lemma SameCells(a: Frame, b: Frame)
    requires SameShape(a, b)
    requires forall x, y :: InFrame(a, x, y) ==> a[x][y] == b[x][y]
    ensures a == b
  {
    forall x | 0 <= x < |a| ensures a[x] == b[x] {
      assert forall y :: 0 <= y < |a[x]| ==> InFrame(a, x, y);
    }
  }

  /**
   * Writing the selected cells over the last frame reproduces the current
   * frame, with or without `force`.
   */
  lemma RenderReproduces(last: Frame, curr: Frame, force: bool)
    requires SameShape(last, curr)
    ensures Apply(last, Render(last, curr, force).writes) == curr
  {
    var ws := Render(last, curr, force).writes;
    var r := Apply(last, ws);
    ApplyCells(last, ws, curr);
    forall x, y | InFrame(r, x, y) ensures r[x][y] == curr[x][y] {
      assert InFrame(last, x, y) && InFrame(curr, x, y);
      if curr[x][y] != last[x][y] {
        assert Write(x, y, curr[x][y]) in ws;
        var i :| 0 <= i < |ws| && ws[i] == Write(x, y, curr[x][y]);
        assert Targets(ws, x, y);
      }
    }
    SameCells(r, curr);
  }

  /** The writes of `render` fit any screen shaped like the frames rendered. */
  lemma WritesFitScreen(screen: Frame, last: Frame, curr: Frame, ws: seq<Write>)
    requires SameShape(screen, last) && SameShape(curr, last)
    requires forall i :: 0 <= i < |ws| ==> InFrame(curr, ws[i].x, ws[i].y)
    ensures forall i :: 0 <= i < |ws| ==> InFrame(screen, ws[i].x, ws[i].y)
  {
    forall i | 0 <= i < |ws| ensures InFrame(screen, ws[i].x, ws[i].y) {
      assert |screen[ws[i].x]| == |last[ws[i].x]| == |curr[ws[i].x]|;
    }
  }

  /** Frames that all share the shape of `last` share the shape of the first of them. */
  lemma RestHaveShape(last: Frame, frames: seq<Frame>)
    requires frames != []
    requires forall k :: 0 <= k < |frames| ==> SameShape(frames[k], last)
    ensures forall k :: 0 <= k < |frames[1..]| ==> SameShape(frames[1..][k], frames[0])
  {
    forall k | 0 <= k < |frames[1..]| ensures SameShape(frames[1..][k], frames[0]) {
      assert frames[1..][k] == frames[k + 1];
      assert SameShape(frames[k + 1], last) && SameShape(frames[0], last);
    }
  }

  /**
   * The render thread of the game (src/main.rs): starting from a screen that
   * shows `last`, render each received frame over the previous one without
   * `force`. Returns the screen at the end.
   */
  function Replay(screen: Frame, last: Frame, frames: seq<Frame>): (r: Frame)
    requires SameShape(screen, last)
    requires forall k :: 0 <= k < |frames| ==> SameShape(frames[k], last)
    ensures SameShape(r, last)
    decreases |frames|
  {
    if frames == [] then screen
    else
      var next := frames[0];
      assert SameShape(next, last);
      var out := Render(last, next, false);
      WritesFitScreen(screen, last, next, out.writes);
      var shown := Apply(screen, out.writes);
      RestHaveShape(last, frames);
      Replay(shown, next, frames[1..])
  }

  /** The screen always ends up showing the most recent frame received. */
  lemma {:induction false} ReplayShowsLatest(last: Frame, frames: seq<Frame>)
    requires forall k :: 0 <= k < |frames| ==> SameShape(frames[k], last)
    ensures Replay(last, last, frames) == if frames == [] then last else frames[|frames| - 1]
    decreases |frames|
  {
    if frames != [] {
      RenderReproduces(last, frames[0], false);
      assert forall k :: 0 <= k < |frames[1..]| ==> frames[1..][k] == frames[k + 1];
      ReplayShowsLatest(frames[0], frames[1..]);
    }
  }

  /**
   * A forced render shows the current frame whatever the screen showed
   * before, as long as the screen has the frame's shape: every cell is
   * written.
   */
  lemma {:induction false} ForcedRenderShows(screen: Frame, last: Frame, curr: Frame)
    requires SameShape(screen, curr) && Covers(last, curr)
    ensures Apply(screen, Render(last, curr, true).writes) == curr
  {
    var ws := Render(last, curr, true).writes;
    forall i | 0 <= i < |ws| ensures InFrame(screen, ws[i].x, ws[i].y) {
      assert |screen[ws[i].x]| == |curr[ws[i].x]|;
    }
    var r := Apply(screen, ws);
    ApplyCells(screen, ws, curr);
    forall x, y | InFrame(r, x, y) ensures r[x][y] == curr[x][y] {
      assert InFrame(curr, x, y);
      assert Write(x, y, curr[x][y]) in ws;
      var i :| 0 <= i < |ws| && ws[i] == Write(x, y, curr[x][y]);
      assert Targets(ws, x, y);
    }
    SameCells(r, curr);
  }

  /**
   * The whole render thread of src/main.rs: a forced render of the initial
   * frame over whatever the screen showed, then each received frame rendered
   * over the previous one. The screen ends up showing the most recent frame,
   * or the initial one if none was received.
   */
  function RenderThread(screen: Frame, init: Frame, frames: seq<Frame>): (r: Frame)
    requires SameShape(screen, init)
    requires forall k :: 0 <= k < |frames| ==> SameShape(frames[k], init)
    ensures r == if frames == [] then init else frames[|frames| - 1]
  {
    ForcedRenderShows(screen, init, init);
    ReplayShowsLatest(init, frames);
    Replay(Apply(screen, Render(init, init, true).writes), init, frames)
  }
}
