/** How large the video mixer's tiles are and where they lie: the frame is used up, and pictures keep their
    shape. */
module VidmixLayout {
  import opened Bytes
  import Bitwise
  import opened Vidmix

  // ---------------------------------------------------------------- the shape of a picture

  function Times(a: real, b: real): real {
    a * b
  }

  lemma TimesLess(a: real, b: real, ar: real)
    requires ar > 0.0
    ensures a < b <==> Times(a, ar) < Times(b, ar)
    ensures a <= b <==> Times(a, ar) <= Times(b, ar)
  {
  }

  lemma OverTimes(a: real, ar: real)
    requires ar > 0.0
    ensures Times(a / ar, ar) == a
  {
  }

  /** A picture of the source's ratio, to the pixel, that touches two opposite sides of the rectangle. */
  predicate Touches(p: Rect, r: Rect, ar: real) {
    || (p.w == r.w && Times(p.h as real, ar) <= p.w as real < Times((p.h + 1) as real, ar))
    || (p.h == r.h && p.w as real <= Times(p.h as real, ar) < (p.w + 1) as real)
  }

  /** The margins on both sides differ by at most one pixel. */
  predicate Centred(p: Rect, r: Rect) {
    && 0 <= (r.x + r.w - p.x - p.w) - (p.x - r.x) <= 1
    && 0 <= (r.y + r.h - p.y - p.h) - (p.y - r.y) <= 1
  }

  /** The fitted picture is the largest one of the source's ratio inside the rectangle, in its middle. */
  lemma {:induction false} FitExactly(r: Rect, ar: real)
    requires ar > 0.0
    ensures Touches(Fit(r, ar), r, ar) && Centred(Fit(r, ar), r) && Inside(Fit(r, ar), r)
  {
    FitInside(r, ar);
    var wide, high := Times(r.h as real, ar), r.w as real / ar;
    OverTimes(r.w as real, ar);
    TimesLess(high, r.h as real, ar);
    assert Fit(r, ar).w == Shrunk(r.w, wide) && Fit(r, ar).h == Shrunk(r.h, high);
    hide Times;
    if r.w as real <= wide {
      var h := Shrunk(r.h, high);
      TimesLess(h as real, high, ar);
      TimesLess(high, (h + 1) as real, ar);
    }
  }

  /** Rounding moves no edge by more than one pixel and leaves only even numbers. */
  lemma EvenExactly(r: Rect)
    ensures var e := Even(r);
            && r.x - 1 <= e.x <= r.x && r.y - 1 <= e.y <= r.y && r.w - 1 <= e.w <= r.w && r.h - 1 <= e.h <= r.h
            && e.x % 2 == 0 && e.y % 2 == 0 && e.w % 2 == 0 && e.h % 2 == 0
  {
  }

  // ---------------------------------------------------------------- tiles without a focus

  /** k parts of length t are all that fits into a. */
  predicate Fills(t: nat, k: nat, a: nat) {
    Mul(t, k) <= a < Mul(t + 1, k)
  }

  lemma PartFills(a: nat, m: nat)
    requires m >= 1
    ensures Fills(Part(a, m), m, a)
  {
    assert a == a / m * m + a % m;
    assert (a / m + 1) * m == a / m * m + m;
  }

  /** Tiles in reading order: the number is that of the lines above times their length, and the column. */
  ghost predicate InGrid(t: Rect, idx: nat, cols: nat) {
    exists line: nat, col: nat ::
      col < cols && idx == Mul(line, cols) + col && t.x == Mul(t.w, col) && t.y == Mul(t.h, line)
  }

  lemma CellOf(idx: nat, cols: nat)
    requires cols >= 1
    ensures idx % cols < cols && idx == Mul(Part(idx, cols), cols) + idx % cols
    ensures idx < cols ==> idx % cols == idx
  {
    if idx < cols { Bitwise.ModUnique(idx, cols, 0, idx); }
  }

  lemma NoLines(t: nat, cols: nat)
    ensures Mul(0, cols) == 0 && Mul(t, 0) == 0
  {
  }

  lemma SideBySide(f: Frame, n: nat, rows: nat, idx: nat, full: bool)
    requires idx < n && 2 <= n <= 3 && rows > 1
    ensures var t := Tile(f, n, rows, idx, false, false, full);
            t.Center? && Fills(t.r.w, n, f.w) && t.r.h == f.h && InGrid(t.r, idx, n) && t.r.y == 0
  {
    hide Part, Mul, Fills;
    PartFills(f.w, n);
    CellOf(idx, n);
    NoLines(f.h, n);
    assert idx == Mul(0, n) + idx;
  }

  lemma InCells(f: Frame, n: nat, rows: nat, idx: nat, full: bool)
    requires idx < n && n > 3 && rows > 1
    ensures var t := Tile(f, n, rows, idx, false, false, full);
            t.Aspect? && Fills(t.r.w, rows, f.w) && Fills(t.r.h, rows, f.h) && InGrid(t.r, idx, rows)
  {
    hide Part, Mul, Fills;
    PartFills(f.w, rows);
    PartFills(f.h, rows);
    CellOf(idx, rows);
  }

  /** A single source fills the frame. Up to three stand side by side; more fill the smallest square grid
      in reading order. The tiles use up the frame, but for fewer pixels than there are tiles in a row. */
  lemma GridExactly(f: Frame, n: nat, idx: nat, full: bool)
    requires idx < n
    ensures var rows := Rows(n, 1);
            var t := Tile(f, n, rows, idx, false, false, full);
            && (n == 1 ==> t == Full)
            && (2 <= n <= 3 ==>
                  t.Center? && Fills(t.r.w, n, f.w) && t.r.h == f.h && InGrid(t.r, idx, n) && t.r.y == 0)
            && (n > 3 ==>
                  t.Aspect? && Fills(t.r.w, rows, f.w) && Fills(t.r.h, rows, f.h) && InGrid(t.r, idx, rows))
  {
    hide Part, Mul, Fills, InGrid, Rows;
    var rows := Rows(n, 1);
    assert n > 1 <==> rows > 1 by { ManyRows(n); }
    if n == 1 {
    } else if n <= 3 {
      SideBySide(f, n, rows, idx, full);
    } else {
      InCells(f, n, rows, idx, full);
    }
  }

  lemma ManyRows(n: nat)
    requires n >= 1
    ensures n > 1 <==> Rows(n, 1) > 1
  {
  }

  // ---------------------------------------------------------------- tiles around a focus

  /** The focus and a tile beside it use up the frame but for one pixel at most. */
  lemma FocusExactly(f: Frame, m: nat)
    requires m >= 1
    ensures var p, w, h := FocusRect(f, m), Part(f.w, m), Part(f.h, m);
            && p.x == 0 && p.y == 0
            && Fills(w, m, f.w) && Fills(h, m, f.h)
            && f.w - 1 <= p.w + w <= f.w && f.h - 1 <= p.h + h <= f.h
  {
    FocusEnds(f.w, m);
    FocusEnds(f.h, m);
    FocusNear(f.w, m);
    FocusNear(f.h, m);
    PartFills(f.w, m);
    PartFills(f.h, m);
    hide Part, Mul, Fills;
  }

  lemma Spread(a: nat, b: nat, m: nat)
    requires m >= 1
    ensures Mul(a, m) + Mul(b, m) == Mul(a + b, m) && Mul(a, m - 1) + a == Mul(a, m)
  {
  }

  lemma Cancels(a: nat, b: nat, m: nat)
    requires Mul(a, m) < Mul(b, m)
    ensures a < b
  {
    if b <= a { MulUp(b, a, m); }
  }

  lemma FocusNear(a: nat, m: nat)
    requires m >= 1
    ensures Part(Mul(a, m - 1), m) + Part(a, m) >= a - 1
  {
    var q, p := Part(a, m), Part(Mul(a, m - 1), m);
    PartFills(a, m);
    PartFills(Mul(a, m - 1), m);
    Spread(a, 0, m);
    Spread(p + 1, q + 1, m);
    hide Mul, Part;
    Cancels(a, (p + 1) + (q + 1), m);
  }

  /** The tiles beside a focus run down the right edge from the top, then along the bottom to the left
      corner, each next to the one before it. */
  lemma SidesExactly(f: Frame, m: nat, idx: nat)
    requires m >= 2 && idx < 2 * m - 1
    ensures SideRect(f, m, idx).Aspect?
    ensures var t := SideRect(f, m, idx).r;
            && t.w == Part(f.w, m) && t.h == Part(f.h, m)
            && (idx < m ==> t.x + t.w == f.w)
            && (idx >= m ==> t.y + t.h == f.h)
            && (idx == 0 ==> t.y == 0)
            && (idx == 2 * m - 2 ==> t.x == 0)
            && (idx + 1 < m ==> SideRect(f, m, idx + 1).r.y == t.y + t.h)
            && (m <= idx < 2 * m - 2 ==> SideRect(f, m, idx + 1).r.x + t.w == t.x)
  {
    PartRoom(f.w, m);
    PartRoom(f.h, m);
    NextTile(Part(f.h, m), idx);
    if m <= idx < 2 * m - 2 { NextTile(Part(f.w, m), 2 * m - 3 - idx); }
    hide Part, Mul;
  }

  lemma NextTile(t: nat, k: nat)
    ensures Mul(t, k + 1) == Mul(t, k) + t && Mul(t, 0) == 0
  {
  }

  /** There are just enough tiles on a side for the sources shown, and at least three, or six. */
  lemma SideExactly(n: nat, full: bool)
    ensures var m, least := Side(n, full), if full then 6 else 3;
            m >= least && (if n + 1 <= 2 * least then m == least else n <= 2 * m <= n + 1)
  {
  }

  // ---------------------------------------------------------------- who is drawn

  /** If there is room, a source is drawn as a tile exactly when it has a picture and is neither the
      viewer unseen by itself, nor hidden content, nor the one that fills the frame behind the tiles. */
  lemma DrawnExactly(v: View, f: Frame, ss: seq<Source>, i: nat)
    requires i < |ss| && Proper(ss) && Room(v, ss)
    ensures Drawn(f, SlotOf(v, f, ss, i), ss[i]).Some? <==>
              && ss[i].frame
              && (ss[i].id == v.me ==> v.selfview)
              && (ss[i].content ==> !v.contentHide)
              && !(v.focus == Some(ss[i].id) && v.focusFull)
  {
    DrawnInside(v, f, ss, i);
    hide Drawn, Room, Proper;
    if Placed(v, ss[i]) { EverySourceHasSlot(v, f, ss, i); }
  }

  /** A tile that is drawn is drawn as the source's shape demands: cut to the tile where sources stand
      side by side, fitted into it everywhere else. */
  lemma DrawnShape(v: View, f: Frame, ss: seq<Source>, i: nat)
    requires i < |ss| && Proper(ss) && Drawn(f, SlotOf(v, f, ss, i), ss[i]).Some?
    ensures var t, d := SlotOf(v, f, ss, i), Drawn(f, SlotOf(v, f, ss, i), ss[i]).value;
            match t
            case Center(r) => d == Even(r)
            case Aspect(r) => exists p :: Touches(p, r, ss[i].ar) && Centred(p, r) && d == Even(p)
            case Full =>
              var r := Rect(0, 0, f.w, f.h);
              if ss[i].sameSize then d == r
              else exists p :: Touches(p, r, ss[i].ar) && Centred(p, r) && d == Even(p)
            case NoSlot => false
  {
    var t := SlotOf(v, f, ss, i);
    hide SlotOf, Touches, Centred, Fit, Even;
    match t
    case Center(_) =>
    case NoSlot =>
    case Aspect(r) => FitExactly(r, ss[i].ar);
    case Full => FitExactly(Rect(0, 0, f.w, f.h), ss[i].ar);
  }
}
