/** The video mixer's layout: which rectangle of the output each source is drawn in. */
module Vidmix {
  import opened Bytes

  datatype Rect = Rect(x: nat, y: nat, w: nat, h: nat)

  // ---------------------------------------------------------------- drawing into a rectangle

  /** Every edge rounded down to an even number, as the pixel converter does before it draws. */
  function Even(r: Rect): Rect {
    Rect(r.x - r.x % 2, r.y - r.y % 2, r.w - r.w % 2, r.h - r.h % 2)
  }

  /** The largest part of the rectangle, in its middle, with the source's ratio of width to height. */
  function Fit(r: Rect, ar: real): Rect
    requires ar > 0.0
  {
    var w := Shrunk(r.w, r.h as real * ar);
    var h := Shrunk(r.h, r.w as real / ar);
    Rect(r.x + (r.w - w) / 2, r.y + (r.h - h) / 2, w, h)
  }

  /** The whole number below the smaller of n and v. */
  function Shrunk(n: nat, v: real): (k: nat)
    requires v >= 0.0
    ensures k <= n
  {
    if v < n as real then v.Floor else n
  }

  predicate Inside(a: Rect, b: Rect) {
    b.x <= a.x && a.x + a.w <= b.x + b.w && b.y <= a.y && a.y + a.h <= b.y + b.h
  }

  /** Two rectangles side by side, or one above the other. */
  predicate Apart(a: Rect, b: Rect) {
    a.x + a.w <= b.x || b.x + b.w <= a.x || a.y + a.h <= b.y || b.y + b.h <= a.y
  }

  lemma FitInside(r: Rect, ar: real)
    requires ar > 0.0
    ensures Inside(Fit(r, ar), r)
  {
  }

  lemma ApartInside(a: Rect, b: Rect, a': Rect, b': Rect)
    requires Apart(a, b) && Inside(a', a) && Inside(b', b)
    ensures Apart(a', b')
  {
  }

  /** Rounding can move a rectangle out of its tile, yet never onto a neighbour or out of the frame. */
  lemma EvenApart(a: Rect, b: Rect)
    requires Apart(a, b)
    ensures Apart(Even(a), Even(b))
  {
  }

  lemma EvenInside(r: Rect, W: nat, H: nat)
    requires r.x + r.w <= W && r.y + r.h <= H
    ensures Even(r).x + Even(r).w <= W && Even(r).y + Even(r).h <= H
  {
  }

  // ---------------------------------------------------------------- tiles

  /** The side of the smallest square grid, from `from` on, that holds n tiles. */
  function Rows(n: nat, from: nat): (r: nat)
    requires from >= 1
    ensures r >= from && n <= r * r && forall k :: from <= k < r ==> k * k < n
    decreases if n > from then n - from else 0
  {
    assert from <= from * from;
    if n <= from * from then from else Rows(n, from + 1)
  }

  method CalcRows(n: nat) returns (rows: nat)
    ensures rows == Rows(n, 1)
  {
    rows := 1;
    while n > rows * rows
      invariant rows >= 1 && Rows(n, rows) == Rows(n, 1)
      decreases n - rows
    {
      assert rows <= rows * rows;
      rows := rows + 1;
    }
  }

  /** One of m equal parts of a, and k such parts. */
  function Part(a: nat, m: nat): nat
    requires m >= 1
  {
    a / m
  }

  function Mul(a: nat, k: nat): nat {
    a * k
  }

  /** How the source in a slot is drawn: over the whole frame, cut to its tile, or fitted into it. */
  datatype Slot = Full | Center(r: Rect) | Aspect(r: Rect) | NoSlot

  datatype Frame = Frame(w: nat, h: nat)

  /** Sources beside a picture in focus: m down the right edge, m - 1 along the bottom. */
  function Side(n: nat, full: bool): (m: nat)
    ensures m >= 3
  {
    Max(n + 1, if full then 12 else 6) / 2
  }

  function FocusRect(f: Frame, m: nat): Rect
    requires m >= 1
  {
    Rect(0, 0, Part(Mul(f.w, m - 1), m), Part(Mul(f.h, m - 1), m))
  }

  function SideRect(f: Frame, m: nat, idx: nat): Slot
    requires m >= 1
  {
    var w, h := Part(f.w, m), Part(f.h, m);
    PartRoom(f.w, m);
    PartRoom(f.h, m);
    if idx < m then Aspect(Rect(f.w - w, Mul(h, idx), w, h))
    else if idx < 2 * m - 1 then Aspect(Rect(Mul(w, 2 * m - 2 - idx), f.h - h, w, h))
    else NoSlot
  }

  function Tile(f: Frame, n: nat, rows: nat, idx: nat, focus: bool, thisOne: bool, full: bool): Slot
    requires rows >= 1 && (!focus && rows > 1 ==> n > 0)
  {
    if focus then
      var m := Side(n, full);
      if thisOne then Aspect(FocusRect(f, m)) else SideRect(f, m, idx)
    else if rows == 1 then Full
    else if n <= 3 then Center(Rect(Mul(Part(f.w, n), idx % n), 0, Part(f.w, n), f.h))
    else
      Aspect(Rect(Mul(Part(f.w, rows), idx % rows), Mul(Part(f.h, rows), Part(idx, rows)),
                  Part(f.w, rows), Part(f.h, rows)))
  }

  // ---------------------------------------------------------------- tiles keep apart

  lemma PartRoom(a: nat, m: nat)
    requires m >= 1
    ensures Mul(Part(a, m), m) <= a && Part(a, m) <= a
  {
    assert a == a / m * m + a % m;
    MulUp(1, m, a / m);
  }

  lemma {:induction false} MulUp(a: nat, b: nat, c: nat)
    requires a <= b
    ensures c * a <= c * b
  {
    if a < b {
      MulUp(a, b - 1, c);
      assert c * b == c * (b - 1) + c;
    }
  }

  /** Tile k of m equal ones ends inside. */
  lemma TileEnds(a: nat, m: nat, k: nat)
    requires k < m
    ensures Mul(Part(a, m), k) + Part(a, m) <= a
  {
    PartRoom(a, m);
    MulUp(k + 1, m, a / m);
    assert a / m * (k + 1) == a / m * k + a / m;
  }

  /** ... and before the next begins. */
  lemma TilesApart(t: nat, j: nat, k: nat)
    requires j < k
    ensures Mul(t, j) + t <= Mul(t, k)
  {
    MulUp(j + 1, k, t);
    assert t * (j + 1) == t * j + t;
  }

  /** The picture in focus ends before the last of m equal tiles begins. */
  lemma FocusEnds(a: nat, m: nat)
    requires m >= 1
    ensures Part(a, m) <= a && Part(Mul(a, m - 1), m) <= a - Part(a, m)
  {
    PartRoom(a, m);
    var q, r := a / m, a % m;
    assert a == q * m + r;
    var y := a - q;
    assert a * (m - 1) == a * m - a;
    assert (y + 1) * m == a * m - q * m + m;
    DivBelow(a * (m - 1), m, y);
  }

  lemma DivBelow(x: nat, m: nat, y: nat)
    requires m >= 1 && x < (y + 1) * m
    ensures x / m <= y
  {
    assert x == x / m * m + x % m;
    var q := x / m;
    assert q * m <= x;
    if q >= y + 1 { MulUp(y + 1, q, m); assert false; }
  }

  predicate InFrame(r: Rect, f: Frame) {
    r.x + r.w <= f.w && r.y + r.h <= f.h
  }

  lemma SideInside(f: Frame, m: nat, idx: nat)
    requires m >= 1 && SideRect(f, m, idx) != NoSlot
    ensures InFrame(SideRect(f, m, idx).r, f)
  {
    PartRoom(f.w, m);
    PartRoom(f.h, m);
    if idx < m { TileEnds(f.h, m, idx); } else { TileEnds(f.w, m, 2 * m - 2 - idx); }
    hide Part, Mul;
  }

  lemma SidesApart(f: Frame, m: nat, i: nat, j: nat)
    requires m >= 1 && i < j && SideRect(f, m, i) != NoSlot && SideRect(f, m, j) != NoSlot
    ensures Apart(SideRect(f, m, i).r, SideRect(f, m, j).r)
  {
    hide Part, Mul;
    if j < m {
      TilesApart(Part(f.h, m), i, j);
    } else if i >= m {
      TilesApart(Part(f.w, m), 2 * m - 2 - j, 2 * m - 2 - i);
    } else {
      LastTile(f.w, m, 2 * m - 2 - j);
    }
  }

  /** A tile that is not the last of its row ends before the right edge's column. */
  lemma LastTile(a: nat, m: nat, k: nat)
    requires k + 1 < m
    ensures Part(a, m) <= a && Mul(Part(a, m), k) + Part(a, m) <= a - Part(a, m)
  {
    PartRoom(a, m);
    TilesApart(Part(a, m), k, k + 1);
    TileEnds(a, m, k + 1);
    hide Part, Mul;
  }

  lemma FocusApart(f: Frame, m: nat, idx: nat)
    requires m >= 1 && SideRect(f, m, idx) != NoSlot
    ensures Apart(FocusRect(f, m), SideRect(f, m, idx).r) && InFrame(FocusRect(f, m), f)
  {
    FocusEnds(f.w, m);
    FocusEnds(f.h, m);
    hide Part, Mul;
  }

  lemma FocusInside(f: Frame, m: nat)
    requires m >= 1
    ensures InFrame(FocusRect(f, m), f)
  {
    FocusEnds(f.w, m);
    FocusEnds(f.h, m);
    hide Part, Mul;
  }

  lemma GridCell(idx: nat, n: nat, rows: nat)
    requires idx < n <= rows * rows && rows >= 1
    ensures idx % rows < rows && Part(idx, rows) < rows
  {
    assert (rows - 1 + 1) * rows == rows * rows;
    DivBelow(idx, rows, rows - 1);
  }

  lemma CellsDiffer(i: nat, j: nat, rows: nat)
    requires rows >= 1 && i != j && Part(i, rows) == Part(j, rows)
    ensures i % rows != j % rows
  {
    assert i == i / rows * rows + i % rows;
    assert j == j / rows * rows + j % rows;
  }

  /** Without a focus: tile idx of n lies inside the frame. */
  lemma TileInside(f: Frame, n: nat, idx: nat, full: bool)
    requires idx < n
    ensures var t := Tile(f, n, Rows(n, 1), idx, false, false, full);
            t != NoSlot && (t != Full ==> InFrame(t.r, f))
  {
    var rows := Rows(n, 1);
    if rows > 1 && n <= 3 {
      TileEnds(f.w, n, idx % n);
    } else if rows > 1 {
      GridCell(idx, n, rows);
      TileEnds(f.w, rows, idx % rows);
      TileEnds(f.h, rows, Part(idx, rows));
    }
    hide Part, Mul, Rows;
  }

  lemma TilesKeepApart(f: Frame, n: nat, i: nat, j: nat, full: bool)
    requires i < j < n
    ensures var rows := Rows(n, 1);
            var s, t := Tile(f, n, rows, i, false, false, full), Tile(f, n, rows, j, false, false, full);
            s != NoSlot && t != NoSlot && s != Full && t != Full && Apart(s.r, t.r)
  {
    var rows := Rows(n, 1);
    assert rows > 1;
    if n <= 3 {
      assert i % n == i && j % n == j;
      TilesApart(Part(f.w, n), i, j);
    } else if Part(i, rows) != Part(j, rows) {
      if Part(i, rows) < Part(j, rows) {
        TilesApart(Part(f.h, rows), Part(i, rows), Part(j, rows));
      } else {
        TilesApart(Part(f.h, rows), Part(j, rows), Part(i, rows));
      }
    } else {
      CellsDiffer(i, j, rows);
      if i % rows < j % rows {
        TilesApart(Part(f.w, rows), i % rows, j % rows);
      } else {
        TilesApart(Part(f.w, rows), j % rows, i % rows);
      }
    }
    hide Part, Mul, Rows;
  }

  // ---------------------------------------------------------------- the picture for one viewer

  /** A source: whether it has a frame, that frame's ratio, and whether it has the output's size. */
  datatype Source = Source(id: nat, content: bool, frame: bool, ar: real, sameSize: bool)

  datatype View = View(me: nat, selfview: bool, contentHide: bool, focus: Option<nat>, focusFull: bool)

  predicate Shown(v: View, s: Source) {
    !(s.id == v.me && !v.selfview) && !(s.content && v.contentHide)
  }

  predicate Focused(v: View, s: Source) {
    v.focus == Some(s.id)
  }

  function Count(v: View, ss: seq<Source>): (n: nat)
    ensures n <= |ss|
  {
    if ss == [] then 0 else Count(v, ss[..|ss| - 1]) + Bit(Shown(v, ss[|ss| - 1]))
  }

  /** Sources that take a tile: shown, and not the one in focus. */
  function Tiled(v: View, ss: seq<Source>): (n: nat)
    ensures n <= |ss|
  {
    if ss == [] then 0
    else Tiled(v, ss[..|ss| - 1]) + Bit(Shown(v, ss[|ss| - 1]) && !Focused(v, ss[|ss| - 1]))
  }

  /** What the pixel converter draws; a rectangle that left the frame would not be drawn. */
  function Drawn(f: Frame, t: Slot, s: Source): Option<Rect>
    requires s.ar > 0.0
  {
    if !s.frame || t == NoSlot then None
    else if t == Full && s.sameSize then Some(Rect(0, 0, f.w, f.h))
    else
      var r := match t
        case Full => Even(Fit(Rect(0, 0, f.w, f.h), s.ar))
        case Center(r) => Even(r)
        case Aspect(r) => Even(Fit(r, s.ar));
      if r.x + r.w > f.w || r.y + r.h > f.h then None else Some(r)
  }

  function SlotOf(v: View, f: Frame, ss: seq<Source>, i: nat): Slot
    requires i < |ss|
  {
    var n := Count(v, ss);
    if !Shown(v, ss[i]) || (Focused(v, ss[i]) && v.focusFull) then NoSlot
    else Tile(f, n, Rows(n, 1), Tiled(v, ss[..i]), v.focus.Some?, Focused(v, ss[i]), v.focusFull)
  }

  predicate Proper(ss: seq<Source>) {
    && (forall i :: 0 <= i < |ss| ==> ss[i].ar > 0.0)
    && forall i, j :: 0 <= i < j < |ss| ==> ss[i].id != ss[j].id
  }

  lemma {:induction false} Monotone(v: View, ss: seq<Source>, i: nat, j: nat)
    requires i <= j <= |ss|
    ensures Tiled(v, ss[..i]) <= Tiled(v, ss[..j]) && Count(v, ss[..i]) <= Count(v, ss[..j])
    ensures Tiled(v, ss[..j]) <= Count(v, ss[..j])
    decreases j
  {
    if i < j {
      Monotone(v, ss, i, j - 1);
      assert ss[..j][..j - 1] == ss[..j - 1];
    } else if j > 0 {
      Monotone(v, ss, j - 1, j - 1);
      assert ss[..j][..j - 1] == ss[..j - 1];
    }
  }

  /** Sources with tiles have different numbers, below the number of sources shown. */
  lemma TileNumbers(v: View, ss: seq<Source>, i: nat, j: nat)
    requires i < j <= |ss| && Shown(v, ss[i]) && !Focused(v, ss[i])
    ensures Tiled(v, ss[..i]) < Tiled(v, ss[..j]) && Tiled(v, ss[..i]) < Count(v, ss)
  {
    assert ss[..i + 1][..i] == ss[..i];
    Monotone(v, ss, i + 1, j);
    Monotone(v, ss, j, |ss|);
    assert ss[..|ss|] == ss;
  }

  lemma SlotInside(v: View, f: Frame, ss: seq<Source>, i: nat)
    requires i < |ss|
    ensures var t := SlotOf(v, f, ss, i); t == NoSlot || t == Full || InFrame(t.r, f)
  {
    var n, k := Count(v, ss), Tiled(v, ss[..i]);
    hide Count, Tiled, Rows, FocusRect, SideRect, InFrame;
    if v.focus.Some? {
      var m := Side(n, v.focusFull);
      FocusInside(f, m);
      if SideRect(f, m, k) != NoSlot { SideInside(f, m, k); }
    } else if Shown(v, ss[i]) {
      TileNumbers(v, ss, i, |ss|);
      TileInside(f, n, k, v.focusFull);
    }
  }

  /** Every slot of one picture is apart from every other, the picture in focus included. */
  lemma SlotsApart(v: View, f: Frame, ss: seq<Source>, i: nat, j: nat)
    requires i < j < |ss| && Proper(ss) && SlotOf(v, f, ss, i) != NoSlot && SlotOf(v, f, ss, j) != NoSlot
    ensures var s, t := SlotOf(v, f, ss, i), SlotOf(v, f, ss, j);
            s != Full && t != Full && Apart(s.r, t.r)
  {
    var n, k, l := Count(v, ss), Tiled(v, ss[..i]), Tiled(v, ss[..j]);
    assert ss[i].id != ss[j].id;
    if !Focused(v, ss[i]) { TileNumbers(v, ss, i, j); }
    if !Focused(v, ss[j]) { TileNumbers(v, ss, j, |ss|); }
    hide Count, Tiled, Rows, FocusRect, SideRect, Apart, Tile;
    if v.focus.Some? {
      var m := Side(n, v.focusFull);
      FocusTile(f, n, k, v.focusFull);
      FocusTile(f, n, l, v.focusFull);
      if Focused(v, ss[i]) {
        FocusApart(f, m, l);
      } else if Focused(v, ss[j]) {
        FocusApart(f, m, k);
        ApartBoth(FocusRect(f, m), SideRect(f, m, k).r);
      } else {
        SidesApart(f, m, k, l);
      }
    } else {
      TilesKeepApart(f, n, k, l, v.focusFull);
    }
  }

  lemma ApartBoth(a: Rect, b: Rect)
    requires Apart(a, b)
    ensures Apart(b, a)
  {
  }

  lemma FocusTile(f: Frame, n: nat, idx: nat, full: bool)
    ensures Tile(f, n, Rows(n, 1), idx, true, true, full) == Aspect(FocusRect(f, Side(n, full)))
    ensures Tile(f, n, Rows(n, 1), idx, true, false, full) == SideRect(f, Side(n, full), idx)
  {
  }

  /** A source with a slot is drawn, inside the frame: the converter's own bounds check never fires. */
  lemma DrawnInside(v: View, f: Frame, ss: seq<Source>, i: nat)
    requires i < |ss| && Proper(ss)
    ensures var d := Drawn(f, SlotOf(v, f, ss, i), ss[i]);
            && (d.Some? <==> ss[i].frame && SlotOf(v, f, ss, i) != NoSlot)
            && (d.Some? ==> InFrame(d.value, f))
  {
    SlotInside(v, f, ss, i);
    var t := SlotOf(v, f, ss, i);
    hide SlotOf, Fit, Even;
    match t
    case Full => FittedInside(f, Rect(0, 0, f.w, f.h), ss[i].ar);
    case Center(r) => EvenInside(r, f.w, f.h);
    case Aspect(r) => FittedInside(f, r, ss[i].ar);
    case NoSlot =>
  }

  lemma FittedInside(f: Frame, r: Rect, ar: real)
    requires ar > 0.0 && InFrame(r, f)
    ensures InFrame(Even(Fit(r, ar)), f)
  {
    FitInside(r, ar);
    EvenInside(Fit(r, ar), f.w, f.h);
    hide Fit, Even;
  }

  /** What a slot other than the whole frame draws is apart from what another one does. */
  lemma RoundedApart(a: Rect, b: Rect, ar: real, br: real)
    requires ar > 0.0 && br > 0.0 && Apart(a, b)
    ensures Apart(Even(Fit(a, ar)), Even(Fit(b, br))) && Apart(Even(a), Even(Fit(b, br)))
    ensures Apart(Even(Fit(a, ar)), Even(b)) && Apart(Even(a), Even(b))
  {
    hide Fit, Even, Apart, Inside;
    FitInside(a, ar);
    FitInside(b, br);
    WithinItself(a);
    WithinItself(b);
    ApartInside(a, b, Fit(a, ar), Fit(b, br));
    ApartInside(a, b, a, Fit(b, br));
    ApartInside(a, b, Fit(a, ar), b);
    EvenApart(Fit(a, ar), Fit(b, br));
    EvenApart(a, Fit(b, br));
    EvenApart(Fit(a, ar), b);
    EvenApart(a, b);
  }

  lemma WithinItself(r: Rect)
    ensures Inside(r, r)
  {
  }

  /** For all frame sizes, source lists and views: what is drawn for one source never touches what is
      drawn for another; a picture in focus that does not fill the frame counts as one of them. */
  lemma DrawnApart(v: View, f: Frame, ss: seq<Source>, i: nat, j: nat)
    requires i < j < |ss| && Proper(ss)
    ensures var d, e := Drawn(f, SlotOf(v, f, ss, i), ss[i]), Drawn(f, SlotOf(v, f, ss, j), ss[j]);
            d.Some? && e.Some? ==> Apart(d.value, e.value)
  {
    var s, t := SlotOf(v, f, ss, i), SlotOf(v, f, ss, j);
    if s != NoSlot && t != NoSlot {
      SlotsApart(v, f, ss, i, j);
      RoundedApart(s.r, t.r, ss[i].ar, ss[j].ar);
      hide SlotOf, Fit, Even, Apart;
    }
  }

  // ---------------------------------------------------------------- a slot for everyone

  lemma FocusSlots(f: Frame, n: nat, idx: nat, full: bool)
    ensures SideRect(f, Side(n, full), idx) != NoSlot <==> idx < 2 * Side(n, full) - 1
  {
  }

  lemma {:induction false} TiledOrFocused(v: View, ss: seq<Source>)
    requires forall i, j :: 0 <= i < j < |ss| ==> ss[i].id != ss[j].id
    ensures Count(v, ss) == Tiled(v, ss) + Bit(FocusShown(v, ss))
    decreases |ss|
  {
    if ss != [] {
      var init, last := ss[..|ss| - 1], ss[|ss| - 1];
      TiledOrFocused(v, init);
      if FocusShown(v, init) {
        var i :| 0 <= i < |init| && Shown(v, init[i]) && Focused(v, init[i]);
        assert ss[i] == init[i] && ss[i].id != last.id;
        assert FocusShown(v, ss) && !Focused(v, last);
      } else if Shown(v, last) && Focused(v, last) {
        assert ss[|ss| - 1] == last && FocusShown(v, ss);
      } else {
        forall i | 0 <= i < |ss| ensures !(Shown(v, ss[i]) && Focused(v, ss[i])) {
          if i < |init| { assert init[i] == ss[i]; }
        }
      }
    }
  }

  /** The source in focus is in the list and shown. */
  predicate FocusShown(v: View, ss: seq<Source>) {
    exists i :: 0 <= i < |ss| && Shown(v, ss[i]) && Focused(v, ss[i])
  }

  /** There are enough tiles beside the focus. */
  predicate Room(v: View, ss: seq<Source>) {
    v.focus == None || Tiled(v, ss) <= 2 * Side(Count(v, ss), v.focusFull) - 1
  }

  lemma {:induction false} RoomCounts(v: View, ss: seq<Source>)
    requires Proper(ss)
    ensures Room(v, ss) <==>
              || v.focus == None || FocusShown(v, ss)
              || Count(v, ss) % 2 == 1 || Count(v, ss) < if v.focusFull then 12 else 6
  {
    TiledOrFocused(v, ss);
    hide Count, Tiled, FocusShown;
  }

  /** A source that the mixer has to place: shown, and not drawn behind the others as a full focus. */
  predicate Placed(v: View, s: Source) {
    Shown(v, s) && !(Focused(v, s) && v.focusFull)
  }

  lemma EverySourceHasSlot(v: View, f: Frame, ss: seq<Source>, i: nat)
    requires i < |ss| && Proper(ss) && Room(v, ss) && Placed(v, ss[i])
    ensures SlotOf(v, f, ss, i) != NoSlot
  {
    var n, k := Count(v, ss), Tiled(v, ss[..i]);
    if !Focused(v, ss[i]) {
      TileNumbers(v, ss, i, |ss|);
      assert ss[..|ss|] == ss;
    }
    hide Count, Tiled, Rows, SideRect, FocusRect, Side;
    if v.focus.Some? {
      FocusTile(f, n, k, v.focusFull);
      FocusSlots(f, n, k, v.focusFull);
    } else {
      TileInside(f, n, k, v.focusFull);
    }
  }

  lemma {:induction false} LastTiled(v: View, ss: seq<Source>) returns (i: nat)
    requires Tiled(v, ss) > 0
    ensures i < |ss| && Shown(v, ss[i]) && !Focused(v, ss[i]) && Tiled(v, ss[..i]) == Tiled(v, ss) - 1
    decreases |ss|
  {
    var n := |ss| - 1;
    if Shown(v, ss[n]) && !Focused(v, ss[n]) {
      i := n;
    } else {
      i := LastTiled(v, ss[..n]);
      assert ss[..n][..i] == ss[..i];
    }
  }

  /** Without room, the last source that needs a tile gets none. */
  lemma LastHasNone(v: View, f: Frame, ss: seq<Source>) returns (i: nat)
    requires !Room(v, ss)
    ensures i < |ss| && Placed(v, ss[i]) && SlotOf(v, f, ss, i) == NoSlot
  {
    hide Count, Tiled, Rows, SideRect, Side;
    i := LastTiled(v, ss);
    FocusSlots(f, Count(v, ss), Tiled(v, ss[..i]), v.focusFull);
  }

  /** Every source that has to be placed gets a slot if and only if there is no focus, or the focus is
      shown, or the number of sources shown is odd, or there are few of them. */
  lemma RoomExactly(v: View, f: Frame, ss: seq<Source>)
    requires Proper(ss)
    ensures (forall i :: 0 <= i < |ss| && Placed(v, ss[i]) ==> SlotOf(v, f, ss, i) != NoSlot) <==>
              || v.focus == None || FocusShown(v, ss)
              || Count(v, ss) % 2 == 1 || Count(v, ss) < if v.focusFull then 12 else 6
  {
    hide SlotOf, Count, Room, Placed, FocusShown;
    RoomCounts(v, ss);
    if Room(v, ss) {
      forall i | 0 <= i < |ss| && Placed(v, ss[i]) ensures SlotOf(v, f, ss, i) != NoSlot {
        EverySourceHasSlot(v, f, ss, i);
      }
    } else {
      var _ := LastHasNone(v, f, ss);
    }
  }

  lemma {:induction false} AllTiled(v: View, ss: seq<Source>)
    requires forall i :: 0 <= i < |ss| ==> Shown(v, ss[i]) && !Focused(v, ss[i])
    ensures Count(v, ss) == Tiled(v, ss) == |ss|
    decreases |ss|
  {
    if ss != [] { AllTiled(v, ss[..|ss| - 1]); }
  }

  /** Six sources and a focus on one that is not there: the sixth is not drawn. */
  lemma SixthIsLost(f: Frame)
    ensures var ss := seq(6, (i: nat) => Source(i, false, true, 1.0, true));
            var v := View(9, true, false, Some(7), false);
            Proper(ss) && Placed(v, ss[5]) && SlotOf(v, f, ss, 5) == NoSlot
  {
    hide Count, Tiled, Rows;
    var ss := seq(6, (i: nat) => Source(i, false, true, 1.0, true));
    var v := View(9, true, false, Some(7), false);
    AllTiled(v, ss);
    AllTiled(v, ss[..5]);
  }

  // ---------------------------------------------------------------- the mixing loop

  /** A source in focus that is to fill the frame. */
  predicate Backs(v: View, s: Source) {
    Shown(v, s) && Focused(v, s) && v.focusFull && s.frame
  }

  /** What lies behind the tiles: the source in focus, over the whole frame, if it is to fill it. */
  predicate Behind(v: View, f: Frame, ss: seq<Source>, behind: Option<Rect>)
    requires Proper(ss)
  {
    && (forall i :: 0 <= i < |ss| && Backs(v, ss[i]) ==> behind.Some? && behind == Drawn(f, Full, ss[i]))
    && (behind.Some? ==> InFrame(behind.value, f) && exists i :: 0 <= i < |ss| && Backs(v, ss[i]))
  }

  lemma FullIsDrawn(f: Frame, s: Source)
    requires s.ar > 0.0 && s.frame
    ensures Drawn(f, Full, s).Some? && InFrame(Drawn(f, Full, s).value, f)
  {
    hide Fit, Even;
    FittedInside(f, Rect(0, 0, f.w, f.h), s.ar);
  }

  /** The first pass: counts the sources shown and draws a focus that fills the frame. */
  method FirstPass(v: View, f: Frame, ss: seq<Source>) returns (n: nat, behind: Option<Rect>)
    requires Proper(ss)
    ensures n == Count(v, ss) && Behind(v, f, ss, behind)
  {
    hide Fit, Even, Tiled, Drawn;
    n, behind := 0, None;
    for i := 0 to |ss|
      invariant n == Count(v, ss[..i]) && Proper(ss[..i]) && Behind(v, f, ss[..i], behind)
    {
      assert ss[..i + 1][..i] == ss[..i];
      ghost var was := behind;
      if Shown(v, ss[i]) {
        if Focused(v, ss[i]) && v.focusFull && ss[i].frame {
          FullIsDrawn(f, ss[i]);
          behind := Drawn(f, Full, ss[i]);
        }
        n := n + 1;
      }
      OneMoreBehind(v, f, ss, i, was, behind);
    }
    assert ss[..|ss|] == ss;
  }

  lemma OneMoreBehind(v: View, f: Frame, ss: seq<Source>, i: nat, was: Option<Rect>, behind: Option<Rect>)
    requires Proper(ss) && i < |ss| && Proper(ss[..i]) && Behind(v, f, ss[..i], was)
    requires if Backs(v, ss[i]) then behind.Some? && behind == Drawn(f, Full, ss[i]) && InFrame(behind.value, f)
             else behind == was
    ensures Proper(ss[..i + 1]) && Behind(v, f, ss[..i + 1], behind)
  {
    hide Drawn, InFrame;
    var all := ss[..i + 1];
    forall k | 0 <= k < i ensures all[k] == ss[..i][k] && ss[k].id != ss[i].id { }
    assert all[i] == ss[i];
    if Backs(v, ss[i]) {
      forall k | 0 <= k < |all| && Backs(v, all[k]) ensures k == i { }
    } else if behind.Some? {
      var k :| 0 <= k < i && Backs(v, ss[..i][k]);
      assert Backs(v, all[k]);
    }
  }

  /** Draws one picture: a focus that fills the frame first, then the tiles over it. */
  method MixFrame(v: View, f: Frame, ss: seq<Source>) returns (behind: Option<Rect>, drawn: seq<Option<Rect>>)
    requires Proper(ss)
    ensures |drawn| == |ss| && forall i :: 0 <= i < |ss| ==> drawn[i] == Drawn(f, SlotOf(v, f, ss, i), ss[i])
    ensures Behind(v, f, ss, behind)
  {
    hide Drawn, Tile, Count, Shown, Behind;
    drawn := [];
    var n;
    n, behind := FirstPass(v, f, ss);
    var rows := CalcRows(n);
    var idx := 0;
    for i := 0 to |ss|
      invariant idx == Tiled(v, ss[..i]) && |drawn| == i
      invariant forall k :: 0 <= k < i ==> drawn[k] == Drawn(f, SlotOf(v, f, ss, k), ss[k])
    {
      assert ss[..i + 1][..i] == ss[..i];
      var slot := NoSlot;
      if Shown(v, ss[i]) && !(Focused(v, ss[i]) && v.focusFull) {
        slot := Tile(f, n, rows, idx, v.focus.Some?, Focused(v, ss[i]), v.focusFull);
        if !Focused(v, ss[i]) {
          idx := idx + 1;
        }
      }
      drawn := drawn + [Drawn(f, slot, ss[i])];
    }
  }
}
