/**
 * The character buffer behind the ASCII-art editor control: a 2-D grid of
 * characters indexed [x, y], a zero point that maps world coordinates to grid
 * indices (index = world + zero), the text it is read from and written back
 * to, and the list of selected world cells.
 */
module AsciiGrids {
  import opened Text
  import opened Markup

  datatype IntPoint = IntPoint(x: int, y: int)

  /** Int32Rect: a position and a size. */
  datatype Rect = Rect(x: int, y: int, w: nat, h: nat)

  predicate InRect(r: Rect, p: IntPoint) {
    r.x <= p.x < r.x + r.w && r.y <= p.y < r.y + r.h
  }

  function Min(a: int, b: int): int { if a < b then a else b }
  function Max(a: int, b: int): int { if a > b then a else b }

  // ---------------------------------------------------------------------------
  // Text and grid

  /** The lines UpdateGrid reads: the text split at '\n', without a trailing empty line. */
  function GridLines(s: string): (r: seq<string>)
    ensures |r| == |Split(s, '\n')| || |r| == |Split(s, '\n')| - 1
  {
    var ls := Split(s, '\n');
    if ls[|ls| - 1] == "" then ls[..|ls| - 1] else ls
  }

  /** The grid width: the first line's length, or 0 when there are no lines. */
  function LineWidth(lines: seq<string>): nat {
    if |lines| == 0 then 0 else |lines[0]|
  }

  /** The cell at column x of line y: short lines are padded with blanks. */
  function TextCell(lines: seq<string>, x: nat, y: nat): char
    requires y < |lines|
  {
    if |lines[y]| > x then lines[y][x] else ' '
  }

  /** The rows of the grid built from `lines`, each cut or padded to the first line's width. */
  function TextRows(lines: seq<string>): (r: seq<string>)
    ensures |r| == |lines|
    ensures forall y | 0 <= y < |r| :: |r[y]| == LineWidth(lines)
  {
    seq(|lines|, y requires 0 <= y < |lines| =>
      seq(LineWidth(lines), x requires 0 <= x < LineWidth(lines) => TextCell(lines, x, y)))
  }

  /** Rows of one width, at least one column wide, none holding a line break. */
  predicate Rectangular(rows: seq<string>) {
    |rows| >= 1 && |rows[0]| >= 1 &&
    forall k | 0 <= k < |rows| :: |rows[k]| == |rows[0]| && forall j | 0 <= j < |rows[k]| :: rows[k][j] != '\n'
  }

  lemma NoLineBreak(s: string)
    requires forall j | 0 <= j < |s| :: s[j] != '\n'
    ensures !Contains(s, "\n")
  {
    forall j | 0 <= j <= |s|
      ensures !OccursAt(s, "\n", j)
    {
      if j + 1 <= |s| {
        assert s[j..j + 1][0] == s[j];
      }
    }
  }

  /** Rows all of one width read back as themselves. */
  lemma TextRowsOfRectangular(lines: seq<string>)
    requires |lines| >= 1
    requires forall k | 0 <= k < |lines| :: |lines[k]| == |lines[0]|
    ensures TextRows(lines) == lines
  {
    var r := TextRows(lines);
    forall y | 0 <= y < |lines|
      ensures r[y] == lines[y]
    {
      assert |r[y]| == |lines[y]|;
      forall x | 0 <= x < |lines[y]|
        ensures r[y][x] == lines[y][x]
      {
        assert r[y][x] == TextCell(lines, x, y);
      }
    }
  }

  /**
   * Text whose lines all have one non-zero length: reading it into a grid and
   * writing the grid back gives the text again.
   */
  lemma TextRoundTrip(s: string)
    requires var ls := Split(s, '\n'); |ls[0]| >= 1 && forall k | 0 <= k < |ls| :: |ls[k]| == |ls[0]|
    ensures Join("\n", TextRows(GridLines(s))) == s
  {
    var ls := Split(s, '\n');
    assert ls[|ls| - 1] != "";
    assert GridLines(s) == ls;
    TextRowsOfRectangular(ls);
    JoinSplitOn(s, "\n");
  }

  /**
   * A rectangular grid written as text and read back gives the same rows:
   * the grid rebuilt when the written value is reported back is the grid
   * that was written.
   */
  lemma RowsRoundTrip(rows: seq<string>)
    requires Rectangular(rows)
    ensures TextRows(GridLines(Join("\n", rows))) == rows
  {
    forall k | 0 <= k < |rows|
      ensures !Contains(rows[k], "\n")
    {
      NoLineBreak(rows[k]);
    }
    SplitJoin(rows, "\n");
    assert Split(Join("\n", rows), '\n') == rows;
    assert rows[|rows| - 1] != "";
    TextRowsOfRectangular(rows);
  }

  /** An empty value reads as a grid with no rows. */
  lemma EmptyTextNoRows()
    ensures GridLines("") == []
  {
    assert IndexOf("", "\n").None? by {
      assert !OccursAt("", "\n", 0);
    }
    assert Split("", '\n') == [""];
  }

  // ---------------------------------------------------------------------------
  // The bounds ExpandGrid computes

  /**
   * The world rectangle after ExpandGrid(p): a single cell at p for an empty
   * grid, the old bounds when p lies inside them, and otherwise the box from
   * the smaller corner to one past the larger.
   */
  function ExpandedRect(b: Rect, p: IntPoint): (r: Rect)
    ensures InRect(r, p)
    ensures forall q | InRect(b, q) :: InRect(r, q)
  {
    if b.w == 0 && b.h == 0 then Rect(p.x, p.y, 1, 1)
    else if InRect(b, p) then b
    else
      var lo := IntPoint(Min(p.x, b.x), Min(p.y, b.y));
      var hi := IntPoint(Max(p.x + 1, b.x + b.w), Max(p.y + 1, b.y + b.h));
      Rect(lo.x, lo.y, hi.x - lo.x, hi.y - lo.y)
  }

  /**
   * For a grid that is empty or has cells, the expanded rectangle is the
   * smallest one holding the point and the old cells.
   */
  lemma {:induction false} ExpandedIsSmallest(b: Rect, p: IntPoint, s: Rect)
    requires (b.w == 0 && b.h == 0) || (b.w > 0 && b.h > 0)
    requires InRect(s, p) && forall q | InRect(b, q) :: InRect(s, q)
    ensures forall q | InRect(ExpandedRect(b, p), q) :: InRect(s, q)
  {
    if b.w > 0 && b.h > 0 {
      assert InRect(b, IntPoint(b.x, b.y));
      assert InRect(b, IntPoint(b.x + b.w - 1, b.y + b.h - 1));
    }
  }

  /** A rectangle holding two corners holds every point between them. */
  lemma BetweenCorners(r: Rect, lo: IntPoint, hi: IntPoint, q: IntPoint)
    requires InRect(r, lo) && InRect(r, hi)
    requires lo.x <= q.x <= hi.x && lo.y <= q.y <= hi.y
    ensures InRect(r, q)
  {
  }

  // ---------------------------------------------------------------------------
  // Selection

  /** Every selected point moved by (dx, dy): the arrow keys, and the caret advance after typing. */
  function Shifted(sel: seq<IntPoint>, dx: int, dy: int): (r: seq<IntPoint>)
    ensures |r| == |sel|
    ensures forall i | 0 <= i < |sel| :: r[i] == IntPoint(sel[i].x + dx, sel[i].y + dy)
  {
    seq(|sel|, i requires 0 <= i < |sel| => IntPoint(sel[i].x + dx, sel[i].y + dy))
  }

  datatype Arrow = Left | Up | Right | Down

  /** The move each arrow key makes; y grows downwards. */
  function Offset(a: Arrow): (d: IntPoint)
    ensures (d.x == 0) != (d.y == 0) && -1 <= d.x <= 1 && -1 <= d.y <= 1
  {
    match a
    case Left => IntPoint(-1, 0)
    case Up => IntPoint(0, -1)
    case Right => IntPoint(1, 0)
    case Down => IntPoint(0, 1)
  }

  /** Left undoes Right and Up undoes Down. */
  lemma ShiftBack(sel: seq<IntPoint>, dx: int, dy: int)
    ensures Shifted(Shifted(sel, dx, dy), -dx, -dy) == sel
  {
    var r := Shifted(Shifted(sel, dx, dy), -dx, -dy);
    assert forall i | 0 <= i < |sel| :: r[i] == sel[i];
  }

  predicate Distinct(sel: seq<IntPoint>) {
    forall i, j | 0 <= i < j < |sel| :: sel[i] != sel[j]
  }

  lemma ShiftKeepsDistinct(sel: seq<IntPoint>, dx: int, dy: int)
    requires Distinct(sel)
    ensures Distinct(Shifted(sel, dx, dy))
  {
  }

  /** List.Remove: drop the first occurrence. */
  function RemoveFirst(sel: seq<IntPoint>, p: IntPoint): (r: seq<IntPoint>)
    ensures p !in sel ==> r == sel
    ensures p in sel ==> |r| == |sel| - 1
  {
    if |sel| == 0 then []
    else if sel[0] == p then sel[1..]
    else [sel[0]] + RemoveFirst(sel[1..], p)
  }

  lemma {:induction false} RemoveFirstDistinct(sel: seq<IntPoint>, p: IntPoint)
    requires Distinct(sel)
    ensures Distinct(RemoveFirst(sel, p))
    ensures forall q :: q in RemoveFirst(sel, p) <==> q in sel && q != p
  {
    if |sel| > 0 && sel[0] != p {
      RemoveFirstDistinct(sel[1..], p);
      assert sel[0] !in sel[1..];
    }
  }

  /**
   * A left click: without Ctrl the selection becomes the clicked cell alone;
   * with Ctrl the clicked cell is taken out if selected and added otherwise.
   */
  function Clicked(sel: seq<IntPoint>, p: IntPoint, ctrl: bool): seq<IntPoint> {
    if !ctrl then [p]
    else if p in sel then RemoveFirst(sel, p)
    else sel + [p]
  }

  /** A Ctrl-click toggles the clicked cell and leaves the rest of a duplicate-free selection alone. */
  lemma CtrlClickToggles(sel: seq<IntPoint>, p: IntPoint)
    requires Distinct(sel)
    ensures Distinct(Clicked(sel, p, true))
    ensures p in Clicked(sel, p, true) <==> p !in sel
    ensures forall q | q != p :: q in Clicked(sel, p, true) <==> q in sel
  {
    RemoveFirstDistinct(sel, p);
  }

  /** The cells of column x from row lo to row hi, top to bottom. */
  function Column(x: int, lo: int, hi: int): (r: seq<IntPoint>)
    ensures forall q :: q in r <==> q.x == x && lo <= q.y <= hi
  {
    if lo > hi then []
    else
      var r: seq<IntPoint> := seq(hi - lo + 1, j requires 0 <= j < hi - lo + 1 => IntPoint(x, lo + j));
      assert forall q: IntPoint | q.x == x && lo <= q.y <= hi :: r[q.y - lo] == q;
      r
  }

  lemma ColumnSnoc(x: int, lo: int, y: int)
    requires lo <= y
    ensures Column(x, lo, y) == Column(x, lo, y - 1) + [IntPoint(x, y)]
  {
  }

  /** The cells of the box lo..hi (inclusive), column by column. */
  function Box(lo: IntPoint, hi: IntPoint): seq<IntPoint>
    decreases hi.x - lo.x
  {
    if hi.x < lo.x then [] else Box(lo, IntPoint(hi.x - 1, hi.y)) + Column(hi.x, lo.y, hi.y)
  }

  /** The marquee selects exactly the cells of the box, each once. */
  lemma {:induction false} BoxCells(lo: IntPoint, hi: IntPoint)
    ensures forall q :: q in Box(lo, hi) <==> lo.x <= q.x <= hi.x && lo.y <= q.y <= hi.y
    ensures Distinct(Box(lo, hi))
    decreases hi.x - lo.x
  {
    if hi.x >= lo.x {
      var left := Box(lo, IntPoint(hi.x - 1, hi.y));
      var col := Column(hi.x, lo.y, hi.y);
      BoxCells(lo, IntPoint(hi.x - 1, hi.y));
      assert Distinct(col);
      forall i, j | 0 <= i < j < |left + col|
        ensures (left + col)[i] != (left + col)[j]
      {
        if j >= |left| && i < |left| {
          assert left[i] in left;
          assert col[j - |left|] in col;
        }
      }
    }
  }

  // ---------------------------------------------------------------------------
  // Writing rows out

  /** What UpdateSrcGrid has produced after its first n rows. */
  function Written(rows: seq<string>, n: nat): string
    requires n <= |rows|
  {
    if n == 0 then "" else Join("\n", rows[..n]) + (if n < |rows| then "\n" else "")
  }

  lemma WrittenStep(rows: seq<string>, y: nat)
    requires y < |rows|
    ensures Written(rows, y + 1) == Written(rows, y) + rows[y] + (if y < |rows| - 1 then "\n" else "")
  {
    if y > 0 {
      assert rows[..y + 1] == rows[..y] + [rows[y]];
      JoinSnoc("\n", rows[..y], rows[y]);
    } else {
      assert rows[..1] == [rows[0]];
    }
  }

  lemma WrittenAll(rows: seq<string>)
    ensures Written(rows, |rows|) == Join("\n", rows)
  {
    if |rows| > 0 {
      assert rows[..|rows|] == rows;
    }
  }

  predicate AllBlank(g: array2<char>)
    reads g
  {
    forall i, j | 0 <= i < g.Length0 && 0 <= j < g.Length1 :: g[i, j] == ' '
  }

  /** Each side of the box lo..hi of `g` holds a non-blank cell. */
  predicate TightBox(g: array2<char>, lo: IntPoint, hi: IntPoint)
    requires 0 <= lo.x <= hi.x < g.Length0 && 0 <= lo.y <= hi.y < g.Length1
    reads g
  {
    (exists j | lo.y <= j <= hi.y :: g[lo.x, j] != ' ') &&
    (exists j | lo.y <= j <= hi.y :: g[hi.x, j] != ' ') &&
    (exists i | lo.x <= i <= hi.x :: g[i, lo.y] != ' ') &&
    (exists i | lo.x <= i <= hi.x :: g[i, hi.y] != ' ')
  }

  /** `g` is the part lo..hi of `src`. */
  predicate IsCrop(src: array2<char>, g: array2<char>, lo: IntPoint, hi: IntPoint)
    reads src, g
  {
    && 0 <= lo.x <= hi.x < src.Length0 && 0 <= lo.y <= hi.y < src.Length1
    && g.Length0 == hi.x - lo.x + 1 && g.Length1 == hi.y - lo.y + 1
    && forall i, j | 0 <= i < g.Length0 && 0 <= j < g.Length1 :: g[i, j] == src[i + lo.x, j + lo.y]
  }

  /** Cropping to a box that holds every non-blank cell, with the zero point moved by the box corner, keeps every world cell. */
  lemma CroppedCells(src: array2<char>, zero: IntPoint, g: array2<char>, lo: IntPoint, hi: IntPoint)
    requires IsCrop(src, g, lo, hi)
    requires forall i, j | 0 <= i < src.Length0 && 0 <= j < src.Length1 && src[i, j] != ' ' :: lo.x <= i <= hi.x && lo.y <= j <= hi.y
    ensures forall q :: CellAt(g, IntPoint(zero.x - lo.x, zero.y - lo.y), q) == CellAt(src, zero, q)
  {
    var z := IntPoint(zero.x - lo.x, zero.y - lo.y);
    forall q
      ensures CellAt(g, z, q) == CellAt(src, zero, q)
    {
      if InRect(Rect(-zero.x, -zero.y, src.Length0, src.Length1), q) && !InRect(Rect(-z.x, -z.y, g.Length0, g.Length1), q) {
        assert src[q.x + zero.x, q.y + zero.y] == ' ';
      }
    }
  }

  /** The crop to a tight box is tight at its own edges. */
  lemma CroppedTight(src: array2<char>, g: array2<char>, lo: IntPoint, hi: IntPoint)
    requires IsCrop(src, g, lo, hi) && TightBox(src, lo, hi)
    ensures g.Length0 >= 1 && g.Length1 >= 1 && TightBox(g, IntPoint(0, 0), IntPoint(g.Length0 - 1, g.Length1 - 1))
  {
    var j0 :| lo.y <= j0 <= hi.y && src[lo.x, j0] != ' ';
    assert g[0, j0 - lo.y] != ' ';
    var j1 :| lo.y <= j1 <= hi.y && src[hi.x, j1] != ' ';
    assert g[hi.x - lo.x, j1 - lo.y] != ' ';
    var i0 :| lo.x <= i0 <= hi.x && src[i0, lo.y] != ' ';
    assert g[i0 - lo.x, 0] != ' ';
    var i1 :| lo.x <= i1 <= hi.x && src[i1, hi.y] != ' ';
    assert g[i1 - lo.x, hi.y - lo.y] != ' ';
  }

  /**
   * The non-empty branch of ContractGrid: the zero point moves by the box's
   * corner when that is not (0, 0), and the grid is copied down to the box.
   */
  method CropToBox(src: array2<char>, zero: IntPoint, lo: IntPoint, hi: IntPoint) returns (g: array2<char>, z: IntPoint)
    requires 0 <= lo.x <= hi.x < src.Length0 && 0 <= lo.y <= hi.y < src.Length1 && TightBox(src, lo, hi)
    requires forall i, j | 0 <= i < src.Length0 && 0 <= j < src.Length1 && src[i, j] != ' ' :: lo.x <= i <= hi.x && lo.y <= j <= hi.y
    ensures fresh(g)
    ensures forall q :: CellAt(g, z, q) == CellAt(src, zero, q)
    ensures g.Length0 >= 1 && g.Length1 >= 1 && TightBox(g, IntPoint(0, 0), IntPoint(g.Length0 - 1, g.Length1 - 1))
  {
    var w, h := src.Length0, src.Length1;
    z := zero;
    if lo.x != 0 || lo.y != 0 {
      z := IntPoint(zero.x - lo.x, zero.y - lo.y);
      g := Crop(src, lo, hi);
    } else if hi.x != w || hi.y != h {
      g := Crop(src, lo, hi);
    } else {
      // hi.x < w, so the test above always holds
      assert false;
    }
    CroppedCells(src, zero, g, lo, hi);
    CroppedTight(src, g, lo, hi);
  }

  /** A fresh w-by-h grid of blanks. */
  method BlankGrid(w: nat, h: nat) returns (g: array2<char>)
    ensures fresh(g) && g.Length0 == w && g.Length1 == h
    ensures AllBlank(g)
  {
    g := new char[w, h];
    for x := 0 to w
      invariant forall i, j | 0 <= i < x && 0 <= j < h :: g[i, j] == ' '
    {
      for y := 0 to h
        invariant forall i, j | 0 <= i < x && 0 <= j < h :: g[i, j] == ' '
        invariant forall j | 0 <= j < y :: g[x, j] == ' '
      {
        g[x, y] := ' ';
      }
    }
  }

  /** Copies every cell of `src` into `dst` at offset (ox, oy); the rest of `dst` is left as it was. */
  method CopyInto(src: array2<char>, dst: array2<char>, ox: nat, oy: nat)
    requires src != dst
    requires ox + src.Length0 <= dst.Length0 && oy + src.Length1 <= dst.Length1
    modifies dst
    ensures forall i, j | 0 <= i < src.Length0 && 0 <= j < src.Length1 :: dst[ox + i, oy + j] == src[i, j]
    ensures forall i, j | 0 <= i < dst.Length0 && 0 <= j < dst.Length1 &&
      !(ox <= i < ox + src.Length0 && oy <= j < oy + src.Length1) :: dst[i, j] == old(dst[i, j])
  {
    for x := 0 to src.Length0
      invariant forall i, j | 0 <= i < x && 0 <= j < src.Length1 :: dst[ox + i, oy + j] == src[i, j]
      invariant forall i, j | 0 <= i < dst.Length0 && 0 <= j < dst.Length1 &&
        !(ox <= i < ox + x && oy <= j < oy + src.Length1) :: dst[i, j] == old(dst[i, j])
    {
      for y := 0 to src.Length1
        invariant forall i, j | 0 <= i < x && 0 <= j < src.Length1 :: dst[ox + i, oy + j] == src[i, j]
        invariant forall j | 0 <= j < y :: dst[ox + x, oy + j] == src[x, j]
        invariant forall i, j | 0 <= i < dst.Length0 && 0 <= j < dst.Length1 &&
          !(ox <= i < ox + x && oy <= j < oy + src.Length1) && !(i == ox + x && oy <= j < oy + y) :: dst[i, j] == old(dst[i, j])
      {
        dst[ox + x, oy + y] := src[x, y];
      }
    }
  }

  /** A fresh w-by-h grid of blanks with `src` copied in at offset (ox, oy). */
  method Regrown(src: array2<char>, ox: nat, oy: nat, w: nat, h: nat) returns (g: array2<char>)
    requires ox + src.Length0 <= w && oy + src.Length1 <= h
    ensures fresh(g) && g.Length0 == w && g.Length1 == h
    ensures forall i, j | 0 <= i < w && 0 <= j < h ::
      g[i, j] == if ox <= i < ox + src.Length0 && oy <= j < oy + src.Length1 then src[i - ox, j - oy] else ' '
  {
    g := BlankGrid(w, h);
    CopyInto(src, g, ox, oy);
    forall i, j | 0 <= i < w && 0 <= j < h && ox <= i < ox + src.Length0 && oy <= j < oy + src.Length1
      ensures g[i, j] == src[i - ox, j - oy]
    {
      assert g[ox + (i - ox), oy + (j - oy)] == src[i - ox, j - oy];
    }
  }

  /**
   * A grid regrown around `src` shows the same world: with zero point z2, its
   * world cells are those of `src` under z, blank elsewhere.
   */
  lemma RegrownKeepsCells(src: array2<char>, z: IntPoint, g: array2<char>, z2: IntPoint)
    requires z2.x >= z.x && z2.y >= z.y
    requires (z2.x - z.x) + src.Length0 <= g.Length0 && (z2.y - z.y) + src.Length1 <= g.Length1
    requires forall i, j | 0 <= i < g.Length0 && 0 <= j < g.Length1 ::
      g[i, j] == if z2.x - z.x <= i < z2.x - z.x + src.Length0 && z2.y - z.y <= j < z2.y - z.y + src.Length1
        then src[i - (z2.x - z.x), j - (z2.y - z.y)] else ' '
    ensures forall q :: CellAt(g, z2, q) == CellAt(src, z, q)
  {
  }

  /**
   * The regrown grid of ExpandGrid for a point outside the cells: the old
   * cells shifted by how far the box grew to the left and up, blanks around.
   */
  method Grown(src: array2<char>, z: IntPoint, p: IntPoint) returns (g: array2<char>, z2: IntPoint)
    requires src.Length0 != 0 || src.Length1 != 0
    requires !InRect(Rect(-z.x, -z.y, src.Length0, src.Length1), p)
    ensures fresh(g)
    ensures Rect(-z2.x, -z2.y, g.Length0, g.Length1) == ExpandedRect(Rect(-z.x, -z.y, src.Length0, src.Length1), p)
    ensures forall q :: CellAt(g, z2, q) == CellAt(src, z, q)
  {
    var b := Rect(-z.x, -z.y, src.Length0, src.Length1);
    var lo := IntPoint(Min(p.x, b.x), Min(p.y, b.y));
    var hi := IntPoint(Max(p.x + 1, b.x + b.w), Max(p.y + 1, b.y + b.h));
    z2 := IntPoint(z.x + (b.x - lo.x), z.y + (b.y - lo.y));
    g := Regrown(src, b.x - lo.x, b.y - lo.y, hi.x - lo.x, hi.y - lo.y);
    RegrownKeepsCells(src, z, g, z2);
  }

  /** The cells lo..hi of `src`, as a fresh grid. */
  method Crop(src: array2<char>, lo: IntPoint, hi: IntPoint) returns (g: array2<char>)
    requires 0 <= lo.x <= hi.x < src.Length0 && 0 <= lo.y <= hi.y < src.Length1
    ensures fresh(g) && g.Length0 == hi.x - lo.x + 1 && g.Length1 == hi.y - lo.y + 1
    ensures forall i, j | 0 <= i < g.Length0 && 0 <= j < g.Length1 :: g[i, j] == src[i + lo.x, j + lo.y]
  {
    g := new char[hi.x - lo.x + 1, hi.y - lo.y + 1];
    for x := 0 to g.Length0
      invariant forall i, j | 0 <= i < x && 0 <= j < g.Length1 :: g[i, j] == src[i + lo.x, j + lo.y]
    {
      for y := 0 to g.Length1
        invariant forall i, j | 0 <= i < x && 0 <= j < g.Length1 :: g[i, j] == src[i + lo.x, j + lo.y]
        invariant forall j | 0 <= j < y :: g[x, j] == src[x + lo.x, j + lo.y]
      {
        g[x, y] := src[x + lo.x, y + lo.y];
      }
    }
  }

  /**
   * What NonBlankBox knows between columns: before the first non-blank cell
   * the bounds are still the initial ones; after it they lie in the grid and
   * each of the four edges passes through a non-blank cell.
   */
  ghost predicate Framing(g: array2<char>, found: bool, lo: IntPoint, hi: IntPoint, left: IntPoint, right: IntPoint, top: IntPoint, bottom: IntPoint)
    reads g
  {
    && (!found ==> lo == IntPoint(Int32Max, Int32Max) && hi == IntPoint(0, 0))
    && (found ==> 0 <= lo.x <= hi.x < g.Length0 && 0 <= lo.y <= hi.y < g.Length1)
    && (found ==> left.x == lo.x && lo.y <= left.y <= hi.y && 0 <= left.y < g.Length1 && g[left.x, left.y] != ' ')
    && (found ==> right.x == hi.x && lo.y <= right.y <= hi.y && 0 <= right.y < g.Length1 && g[right.x, right.y] != ' ')
    && (found ==> top.y == lo.y && lo.x <= top.x <= hi.x && 0 <= top.x < g.Length0 && g[top.x, top.y] != ' ')
    && (found ==> bottom.y == hi.y && lo.x <= bottom.x <= hi.x && 0 <= bottom.x < g.Length0 && g[bottom.x, bottom.y] != ' ')
  }

  /** Every cell of the columns before x is blank. */
  ghost predicate BlankBefore(g: array2<char>, x: int)
    reads g
  {
    x <= g.Length0 && forall i, j | 0 <= i < x && 0 <= j < g.Length1 :: g[i, j] == ' '
  }

  /** Every non-blank cell of the columns before x lies within lo..hi. */
  ghost predicate BoxedBefore(g: array2<char>, x: int, lo: IntPoint, hi: IntPoint)
    reads g
  {
    x <= g.Length0 && forall i, j | 0 <= i < x && 0 <= j < g.Length1 && g[i, j] != ' ' :: lo.x <= i <= hi.x && lo.y <= j <= hi.y
  }

  /** The inner loop of NonBlankBox: column x widens the bounds to its non-blank cells. */
  method ScanColumn(g: array2<char>, x: nat, lo0: IntPoint, hi0: IntPoint, ghost found0: bool,
                    ghost left0: IntPoint, ghost right0: IntPoint, ghost top0: IntPoint, ghost bottom0: IntPoint)
    returns (lo: IntPoint, hi: IntPoint, ghost found: bool,
             ghost left: IntPoint, ghost right: IntPoint, ghost top: IntPoint, ghost bottom: IntPoint)
    requires x < g.Length0 && g.Length0 <= Int32Max && g.Length1 <= Int32Max
    requires Framing(g, found0, lo0, hi0, left0, right0, top0, bottom0)
    requires !found0 ==> BlankBefore(g, x)
    requires BoxedBefore(g, x, lo0, hi0)
    ensures Framing(g, found, lo, hi, left, right, top, bottom)
    ensures !found ==> BlankBefore(g, x + 1)
    ensures BoxedBefore(g, x + 1, lo, hi)
  {
    lo, hi, found, left, right, top, bottom := lo0, hi0, found0, left0, right0, top0, bottom0;
    for y := 0 to g.Length1
      invariant Framing(g, found, lo, hi, left, right, top, bottom)
      invariant !found ==> BlankBefore(g, x) && forall j | 0 <= j < y :: g[x, j] == ' '
      invariant BoxedBefore(g, x, lo, hi)
      invariant forall j | 0 <= j < y && g[x, j] != ' ' :: lo.x <= x <= hi.x && lo.y <= j <= hi.y
    {
      if g[x, y] != ' ' {
        lo, hi, found, left, right, top, bottom := Widen(g, x, y, lo, hi, found, left, right, top, bottom);
      }
    }
  }

  /** One non-blank cell (x, y): each bound that it lies beyond moves to it. */
  method Widen(g: array2<char>, x: nat, y: nat, lo0: IntPoint, hi0: IntPoint, ghost found0: bool,
               ghost left0: IntPoint, ghost right0: IntPoint, ghost top0: IntPoint, ghost bottom0: IntPoint)
    returns (lo: IntPoint, hi: IntPoint, ghost found: bool,
             ghost left: IntPoint, ghost right: IntPoint, ghost top: IntPoint, ghost bottom: IntPoint)
    requires x < g.Length0 <= Int32Max && y < g.Length1 <= Int32Max && g[x, y] != ' '
    requires Framing(g, found0, lo0, hi0, left0, right0, top0, bottom0)
    ensures Framing(g, found, lo, hi, left, right, top, bottom) && found
    ensures lo.x <= x <= hi.x && lo.y <= y <= hi.y
    ensures lo.x <= lo0.x && lo.y <= lo0.y && hi.x >= hi0.x && hi.y >= hi0.y
  {
    lo, hi, found, left, right, top, bottom := lo0, hi0, found0, left0, right0, top0, bottom0;
    if !found {
      left, right, top, bottom := IntPoint(x, y), IntPoint(x, y), IntPoint(x, y), IntPoint(x, y);
    }
    if x < lo.x { lo := IntPoint(x, lo.y); left := IntPoint(x, y); }
    if y < lo.y { lo := IntPoint(lo.x, y); top := IntPoint(x, y); }
    if x > hi.x { hi := IntPoint(x, hi.y); right := IntPoint(x, y); }
    if y > hi.y { hi := IntPoint(hi.x, y); bottom := IntPoint(x, y); }
    found := true;
  }

  /**
   * ContractGrid's scan: the smallest and largest column and row holding a
   * non-blank cell, starting from (int.MaxValue, int.MaxValue) and (0, 0).
   */
  method NonBlankBox(g: array2<char>) returns (lo: IntPoint, hi: IntPoint)
    requires g.Length0 <= Int32Max && g.Length1 <= Int32Max
    ensures AllBlank(g) ==> lo.x > hi.x && lo.y > hi.y
    ensures !AllBlank(g) ==> 0 <= lo.x <= hi.x < g.Length0 && 0 <= lo.y <= hi.y < g.Length1 && TightBox(g, lo, hi)
    ensures forall i, j | 0 <= i < g.Length0 && 0 <= j < g.Length1 && g[i, j] != ' ' :: lo.x <= i <= hi.x && lo.y <= j <= hi.y
  {
    lo := IntPoint(Int32Max, Int32Max);
    hi := IntPoint(0, 0);
    ghost var found := false;
    ghost var left, right, top, bottom := IntPoint(0, 0), IntPoint(0, 0), IntPoint(0, 0), IntPoint(0, 0);
    for x := 0 to g.Length0
      invariant Framing(g, found, lo, hi, left, right, top, bottom)
      invariant !found ==> BlankBefore(g, x)
      invariant BoxedBefore(g, x, lo, hi)
    {
      lo, hi, found, left, right, top, bottom := ScanColumn(g, x, lo, hi, found, left, right, top, bottom);
    }
    if !AllBlank(g) {
      assert found;
      assert g[left.x, left.y] != ' ' && g[right.x, right.y] != ' ';
      assert g[top.x, top.y] != ' ' && g[bottom.x, bottom.y] != ' ';
    }
  }

  /** The smallest coordinates of a selection, from (int.MaxValue, int.MaxValue) on. */
  function LowCorner(sel: seq<IntPoint>): IntPoint {
    if |sel| == 0 then IntPoint(Int32Max, Int32Max)
    else
      var l, p := LowCorner(sel[..|sel| - 1]), sel[|sel| - 1];
      IntPoint(Min(p.x, l.x), Min(p.y, l.y))
  }

  /** The largest coordinates of a selection, from (-int.MaxValue, -int.MaxValue) on. */
  function HighCorner(sel: seq<IntPoint>): IntPoint {
    if |sel| == 0 then IntPoint(-Int32Max, -Int32Max)
    else
      var h, p := HighCorner(sel[..|sel| - 1]), sel[|sel| - 1];
      IntPoint(Max(p.x, h.x), Max(p.y, h.y))
  }

  /**
   * The smallest and largest coordinates of a selection, scanned from
   * (int.MaxValue, int.MaxValue) and (-int.MaxValue, -int.MaxValue).
   */
  method Corners(sel: seq<IntPoint>) returns (lo: IntPoint, hi: IntPoint)
    requires forall i | 0 <= i < |sel| :: sel[i].x <= Int32Max && sel[i].y <= Int32Max
    ensures lo == LowCorner(sel) && hi == HighCorner(sel)
    ensures forall q | q in sel :: lo.x <= q.x <= hi.x && lo.y <= q.y <= hi.y
    ensures |sel| > 0 ==> (exists q | q in sel :: q.x == lo.x) && (exists q | q in sel :: q.y == lo.y)
  {
    lo := IntPoint(Int32Max, Int32Max);
    hi := IntPoint(-Int32Max, -Int32Max);
    ghost var left, top := 0, 0;
    for i := 0 to |sel|
      invariant forall j | 0 <= j < i :: lo.x <= sel[j].x <= hi.x && lo.y <= sel[j].y <= hi.y
      invariant i == 0 ==> lo == IntPoint(Int32Max, Int32Max)
      invariant lo == LowCorner(sel[..i]) && hi == HighCorner(sel[..i])
      invariant i > 0 ==> 0 <= left < i && 0 <= top < i && sel[left].x == lo.x && sel[top].y == lo.y
    {
      var p := sel[i];
      if i == 0 {
        left, top := 0, 0;
      }
      if p.x < lo.x { lo := IntPoint(p.x, lo.y); left := i; }
      if p.y < lo.y { lo := IntPoint(lo.x, p.y); top := i; }
      if p.x > hi.x { hi := IntPoint(p.x, hi.y); }
      if p.y > hi.y { hi := IntPoint(hi.x, p.y); }
      assert sel[..i + 1][..i] == sel[..i];
    }
    assert sel[..|sel|] == sel;
    if |sel| > 0 {
      assert sel[left] in sel && sel[top] in sel;
    }
  }

  // ---------------------------------------------------------------------------
  // The control

  /** The character of grid `g` at world cell p when world + zero gives the index; blank outside. */
  function CellAt(g: array2<char>, zero: IntPoint, p: IntPoint): char
    reads g
  {
    if InRect(Rect(-zero.x, -zero.y, g.Length0, g.Length1), p) then g[p.x + zero.x, p.y + zero.y] else ' '
  }

  function GridRow(g: array2<char>, y: int): (r: string)
    requires 0 <= y < g.Length1
    reads g
    ensures |r| == g.Length0
  {
    seq(g.Length0, x requires 0 <= x < g.Length0 reads g => g[x, y])
  }

  function GridRows(g: array2<char>): (r: seq<string>)
    reads g
    ensures |r| == g.Length1
  {
    seq(g.Length1, y requires 0 <= y < g.Length1 reads g => GridRow(g, y))
  }

  /**
   * The buffer of one ASCII-art control: the grid, the item's zero point and
   * text, and the selected world cells. A grid not yet built is the 0-by-0 grid.
   */
  class AsciiGrid {
    var grid: array2<char>
    var zero: IntPoint
    var value: string
    var selected: seq<IntPoint>

    /** A fresh control over an item: no grid yet, cell (0, 0) selected. */
    constructor(value: string, zero: IntPoint)
      ensures this.value == value && this.zero == zero
      ensures grid.Length0 == 0 && grid.Length1 == 0
      ensures selected == [IntPoint(0, 0)]
    {
      grid := new char[0, 0];
      this.zero := zero;
      this.value := value;
      selected := [IntPoint(0, 0)];
    }

    /** The world rectangle the grid covers: from -zero, one cell per grid cell. */
    function Bounds(): Rect
      reads this
    {
      Rect(-zero.x, -zero.y, grid.Length0, grid.Length1)
    }

    /** The character at a world cell; blank outside the grid. */
    function CharAt(p: IntPoint): char
      reads this, grid
    {
      CellAt(grid, zero, p)
    }

    /** The grid row by row, top to bottom. */
    function Rows(): (r: seq<string>)
      reads this, grid
      ensures |r| == grid.Length1
    {
      GridRows(grid)
    }

    /**
     * Rebuilds the grid from the item's text: one row per line, as wide as
     * the first line, short lines padded with blanks and long ones cut.
     */
    method UpdateGrid()
      modifies this
      ensures fresh(grid)
      ensures zero == old(zero) && value == old(value) && selected == old(selected)
      ensures grid.Length0 == LineWidth(GridLines(value)) && grid.Length1 == |GridLines(value)|
      ensures Rows() == TextRows(GridLines(value))
    {
      var lines := GridLines(value);
      var g := new char[LineWidth(lines), |lines|];
      for x := 0 to g.Length0
        modifies g
        invariant forall i, j | 0 <= i < x && 0 <= j < g.Length1 :: g[i, j] == TextCell(lines, i, j)
      {
        for y := 0 to g.Length1
          modifies g
          invariant forall i, j | 0 <= i < x && 0 <= j < g.Length1 :: g[i, j] == TextCell(lines, i, j)
          invariant forall j | 0 <= j < y :: g[x, j] == TextCell(lines, x, j)
        {
          var line := lines[y];
          if |line| > x {
            g[x, y] := line[x];
          } else {
            g[x, y] := ' ';
          }
        }
      }
      grid := g;
      forall y | 0 <= y < grid.Length1
        ensures GridRow(grid, y) == TextRows(lines)[y]
      {
        assert forall x | 0 <= x < grid.Length0 :: GridRow(grid, y)[x] == TextCell(lines, x, y);
      }
    }

    /** Writes the grid back to the item's text: the rows joined by line breaks. */
    method UpdateSrcGrid()
      modifies this
      ensures grid == old(grid) && zero == old(zero) && selected == old(selected)
      ensures value == Join("\n", Rows())
    {
      var g := grid;
      ghost var rows := Rows();
      assert forall y, x | 0 <= y < g.Length1 && 0 <= x < g.Length0 :: rows[y][x] == g[x, y];
      var s := "";
      for y := 0 to g.Length1
        modifies {}
        invariant s == Written(rows, y)
      {
        for x := 0 to g.Length0
          modifies {}
          invariant s == Written(rows, y) + rows[y][..x]
        {
          assert rows[y][..x + 1] == rows[y][..x] + [g[x, y]];
          s := s + [g[x, y]];
        }
        assert rows[y][..g.Length0] == rows[y];
        if y < g.Length1 - 1 {
          s := s + "\n";
        }
        WrittenStep(rows, y);
      }
      WrittenAll(rows);
      value := s;
    }

    /** Blanks the world cell p when the grid covers it. */
    method Delete(p: IntPoint)
      modifies grid
      ensures forall q :: CharAt(q) == if q == p then ' ' else old(CharAt(q))
    {
      var b := Bounds();
      if InRect(b, p) {
        grid[p.x + zero.x, p.y + zero.y] := ' ';
      }
    }

    /**
     * Grows the grid to cover the world cell p. Every world cell keeps its
     * character and the new cells are blank; the text is rewritten when the
     * grid had cells and p lay outside them.
     */
    method ExpandGrid(p: IntPoint)
      modifies this
      ensures Bounds() == ExpandedRect(old(Bounds()), p)
      ensures forall q :: CharAt(q) == old(CharAt(q))
      ensures selected == old(selected)
      ensures grid == old(grid) || fresh(grid)
      ensures old(InRect(Bounds(), p)) ==> grid == old(grid) && zero == old(zero) && value == old(value)
      ensures old(grid.Length0 == 0 && grid.Length1 == 0) ==> value == old(value)
      ensures old(grid.Length0 != 0 || grid.Length1 != 0) && !old(InRect(Bounds(), p)) ==> value == Join("\n", Rows())
    {
      if grid.Length0 == 0 && grid.Length1 == 0 {
        var g := new char[1, 1];
        g[0, 0] := ' ';
        grid := g;
        zero := IntPoint(-p.x, -p.y);
        return;
      }
      var b := Bounds();
      if InRect(b, p) {
        return;
      }
      var g, z := Grown(grid, zero, p);
      grid, zero := g, z;
      UpdateSrcGrid();
    }

    /**
     * Shrinks the grid to the box of its non-blank cells, or to 0-by-0 with
     * zero point (0, 0) when every cell is blank. Every world cell keeps its
     * character; the text is left as it is.
     */
    method ContractGrid()
      requires grid.Length0 <= Int32Max && grid.Length1 <= Int32Max
      modifies this
      ensures forall q :: CharAt(q) == old(CharAt(q))
      ensures old(AllBlank(grid)) ==> grid.Length0 == 0 && grid.Length1 == 0 && zero == IntPoint(0, 0)
      ensures !old(AllBlank(grid)) ==>
        grid.Length0 >= 1 && grid.Length1 >= 1 && TightBox(grid, IntPoint(0, 0), IntPoint(grid.Length0 - 1, grid.Length1 - 1))
      ensures fresh(grid)
      ensures value == old(value) && selected == old(selected)
    {
      var lo, hi := NonBlankBox(grid);
      if lo.x > hi.x && lo.y > hi.y {
        zero := IntPoint(0, 0);
        grid := new char[0, 0];
        return;
      }
      var g, z := CropToBox(grid, zero, lo, hi);
      grid, zero := g, z;
    }

    /** Moves every selected point by (dx, dy), in place. */
    method ShiftSelection(dx: int, dy: int)
      modifies this
      ensures selected == Shifted(old(selected), dx, dy)
      ensures grid == old(grid) && zero == old(zero) && value == old(value)
    {
      ghost var sel := selected;
      for i := 0 to |selected|
        invariant |selected| == |sel|
        invariant forall j | 0 <= j < i :: selected[j] == IntPoint(sel[j].x + dx, sel[j].y + dy)
        invariant forall j | i <= j < |sel| :: selected[j] == sel[j]
        invariant grid == old(grid) && zero == old(zero) && value == old(value)
      {
        selected := selected[i := IntPoint(selected[i].x + dx, selected[i].y + dy)];
      }
      assert selected == Shifted(sel, dx, dy);
    }

    /**
     * An arrow key: the selection moves one cell. `ok` is false when the
     * selection is empty, where the scroll check that follows throws.
     */
    method ArrowKey(a: Arrow) returns (ok: bool)
      modifies this
      ensures selected == Shifted(old(selected), Offset(a).x, Offset(a).y)
      ensures grid == old(grid) && zero == old(zero) && value == old(value)
      ensures ok == (|selected| > 0)
    {
      var d := Offset(a);
      ShiftSelection(d.x, d.y);
      ok := |selected| > 0;
    }

    /**
     * The Delete key: blanks every selected cell, shrinks the grid to what is
     * left, writes the text back and moves the selection one cell right. `ok`
     * is false when the selection is empty, where the scroll check throws
     * after the grid has been rewritten.
     */
    method DeleteKey() returns (ok: bool)
      requires grid.Length0 <= Int32Max && grid.Length1 <= Int32Max
      modifies this, grid
      ensures forall q :: CharAt(q) == if q in old(selected) then ' ' else old(CharAt(q))
      ensures (grid.Length0 == 0 && grid.Length1 == 0 && zero == IntPoint(0, 0)) ||
        (grid.Length0 >= 1 && grid.Length1 >= 1 && TightBox(grid, IntPoint(0, 0), IntPoint(grid.Length0 - 1, grid.Length1 - 1)))
      ensures value == Join("\n", Rows())
      ensures selected == Shifted(old(selected), 1, 0)
      ensures ok == (|old(selected)| > 0)
    {
      for i := 0 to |selected|
        invariant selected == old(selected) && grid == old(grid) && zero == old(zero)
        invariant forall q :: CharAt(q) == if q in selected[..i] then ' ' else old(CharAt(q))
      {
        assert selected[..i + 1] == selected[..i] + [selected[i]];
        Delete(selected[i]);
      }
      assert selected[..|selected|] == selected;
      ContractGrid();
      UpdateSrcGrid();
      ShiftSelection(1, 0);
      ok := |selected| > 0;
    }

    /**
     * Typing: for input that is not all white space, its first character is
     * written into every selected cell after the grid has grown to cover the
     * selection's smallest and largest corner; the text is written back and
     * the selection moves one cell right. With nothing selected `ok` is
     * false and nothing changes; there the source grows the grid towards
     * the int.MaxValue corners it starts from and fails.
     */
    method Type(raw: string) returns (ok: bool)
      requires forall i | 0 <= i < |selected| :: selected[i].x <= Int32Max && selected[i].y <= Int32Max
      modifies this, grid
      ensures !ok || IsBlank(raw) ==> grid == old(grid) && zero == old(zero) && value == old(value) && selected == old(selected)
      ensures !ok || IsBlank(raw) ==> forall q :: CharAt(q) == old(CharAt(q))
      ensures ok == (IsBlank(raw) || |old(selected)| > 0)
      ensures ok && !IsBlank(raw) ==> forall q :: CharAt(q) == if q in old(selected) then raw[0] else old(CharAt(q))
      ensures ok && !IsBlank(raw) ==> forall q | q in old(selected) :: InRect(Bounds(), q)
      ensures ok && !IsBlank(raw) ==> Bounds() == ExpandedRect(ExpandedRect(old(Bounds()), LowCorner(old(selected))), HighCorner(old(selected)))
      ensures ok && !IsBlank(raw) ==> value == Join("\n", Rows()) && selected == Shifted(old(selected), 1, 0)
    {
      if IsBlank(raw) {
        return true;
      }
      if |selected| == 0 {
        return false;
      }
      CoverSelection();
      WriteSelected(raw[0]);
      UpdateSrcGrid();
      ShiftSelection(1, 0);
      ok := true;
    }

    /** Grows the grid to the selection's smallest and largest corner, so that it covers every selected cell. */
    method CoverSelection()
      requires forall i | 0 <= i < |selected| :: selected[i].x <= Int32Max && selected[i].y <= Int32Max
      modifies this
      ensures forall q | q in selected :: InRect(Bounds(), q)
      ensures Bounds() == ExpandedRect(ExpandedRect(old(Bounds()), LowCorner(selected)), HighCorner(selected))
      ensures forall q :: CharAt(q) == old(CharAt(q))
      ensures selected == old(selected)
      ensures grid == old(grid) || fresh(grid)
    {
      var lo, hi := Corners(selected);
      ExpandGrid(lo);
      ExpandGrid(hi);
      forall q | q in selected
        ensures InRect(Bounds(), q)
      {
        BetweenCorners(Bounds(), lo, hi, q);
      }
    }

    /** Writes `key` into every selected cell; the grid must cover them all. */
    method WriteSelected(key: char)
      requires forall q | q in selected :: InRect(Bounds(), q)
      modifies grid
      ensures forall q :: CharAt(q) == if q in selected then key else old(CharAt(q))
    {
      for i := 0 to |selected|
        invariant forall q :: CharAt(q) == if q in selected[..i] then key else old(CharAt(q))
      {
        var p := selected[i];
        assert p in selected;
        assert selected[..i + 1] == selected[..i] + [p];
        grid[p.x + zero.x, p.y + zero.y] := key;
      }
      assert selected[..|selected|] == selected;
    }

    /** A left click on world cell p, with or without Ctrl held. */
    method Click(p: IntPoint, ctrl: bool)
      modifies this
      ensures selected == Clicked(old(selected), p, ctrl)
      ensures grid == old(grid) && zero == old(zero) && value == old(value)
    {
      if !ctrl {
        selected := [p];
      } else if p in selected {
        selected := RemoveFirst(selected, p);
      } else {
        selected := selected + [p];
      }
    }

    /** Dragging a marquee from cell `start` to cell `cur` selects the box between them. */
    method Marquee(start: IntPoint, cur: IntPoint)
      modifies this
      ensures selected == Box(IntPoint(Min(start.x, cur.x), Min(start.y, cur.y)), IntPoint(Max(start.x, cur.x), Max(start.y, cur.y)))
      ensures grid == old(grid) && zero == old(zero) && value == old(value)
    {
      var lo := IntPoint(Min(start.x, cur.x), Min(start.y, cur.y));
      var hi := IntPoint(Max(start.x, cur.x), Max(start.y, cur.y));
      selected := [];
      for x := lo.x to hi.x + 1
        invariant selected == Box(lo, IntPoint(x - 1, hi.y))
        invariant grid == old(grid) && zero == old(zero) && value == old(value)
      {
        for y := lo.y to hi.y + 1
          invariant selected == Box(lo, IntPoint(x - 1, hi.y)) + Column(x, lo.y, y - 1)
          invariant grid == old(grid) && zero == old(zero) && value == old(value)
        {
          ColumnSnoc(x, lo.y, y);
          selected := selected + [IntPoint(x, y)];
        }
      }
    }
  }
}
