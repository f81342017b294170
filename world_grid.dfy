/** The 2D grid of cell-type ids (WorldGrid.hpp): `width * height` cells stored
    row by row, top to bottom, so that cell (x, y) sits at index x + y*width. */
module Grid {
  import opened Wrappers
  import opened Decimal
  import opened Position

  /** One entry of the world's cell-type table (Data.hpp); only the fields the
      grid and the world registry use. */
  datatype CellType = CellType(name: string, desc: string, symbol: char)

  /** WorldGrid::ToIndex for a grid of the given width. */
  function Idx(x: nat, y: nat, w: nat): nat { x + y * w }

  /** Row-major indexing is a bijection between the in-range coordinates and
      the indices 0 .. w*h-1. */
  lemma {:induction false} IdxBijection(w: nat, h: nat)
    ensures forall x: nat, y: nat :: x < w && y < h ==> Idx(x, y, w) < w * h
    ensures forall x1: nat, y1: nat, x2: nat, y2: nat ::
      x1 < w && x2 < w && Idx(x1, y1, w) == Idx(x2, y2, w) ==> x1 == x2 && y1 == y2
    ensures forall i: nat :: i < w * h ==> w > 0 && Col(i, w) < w && Row(i, w) < h && Idx(Col(i, w), Row(i, w), w) == i
  {
    forall x: nat, y: nat | x < w && y < h ensures Idx(x, y, w) < w * h {
      IdxBound(x, y, w, h);
    }
    forall x1: nat, y1: nat, x2: nat, y2: nat | x1 < w && x2 < w && Idx(x1, y1, w) == Idx(x2, y2, w)
      ensures x1 == x2 && y1 == y2
    {
      IdxInjective(x1, y1, x2, y2, w);
    }
    forall i: nat | i < w * h ensures w > 0 && Col(i, w) < w && Row(i, w) < h && Idx(Col(i, w), Row(i, w), w) == i {
      IdxCovers(i, w, h);
    }
  }

  /** The column and the row of index i in a grid of width w. */
  function Col(i: nat, w: nat): nat requires w > 0 { i % w }
  function Row(i: nat, w: nat): nat requires w > 0 { i / w }

  lemma IdxBound(x: nat, y: nat, w: nat, h: nat)
    requires x < w && y < h
    ensures Idx(x, y, w) < w * h
  {
    assert y * w <= (h - 1) * w by { MulLe(y, h - 1, w); }
    assert (h - 1) * w + w == h * w;
  }

  lemma MulLe(a: nat, b: nat, c: nat)
    requires a <= b
    ensures a * c <= b * c
  {
  }

  lemma IdxInjective(x1: nat, y1: nat, x2: nat, y2: nat, w: nat)
    requires x1 < w && x2 < w && Idx(x1, y1, w) == Idx(x2, y2, w)
    ensures x1 == x2 && y1 == y2
  {
    IdxDivMod(x1, y1, w);
    IdxDivMod(x2, y2, w);
  }

  /** Division by the width recovers the coordinates of an index. */
  lemma IdxDivMod(x: nat, y: nat, w: nat)
    requires x < w
    ensures Idx(x, y, w) / w == y && Idx(x, y, w) % w == x
  {
    var i := Idx(x, y, w);
    var q := i / w;
    assert i == q * w + i % w;
    MulStep(q, y, w);
    MulStep(y, q, w);
  }

  lemma MulStep(a: int, b: int, c: int)
    requires c > 0
    ensures a < b ==> a * c + c <= b * c
  {
    if a < b {
      var d := b - a;
      assert d >= 1;
      assert d * c >= 1 * c by { MulLe(1, d, c); }
      assert b * c == a * c + d * c;
    }
  }

  lemma IdxCovers(i: nat, w: nat, h: nat)
    requires i < w * h
    ensures w > 0 && i % w < w && i / w < h && Idx(i % w, i / w, w) == i
  {
    if w > 0 {
      var q := i / w;
      assert i == q * w + i % w;
      if q >= h {
        MulLe(h, q, w);
      }
    }
  }

  // ---------------------------------------------------------------------
  // Resize

  /** The cell at (x, y) after resizing a w-by-h grid: the old cell where the
      two grids overlap, the default type elsewhere. */
  function ResizedCell(cells: seq<nat>, w: nat, h: nat, d: nat, x: nat, y: nat): nat
    requires |cells| == w * h
  {
    if x < w && y < h then IdxBound(x, y, w, h); cells[Idx(x, y, w)] else d
  }

  /** All cells of the grid after WorldGrid::Resize, in row-major order. */
  function Resized(cells: seq<nat>, w: nat, h: nat, nw: nat, nh: nat, d: nat): (r: seq<nat>)
    requires |cells| == w * h
    ensures |r| == nw * nh
  {
    seq(nw * nh, i requires 0 <= i < nw * nh =>
      IdxCovers(i, nw, nh); ResizedCell(cells, w, h, d, i % nw, i / nw))
  }

  /** The new cells of a resize in progress: columns before x, and the first y
      cells of column x, hold their final value; every other cell still holds
      the default. */
  ghost predicate Filled(nc: seq<nat>, cells: seq<nat>, w: nat, h: nat, nw: nat, nh: nat, d: nat, x: nat, y: nat)
    requires |cells| == w * h
  {
    |nc| == nw * nh &&
    forall xx: nat, yy: nat :: xx < nw && yy < nh ==>
      Idx(xx, yy, nw) < |nc| &&
      nc[Idx(xx, yy, nw)] == (if xx < x || (xx == x && yy < y) then ResizedCell(cells, w, h, d, xx, yy) else d)
  }

  lemma FilledStart(cells: seq<nat>, w: nat, h: nat, nw: nat, nh: nat, d: nat)
    requires |cells| == w * h
    ensures Filled(seq(nw * nh, _ => d), cells, w, h, nw, nh, d, 0, 0)
  {
    forall xx: nat, yy: nat | xx < nw && yy < nh ensures Idx(xx, yy, nw) < nw * nh {
      IdxBound(xx, yy, nw, nh);
    }
  }

  /** Copying cell (x, y) of the overlap extends the filled part by one cell. */
  lemma FilledStep(nc: seq<nat>, cells: seq<nat>, w: nat, h: nat, nw: nat, nh: nat, d: nat, x: nat, y: nat)
    requires |cells| == w * h
    requires x < w && x < nw && y < h && y < nh
    requires Filled(nc, cells, w, h, nw, nh, d, x, y)
    ensures Idx(x, y, nw) < |nc| && Idx(x, y, w) < |cells|
    ensures Filled(nc[Idx(x, y, nw) := cells[Idx(x, y, w)]], cells, w, h, nw, nh, d, x, y + 1)
  {
    IdxBound(x, y, nw, nh);
    IdxBound(x, y, w, h);
    var nc' := nc[Idx(x, y, nw) := cells[Idx(x, y, w)]];
    forall xx: nat, yy: nat | xx < nw && yy < nh
      ensures Idx(xx, yy, nw) < |nc'| &&
        nc'[Idx(xx, yy, nw)] == (if xx < x || (xx == x && yy < y + 1) then ResizedCell(cells, w, h, d, xx, yy) else d)
    {
      if (xx, yy) != (x, y) {
        if Idx(xx, yy, nw) == Idx(x, y, nw) {
          IdxInjective(xx, yy, x, y, nw);
        }
      }
    }
  }

  /** A column filled down to the overlap's height is filled entirely. */
  lemma FilledColumn(nc: seq<nat>, cells: seq<nat>, w: nat, h: nat, nw: nat, nh: nat, d: nat, x: nat, mh: nat)
    requires |cells| == w * h
    requires mh == if h < nh then h else nh
    requires Filled(nc, cells, w, h, nw, nh, d, x, mh)
    ensures Filled(nc, cells, w, h, nw, nh, d, x + 1, 0)
  {
  }

  /** Once every column of the overlap is copied, the cells are those of Resized. */
  lemma FilledAll(nc: seq<nat>, cells: seq<nat>, w: nat, h: nat, nw: nat, nh: nat, d: nat, mw: nat)
    requires |cells| == w * h
    requires mw == if w < nw then w else nw
    requires Filled(nc, cells, w, h, nw, nh, d, mw, 0)
    ensures nc == Resized(cells, w, h, nw, nh, d)
  {
    var expected := Resized(cells, w, h, nw, nh, d);
    forall i | 0 <= i < |nc| ensures nc[i] == expected[i] {
      FilledAt(nc, cells, w, h, nw, nh, d, mw, i);
    }
  }

  lemma FilledAt(nc: seq<nat>, cells: seq<nat>, w: nat, h: nat, nw: nat, nh: nat, d: nat, mw: nat, i: nat)
    requires |cells| == w * h
    requires mw == if w < nw then w else nw
    requires Filled(nc, cells, w, h, nw, nh, d, mw, 0)
    requires i < |nc|
    ensures i < nw * nh && nc[i] == Resized(cells, w, h, nw, nh, d)[i]
  {
    IdxCovers(i, nw, nh);
    var x := i % nw;
    var y := i / nw;
    assert nc[Idx(x, y, nw)] == if x < mw then ResizedCell(cells, w, h, d, x, y) else d;
    assert Resized(cells, w, h, nw, nh, d)[i] == ResizedCell(cells, w, h, d, x, y);
  }

  /** Resize keeps every cell inside both the old and the new bounds and fills
      the rest of the new grid with the default type. */
  lemma ResizedAt(cells: seq<nat>, w: nat, h: nat, nw: nat, nh: nat, d: nat, x: nat, y: nat)
    requires |cells| == w * h
    requires x < nw && y < nh
    ensures Idx(x, y, nw) < nw * nh
    ensures x < w && y < h ==> Idx(x, y, w) < |cells|
    ensures Resized(cells, w, h, nw, nh, d)[Idx(x, y, nw)] ==
      if x < w && y < h then cells[Idx(x, y, w)] else d
  {
    IdxBound(x, y, nw, nh);
    IdxDivMod(x, y, nw);
    if x < w && y < h {
      IdxBound(x, y, w, h);
    }
  }

  /** Resizing to the current dimensions changes nothing. */
  lemma {:induction false} ResizedSameSize(cells: seq<nat>, w: nat, h: nat, d: nat)
    requires |cells| == w * h
    ensures Resized(cells, w, h, w, h, d) == cells
  {
    var r := Resized(cells, w, h, w, h, d);
    forall i | 0 <= i < |cells| ensures r[i] == cells[i] {
      IdxCovers(i, w, h);
      ResizedAt(cells, w, h, w, h, d, i % w, i / w);
    }
  }

  /** Growing a grid and then shrinking it back restores it. */
  lemma {:induction false} ResizedGrowShrink(cells: seq<nat>, w: nat, h: nat, nw: nat, nh: nat, d: nat, d2: nat)
    requires |cells| == w * h
    requires w <= nw && h <= nh
    ensures Resized(Resized(cells, w, h, nw, nh, d), nw, nh, w, h, d2) == cells
  {
    var big := Resized(cells, w, h, nw, nh, d);
    var r := Resized(big, nw, nh, w, h, d2);
    forall i | 0 <= i < |cells| ensures r[i] == cells[i] {
      IdxCovers(i, w, h);
      var x, y := i % w, i / w;
      ResizedAt(big, nw, nh, w, h, d2, x, y);
      ResizedAt(cells, w, h, nw, nh, d, x, y);
    }
  }

  // ---------------------------------------------------------------------
  // Serialize / Deserialize

  /** The cell values as Serialize_impl writes them, each after one space. */
  function CellsText(cells: seq<nat>): string
  {
    if cells == [] then "" else " " + NatToString(cells[0]) + CellsText(cells[1..])
  }

  lemma {:induction false} CellsTextSnoc(cells: seq<nat>, c: nat)
    ensures CellsText(cells + [c]) == CellsText(cells) + " " + NatToString(c)
  {
    if cells != [] {
      assert (cells + [c])[1..] == cells[1..] + [c];
      CellsTextSnoc(cells[1..], c);
    }
  }

  /** WorldGrid::Serialize_impl: "width height", the cells, a newline. */
  function SerializeText(w: nat, h: nat, cells: seq<nat>): string
  {
    NatToString(w) + " " + NatToString(h) + CellsText(cells) + "\n"
  }

  /** Reads n numbers with `is >> state`, or None when one extraction fails. */
  function ReadNats(s: string, n: nat): (r: Option<(seq<nat>, string)>)
    ensures r.Some? ==> |r.value.0| == n
  {
    if n == 0 then Some(([], s))
    else match ExtractNat(s)
      case None => None
      case Some((v, t)) =>
        match ReadNats(t, n - 1)
        case None => None
        case Some((vs, u)) => Some(([v] + vs, u))
  }

  /** The dimensions at the front of a serialised grid and the text after
      them; a cell count beyond a size_t is a failure. */
  function ParseHeader(s: string): (r: Option<(nat, nat, string)>)
    ensures r.Some? ==> r.value.0 * r.value.1 <= SIZE_MAX
  {
    match ExtractNat(s)
    case None => None
    case Some((w, t)) =>
      match ExtractNat(t)
      case None => None
      case Some((h, u)) => if w * h > SIZE_MAX then None else Some((w, h, u))
  }

  /** WorldGrid::Deserialize_impl on a stream that does not fail: width,
      height, then width*height cells. */
  function ParseGrid(s: string): (r: Option<(nat, nat, seq<nat>)>)
    ensures r.Some? ==> |r.value.2| == r.value.0 * r.value.1
  {
    match ParseHeader(s)
    case None => None
    case Some((w, h, u)) => WithSize(w, h, ReadNats(u, w * h))
  }

  /** The grid of the given dimensions holding the cells read, if any. */
  function WithSize(w: nat, h: nat, r: Option<(seq<nat>, string)>): (g: Option<(nat, nat, seq<nat>)>)
    requires r.Some? ==> |r.value.0| == w * h
    ensures g.Some? <==> r.Some?
    ensures g.Some? ==> g.value.0 == w && g.value.1 == h && |g.value.2| == w * h
  {
    match r
    case None => None
    case Some((vs, _)) => Some((w, h, vs))
  }

  /** Deserialize_impl reads back exactly what Serialize_impl wrote. */
  lemma SerializeRoundTrip(w: nat, h: nat, cells: seq<nat>, rest: string)
    requires |cells| == w * h && w <= SIZE_MAX && h <= SIZE_MAX && |cells| <= SIZE_MAX
    requires forall i :: 0 <= i < |cells| ==> cells[i] <= SIZE_MAX
    ensures ParseGrid(SerializeText(w, h, cells) + rest) == Some((w, h, cells))
  {
    var tail := CellsText(cells) + ("\n" + rest);
    assert SerializeText(w, h, cells) + rest == NatToString(w) + " " + NatToString(h) + tail;
    assert tail == [] || !IsDigit(tail[0]) by {
      if cells != [] { assert tail[0] == ' '; } else { assert tail[0] == '\n'; }
    }
    ParseGridHeader(w, h, tail);
    ReadNatsOfCellsText(cells, "\n" + rest);
  }

  lemma ParseGridHeader(w: nat, h: nat, tail: string)
    requires w <= SIZE_MAX && h <= SIZE_MAX
    requires tail == [] || !IsDigit(tail[0])
    ensures ParseGrid(NatToString(w) + " " + NatToString(h) + tail) ==
      if w * h > SIZE_MAX then None else WithSize(w, h, ReadNats(tail, w * h))
  {
    var t := " " + NatToString(h) + tail;
    assert NatToString(w) + " " + NatToString(h) + tail == NatToString(w) + t;
    ParseHeaderOfText(w, h, t, tail);
  }

  /** The dimensions written by to_string, separated by a blank, are read
      back by ParseHeader. */
  lemma ParseHeaderOfText(w: nat, h: nat, t: string, tail: string)
    requires w <= SIZE_MAX && h <= SIZE_MAX
    requires tail == [] || !IsDigit(tail[0])
    requires t == " " + NatToString(h) + tail
    ensures ParseHeader(NatToString(w) + t) == if w * h > SIZE_MAX then None else Some((w, h, tail))
  {
    ExtractNatOfNumeral(w, t);
    ExtractNatOfNatToString(" ", h, tail);
    HeaderOfFields(NatToString(w) + t, t, tail, w, h);
  }

  lemma HeaderOfFields(s: string, t: string, u: string, w: nat, h: nat)
    requires ExtractNat(s) == Some((w, t)) && ExtractNat(t) == Some((h, u))
    ensures ParseHeader(s) == if w * h > SIZE_MAX then None else Some((w, h, u))
  {
  }

  lemma {:induction false} ReadNatsOfCellsText(cells: seq<nat>, rest: string)
    requires forall i :: 0 <= i < |cells| ==> cells[i] <= SIZE_MAX
    requires rest == [] || !IsDigit(rest[0])
    ensures ReadNats(CellsText(cells) + rest, |cells|) == Some((cells, rest))
  {
    if cells != [] {
      var more := CellsText(cells[1..]) + rest;
      CellsTextHead(cells, rest);
      ReadNatsOfCellsText(cells[1..], rest);
      ReadNatsUnfold(CellsText(cells) + rest, |cells|, cells[0], more);
      assert Prepend([cells[0]], Some((cells[1..], rest))) == Some((cells, rest)) by {
        assert [cells[0]] + cells[1..] == cells;
      }
    } else {
      assert CellsText(cells) + rest == rest;
    }
  }

  /** The first extraction from the cell text reads the first cell. */
  lemma CellsTextHead(cells: seq<nat>, rest: string)
    requires cells != [] && cells[0] <= SIZE_MAX
    requires rest == [] || !IsDigit(rest[0])
    ensures ExtractNat(CellsText(cells) + rest) == Some((cells[0], CellsText(cells[1..]) + rest))
  {
    var more := CellsText(cells[1..]) + rest;
    CellsTextFirst(cells, rest);
    CellsTextStart(cells[1..], rest);
    ExtractNatOfNatToString(" ", cells[0], more);
  }

  /** The cell text opens with the first cell, after one blank. */
  lemma CellsTextFirst(cells: seq<nat>, rest: string)
    requires cells != []
    ensures CellsText(cells) + rest == " " + NatToString(cells[0]) + (CellsText(cells[1..]) + rest)
  {
  }

  /** The cell text followed by non-digit text does not start with a digit. */
  lemma CellsTextStart(cells: seq<nat>, rest: string)
    requires rest == [] || !IsDigit(rest[0])
    ensures CellsText(cells) + rest == [] || !IsDigit((CellsText(cells) + rest)[0])
  {
    if cells != [] {
      assert (CellsText(cells) + rest)[0] == ' ';
    }
  }

  /** Combines the numbers read so far with the result of reading the rest. */
  function Prepend(vals: seq<nat>, r: Option<(seq<nat>, string)>): Option<(seq<nat>, string)>
  {
    match r
    case None => None
    case Some((vs, u)) => Some((vals + vs, u))
  }

  // ---------------------------------------------------------------------
  // Write / Read (human-readable form: one symbol per cell, one line per row)

  /** Every cell names an entry of the type table. */
  predicate CellsInTable(cells: seq<nat>, types: seq<CellType>)
  {
    forall i :: 0 <= i < |cells| ==> cells[i] < |types|
  }

  /** The symbols of row y, as WorldGrid::Write prints them. */
  function RowSymbols(cells: seq<nat>, w: nat, y: nat, types: seq<CellType>): (r: string)
    requires (y + 1) * w <= |cells| && CellsInTable(cells, types)
    ensures |r| == w
    ensures SymbolsOnOneLine(types) ==> forall x :: 0 <= x < w ==> r[x] != '\n'
  {
    seq(w, x requires 0 <= x < w => types[cells[y * w + x]].symbol)
  }

  /** The text WorldGrid::Write produces for the first n rows. */
  function WriteText(cells: seq<nat>, w: nat, n: nat, types: seq<CellType>): (r: string)
    requires n * w <= |cells| && CellsInTable(cells, types)
    ensures r == [] || r[|r| - 1] == '\n'
  {
    if n == 0 then ""
    else WriteText(cells, w, n - 1, types) + RowSymbols(cells, w, n - 1, types) + "\n"
  }

  /** Length of the line at the front of s (the text std::getline returns). */
  function LineEnd(s: string): (k: nat)
    ensures k <= |s| && (k < |s| ==> s[k] == '\n')
  {
    LineEndFrom(s, 0)
  }

  /** Position of the first newline at or after i, or the end of s. */
  function LineEndFrom(s: string, i: nat): (k: nat)
    requires i <= |s|
    ensures i <= k <= |s| && (k < |s| ==> s[k] == '\n')
    decreases |s| - i
  {
    if i == |s| || s[i] == '\n' then i else LineEndFrom(s, i + 1)
  }

  /** The lines successive std::getline calls return: a final newline does
      not start another line, and an empty stream has none. */
  function Lines(s: string): seq<string>
    decreases |s|
  {
    if s == [] then []
    else
      var k := LineEnd(s);
      [s[..k]] + (if k < |s| then Lines(s[k + 1..]) else [])
  }

  lemma LineEndPrefix(a: string, b: string)
    requires LineEnd(a) < |a|
    ensures LineEnd(a + b) == LineEnd(a)
  {
    LineEndFromPrefix(a, b, 0);
  }

  lemma {:induction false} LineEndFromPrefix(a: string, b: string, i: nat)
    requires i <= |a| && LineEndFrom(a, i) < |a|
    ensures LineEndFrom(a + b, i) == LineEndFrom(a, i)
    decreases |a| - i
  {
    assert (a + b)[i] == a[i];
    if a[i] != '\n' {
      LineEndFromPrefix(a, b, i + 1);
    }
  }

  /** The line at the front ends no later than the first newline. */
  lemma LineEndBefore(s: string, j: nat)
    requires j < |s| && s[j] == '\n'
    ensures LineEnd(s) <= j
  {
    LineEndFromBefore(s, 0, j);
  }

  lemma {:induction false} LineEndFromBefore(s: string, i: nat, j: nat)
    requires i <= j < |s| && s[j] == '\n'
    ensures LineEndFrom(s, i) <= j
    decreases j - i
  {
    if s[i] != '\n' {
      LineEndFromBefore(s, i + 1, j);
    }
  }

  /** Splitting text that ends a line at the boundary splits its lines there. */
  lemma {:induction false} LinesConcat(a: string, b: string)
    requires a == [] || a[|a| - 1] == '\n'
    ensures Lines(a + b) == Lines(a) + Lines(b)
    decreases |a|
  {
    if a == [] {
      assert a + b == b;
    } else {
      var k := LineEnd(a);
      LineEndBefore(a, |a| - 1);
      LinesConcat(a[k + 1..], b);
      LinesConcatStep(a, b, k);
    }
  }

  /** The first line of a + b is that of a, when a holds a newline; the rest
      of a + b is the rest of a followed by b. */
  lemma LinesConcatStep(a: string, b: string, k: nat)
    requires k == LineEnd(a) < |a|
    requires Lines(a[k + 1..] + b) == Lines(a[k + 1..]) + Lines(b)
    ensures Lines(a + b) == Lines(a) + Lines(b)
  {
    LineEndPrefix(a, b);
    LinesCons(a, k);
    SplitAt(a, b, k);
    LinesCons(a + b, k);
    Associative([a[..k]], Lines(a[k + 1..]), Lines(b));
  }

  /** Cutting a + b around position k of a. */
  lemma SplitAt(a: string, b: string, k: nat)
    requires k < |a|
    ensures (a + b)[..k] == a[..k] && (a + b)[k + 1..] == a[k + 1..] + b
  {
  }

  lemma Associative<T>(x: seq<T>, y: seq<T>, z: seq<T>)
    ensures x + (y + z) == (x + y) + z
  {
  }

  /** A line ended by a newline, then the lines after it. */
  lemma LinesCons(s: string, k: nat)
    requires s != [] && k == LineEnd(s) < |s|
    ensures Lines(s) == [s[..k]] + Lines(s[k + 1..])
  {
  }

  lemma LinesOfOneLine(line: string)
    requires forall i :: 0 <= i < |line| ==> line[i] != '\n'
    ensures Lines(line + "\n") == [line]
  {
    var s := line + "\n";
    assert LineEnd(s) == |line| by {
      LineEndOfLine(line);
    }
    assert s[..|line|] == line;
    assert s[|line| + 1..] == [];
  }

  lemma LineEndOfLine(line: string)
    requires forall i :: 0 <= i < |line| ==> line[i] != '\n'
    ensures LineEnd(line + "\n") == |line|
  {
    LineEndFromLine(line, 0);
  }

  lemma {:induction false} LineEndFromLine(line: string, i: nat)
    requires i <= |line|
    requires forall i :: 0 <= i < |line| ==> line[i] != '\n'
    ensures LineEndFrom(line + "\n", i) == |line|
    decreases |line| - i
  {
    if i < |line| {
      assert (line + "\n")[i] == line[i];
      LineEndFromLine(line, i + 1);
    } else {
      assert (line + "\n")[i] == '\n';
    }
  }

  /** No symbol is a line break, so a row of symbols is one line. */
  predicate SymbolsOnOneLine(types: seq<CellType>)
  {
    forall i :: 0 <= i < |types| ==> types[i].symbol != '\n'
  }

  /** The rows of symbols of the first n rows. */
  function Rows(cells: seq<nat>, w: nat, n: nat, types: seq<CellType>): (r: seq<string>)
    requires n * w <= |cells| && CellsInTable(cells, types)
    ensures |r| == n && forall i :: 0 <= i < n ==> |r[i]| == w
  {
    if n == 0 then [] else Rows(cells, w, n - 1, types) + [RowSymbols(cells, w, n - 1, types)]
  }

  /** Write emits one line per row, each holding the width symbols of that row. */
  lemma {:induction false} WriteLines(cells: seq<nat>, w: nat, n: nat, types: seq<CellType>)
    requires n * w <= |cells| && CellsInTable(cells, types) && SymbolsOnOneLine(types)
    ensures Lines(WriteText(cells, w, n, types)) == Rows(cells, w, n, types)
  {
    if n > 0 {
      assert (n - 1) * w <= n * w by { MulLe(n - 1, n, w); }
      var prev := WriteText(cells, w, n - 1, types);
      var row := RowSymbols(cells, w, n - 1, types);
      assert WriteText(cells, w, n, types) == prev + (row + "\n");
      assert Lines(prev + (row + "\n")) == Lines(prev) + [row] by {
        LinesConcat(prev, row + "\n");
        LinesOfOneLine(row);
      }
      WriteLines(cells, w, n - 1, types);
    }
  }

  /** std::unordered_map symbol_map as Read fills it from the first n types:
      a symbol shared by several types maps to the last of them. */
  function SymbolMap(types: seq<CellType>, n: nat): map<char, nat>
    requires n <= |types|
  {
    if n == 0 then map[] else SymbolMap(types, n - 1)[types[n - 1].symbol := n - 1]
  }

  /** The symbol map sends each symbol in use to the last type carrying it,
      and knows no other symbol. */
  lemma {:induction false} SymbolMapLast(types: seq<CellType>, n: nat, c: char)
    requires n <= |types|
    ensures c in SymbolMap(types, n) <==> exists i :: 0 <= i < n && types[i].symbol == c
    ensures c in SymbolMap(types, n) ==>
      SymbolMap(types, n)[c] < n && types[SymbolMap(types, n)[c]].symbol == c &&
      forall j :: SymbolMap(types, n)[c] < j < n ==> types[j].symbol != c
  {
    if n > 0 {
      SymbolMapLast(types, n - 1, c);
    }
  }

  /** The value Read stores for column x of a line: the symbol's type, or 0
      when the line is too short or the symbol is unknown. */
  function CellOf(line: string, x: nat, sm: map<char, nat>): nat
  {
    if x < |line| && line[x] in sm then sm[line[x]] else 0
  }

  function RowCells(line: string, w: nat, sm: map<char, nat>): (r: seq<nat>)
    ensures |r| == w
  {
    seq(w, x requires 0 <= x < w => CellOf(line, x, sm))
  }

  /** The cells Read stores for the given lines, row by row. */
  function ReadRows(lines: seq<string>, w: nat, sm: map<char, nat>): (r: seq<nat>)
    ensures |r| == w * |lines|
  {
    if lines == [] then []
    else ReadRows(lines[..|lines| - 1], w, sm) + RowCells(lines[|lines| - 1], w, sm)
  }

  /** The length of the longest line, 0 when there is none. */
  function MaxLen(lines: seq<string>): (m: nat)
    ensures forall i :: 0 <= i < |lines| ==> |lines[i]| <= m
    ensures lines != [] ==> exists i :: 0 <= i < |lines| && |lines[i]| == m
    ensures lines == [] ==> m == 0
  {
    if lines == [] then 0
    else
      var m := MaxLen(lines[..|lines| - 1]);
      var last := |lines[|lines| - 1]|;
      assert forall i :: 0 <= i < |lines| - 1 ==> lines[i] == lines[..|lines| - 1][i];
      if last > m then last else m
  }

  /** WorldGrid::Read on a stream holding the given text: width is the longest
      line, height the number of lines. */
  function ReadGrid(text: string, types: seq<CellType>): (r: (nat, nat, seq<nat>))
  {
    var lines := Lines(text);
    var w := MaxLen(lines);
    (w, |lines|, ReadRows(lines, w, SymbolMap(types, |types|)))
  }

  /** Each type has its own symbol. */
  predicate DistinctSymbols(types: seq<CellType>)
  {
    forall i, j :: 0 <= i < j < |types| ==> types[i].symbol != types[j].symbol
  }

  /** Read restores the cells Write printed, and the dimensions whenever the
      grid has at least one row, provided the symbols identify the types. */
  lemma ReadWriteRoundTrip(cells: seq<nat>, w: nat, h: nat, types: seq<CellType>)
    requires |cells| == w * h && CellsInTable(cells, types)
    requires SymbolsOnOneLine(types) && DistinctSymbols(types)
    ensures ReadGrid(WriteText(cells, w, h, types), types).1 == h
    ensures ReadGrid(WriteText(cells, w, h, types), types).2 == cells
    ensures h > 0 ==> ReadGrid(WriteText(cells, w, h, types), types).0 == w
  {
    WriteLines(cells, w, h, types);
    if h > 0 {
      ReadAllRows(cells, w, h, types);
    } else {
      assert cells == [] by {
        MulLe(h, 0, w);
      }
    }
    ReadGridOfLines(WriteText(cells, w, h, types), types, Rows(cells, w, h, types), cells, w);
  }

  /** What Read makes of a text, in terms of its lines. */
  lemma ReadGridOfLines(text: string, types: seq<CellType>, lines: seq<string>, cells: seq<nat>, w: nat)
    requires Lines(text) == lines
    requires lines != [] ==> MaxLen(lines) == w
    requires ReadRows(lines, MaxLen(lines), SymbolMap(types, |types|)) == cells
    ensures ReadGrid(text, types).1 == |lines| && ReadGrid(text, types).2 == cells
    ensures lines != [] ==> ReadGrid(text, types).0 == w
  {
  }

  /** All h rows, read at the width of the longest, give back the cells. */
  lemma ReadAllRows(cells: seq<nat>, w: nat, h: nat, types: seq<CellType>)
    requires 0 < h && h * w == |cells| && CellsInTable(cells, types) && DistinctSymbols(types)
    ensures MaxLen(Rows(cells, w, h, types)) == w
    ensures ReadRows(Rows(cells, w, h, types), w, SymbolMap(types, |types|)) == cells
  {
    MaxLenOfRows(cells, w, h, types);
    ReadRowsOfWrite(cells, w, h, h, types);
    assert cells[..h * w] == cells;
  }

  /** The longest of h > 0 rows of w symbols is w long. */
  lemma MaxLenOfRows(cells: seq<nat>, w: nat, h: nat, types: seq<CellType>)
    requires 0 < h && h * w <= |cells| && CellsInTable(cells, types)
    ensures MaxLen(Rows(cells, w, h, types)) == w
  {
    var lines := Rows(cells, w, h, types);
    assert |lines[h - 1]| == w;
  }

  lemma {:induction false} ReadRowsOfWrite(cells: seq<nat>, w: nat, h: nat, n: nat, types: seq<CellType>)
    requires |cells| == w * h && n <= h && CellsInTable(cells, types) && DistinctSymbols(types)
    ensures n * w <= |cells|
    ensures ReadRows(Rows(cells, w, n, types), w, SymbolMap(types, |types|)) == cells[..n * w]
  {
    MulLe(n, h, w);
    if n > 0 {
      var base := (n - 1) * w;
      LastRowRead(cells, w, h, n, types);
      RowsStep(cells, w, n, types, SymbolMap(types, |types|));
      ReadRowsOfWrite(cells, w, h, n - 1, types);
      assert cells[..n * w] == cells[..base] + cells[base .. n * w];
    }
  }

  /** The symbols Write prints for the last of n rows read back as that row. */
  lemma LastRowRead(cells: seq<nat>, w: nat, h: nat, n: nat, types: seq<CellType>)
    requires |cells| == w * h && 0 < n <= h && CellsInTable(cells, types) && DistinctSymbols(types)
    ensures (n - 1) * w + w == n * w <= |cells|
    ensures RowCells(RowSymbols(cells, w, n - 1, types), w, SymbolMap(types, |types|)) == cells[(n - 1) * w .. n * w]
  {
    MulLe(n, h, w);
    MulPred(n, w);
    RowReadAt(cells, w, n - 1, types);
  }

  /** The line Write prints for row y is read back as the w cells of that row. */
  lemma RowReadAt(cells: seq<nat>, w: nat, y: nat, types: seq<CellType>)
    requires (y + 1) * w <= |cells| && CellsInTable(cells, types) && DistinctSymbols(types)
    ensures y * w + w <= |cells|
    ensures RowCells(RowSymbols(cells, w, y, types), w, SymbolMap(types, |types|)) == cells[y * w .. y * w + w]
  {
    RowEnd(y, w);
    var row := cells[y * w .. y * w + w];
    var r := RowCells(RowSymbols(cells, w, y, types), w, SymbolMap(types, |types|));
    forall x | 0 <= x < w ensures r[x] == row[x] {
      CellReadAt(cells, w, y, types, x);
    }
  }

  /** Row y ends where row y + 1 begins. */
  lemma RowEnd(y: nat, w: nat)
    ensures y * w + w == (y + 1) * w
  {
  }

  /** Column x of that line is read back as the cell it was printed from. */
  lemma CellReadAt(cells: seq<nat>, w: nat, y: nat, types: seq<CellType>, x: nat)
    requires (y + 1) * w <= |cells| && CellsInTable(cells, types) && DistinctSymbols(types)
    requires x < w
    ensures y * w + x < |cells|
    ensures CellOf(RowSymbols(cells, w, y, types), x, SymbolMap(types, |types|)) == cells[y * w + x]
  {
    RowEnd(y, w);
    SymbolReadBack(types, cells[y * w + x]);
  }

  /** With distinct symbols, the symbol map sends the symbol of type t back to t. */
  lemma SymbolReadBack(types: seq<CellType>, t: nat)
    requires t < |types| && DistinctSymbols(types)
    ensures types[t].symbol in SymbolMap(types, |types|)
    ensures SymbolMap(types, |types|)[types[t].symbol] == t
  {
    SymbolMapLast(types, |types|, types[t].symbol);
  }

  /** Reading n rows reads the first n - 1 and then the last. */
  lemma RowsStep(cells: seq<nat>, w: nat, n: nat, types: seq<CellType>, sm: map<char, nat>)
    requires 0 < n && n * w <= |cells| && CellsInTable(cells, types)
    ensures (n - 1) * w <= |cells|
    ensures ReadRows(Rows(cells, w, n, types), w, sm) ==
      ReadRows(Rows(cells, w, n - 1, types), w, sm) + RowCells(RowSymbols(cells, w, n - 1, types), w, sm)
  {
    MulLe(n - 1, n, w);
    assert Rows(cells, w, n, types)[..n - 1] == Rows(cells, w, n - 1, types);
  }

  // ---------------------------------------------------------------------
  // The grid object

  class WorldGrid {
    var width: nat
    var height: nat
    /** All cells, grouped by full rows, top to bottom. */
    var cells: seq<nat>

    ghost predicate Valid()
      reads this
    {
      |cells| == width * height
    }

    /** WorldGrid(width, height, default_type): every cell holds the default. */
    constructor (w: nat, h: nat, defaultType: nat)
      ensures Valid() && width == w && height == h
      ensures forall i :: 0 <= i < |cells| ==> cells[i] == defaultType
    {
      width := w;
      height := h;
      cells := seq(w * h, _ => defaultType);
    }

    function GetNumCells(): (n: nat)
      reads this
      requires Valid()
      ensures n == width * height
    {
      |cells|
    }

    /** Whether (x, y) lies on the grid; only a grid with cells has such a
        pair. */
    function IsValid(x: int, y: int): (b: bool)
      reads this
      ensures b ==> 0 < width && 0 < height
    {
      0 <= x < width && 0 <= y < height
    }

    predicate IsValidPos(p: GridPosition)
      reads this
    {
      p.Pos? && IsValid(p.x, p.y)
    }

    /** WorldGrid::ToIndex: the cell of an on-grid coordinate pair. */
    function ToIndex(x: nat, y: nat): (i: nat)
      reads this
      requires Valid()
      ensures IsValid(x, y) ==> i < |cells|
      ensures IsValid(x, y) ==> i % width == x && i / width == y
    {
      if IsValid(x, y) then IdxBound(x, y, width, height); IdxDivMod(x, y, width); Idx(x, y, width)
      else Idx(x, y, width)
    }

    /** WorldGrid::At; the source asserts that the coordinates are on the grid. */
    function At(x: nat, y: nat): (v: nat)
      reads this
      requires Valid() && IsValid(x, y)
      ensures y * width + x < |cells| && v == cells[y * width + x]
    {
      cells[ToIndex(x, y)]
    }

    /** WorldGrid::At(GridPosition): the cell in row p.y, column p.x. */
    function AtPos(p: GridPosition): (v: nat)
      reads this
      requires Valid() && IsValidPos(p)
      ensures p.y * width + p.x < |cells| && v == cells[p.y * width + p.x]
    {
      At(p.x, p.y)
    }

    /** Assignment through the reference WorldGrid::At returns: that one cell
        changes, every other cell keeps its type. */
    method SetAt(x: nat, y: nat, v: nat)
      requires Valid() && IsValid(x, y)
      modifies this
      ensures Valid() && width == old(width) && height == old(height)
      ensures At(x, y) == v
      ensures forall x': nat, y': nat :: IsValid(x', y') && (x', y') != (x, y) ==>
        At(x', y') == old(At(x', y'))
    {
      cells := cells[ToIndex(x, y) := v];
      forall x': nat, y': nat | IsValid(x', y') && (x', y') != (x, y)
        ensures Idx(x', y', width) != Idx(x, y, width)
      {
        IdxDivMod(x, y, width);
        IdxDivMod(x', y', width);
      }
    }

    /** WorldGrid::Resize: the overlap of the old and new grids is kept, the
        rest of the new grid holds the default type. */
    method Resize(newWidth: nat, newHeight: nat, defaultType: nat)
      requires Valid()
      modifies this
      ensures Valid() && width == newWidth && height == newHeight
      ensures cells == Resized(old(cells), old(width), old(height), newWidth, newHeight, defaultType)
    {
      var newCells: seq<nat> := seq(newWidth * newHeight, _ => defaultType);
      var minWidth := if width < newWidth then width else newWidth;
      var minHeight := if height < newHeight then height else newHeight;
      FilledStart(cells, width, height, newWidth, newHeight, defaultType);
      for x := 0 to minWidth
        invariant unchanged(this)
        invariant Filled(newCells, cells, width, height, newWidth, newHeight, defaultType, x, 0)
      {
        for y := 0 to minHeight
          invariant unchanged(this)
          invariant Filled(newCells, cells, width, height, newWidth, newHeight, defaultType, x, y)
        {
          FilledStep(newCells, cells, width, height, newWidth, newHeight, defaultType, x, y);
          newCells := newCells[Idx(x, y, newWidth) := cells[Idx(x, y, width)]];
        }
        FilledColumn(newCells, cells, width, height, newWidth, newHeight, defaultType, x, minHeight);
      }
      FilledAll(newCells, cells, width, height, newWidth, newHeight, defaultType, minWidth);
      cells := newCells;
      width := newWidth;
      height := newHeight;
    }

    /** WorldGrid::Serialize_impl. */
    method Serialize() returns (text: string)
      requires Valid()
      ensures text == SerializeText(width, height, cells)
    {
      text := NatToString(width) + " " + NatToString(height);
      for i := 0 to |cells|
        invariant text == NatToString(width) + " " + NatToString(height) + CellsText(cells[..i])
      {
        CellsTextSnoc(cells[..i], cells[i]);
        assert cells[..i + 1] == cells[..i] + [cells[i]];
        text := text + " " + NatToString(cells[i]);
      }
      assert cells[..|cells|] == cells;
      text := text + "\n";
    }

    /** WorldGrid::Deserialize_impl. The result reports whether the stream
        stayed good; only then are the new dimensions and cells determined. */
    method Deserialize(text: string) returns (ok: bool)
      modifies this
      ensures Valid()
      ensures ok <==> ParseGrid(text).Some?
      ensures ok ==> (width, height, cells) == ParseGrid(text).value
      ensures !ok ==> width == 0 && height == 0 && cells == []
    {
      var header := ParseHeader(text);
      if header.None? {
        width, height, cells := 0, 0, [];
        return false;
      }
      var (w, h, u) := header.value;
      ok := LoadCells(w, h, u);
    }

    /** The part of Deserialize_impl after the dimensions are read. */
    method LoadCells(w: nat, h: nat, u: string) returns (ok: bool)
      modifies this
      ensures Valid()
      ensures ok <==> ReadNats(u, w * h).Some?
      ensures ok ==> width == w && height == h && cells == ReadNats(u, w * h).value.0
      ensures !ok ==> width == 0 && height == 0 && cells == []
    {
      var values := ReadCells(u, w * h);
      if values.None? {
        width, height, cells := 0, 0, [];
        return false;
      }
      width, height, cells := w, h, values.value.0;
      ok := true;
    }

    /** WorldGrid::Write: one line per row, one symbol per cell. */
    method Write(types: seq<CellType>) returns (text: string)
      requires Valid() && CellsInTable(cells, types)
      ensures text == WriteText(cells, width, height, types)
    {
      text := "";
      var cellId := 0;
      for y := 0 to height
        invariant cellId == y * width && y * width <= |cells|
        invariant text == WriteText(cells, width, y, types)
      {
        assert (y + 1) * width <= |cells| && (y + 1) * width == y * width + width by {
          MulLe(y + 1, height, width);
        }
        ghost var row := RowSymbols(cells, width, y, types);
        for x := 0 to width
          invariant cellId == y * width + x
          invariant text == WriteText(cells, width, y, types) + row[..x]
        {
          assert row[..x + 1] == row[..x] + [types[cells[cellId]].symbol];
          text := text + [types[cells[cellId]].symbol];
          cellId := cellId + 1;
        }
        assert row[..width] == row;
        text := text + "\n";
      }
    }

    /** WorldGrid::Read from a stream holding the given text. */
    method Read(text: string, types: seq<CellType>)
      modifies this
      ensures Valid()
      ensures (width, height, cells) == ReadGrid(text, types)
    {
      var symbolMap := BuildSymbolMap(types);
      var charGrid, w := ReadLines(text);
      var newCells := FillCells(charGrid, w, symbolMap);
      width, height, cells := w, |charGrid|, newCells;
    }
  }

  /** The first loop of WorldGrid::Read: each symbol maps to its type id, a
      later type overriding an earlier one with the same symbol. */
  method BuildSymbolMap(types: seq<CellType>) returns (symbolMap: map<char, nat>)
    ensures symbolMap == SymbolMap(types, |types|)
  {
    symbolMap := map[];
    for i := 0 to |types|
      invariant symbolMap == SymbolMap(types, i)
    {
      symbolMap := symbolMap[types[i].symbol := i];
    }
  }

  /** The std::getline loop of WorldGrid::Read, tracking the longest line. */
  method ReadLines(text: string) returns (charGrid: seq<string>, width: nat)
    ensures charGrid == Lines(text) && width == MaxLen(charGrid)
  {
    charGrid := [];
    var rest := text;
    width := 0;
    while rest != []
      invariant Lines(text) == charGrid + Lines(rest)
      invariant width == MaxLen(charGrid)
      decreases |rest|
    {
      var k := LineEnd(rest);
      var line := rest[..k];
      var next := if k < |rest| then rest[k + 1..] else [];
      assert Lines(text) == (charGrid + [line]) + Lines(next) by {
        LinesStep(charGrid, rest);
      }
      assert MaxLen(charGrid + [line]) == if |line| > width then |line| else width by {
        MaxLenSnoc(charGrid, line);
      }
      charGrid := charGrid + [line];
      if |line| > width {
        width := |line|;
      }
      rest := next;
    }
  }

  /** One std::getline call takes one line off the front of the stream. */
  lemma LinesStep(before: seq<string>, rest: string)
    requires rest != []
    ensures var k := LineEnd(rest);
      before + Lines(rest) ==
      (before + [rest[..k]]) + Lines(if k < |rest| then rest[k + 1..] else [])
  {
    var k := LineEnd(rest);
    var next := if k < |rest| then rest[k + 1..] else [];
    assert Lines(rest) == [rest[..k]] + Lines(next);
  }

  lemma MaxLenSnoc(lines: seq<string>, line: string)
    ensures MaxLen(lines + [line]) == if |line| > MaxLen(lines) then |line| else MaxLen(lines)
  {
    assert (lines + [line])[..|lines|] == lines;
  }

  /** The last loop of WorldGrid::Read: cell (x, y) takes the type of the
      symbol at column x of line y, and type 0 past the end of the line or
      for an unknown symbol. */
  method FillCells(charGrid: seq<string>, width: nat, symbolMap: map<char, nat>) returns (newCells: seq<nat>)
    ensures newCells == ReadRows(charGrid, width, symbolMap)
  {
    newCells := [];
    for y := 0 to |charGrid|
      invariant newCells == ReadRows(charGrid[..y], width, symbolMap)
    {
      var line := charGrid[y];
      ghost var row := RowCells(line, width, symbolMap);
      for x := 0 to width
        invariant newCells == ReadRows(charGrid[..y], width, symbolMap) + row[..x]
      {
        var v := if x < |line| && line[x] in symbolMap then symbolMap[line[x]] else 0;
        assert row[..x + 1] == row[..x] + [v];
        newCells := newCells + [v];
      }
      assert charGrid[..y + 1][..y] == charGrid[..y];
      assert row[..width] == row;
    }
    assert charGrid[..|charGrid|] == charGrid;
  }

  /** The loop `for (size_t & state : cells) is >> state` over n cells. */
  method ReadCells(text: string, n: nat) returns (r: Option<(seq<nat>, string)>)
    ensures r == ReadNats(text, n)
  {
    var rest := text;
    var values: seq<nat> := [];
    var i := 0;
    PrependEmpty(ReadNats(text, n));
    while i < n
      invariant 0 <= i <= n && |values| == i
      invariant ReadNats(text, n) == Prepend(values, ReadNats(rest, n - i))
    {
      var next := ExtractNat(rest);
      if next.None? {
        ReadNatsFails(rest, n - i);
        return None;
      }
      var v, rest' := next.value.0, next.value.1;
      ReadNatsUnfold(rest, n - i, v, rest');
      PrependAssoc(values, [v], ReadNats(rest', n - (i + 1)));
      values := values + [v];
      rest := rest';
      i := i + 1;
    }
    assert values + [] == values;
    r := Some((values, rest));
  }

  lemma ReadNatsUnfold(s: string, m: nat, v: nat, s': string)
    requires m > 0 && ExtractNat(s) == Some((v, s'))
    ensures ReadNats(s, m) == Prepend([v], ReadNats(s', m - 1))
  {
  }

  lemma ReadNatsFails(s: string, m: nat)
    requires m > 0 && ExtractNat(s).None?
    ensures ReadNats(s, m) == None
  {
  }

  lemma PrependEmpty(r: Option<(seq<nat>, string)>)
    ensures Prepend([], r) == r
  {
    if r.Some? {
      assert [] + r.value.0 == r.value.0;
    }
  }

  lemma PrependAssoc(a: seq<nat>, b: seq<nat>, r: Option<(seq<nat>, string)>)
    ensures Prepend(a, Prepend(b, r)) == Prepend(a + b, r)
  {
    if r.Some? {
      assert a + (b + r.value.0) == (a + b) + r.value.0;
    }
  }
}
