/** The consuming iterator of `EsriASCIIReader` (src/ascii_file.rs:201-287):
    it walks the physical lines top-down and, within a line, left to right, but
    reports each value with its bottom-up raster row. It never touches the row
    cache or the index. */
module RasterIterator {
  import opened Outcomes
  import opened DataSection
  import opened AsciiReader
  import ReaderLemmas

  /** One item of the iteration: raster row, column, value. */
  datatype Cell<V> = Cell(row: nat, col: nat, value: V)

  /** `EsriASCIIRasterIntoIterator`: `pending` are the lines not yet read,
      `line` the values of the current line not yet handed out, `row` the
      physical line being read and `col` the next column. */
  datatype Iter<V> = Iter(header: Header, pending: seq<Line<V>>, line: seq<V>, row: nat, col: nat)

  /** One call of `next`: an item and the advanced iterator, the end of the
      iteration, or a panic. */
  datatype Step<V> = Yield(cell: Cell<V>, rest: Iter<V>) | Done(rest: Iter<V>) | Panicked

  /** The iterator is positioned at column `c` of physical line `p`. */
  ghost predicate At<V>(lines: seq<Line<V>>, it: Iter<V>, p: nat, c: nat)
  {
    && p < |lines|
    && c <= |lines[p].values|
    && it.pending == lines[p + 1..]
    && it.line == lines[p].values[c..]
    && it.row == p
    && it.col == c
  }

  /** `into_iter`: seek to the data start and read the first line eagerly,
      panicking when the data section is empty. */
  function IntoIter<V>(lines: seq<Line<V>>, r: Reader<V>): (o: Outcome<Iter<V>>)
    ensures !o.Err?
    ensures o.Ok? <==> |lines| > 0
    ensures o.Ok? ==> o.value.header == r.header && At(lines, o.value, 0, 0)
  {
    if |lines| == 0 then Panic
    else Ok(Iter(r.header, lines[1..], lines[0].values, 0, 0))
  }

  /** How many more lines, and how many more columns of the current line, the
      iterator may still visit; every item it yields lowers this pair. */
  function RowsLeft<V>(it: Iter<V>): nat
  {
    if it.row < it.header.nrows then it.header.nrows - it.row else 0
  }

  function ColsLeft<V>(it: Iter<V>): nat
  {
    if it.col < it.header.ncols then it.header.ncols - it.col else 0
  }

  /** `next`: past the last column, move to the next line (or finish after the
      last one); then hand out the next value with its bottom-up row. */
  function Next<V>(it: Iter<V>): (s: Step<V>)
    ensures s.Yield? ==> s.rest.header == it.header
    ensures s.Yield? ==> s.cell.row < it.header.nrows && s.cell.row == it.header.nrows - 1 - s.rest.row
    ensures s.Yield? ==> s.rest.col == s.cell.col + 1
    ensures s.Yield? ==>
      || RowsLeft(s.rest) < RowsLeft(it)
      || (RowsLeft(s.rest) == RowsLeft(it) && ColsLeft(s.rest) < ColsLeft(it))
    ensures s.Done? ==> it.col >= it.header.ncols && it.row + 1 >= it.header.nrows
    ensures it.row >= it.header.nrows && it.col < it.header.ncols ==> s.Panicked?
  {
    if it.col >= it.header.ncols then
      var row := it.row + 1;
      if row >= it.header.nrows then Done(it.(row := row, col := 0))
      else if |it.pending| == 0 then Panicked
      else Emit(it.(pending := it.pending[1..], line := it.pending[0].values, row := row, col := 0))
    else Emit(it)
  }

  /** The second half of `next`: take the next value of the current line
      (panicking when the line is exhausted) and report it with row
      `nrows - 1 - row` (panicking when that subtraction underflows). */
  function Emit<V>(it: Iter<V>): Step<V>
  {
    if |it.line| == 0 || it.row >= it.header.nrows then Panicked
    else Yield(Cell(it.header.nrows - 1 - it.row, it.col, it.line[0]), it.(line := it.line[1..], col := it.col + 1))
  }

  /** Run `next` until it returns `None`, collecting the items. */
  function Drain<V>(it: Iter<V>): (o: Outcome<seq<Cell<V>>>)
    ensures !o.Err?
    ensures o.Ok? ==> forall i :: 0 <= i < |o.value| ==> o.value[i].row < it.header.nrows
    decreases RowsLeft(it), ColsLeft(it)
  {
    match Next(it)
    case Panicked => Panic
    case Done(_) => Ok([])
    case Yield(cell, rest) =>
      var tail := Drain(rest);
      if tail.Ok? then Ok([cell] + tail.value) else tail
  }

  /** The whole iteration of a reader: `into_iter`, then `next` until `None`. */
  function Iterate<V>(lines: seq<Line<V>>, r: Reader<V>): Outcome<seq<Cell<V>>>
  {
    match IntoIter(lines, r)
    case Ok(it) => Drain(it)
    case Err(kind) => Err(kind)
    case Panic => Panic
  }

  /** Reference order: the cells of physical line `p` left to right, each
      labelled with its bottom-up raster row. */
  function LineCells<V>(h: Header, lines: seq<Line<V>>, p: nat): (cells: seq<Cell<V>>)
    requires WellFormed(h, lines) && p < h.nrows <= |lines|
    ensures |cells| == h.ncols
    ensures forall c :: 0 <= c < h.ncols ==> cells[c] == Cell(h.nrows - 1 - p, c, lines[p].values[c])
  {
    seq(h.ncols, c requires 0 <= c < h.ncols => Cell(h.nrows - 1 - p, c, lines[p].values[c]))
  }

  /** Reference order: the cells of physical lines `p` to `nrows - 1`, line
      after line. */
  function LinesFrom<V>(h: Header, lines: seq<Line<V>>, p: nat): (cells: seq<Cell<V>>)
    requires WellFormed(h, lines) && p <= h.nrows <= |lines|
    decreases h.nrows - p
  {
    if p == h.nrows then []
    else
      LineCells(h, lines, p) + LinesFrom(h, lines, p + 1)
  }

  /** Every item of the reference order names an in-range cell and carries the
      value stored on that cell's physical line. */
  lemma {:induction false} LinesFromFaithful<V>(h: Header, lines: seq<Line<V>>, p: nat, i: nat)
    requires WellFormed(h, lines) && p <= h.nrows <= |lines|
    requires i < |LinesFrom(h, lines, p)|
    ensures var cell := LinesFrom(h, lines, p)[i];
      && cell.row < h.nrows
      && cell.col < h.ncols
      && cell.value == lines[h.nrows - 1 - cell.row].values[cell.col]
    decreases h.nrows - p
  {
    var head := LineCells(h, lines, p);
    var tail := LinesFrom(h, lines, p + 1);
    assert LinesFrom(h, lines, p) == head + tail;
    if i >= |head| {
      LinesFromFaithful(h, lines, p + 1, i - |head|);
    }
  }

  /** The number of cells on `k` lines of `n` cells, counted line by line. */
  function Before(n: nat, k: nat): nat
  {
    if k == 0 then 0 else n + Before(n, k - 1)
  }

  lemma {:induction false} BeforeIsProduct(n: nat, k: nat)
    ensures Before(n, k) == k * n
  {
    if k > 0 {
      BeforeIsProduct(n, k - 1);
      assert k * n == n + (k - 1) * n;
    }
  }

  /** The reference order holds `ncols` cells per remaining line. */
  lemma {:induction false} LinesFromLength<V>(h: Header, lines: seq<Line<V>>, p: nat)
    requires WellFormed(h, lines) && p <= h.nrows <= |lines|
    ensures |LinesFrom(h, lines, p)| == Before(h.ncols, h.nrows - p)
    decreases h.nrows - p
  {
    if p < h.nrows {
      LinesFromLength(h, lines, p + 1);
    }
  }

  /** Cell `c` of physical line `q` comes after the cells of the lines from
      `p` to `q - 1`. */
  lemma {:induction false} LinesFromAt<V>(h: Header, lines: seq<Line<V>>, p: nat, q: nat, c: nat)
    requires WellFormed(h, lines) && p <= q < h.nrows <= |lines|
    requires c < h.ncols
    ensures Before(h.ncols, q - p) + c < |LinesFrom(h, lines, p)|
    ensures LinesFrom(h, lines, p)[Before(h.ncols, q - p) + c] == Cell(h.nrows - 1 - q, c, lines[q].values[c])
    decreases q - p
  {
    var head := LineCells(h, lines, p);
    var tail := LinesFrom(h, lines, p + 1);
    assert LinesFrom(h, lines, p) == head + tail;
    if q > p {
      LinesFromAt(h, lines, p + 1, q, c);
      var j := Before(h.ncols, q - (p + 1)) + c;
      assert Before(h.ncols, q - p) + c == h.ncols + j;
      assert (head + tail)[h.ncols + j] == tail[j];
    }
  }

  /** Inside a line, `next` hands out the value under the cursor and moves one
      column right. */
  lemma NextWithinLine<V>(lines: seq<Line<V>>, it: Iter<V>, p: nat, c: nat)
    requires WellFormed(it.header, lines) && it.header.nrows <= |lines|
    requires p < it.header.nrows && c < it.header.ncols
    requires At(lines, it, p, c)
    ensures var rest := it.(line := lines[p].values[c + 1..], col := c + 1);
      && Next(it) == Yield(Cell(it.header.nrows - 1 - p, c, lines[p].values[c]), rest)
      && At(lines, rest, p, c + 1)
  {
    assert lines[p].values[c..][1..] == lines[p].values[c + 1..];
  }

  /** Past the last column of a line that is not the last one, `next` behaves
      as from column 0 of the following line. */
  lemma NextAcrossLine<V>(lines: seq<Line<V>>, it: Iter<V>, p: nat)
    requires WellFormed(it.header, lines) && it.header.nrows <= |lines|
    requires it.header.ncols > 0 && p + 1 < it.header.nrows
    requires At(lines, it, p, it.header.ncols)
    ensures var following := Iter(it.header, lines[p + 2..], lines[p + 1].values, p + 1, 0);
      && Next(it) == Next(following)
      && At(lines, following, p + 1, 0)
  {
    assert lines[p + 1..][1..] == lines[p + 2..];
    assert lines[p + 1].values[0..] == lines[p + 1].values;
  }

  /** From column `c` of physical line `p`, the iterator yields the rest of that
      line and then every later line, and ends with `None`. */
  lemma {:induction false} DrainFrom<V>(lines: seq<Line<V>>, it: Iter<V>, p: nat, c: nat)
    requires WellFormed(it.header, lines) && it.header.nrows <= |lines|
    requires it.header.ncols > 0
    requires p < it.header.nrows && c <= it.header.ncols
    requires At(lines, it, p, c)
    ensures Drain(it) == Ok(LineCells(it.header, lines, p)[c..] + LinesFrom(it.header, lines, p + 1))
    decreases it.header.nrows - p, it.header.ncols - c, 1
  {
    if c < it.header.ncols {
      DrainWithinLine(lines, it, p, c);
    } else if p + 1 == it.header.nrows {
      assert Next(it).Done?;
      assert Drain(it) == Ok([]);
      assert LineCells(it.header, lines, p)[c..] == [];
      assert LinesFrom(it.header, lines, p + 1) == [];
      assert LineCells(it.header, lines, p)[c..] + LinesFrom(it.header, lines, p + 1) == [];
    } else {
      DrainAcrossLine(lines, it, p);
    }
  }

  /** The within-line step of `DrainFrom`. */
  lemma {:induction false} DrainWithinLine<V>(lines: seq<Line<V>>, it: Iter<V>, p: nat, c: nat)
    requires WellFormed(it.header, lines) && it.header.nrows <= |lines|
    requires it.header.ncols > 0
    requires p < it.header.nrows && c < it.header.ncols
    requires At(lines, it, p, c)
    ensures Drain(it) == Ok(LineCells(it.header, lines, p)[c..] + LinesFrom(it.header, lines, p + 1))
    decreases it.header.nrows - p, it.header.ncols - c, 0
  {
    var cells := LineCells(it.header, lines, p);
    var later := LinesFrom(it.header, lines, p + 1);
    NextWithinLine(lines, it, p, c);
    var rest := it.(line := lines[p].values[c + 1..], col := c + 1);
    DrainFrom(lines, rest, p, c + 1);
    DrainYield(it, cells[c], rest);
    ConsSlice(cells, c, later);
  }

  /** `Drain` after a yielded item is that item followed by the rest. */
  lemma DrainYield<V>(it: Iter<V>, cell: Cell<V>, rest: Iter<V>)
    requires Next(it) == Yield(cell, rest) && Drain(rest).Ok?
    ensures Drain(it) == Ok([cell] + Drain(rest).value)
  {
  }

  /** Splitting off the first element of a suffix before a concatenation. */
  lemma ConsSlice<T>(s: seq<T>, c: nat, t: seq<T>)
    requires c < |s|
    ensures s[c..] + t == [s[c]] + (s[c + 1..] + t)
  {
    assert s[c..] == [s[c]] + s[c + 1..];
  }

  /** The line-change step of `DrainFrom`. */
  lemma {:induction false} DrainAcrossLine<V>(lines: seq<Line<V>>, it: Iter<V>, p: nat)
    requires WellFormed(it.header, lines) && it.header.nrows <= |lines|
    requires it.header.ncols > 0
    requires p + 1 < it.header.nrows
    requires At(lines, it, p, it.header.ncols)
    ensures Drain(it) == Ok(LineCells(it.header, lines, p)[it.header.ncols..] + LinesFrom(it.header, lines, p + 1))
    decreases it.header.nrows - p, 0, 0
  {
    var h := it.header;
    NextAcrossLine(lines, it, p);
    var following := Iter(h, lines[p + 2..], lines[p + 1].values, p + 1, 0);
    assert Drain(it) == Drain(following);
    DrainFrom(lines, following, p + 1, 0);
    assert LineCells(h, lines, p + 1)[0..] == LineCells(h, lines, p + 1);
    assert LinesFrom(h, lines, p + 1) == LineCells(h, lines, p + 1) + LinesFrom(h, lines, p + 2);
    assert Drain(following) == Ok(LinesFrom(h, lines, p + 1));
    assert LineCells(h, lines, p)[h.ncols..] == [];
    assert LineCells(h, lines, p)[h.ncols..] + LinesFrom(h, lines, p + 1) == LinesFrom(h, lines, p + 1);
  }

  /** The iteration of a well-formed file yields exactly `nrows * ncols`
      items, physical line after physical line, each line left to right, with
      the bottom-up row `nrows - 1 - q` for physical line `q`. */
  lemma IterateYieldsRasterOrder<V>(lines: seq<Line<V>>, r: Reader<V>)
    requires WellFormed(r.header, lines) && r.header.nrows <= |lines|
    requires r.header.nrows > 0 && r.header.ncols > 0
    ensures Iterate(lines, r) == Ok(LinesFrom(r.header, lines, 0))
    ensures |Iterate(lines, r).value| == r.header.nrows * r.header.ncols
  {
    var it := IntoIter(lines, r).value;
    DrainFrom(lines, it, 0, 0);
    LinesFromLength(r.header, lines, 0);
    BeforeIsProduct(r.header.ncols, r.header.nrows);
    assert LineCells(r.header, lines, 0)[0..] == LineCells(r.header, lines, 0);
  }

  /** The item for physical line `q`, column `c` is the `(q * ncols + c)`-th
      one, and it reports raster row `nrows - 1 - q`. */
  lemma IterateCellAt<V>(lines: seq<Line<V>>, r: Reader<V>, q: nat, c: nat)
    requires WellFormed(r.header, lines) && r.header.nrows <= |lines|
    requires q < r.header.nrows && c < r.header.ncols
    ensures Iterate(lines, r).Ok?
    ensures q * r.header.ncols + c < |Iterate(lines, r).value|
    ensures Iterate(lines, r).value[q * r.header.ncols + c] == Cell(r.header.nrows - 1 - q, c, lines[q].values[c])
  {
    IterateYieldsRasterOrder(lines, r);
    LinesFromAt(r.header, lines, 0, q, c);
    BeforeIsProduct(r.header.ncols, q);
  }

  /** Every item of the iteration is what `get_index` returns for the same
      raster row and column, on any reader over the same file. */
  lemma IterateAgreesWithGetIndex<V>(lines: seq<Line<V>>, r: Reader<V>, q: Reader<V>)
    requires WellFormed(r.header, lines) && r.header.nrows <= |lines|
    requires r.header.nrows > 0 && r.header.ncols > 0
    requires Valid(lines, q) && q.header == r.header
    ensures Iterate(lines, r).Ok?
    ensures forall i :: 0 <= i < |Iterate(lines, r).value| ==>
      var cell := Iterate(lines, r).value[i];
      ValueOf(GetIndex(lines, q, cell.row, cell.col)) == Ok(cell.value)
  {
    IterateYieldsRasterOrder(lines, r);
    var cells := Iterate(lines, r).value;
    forall i | 0 <= i < |cells|
      ensures ValueOf(GetIndex(lines, q, cells[i].row, cells[i].col)) == Ok(cells[i].value)
    {
      LinesFromFaithful(r.header, lines, 0, i);
      ReaderLemmas.GetIndexReadsPhysicalLine(lines, q, cells[i].row, cells[i].col);
    }
  }
}
