/** What the random-access engine guarantees: every lookup returns the value
    stored on the row's physical line, whichever path serves it, so the row
    cache and the row-offset index are pure optimisations. */
module ReaderLemmas {
  import opened Outcomes
  import opened DataSection
  import opened AsciiReader

  /** A cache miss reads the row's own physical line, with or without an index,
      and finds nothing only when the data section is too short to hold it. */
  lemma FetchLineReadsPhysicalLine<V>(lines: seq<Line<V>>, r: Reader<V>, row: nat)
    requires Valid(lines, r)
    requires row < r.header.nrows
    ensures PhysicalLine(r.header, row) < |lines| ==>
      FetchLine(lines, r, row) == Some(lines[PhysicalLine(r.header, row)])
    ensures PhysicalLine(r.header, row) >= |lines| ==> FetchLine(lines, r, row) == None
  {
    var k := PhysicalLine(r.header, row);
    if |r.lineStartCache| != 0 {
      SeekLinesAtLineStart(lines, r.dataStart, k);
      assert lines[k..][0] == lines[k];
    }
  }

  /** `get_index(row, col)` on a reader that agrees with the file: out of bounds
      it is an `InvalidInput` error; in bounds it returns the `col`-th value of
      physical line `nrows - 1 - row`, and the new reader still agrees with the
      file; it panics only when the file holds fewer lines than the header says
      and the row has to be found by scanning. */
  lemma {:induction false} GetIndexReadsPhysicalLine<V>(lines: seq<Line<V>>, r: Reader<V>, row: nat, col: nat)
    requires Valid(lines, r)
    requires WellFormed(r.header, lines)
    ensures var o := GetIndex(lines, r, row, col);
      && (o.Err? <==> row >= r.header.nrows || col >= r.header.ncols)
      && (o.Ok? <==> row < r.header.nrows && col < r.header.ncols && r.header.nrows - 1 - row < |lines|)
      && (o.Ok? ==> o.value.0 == lines[r.header.nrows - 1 - row].values[col] && Valid(lines, o.value.1))
  {
    if row < r.header.nrows && col < r.header.ncols && row !in r.lineCache {
      FetchLineReadsPhysicalLine(lines, r, row);
      var k := PhysicalLine(r.header, row);
      if k < |lines| {
        var r' := r.(lineCache := r.lineCache[row := lines[k].values]);
        assert GetIndex(lines, r, row, col) == Ok((lines[k].values[col], r'));
        assert CacheFaithful(lines, r');
      }
    }
  }

  /** The index and the cache never change what a lookup observes: two readers
      over the same header that both agree with the file give the same answer
      to every `get_index`. */
  lemma IndexIsPureOptimisation<V>(lines: seq<Line<V>>, r1: Reader<V>, r2: Reader<V>, row: nat, col: nat)
    requires Valid(lines, r1) && Valid(lines, r2)
    requires r1.header == r2.header
    ensures ValueOf(GetIndex(lines, r1, row, col)) == ValueOf(GetIndex(lines, r2, row, col))
  {
    if row < r1.header.nrows {
      FetchLineReadsPhysicalLine(lines, r1, row);
      FetchLineReadsPhysicalLine(lines, r2, row);
    }
  }

  /** `build_index`, as written, either builds an index that points at every
      raster row's physical line or leaves the reader as it was. */
  lemma BuildIndexKeepsValid<V>(lines: seq<Line<V>>, r: Reader<V>)
    requires Valid(lines, r)
    ensures BuildIndex(lines, r).Ok? ==> Valid(lines, BuildIndex(lines, r).value)
  {
  }

  /** The same for the intended `build_index`. */
  lemma BuildIndexIntendedKeepsValid<V>(lines: seq<Line<V>>, r: Reader<V>)
    requires Valid(lines, r)
    ensures BuildIndexIntended(lines, r).Ok? ==> Valid(lines, BuildIndexIntended(lines, r).value)
  {
  }

  /** Building the index does not change the result of any later lookup. */
  lemma BuildIndexPreservesLookups<V>(lines: seq<Line<V>>, r: Reader<V>, row: nat, col: nat)
    requires Valid(lines, r)
    requires WellFormed(r.header, lines)
    requires BuildIndex(lines, r).Ok?
    ensures ValueOf(GetIndex(lines, BuildIndex(lines, r).value, row, col)) == ValueOf(GetIndex(lines, r, row, col))
  {
    BuildIndexKeepsValid(lines, r);
    IndexIsPureOptimisation(lines, BuildIndex(lines, r).value, r, row, col);
  }

  /** The same for the intended `build_index`. */
  lemma BuildIndexIntendedPreservesLookups<V>(lines: seq<Line<V>>, r: Reader<V>, row: nat, col: nat)
    requires Valid(lines, r)
    requires WellFormed(r.header, lines)
    requires BuildIndexIntended(lines, r).Ok?
    ensures ValueOf(GetIndex(lines, BuildIndexIntended(lines, r).value, row, col)) == ValueOf(GetIndex(lines, r, row, col))
  {
    BuildIndexIntendedKeepsValid(lines, r);
    IndexIsPureOptimisation(lines, BuildIndexIntended(lines, r).value, r, row, col);
  }

  /** Calling `build_index` twice leaves the same state as calling it once. */
  lemma BuildIndexIdempotent<V>(lines: seq<Line<V>>, r: Reader<V>)
    requires BuildIndex(lines, r).Ok?
    ensures BuildIndex(lines, BuildIndex(lines, r).value) == BuildIndex(lines, r)
  {
  }

  /** The same for the intended `build_index`. */
  lemma BuildIndexIntendedIdempotent<V>(lines: seq<Line<V>>, r: Reader<V>)
    requires BuildIndexIntended(lines, r).Ok?
    ensures BuildIndexIntended(lines, BuildIndexIntended(lines, r).value) == BuildIndexIntended(lines, r)
  {
  }

  /** The guard of `build_index` tests the row cache, not the index: after one
      lookup on a freshly opened one-column, two-row file, `build_index`
      reports success and yet no index exists, so the lookup of the other,
      uncached row still goes through the linear scan. The intended guard
      builds the index. */
  lemma BuildIndexSkippedAfterLookup<V>(top: V, bottom: V)
    ensures var lines := [Line([top], 1), Line([bottom], 1)];
      var o := GetIndex(lines, FromFile(Header(1, 2), 0), 0, 0);
      && o.Ok?
      && BuildIndex(lines, o.value.1) == Ok(o.value.1)
      && |o.value.1.lineStartCache| == 0
      && 1 !in o.value.1.lineCache
      && FetchLine(lines, o.value.1, 1) == Some(lines[0])
      && ValueOf(GetIndex(lines, o.value.1, 1, 0)) == Ok(top)
      && BuildIndexIntended(lines, o.value.1).Ok?
      && |BuildIndexIntended(lines, o.value.1).value.lineStartCache| == 2
  {
  }

  /** `get(x, y)` inside the raster returns exactly the stored value of the
      cell the header maps the point to. */
  lemma GetReturnsCell<V>(lines: seq<Line<V>>, r: Reader<V>, col: nat, row: nat)
    requires Valid(lines, r)
    requires WellFormed(r.header, lines)
    requires row < r.header.nrows && col < r.header.ncols
    requires r.header.nrows - 1 - row < |lines|
    ensures var o := Get(lines, r, Some((col, row)));
      && o.Ok?
      && o.value.0 == Some(lines[r.header.nrows - 1 - row].values[col])
      && Valid(lines, o.value.1)
  {
    GetIndexReadsPhysicalLine(lines, r, row, col);
  }

  /** The values stored at `cells`, read straight from the file. */
  function StoredValues<V>(h: Header, lines: seq<Line<V>>, cells: seq<(nat, nat)>): (vs: seq<V>)
    requires WellFormed(h, lines) && h.nrows <= |lines|
    requires forall i :: 0 <= i < |cells| ==> cells[i].0 < h.nrows && cells[i].1 < h.ncols
    ensures |vs| == |cells|
    ensures forall i :: 0 <= i < |cells| ==> vs[i] == lines[h.nrows - 1 - cells[i].0].values[cells[i].1]
    decreases |cells|
  {
    if |cells| == 0 then []
    else [lines[h.nrows - 1 - cells[0].0].values[cells[0].1]] + StoredValues(h, lines, cells[1..])
  }

  /** A run of in-bounds `get_index` calls on a consistent reader never fails:
      it returns the stored value of every cell and keeps the reader
      consistent. Stated for a file holding all `nrows` lines, the case
      `get_interpolate` needs, rather than only the lines of the cells read. */
  lemma {:induction false} ReadCellsStoredValues<V>(lines: seq<Line<V>>, r: Reader<V>, cells: seq<(nat, nat)>)
    requires Valid(lines, r)
    requires WellFormed(r.header, lines)
    requires r.header.nrows <= |lines|
    requires forall i :: 0 <= i < |cells| ==> cells[i].0 < r.header.nrows && cells[i].1 < r.header.ncols
    ensures ReadCells(lines, r, cells).Ok?
    ensures ReadCells(lines, r, cells).value.0 == StoredValues(r.header, lines, cells)
    ensures Valid(lines, ReadCells(lines, r, cells).value.1)
    decreases |cells|
  {
    if |cells| > 0 {
      GetIndexReadsPhysicalLine(lines, r, cells[0].0, cells[0].1);
      var first := GetIndex(lines, r, cells[0].0, cells[0].1).value;
      ReadCellsStoredValues(lines, first.1, cells[1..]);
      ReadCellsStep(lines, r, cells);
    }
  }

  /** One step of `ReadCells`: the first read, then the rest on the reader it
      leaves behind. */
  lemma ReadCellsStep<V>(lines: seq<Line<V>>, r: Reader<V>, cells: seq<(nat, nat)>)
    requires |cells| > 0
    requires GetIndex(lines, r, cells[0].0, cells[0].1).Ok?
    requires ReadCells(lines, GetIndex(lines, r, cells[0].0, cells[0].1).value.1, cells[1..]).Ok?
    ensures var first := GetIndex(lines, r, cells[0].0, cells[0].1).value;
      var rest := ReadCells(lines, first.1, cells[1..]).value;
      ReadCells(lines, r, cells) == Ok(([first.0] + rest.0, rest.1))
  {
  }

  /** In `get_interpolate`, the clamped lower-left cell keeps all four
      `get_index` calls in bounds once the grid is at least 2x2, so the call
      succeeds exactly when `index_pos` found the cell, and then the corners
      are the four stored values. */
  lemma GetInterpolateReadsCorners<V>(lines: seq<Line<V>>, r: Reader<V>, posFound: bool, kx: nat, ky: nat)
    requires Valid(lines, r)
    requires WellFormed(r.header, lines)
    requires r.header.ncols >= 2 && r.header.nrows >= 2
    requires r.header.nrows <= |lines|
    ensures var o := GetInterpolate(lines, r, true, posFound, kx, ky);
      var c := Min(kx, r.header.ncols - 2);
      var w := Min(ky, r.header.nrows - 2);
      var low := lines[r.header.nrows - 1 - w].values;
      var high := lines[r.header.nrows - 2 - w].values;
      && c + 1 < r.header.ncols && w + 1 < r.header.nrows
      && (o.Ok? <==> posFound)
      && (posFound ==>
            && o.value.0 == Some(Corners(low[c], low[c + 1], high[c], high[c + 1]))
            && Valid(lines, o.value.1))
  {
    if posFound {
      var c := Min(kx, r.header.ncols - 2);
      var w := Min(ky, r.header.nrows - 2);
      ReadCellsStoredValues(lines, r, CornerCells(w, c));
      StoredCorners(r.header, lines, w, c);
      GetInterpolateReadsBlock(lines, r, kx, ky);
    }
  }

  /** Inside a grid of at least 2x2 cells where `index_pos` succeeds,
      `get_interpolate` is the four `get_index` calls on the clamped block,
      when they all succeed. */
  lemma GetInterpolateReadsBlock<V>(lines: seq<Line<V>>, r: Reader<V>, kx: nat, ky: nat)
    requires r.header.ncols >= 2 && r.header.nrows >= 2
    requires ReadCells(lines, r, CornerCells(Min(ky, r.header.nrows - 2), Min(kx, r.header.ncols - 2))).Ok?
    ensures var read := ReadCells(lines, r, CornerCells(Min(ky, r.header.nrows - 2), Min(kx, r.header.ncols - 2))).value;
      GetInterpolate(lines, r, true, true, kx, ky) == Ok((Some(Corners(read.0[0], read.0[1], read.0[2], read.0[3])), read.1))
  {
  }

  /** The stored values of a 2x2 block, lower line first. */
  lemma StoredCorners<V>(h: Header, lines: seq<Line<V>>, w: nat, c: nat)
    requires WellFormed(h, lines) && h.nrows <= |lines|
    requires w + 1 < h.nrows && c + 1 < h.ncols
    ensures var low := lines[h.nrows - 1 - w].values;
      var high := lines[h.nrows - 2 - w].values;
      var vs := StoredValues(h, lines, CornerCells(w, c));
      |vs| == 4 && vs[0] == low[c] && vs[1] == low[c + 1] && vs[2] == high[c] && vs[3] == high[c + 1]
  {
  }

  /** The data lines of the 4x4 example grid in the reader's documentation:
      135.44000244140625 ends the first line and 141.2700042724609375 begins the last one. */
  function DocumentedLines(): (lines: seq<Line<real>>)
    ensures |lines| == 4 && WellFormed(Header(4, 4), lines)
  {
    [ Line([1.0, 2.0, 3.0, 135.44000244140625], 20),
      Line([4.0, 5.0, 6.0, 7.0], 20),
      Line([8.0, 9.0, 10.0, 11.0], 20),
      Line([141.2700042724609375, 12.0, 13.0, 14.0], 20) ]
  }

  /** On the example grid, raster cell (0, 0) is the first value of the LAST
      line and (3, 3) the last value of the FIRST line. */
  lemma DocumentedGrid()
    ensures var plain := FromFile(Header(4, 4), 60);
      && ValueOf(GetIndex(DocumentedLines(), plain, 0, 0)) == Ok(141.2700042724609375)
      && ValueOf(GetIndex(DocumentedLines(), plain, 3, 3)) == Ok(135.44000244140625)
  {
    var lines := DocumentedLines();
    var plain: Reader<real> := FromFile(Header(4, 4), 60);
    FromFileValid(Header(4, 4), 60, lines);
    GetIndexReadsPhysicalLine(lines, plain, 0, 0);
    GetIndexReadsPhysicalLine(lines, plain, 3, 3);
  }

  /** The same two cells after the index has been built. */
  lemma DocumentedGridIndexed(lines: seq<Line<real>>)
    // `lines` stands for the example grid instead of a literal call, so the
    // verifier does not evaluate the index scan over the concrete lines.
    requires lines == DocumentedLines()
    ensures var indexed := BuildIndex(lines, FromFile(Header(4, 4), 60));
      && indexed.Ok?
      && ValueOf(GetIndex(lines, indexed.value, 0, 0)) == Ok(141.2700042724609375)
      && ValueOf(GetIndex(lines, indexed.value, 3, 3)) == Ok(135.44000244140625)
  {
    var plain: Reader<real> := FromFile(Header(4, 4), 60);
    FromFileValid(Header(4, 4), 60, lines);
    BuildIndexKeepsValid(lines, plain);
    var indexed := BuildIndex(lines, plain).value;
    DocumentedGrid();
    IndexIsPureOptimisation(lines, indexed, plain, 0, 0);
    IndexIsPureOptimisation(lines, indexed, plain, 3, 3);
  }
}
