/** The random-access engine of `EsriASCIIReader` (src/ascii_file.rs): the
    row cache, the optional row-offset index, and the lookups served from them.

    Rows are counted two ways. A *raster row* is bottom-up: row 0 is the
    southernmost row. A *physical line* is top-down: line 0 is the first line of
    the data section. Raster row `row` is stored on physical line
    `nrows - 1 - row`. */
module AsciiReader {
  import opened Outcomes
  import opened DataSection

  /** The two header fields this engine reads. */
  datatype Header = Header(ncols: nat, nrows: nat)

  /** The reader's state. `lineCache` maps a raster row to the values parsed
      from its line; `lineStartCache` holds, per raster row, the byte offset of
      its line, and is empty while no index has been built; `dataStart` is the
      byte offset of the first data line. */
  datatype Reader<V> = Reader(
    header: Header,
    dataStart: nat,
    lineCache: map<nat, seq<V>>,
    lineStartCache: seq<nat>)

  /** The physical line that holds raster row `row`. The flip is its own inverse. */
  function PhysicalLine(h: Header, row: nat): (k: nat)
    requires row < h.nrows
    ensures k < h.nrows
    ensures h.nrows - 1 - k == row
  {
    h.nrows - 1 - row
  }

  /** Every data line the header accounts for holds exactly `ncols` values. */
  ghost predicate WellFormed<V>(h: Header, lines: seq<Line<V>>)
  {
    forall i :: 0 <= i < |lines| && i < h.nrows ==> |lines[i].values| == h.ncols
  }

  /** Every cached row holds the values of that row's physical line. */
  ghost predicate CacheFaithful<V>(lines: seq<Line<V>>, r: Reader<V>)
  {
    forall row :: row in r.lineCache ==>
      && row < r.header.nrows
      && PhysicalLine(r.header, row) < |lines|
      && r.lineCache[row] == lines[PhysicalLine(r.header, row)].values
  }

  /** The index is either absent, or holds for every raster row the byte
      offset at which that row's physical line starts. */
  ghost predicate IndexFaithful<V>(lines: seq<Line<V>>, r: Reader<V>)
  {
    || |r.lineStartCache| == 0
    || (&& |r.lineStartCache| == r.header.nrows
        && r.header.nrows <= |lines|
        && forall row :: 0 <= row < r.header.nrows ==>
             r.lineStartCache[row] == LineStart(lines, r.dataStart, PhysicalLine(r.header, row)))
  }

  /** The reader's caches agree with the data section `lines`, which begins at
      byte `r.dataStart`. */
  ghost predicate Valid<V>(lines: seq<Line<V>>, r: Reader<V>)
  {
    CacheFaithful(lines, r) && IndexFaithful(lines, r)
  }

  /** `from_file` after the header has been parsed: both caches start empty. */
  function FromFile<V>(h: Header, dataStart: nat): Reader<V>
  {
    Reader(h, dataStart, map[], [])
  }

  /** A freshly opened reader agrees with whatever data section follows its header. */
  lemma FromFileValid<V>(h: Header, dataStart: nat, lines: seq<Line<V>>)
    ensures Valid(lines, FromFile(h, dataStart))
  {
  }

  /** `build_index` as written: it scans only while the ROW cache is empty,
      and keeps the state when the scan fails. */
  function BuildIndex<V>(lines: seq<Line<V>>, r: Reader<V>): (o: Outcome<Reader<V>>)
    ensures !o.Panic?
    ensures |r.lineCache| != 0 ==> o == Ok(r)
    ensures |r.lineCache| == 0 ==> (o.Ok? <==> r.header.nrows <= |lines|)
    ensures o.Err? ==> o.kind == UnexpectedEof
    ensures o.Ok? ==> o.value.(lineStartCache := r.lineStartCache) == r
    ensures o.Ok? && |r.lineCache| == 0 ==>
      && |o.value.lineStartCache| == r.header.nrows
      && forall row :: 0 <= row < r.header.nrows ==>
           o.value.lineStartCache[row] == LineStart(lines, r.dataStart, PhysicalLine(r.header, row))
  {
    if |r.lineCache| == 0 then Scan(lines, r) else Ok(r)
  }

  /** `build_index` with the guard on `line_start_cache` instead of
      `line_cache`: it scans only while no index exists, so the index that the
      doc comment at src/ascii_file.rs:48-50 promises exists after every
      successful call (see "Findings" in README.md). */
  function BuildIndexIntended<V>(lines: seq<Line<V>>, r: Reader<V>): (o: Outcome<Reader<V>>)
    ensures !o.Panic?
    ensures |r.lineStartCache| != 0 ==> o == Ok(r)
    ensures |r.lineStartCache| == 0 ==> (o.Ok? <==> r.header.nrows <= |lines|)
    ensures o.Err? ==> o.kind == UnexpectedEof
    ensures o.Ok? ==> o.value.(lineStartCache := r.lineStartCache) == r
    ensures o.Ok? && |r.lineStartCache| == 0 ==>
      && |o.value.lineStartCache| == r.header.nrows
      && forall row :: 0 <= row < r.header.nrows ==>
           o.value.lineStartCache[row] == LineStart(lines, r.dataStart, PhysicalLine(r.header, row))
  {
    if |r.lineStartCache| == 0 then Scan(lines, r) else Ok(r)
  }

  /** The body of `build_index`: record the start of each of the first `nrows`
      lines top-down, then reverse the list so it is indexed by raster row. */
  function Scan<V>(lines: seq<Line<V>>, r: Reader<V>): (o: Outcome<Reader<V>>)
    ensures !o.Panic?
    ensures o.Ok? <==> r.header.nrows <= |lines|
    ensures o.Err? ==> o.kind == UnexpectedEof
    ensures o.Ok? ==> o.value.(lineStartCache := r.lineStartCache) == r
    ensures o.Ok? ==>
      && |o.value.lineStartCache| == r.header.nrows
      && forall row :: 0 <= row < r.header.nrows ==>
           o.value.lineStartCache[row] == LineStart(lines, r.dataStart, PhysicalLine(r.header, row))
  {
    match ScanStarts(lines, r.dataStart, r.header.nrows)
    case Ok(starts) => Ok(r.(lineStartCache := Reverse(starts)))
    case Err(kind) => Err(kind)
    case Panic => Panic
  }

  /** The line a cache miss reads for raster row `row`: without an index, the
      reader seeks to the data start and takes the `nrows - 1 - row`-th line;
      with one, it seeks to the recorded offset and takes the next line.
      `None` where the Rust code unwraps an exhausted line iterator. */
  function FetchLine<V>(lines: seq<Line<V>>, r: Reader<V>, row: nat): Option<Line<V>>
    requires row < r.header.nrows
  {
    if |r.lineStartCache| == 0 then
      var k := PhysicalLine(r.header, row);
      if k < |lines| then Some(lines[k]) else None
    else if row < |r.lineStartCache| then
      match SeekLines(lines, r.dataStart, r.lineStartCache[row])
      case Some(rest) => if |rest| > 0 then Some(rest[0]) else None
      case None => None
    else None
  }

  /** `get_index(row, col)`: bounds check, then the row cache, then a read of
      the row's line (through the index when there is one), whose values are
      cached before the requested one is returned. */
  function GetIndex<V>(lines: seq<Line<V>>, r: Reader<V>, row: nat, col: nat): (o: Outcome<(V, Reader<V>)>)
    ensures o.Err? <==> row >= r.header.nrows || col >= r.header.ncols
    ensures o.Err? ==> o.kind == InvalidInput
    ensures o.Ok? ==>
      var (v, r') := o.value;
      && r'.(lineCache := r.lineCache) == r
      && row in r'.lineCache
      && r'.lineCache == r.lineCache[row := r'.lineCache[row]]
      && (row in r.lineCache ==> r'.lineCache[row] == r.lineCache[row])
      && col < |r'.lineCache[row]|
      && v == r'.lineCache[row][col]
    ensures o.Ok? && row in r.lineCache ==> o.value.1 == r
  {
    if row >= r.header.nrows || col >= r.header.ncols then Err(InvalidInput)
    else if row in r.lineCache then
      var values := r.lineCache[row];
      if col < |values| then Ok((values[col], r)) else Panic
    else
      match FetchLine(lines, r, row)
      case None => Panic
      case Some(line) =>
        var r' := r.(lineCache := r.lineCache[row := line.values]);
        if col < |line.values| then Ok((line.values[col], r')) else Panic
  }

  /** What a caller of `get_index` observes, with the reader state dropped. */
  function ValueOf<V>(o: Outcome<(V, Reader<V>)>): Outcome<V>
  {
    match o
    case Ok((v, _)) => Ok(v)
    case Err(kind) => Err(kind)
    case Panic => Panic
  }

  /** `get(x, y)`. `cell` is what the header's `index_of` returned for the
      coordinate: `None` outside the raster, otherwise `(col, row)`. The lookup
      is delegated to `get_index`, whose error is unwrapped. */
  function Get<V>(lines: seq<Line<V>>, r: Reader<V>, cell: Option<(nat, nat)>): (o: Outcome<(Option<V>, Reader<V>)>)
    ensures !o.Err?
    ensures cell.None? <==> (o.Ok? && o.value.0.None?)
    ensures cell.None? ==> o.value.1 == r
    ensures o.Ok? && o.value.0.Some? ==>
      GetIndex(lines, r, cell.value.1, cell.value.0) == Ok((o.value.0.value, o.value.1))
    ensures cell.Some? ==> (o.Ok? <==> GetIndex(lines, r, cell.value.1, cell.value.0).Ok?)
  {
    match cell
    case None => Ok((None, r))
    case Some((col, row)) =>
      match GetIndex(lines, r, row, col)
      case Ok((v, r')) => Ok((Some(v), r'))
      case _ => Panic
  }

  /** The four cells around an interpolation point. */
  datatype Corners<V> = Corners(ll: V, lr: V, ul: V, ur: V)

  /** The `get_index(row, col).unwrap()` calls of `get_interpolate`, made in
      order on the cells `(row, col)` of `cells`, each on the reader the
      previous one left behind. */
  function ReadCells<V>(lines: seq<Line<V>>, r: Reader<V>, cells: seq<(nat, nat)>): (o: Outcome<(seq<V>, Reader<V>)>)
    ensures !o.Err?
    ensures o.Ok? ==> |o.value.0| == |cells| && o.value.1.header == r.header
    ensures o.Ok? ==> forall i :: 0 <= i < |cells| ==> cells[i].0 < r.header.nrows && cells[i].1 < r.header.ncols
    decreases |cells|
  {
    if |cells| == 0 then Ok(([], r))
    else
      match GetIndex(lines, r, cells[0].0, cells[0].1)
      case Ok((v, r1)) => (
        var rest := ReadCells(lines, r1, cells[1..]);
        if rest.Ok? then Ok(([v] + rest.value.0, rest.value.1)) else Panic)
      case _ => Panic
  }

  /** The integer part of `get_interpolate(x, y)`: `inside` is the outcome of
      the bounding-box test, and `kx`, `ky` are the floored offsets of the point
      from the lower-left origin, in cells. The lower-left cell of the 2x2 block
      is clamped to `ncols - 2` / `nrows - 2`. `posFound` says whether the
      header's `index_pos` gave a position for that cell; its `unwrap` panics
      otherwise. Then the four corners are read with `get_index` in the order
      ll, lr, ul, ur. */
  function GetInterpolate<V>(lines: seq<Line<V>>, r: Reader<V>, inside: bool, posFound: bool, kx: nat, ky: nat)
    : (o: Outcome<(Option<Corners<V>>, Reader<V>)>)
    ensures !o.Err?
    ensures !inside <==> (o.Ok? && o.value.0.None?)
    ensures !inside ==> o.value.1 == r
    ensures inside && !posFound ==> o.Panic?
    ensures o.Ok? && o.value.0.Some? ==> posFound && r.header.ncols >= 2 && r.header.nrows >= 2
  {
    if !inside then Ok((None, r))
    else if r.header.ncols < 2 || r.header.nrows < 2 then Panic
    else if !posFound then Panic
    else
      var c := Min(kx, r.header.ncols - 2);
      var w := Min(ky, r.header.nrows - 2);
      match ReadCells(lines, r, CornerCells(w, c))
      case Ok((vs, r')) => Ok((Some(Corners(vs[0], vs[1], vs[2], vs[3])), r'))
      case _ => Panic
  }

  /** The 2x2 block whose lower-left cell is raster row `w`, column `c`, in the
      order ll, lr, ul, ur. */
  function CornerCells(w: nat, c: nat): seq<(nat, nat)>
  {
    [(w, c), (w, c + 1), (w + 1, c), (w + 1, c + 1)]
  }
}
