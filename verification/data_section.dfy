/** The data section of an Esri ASCII grid file, seen as a sequence of physical
    lines, together with the two scans the reader performs over it: seeking to a
    byte offset and recording where each line starts. */
module DataSection {
  import opened Outcomes

  /** One physical line: the cell values its text parses to, and the number of
      bytes of that text, not counting the newline that ends it. */
  datatype Line<+V> = Line(values: seq<V>, width: nat)

  /** Bytes taken by `lines`, each followed by its newline. */
  function Span<V>(lines: seq<Line<V>>): nat
  {
    if |lines| == 0 then 0 else lines[0].width + 1 + Span(lines[1..])
  }

  /** Byte offset of physical line `i` (counted from the top) when the first
      line begins at byte `base`: `base` plus the sizes of the earlier lines. */
  function LineStart<V>(lines: seq<Line<V>>, base: nat, i: nat): nat
    requires i <= |lines|
  {
    base + Span(lines[..i])
  }

  /** Dropping the first line moves the origin past it. */
  lemma LineStartTail<V>(lines: seq<Line<V>>, base: nat, i: nat)
    requires 0 < i <= |lines|
    ensures LineStart(lines, base, i) == LineStart(lines[1..], base + lines[0].width + 1, i - 1)
    ensures LineStart(lines, base, i) > base
  {
    assert lines[..i][1..] == lines[1..][..i - 1];
  }

  /** The lines a reader returns after seeking to byte `off`, when the lines
      `lines` begin at byte `pos`. `None` when `off` falls inside a line or
      before `pos`: such positions are never produced by the reader and the
      model does not describe what a read from them returns. */
  function SeekLines<V>(lines: seq<Line<V>>, pos: nat, off: nat): (o: Option<seq<Line<V>>>)
    ensures o.Some? ==> |o.value| <= |lines|
    ensures o.Some? ==> off >= pos
    decreases |lines|
  {
    if off == pos then Some(lines)
    else if off < pos || |lines| == 0 then None
    else SeekLines(lines[1..], pos + lines[0].width + 1, off)
  }

  /** Seeking to the start of line `i` resumes reading exactly at line `i`. */
  lemma {:induction false} SeekLinesAtLineStart<V>(lines: seq<Line<V>>, base: nat, i: nat)
    requires i <= |lines|
    ensures SeekLines(lines, base, LineStart(lines, base, i)) == Some(lines[i..])
    decreases i
  {
    if i == 0 {
      assert lines[..0] == [];
    } else {
      LineStartTail(lines, base, i);
      SeekLinesAtLineStart(lines[1..], base + lines[0].width + 1, i - 1);
      assert lines[1..][i - 1..] == lines[i..];
    }
  }

  /** The loop of `build_index` (src/ascii_file.rs:59-66): while fewer than `n`
      offsets are recorded, record the current position and read one line,
      failing with `UnexpectedEof` when no line is left. */
  function ScanStarts<V>(lines: seq<Line<V>>, pos: nat, n: nat): (o: Outcome<seq<nat>>)
    ensures o.Ok? <==> n <= |lines|
    ensures !o.Ok? ==> o == Err(UnexpectedEof)
    ensures o.Ok? ==> |o.value| == n
    ensures o.Ok? ==> forall i :: 0 <= i < n ==> o.value[i] == LineStart(lines, pos, i)
    decreases n
  {
    if n == 0 then Ok([])
    else if |lines| == 0 then Err(UnexpectedEof)
    else
      var tail := ScanStarts(lines[1..], pos + lines[0].width + 1, n - 1);
      if tail.Ok? then
        assert LineStart(lines, pos, 0) == pos by { assert lines[..0] == []; }
        assert forall i :: 1 <= i < n ==> tail.value[i - 1] == LineStart(lines, pos, i) by {
          forall i | 1 <= i < n {
            LineStartTail(lines, pos, i);
          }
        }
        Ok([pos] + tail.value)
      else tail
  }

  /** `Vec::reverse`. */
  function Reverse<T>(s: seq<T>): (r: seq<T>)
    ensures |r| == |s|
    ensures forall i :: 0 <= i < |s| ==> r[i] == s[|s| - 1 - i]
  {
    if |s| == 0 then [] else Reverse(s[1..]) + [s[0]]
  }
}
