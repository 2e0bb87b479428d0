/**
 * The column-aligned table finder (src/pdf/pdf.service.ts,
 * findColumnAlignedTables, extractTableWithColumns and splitLineByPositions):
 * the lines that line up with the detected column starts are cut at those
 * offsets into one table. The header cells are trimmed, but each row object is
 * keyed by the untrimmed header segments.
 */
module ColumnTables {
  import opened JsText
  import opened Tables
  import opened ColumnPositions

  /** `i < positions.length - 1 ? positions[i + 1] : line.length` */
  function SegmentEnd(line: string, ps: seq<nat>, i: nat): nat
    requires i < |ps|
  {
    if i < |ps| - 1 then ps[i + 1] else |line|
  }

  /** The result of splitLineByPositions: `line.slice(positions[i], end)` for every position. */
  function Segments(line: string, ps: seq<nat>): (r: seq<string>)
    ensures |r| == |ps|
    ensures forall i :: 0 <= i < |ps| ==> r[i] == Slice(line, ps[i], SegmentEnd(line, ps, i))
  {
    seq(|ps|, i requires 0 <= i < |ps| => Slice(line, ps[i], SegmentEnd(line, ps, i)))
  }

  /** splitLineByPositions: one slice per position, pushed in order. */
  method SplitLineByPositions(line: string, positions: seq<nat>) returns (parts: seq<string>)
    ensures parts == Segments(line, positions)
  {
    parts := [];
    for i := 0 to |positions|
      invariant |parts| == i
      invariant forall k :: 0 <= k < i ==> parts[k] == Slice(line, positions[k], SegmentEnd(line, positions, k))
    {
      var start := positions[i];
      var end := if i < |positions| - 1 then positions[i + 1] else |line|;
      parts := parts + [Slice(line, start, end)];
    }
  }

  /** An offset moved into `0..|line|`, as `slice` does. */
  function Clamp(line: string, p: nat): (q: nat)
    ensures q <= |line|
  {
    if p < |line| then p else |line|
  }

  function Concat(parts: seq<string>): string
  {
    if |parts| == 0 then "" else parts[0] + Concat(parts[1..])
  }

  /** A slice between ordered offsets is the text between the clamped offsets. */
  lemma SliceClamped(line: string, start: nat, end: nat)
    requires start <= end || |line| <= end
    ensures Slice(line, start, end) == line[Clamp(line, start)..Clamp(line, end)]
  {
  }

  /** Cutting at the first position and then at the rest. */
  lemma SegmentsCons(line: string, ps: seq<nat>)
    requires |ps| >= 2
    ensures Segments(line, ps) == [Slice(line, ps[0], ps[1])] + Segments(line, ps[1..])
  {
    var r := Segments(line, ps);
    var expected := [Slice(line, ps[0], ps[1])] + Segments(line, ps[1..]);
    forall i | 0 <= i < |r| ensures r[i] == expected[i] {
      if i > 0 {
        SegmentsTailAt(line, ps, i - 1);
      }
    }
    assert r == expected;
  }

  lemma SegmentsTailAt(line: string, ps: seq<nat>, i: nat)
    requires |ps| >= 2 && i < |ps| - 1
    ensures Segments(line, ps)[i + 1] == Segments(line, ps[1..])[i]
  {
    assert ps[1..][i] == ps[i + 1];
    assert SegmentEnd(line, ps[1..], i) == SegmentEnd(line, ps, i + 1);
  }

  /**
   * With ascending positions the segments cut the line without loss or overlap:
   * joined back together they give the line from the first position on.
   */
  lemma {:induction false} SegmentsCover(line: string, ps: seq<nat>)
    requires |ps| > 0 && StrictlyIncreasing(ps)
    ensures Concat(Segments(line, ps)) == line[Clamp(line, ps[0])..]
    decreases |ps|
  {
    var r := Segments(line, ps);
    if |ps| == 1 {
      SliceClamped(line, ps[0], |line|);
      assert r == [r[0]];
    } else {
      SegmentsCons(line, ps);
      var tail := ps[1..];
      assert StrictlyIncreasing(tail);
      SegmentsCover(line, tail);
      SliceClamped(line, ps[0], ps[1]);
      assert r[1..] == Segments(line, tail);
      SliceJoin(line, Clamp(line, ps[0]), Clamp(line, ps[1]));
    }
  }

  lemma SliceJoin(line: string, a: nat, b: nat)
    requires a <= b <= |line|
    ensures line[a..b] + line[b..] == line[a..]
  {
  }

  /** `values[index]?.trim() || ''` for every index: the trimmed segments of a line. */
  function ColumnCells(line: string, ps: seq<nat>): seq<string>
  {
    TrimAll(Segments(line, ps))
  }

  /** The cutting of one row line, as a function of the line. */
  function CellsAt(ps: seq<nat>): string -> seq<string>
  {
    line => ColumnCells(line, ps)
  }

  /** What extractTableWithColumns returns: the trimmed header segments, and one row per later line. */
  function ColumnTable(lines: seq<string>, ps: seq<nat>): Table
    requires |lines| >= 1
  {
    var keys := Segments(lines[0], ps);
    Table(TrimAll(keys), RowsBy(keys, lines[1..], CellsAt(ps)))
  }

  /**
   * The table has a trimmed header per position and a row per line after the
   * first. Row `i` has exactly the raw header segments as keys, header `j` is
   * the trim of key `j`, and key `j` (unless a later key repeats it) holds the
   * trimmed segment `j` of line `i + 1`.
   */
  lemma ColumnTableShape(lines: seq<string>, ps: seq<nat>)
    requires |lines| >= 1
    ensures var t := ColumnTable(lines, ps);
      var keys := Segments(lines[0], ps);
      && |t.headers| == |ps|
      && (forall j :: 0 <= j < |ps| ==> t.headers[j] == Trim(keys[j]) && IsTrimmed(t.headers[j]))
      && |t.rows| == |lines| - 1
      && (forall i, k :: 0 <= i < |t.rows| ==> (k in t.rows[i] <==> k in keys))
      && (forall i, j :: 0 <= i < |t.rows| && 0 <= j < |ps| && LastOccurrence(keys, j) ==>
            keys[j] in t.rows[i] && t.rows[i][keys[j]] == Trim(Segments(lines[i + 1], ps)[j]))
  {
    var t := ColumnTable(lines, ps);
    var keys := Segments(lines[0], ps);
    forall i | 0 <= i < |t.rows|
      ensures t.rows[i] == ZipRow(keys, ColumnCells(lines[i + 1], ps))
    {
      RowsByAt(keys, lines[1..], CellsAt(ps), i);
    }
  }

  /** One turn of the row loop: the row built from line `i` extends the rows of the lines before it. */
  lemma ColumnRowStep(keys: seq<string>, body: seq<string>, ps: seq<nat>, i: nat, row: Row)
    requires i < |body| && row == ZipRow(keys, TrimAll(Segments(body[i], ps)))
    ensures RowsBy(keys, body[..i + 1], CellsAt(ps)) == RowsBy(keys, body[..i], CellsAt(ps)) + [row]
  {
    assert CellsAt(ps)(body[i]) == TrimAll(Segments(body[i], ps));
    RowsBySnoc(keys, body, CellsAt(ps), i);
  }

  /** extractTableWithColumns; the caller always passes two lines or more. */
  method ExtractTableWithColumns(lines: seq<string>, positions: seq<nat>) returns (table: Table)
    requires |lines| >= 1
    ensures table == ColumnTable(lines, positions)
  {
    var headers := SplitLineByPositions(lines[0], positions);
    var body := lines[1..];
    var rows: seq<Row> := [];
    for i := 0 to |body|
      invariant rows == RowsBy(headers, body[..i], CellsAt(positions))
    {
      var values := SplitLineByPositions(body[i], positions);
      var row := BuildRow(headers, TrimAll(values));
      ColumnRowStep(headers, body, positions, i, row);
      rows := rows + [row];
    }
    assert body[..|body|] == body;
    table := Table(TrimAll(headers), rows);
  }

  /** `countColumnAlignments(line, columnPositions) >= columnPositions.length - 1` */
  predicate IsAligned(line: string, ps: seq<nat>)
  {
    AlignedCount(line, ps) >= |ps| - 1
  }

  /** `lines.filter(...)` with the alignment test, order kept. */
  function AlignedLines(lines: seq<string>, ps: seq<nat>): (r: seq<string>)
    ensures |r| <= |lines|
  {
    if |lines| == 0 then []
    else (if IsAligned(lines[0], ps) then [lines[0]] else []) + AlignedLines(lines[1..], ps)
  }

  /** The filter keeps exactly the aligned lines. */
  lemma {:induction false} AlignedLinesMembers(lines: seq<string>, ps: seq<nat>)
    ensures forall x :: x in AlignedLines(lines, ps) <==> x in lines && IsAligned(x, ps)
  {
    if |lines| > 0 {
      AlignedLinesMembers(lines[1..], ps);
      assert lines == [lines[0]] + lines[1..];
    }
  }

  /** The filter keeps the input's order and repeats: it works piece by piece. */
  lemma {:induction false} AlignedLinesAppend(a: seq<string>, b: seq<string>, ps: seq<nat>)
    ensures AlignedLines(a + b, ps) == AlignedLines(a, ps) + AlignedLines(b, ps)
  {
    if |a| > 0 {
      var x := a[0];
      var head := if IsAligned(x, ps) then [x] else [];
      assert (a + b)[0] == x && (a + b)[1..] == a[1..] + b;
      AlignedLinesAppend(a[1..], b, ps);
      var rest, tail := AlignedLines(a[1..], ps), AlignedLines(b, ps);
      assert AlignedLines(a + b, ps) == head + (rest + tail);
      assert AlignedLines(a, ps) == head + rest;
      assert head + (rest + tail) == (head + rest) + tail;
    } else {
      assert a + b == b;
    }
  }

  /** On one piece the filter is its test. */
  lemma AlignedLinesSingle(x: string, ps: seq<nat>)
    ensures AlignedLines([x], ps) == if IsAligned(x, ps) then [x] else []
  {
    assert [x][1..] == [];
  }

  /** What findColumnAlignedTables returns. */
  function ColumnAlignedTables(lines: seq<string>): seq<Table>
  {
    var ps := SortedElements(ColumnStarts(lines));
    if |ps| > 1 then
      var tableLines := AlignedLines(lines, ps);
      if |tableLines| >= 2 then
        var table := ColumnTable(tableLines, ps);
        if |table.headers| > 0 then [table] else []
      else []
    else []
  }

  /** findColumnAlignedTables */
  method FindColumnAlignedTables(lines: seq<string>) returns (tables: seq<Table>)
    ensures tables == ColumnAlignedTables(lines)
  {
    tables := [];
    var columnPositions := DetectColumnPositions(lines);
    if |columnPositions| > 1 {
      var tableLines := AlignedLines(lines, columnPositions);
      if |tableLines| >= 2 {
        var table := ExtractTableWithColumns(tableLines, columnPositions);
        if |table.headers| > 0 {
          tables := [table];
        }
      }
    }
  }

  /**
   * There is at most one column table. There is none exactly when fewer than
   * two column starts were found or fewer than two lines align with them; the
   * header test never drops the table, since it has a header per column.
   * Otherwise the table is cut from the aligned lines, with a row for each
   * aligned line after the first.
   */
  lemma ColumnAlignedTablesShape(lines: seq<string>)
    ensures var ps := SortedElements(ColumnStarts(lines));
      var tableLines := AlignedLines(lines, ps);
      var r := ColumnAlignedTables(lines);
      && (r == [] || r == [ColumnTable(tableLines, ps)])
      && (r == [] <==> |ps| < 2 || |tableLines| < 2)
      && (r != [] ==> |r[0].headers| == |ps| && |r[0].rows| == |tableLines| - 1 >= 1)
  {
    var ps := SortedElements(ColumnStarts(lines));
    var tableLines := AlignedLines(lines, ps);
    if |ps| > 1 && |tableLines| >= 2 {
      ColumnTableShape(tableLines, ps);
    }
  }

  /** Every table findColumnAlignedTables returns has headers and at least one row. */
  lemma ColumnTableComplete(lines: seq<string>, t: Table)
    requires t in ColumnAlignedTables(lines)
    ensures |t.headers| > 0 && |t.rows| >= 1
  {
    ColumnAlignedTablesShape(lines);
  }
}
