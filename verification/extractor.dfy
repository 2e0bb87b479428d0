/**
 * The multi-separator table extractor (src/pdf/pdf.service.ts, extractTable):
 * a block of lines is cut into header and row tokens with each of three
 * separators in turn, and the attempt with strictly more headers than the best
 * so far is kept, so on a tie the earlier separator stays.
 */
module Extractor {
  import opened JsText
  import opened Tables

  /** `/\s{2,}/`, `/\t/` and `/\|/` */
  datatype Separator = WhiteRun | Tab | Pipe

  /** The order in which the separators are tried. */
  const Separators: seq<Separator> := [WhiteRun, Tab, Pipe]

  /** `line.split(separator)` */
  function Split(line: string, sep: Separator): seq<string>
  {
    match sep
    case WhiteRun => SplitWhiteRuns(line)
    case Tab => SplitAt(line, '\t')
    case Pipe => SplitAt(line, '|')
  }

  /** `.filter(h => h)`: the empty string is the only falsy string. */
  function DropEmpty(parts: seq<string>): (r: seq<string>)
    ensures |r| <= |parts|
    ensures forall i :: 0 <= i < |r| ==> r[i] != "" && r[i] in parts
  {
    if |parts| == 0 then []
    else (if parts[0] != "" then [parts[0]] else []) + DropEmpty(parts[1..])
  }

  /** The filter keeps exactly the non-empty strings of its input. */
  lemma {:induction false} DropEmptyMembers(parts: seq<string>, x: string)
    ensures x in DropEmpty(parts) <==> x in parts && x != ""
  {
    if |parts| > 0 {
      DropEmptyMembers(parts[1..], x);
      assert parts == [parts[0]] + parts[1..];
    }
  }

  /** The filter keeps the input's order and repeats: it works piece by piece. */
  lemma {:induction false} DropEmptyAppend(a: seq<string>, b: seq<string>)
    ensures DropEmpty(a + b) == DropEmpty(a) + DropEmpty(b)
  {
    if |a| > 0 {
      var x := a[0];
      var head := if x != "" then [x] else [];
      assert (a + b)[0] == x && (a + b)[1..] == a[1..] + b;
      DropEmptyAppend(a[1..], b);
      var rest, tail := DropEmpty(a[1..]), DropEmpty(b);
      assert DropEmpty(a + b) == head + (rest + tail);
      assert DropEmpty(a) == head + rest;
      assert head + (rest + tail) == (head + rest) + tail;
    } else {
      assert a + b == b;
    }
  }

  /** On one piece the filter is its test. */
  lemma DropEmptySingle(x: string)
    ensures DropEmpty([x]) == if x != "" then [x] else []
  {
    assert [x][1..] == [];
  }

  /** `line.split(separator).map(h => h.trim()).filter(h => h)` */
  function HeaderCells(line: string, sep: Separator): seq<string>
  {
    DropEmpty(TrimAll(Split(line, sep)))
  }

  /** Every header token is trimmed and non-empty. */
  lemma HeaderCellsClean(line: string, sep: Separator)
    ensures forall i :: 0 <= i < |HeaderCells(line, sep)| ==>
      HeaderCells(line, sep)[i] != "" && IsTrimmed(HeaderCells(line, sep)[i])
  {
    var trimmed := TrimAll(Split(line, sep));
    TrimAllTrimmed(Split(line, sep));
    var r := DropEmpty(trimmed);
    assert forall i :: 0 <= i < |r| ==> r[i] in trimmed;
  }

  /** `line.split(separator).map(v => v.trim())`: empty tokens are kept, so positions line up with headers. */
  function ValueCells(line: string, sep: Separator): (r: seq<string>)
    ensures |r| == |Split(line, sep)|
    ensures forall i :: 0 <= i < |r| ==> IsTrimmed(r[i])
  {
    TrimAll(Split(line, sep))
  }

  /**
   * One pass of the `for (const separator of separators)` body. On an empty
   * block `lines[0]` is undefined, `split` throws, and the `catch` skips the
   * separator: that is the `None` case.
   */
  function Attempt(lines: seq<string>, sep: Separator): Option<Table>
  {
    if |lines| == 0 then None
    else
      var headers := HeaderCells(lines[0], sep);
      Some(Table(headers, RowsBy(headers, lines[1..], ValuesBy(sep))))
  }

  /** The cells of a body line under a separator, as the row builder reads them. */
  function ValuesBy(sep: Separator): string -> seq<string>
  {
    line => ValueCells(line, sep)
  }

  /** Every separator's attempt on a block, in the order they are tried. */
  function Attempts(lines: seq<string>): (r: seq<Option<Table>>)
    ensures |r| == |Separators|
    ensures forall k :: 0 <= k < |r| ==> r[k] == Attempt(lines, Separators[k])
  {
    [Attempt(lines, WhiteRun), Attempt(lines, Tab), Attempt(lines, Pipe)]
  }

  /** The number of headers an attempt produced; a skipped attempt counts as none. */
  function HeaderCount(attempt: Option<Table>): nat
  {
    match attempt
    case None => 0
    case Some(t) => |t.headers|
  }

  /** `if (headers.length > bestHeaders.length) { bestHeaders = headers; bestRows = rows; }` */
  function Better(best: Table, attempt: Option<Table>): (r: Table)
    ensures |r.headers| >= |best.headers| && |r.headers| >= HeaderCount(attempt)
    ensures r == best || attempt == Some(r)
    ensures HeaderCount(attempt) > |best.headers| ==> attempt == Some(r)
    ensures HeaderCount(attempt) <= |best.headers| ==> r == best
  {
    if HeaderCount(attempt) > |best.headers| then attempt.value else best
  }

  /** The best table after the given attempts, starting from `{ headers: [], rows: [] }`. */
  function BestOf(attempts: seq<Option<Table>>): Table
    decreases |attempts|
  {
    if |attempts| == 0 then Table([], [])
    else Better(BestOf(attempts[..|attempts| - 1]), attempts[|attempts| - 1])
  }

  /** What extractTable returns for a block of lines. */
  function ExtractedTable(lines: seq<string>): Table
  {
    BestOf(Attempts(lines))
  }

  /**
   * The attempt kept is the first one that reaches the largest header count; when
   * no attempt yields a header the result is the empty table.
   */
  lemma {:induction false} BestOfIsFirstMaximal(attempts: seq<Option<Table>>)
    ensures var r := BestOf(attempts);
      && (forall k :: 0 <= k < |attempts| ==> HeaderCount(attempts[k]) <= |r.headers|)
      && (|r.headers| == 0 ==> r == Table([], []))
      && (|r.headers| > 0 ==>
            exists k :: 0 <= k < |attempts| && attempts[k] == Some(r) &&
              forall j :: 0 <= j < k ==> HeaderCount(attempts[j]) < |r.headers|)
    decreases |attempts|
  {
    if |attempts| > 0 {
      var n := |attempts| - 1;
      var prefix := attempts[..n];
      var before := BestOf(prefix);
      BestOfIsFirstMaximal(prefix);
      assert forall k :: 0 <= k < n ==> prefix[k] == attempts[k];
      var r := BestOf(attempts);
      if |r.headers| > 0 && r != before {
        assert attempts[n] == Some(r);
      } else if |r.headers| > 0 {
        var k :| 0 <= k < n && prefix[k] == Some(before) &&
          forall j :: 0 <= j < k ==> HeaderCount(prefix[j]) < |before.headers|;
        assert attempts[k] == Some(r);
      }
    }
  }

  /**
   * Every attempt's shape: skipped exactly on an empty block; otherwise the
   * headers are the trimmed non-empty tokens of the first line, and there is one
   * row per later line, with an entry for every header holding that line's
   * trimmed token at the header's last index.
   */
  lemma AttemptShape(lines: seq<string>, sep: Separator)
    ensures Attempt(lines, sep).None? <==> |lines| == 0
    ensures |lines| > 0 ==> var t := Attempt(lines, sep).value;
      && t.headers == HeaderCells(lines[0], sep)
      && (forall j :: 0 <= j < |t.headers| ==> t.headers[j] != "" && IsTrimmed(t.headers[j]))
      && FilledFrom(t.rows, t.headers, lines[1..], ValuesBy(sep))
  {
    if |lines| > 0 {
      HeaderCellsClean(lines[0], sep);
      RowsByCells(HeaderCells(lines[0], sep), lines[1..], ValuesBy(sep));
    }
  }

  /**
   * extractTable's result: every header is trimmed and non-empty; with at least
   * one header it is the attempt of one of the separators, so there is one row
   * per line after the first, each with an entry for exactly the headers holding
   * that line's token under that separator; with none, there are no rows either.
   */
  lemma ExtractedTableShape(lines: seq<string>)
    ensures var t := ExtractedTable(lines);
      && (forall i :: 0 <= i < |t.headers| ==> t.headers[i] != "" && IsTrimmed(t.headers[i]))
      && (|t.headers| > 0 ==> |t.rows| == |lines| - 1)
      && (|t.headers| == 0 ==> t.rows == [])
      && (forall i, h :: 0 <= i < |t.rows| ==> (h in t.rows[i] <==> h in t.headers))
      && (|t.headers| > 0 ==>
            exists k :: 0 <= k < |Separators| && Attempt(lines, Separators[k]) == Some(t) &&
              FilledFrom(t.rows, t.headers, lines[1..], ValuesBy(Separators[k])))
  {
    var t := ExtractedTable(lines);
    var attempts := Attempts(lines);
    BestOfIsFirstMaximal(attempts);
    if |t.headers| > 0 {
      var k :| 0 <= k < |attempts| && attempts[k] == Some(t) &&
        forall j :: 0 <= j < k ==> HeaderCount(attempts[j]) < |t.headers|;
      assert Attempt(lines, Separators[k]) == Some(t);
      AttemptShape(lines, Separators[k]);
    }
  }

  /** Adding one attempt at the end compares it with the best so far. */
  lemma BestOfSnoc(attempts: seq<Option<Table>>, attempt: Option<Table>)
    ensures BestOf(attempts + [attempt]) == Better(BestOf(attempts), attempt)
  {
    assert (attempts + [attempt])[..|attempts|] == attempts;
  }

  /** One turn of the separator loop: the best table after separator `s` compares its attempt with the best before it. */
  lemma ExtractStep(lines: seq<string>, s: nat)
    requires s < |Separators|
    ensures BestOf(Attempts(lines)[..s + 1]) == Better(BestOf(Attempts(lines)[..s]), Attempt(lines, Separators[s]))
  {
    var attempts := Attempts(lines);
    assert attempts[..s + 1] == attempts[..s] + [attempts[s]];
    BestOfSnoc(attempts[..s], attempts[s]);
  }

  /** The extractor as the source runs it: a loop over the separators, keeping the best attempt. */
  method ExtractTable(lines: seq<string>) returns (table: Table)
    ensures table == ExtractedTable(lines)
  {
    var bestHeaders: seq<string> := [];
    var bestRows: seq<Row> := [];
    for s := 0 to |Separators|
      invariant Table(bestHeaders, bestRows) == BestOf(Attempts(lines)[..s])
    {
      ExtractStep(lines, s);
      bestHeaders, bestRows := TrySeparator(lines, Separators[s], bestHeaders, bestRows);
    }
    assert Attempts(lines)[..|Separators|] == Attempts(lines);
    table := Table(bestHeaders, bestRows);
  }

  /**
   * The `try` block for one separator: header tokens from the first line, a
   * row object per later line, kept when there are more headers than the best
   * so far. With no lines, `lines[0].split` throws and the `catch` moves on.
   */
  method TrySeparator(lines: seq<string>, separator: Separator, bestHeaders: seq<string>, bestRows: seq<Row>)
    returns (newHeaders: seq<string>, newRows: seq<Row>)
    ensures Table(newHeaders, newRows) == Better(Table(bestHeaders, bestRows), Attempt(lines, separator))
  {
    newHeaders, newRows := bestHeaders, bestRows;
    if |lines| == 0 {
      return;
    }
    var headers := HeaderCells(lines[0], separator);
    var rows := BuildRows(headers, lines[1..], separator);
    if |headers| > |bestHeaders| {
      newHeaders, newRows := headers, rows;
    }
  }

  /** `for (let i = 1; i < lines.length; i++)`: the row objects for the lines after the header line. */
  method BuildRows(headers: seq<string>, body: seq<string>, separator: Separator) returns (rows: seq<Row>)
    ensures rows == RowsBy(headers, body, ValuesBy(separator))
  {
    rows := [];
    for i := 0 to |body|
      invariant rows == RowsBy(headers, body[..i], ValuesBy(separator))
    {
      var values := ValueCells(body[i], separator);
      var row := BuildRow(headers, values);
      RowsBySnoc(headers, body, ValuesBy(separator), i);
      rows := rows + [row];
    }
    assert body[..|body|] == body;
  }
}
