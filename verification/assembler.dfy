/**
 * The entry point of the table detector (src/pdf/pdf.service.ts,
 * detectTablesAdvanced): the text is cut into its non-blank lines, both
 * finders run on them, and the tables with headers and rows are returned,
 * those of the whitespace-gap finder first.
 */
module Assembler {
  import opened JsText
  import opened LineClassifier
  import opened Tables
  import opened GapFinder
  import opened ColumnTables

  /** `text.split('\n').filter(line => line.trim())` */
  function NonBlankLines(text: string): (r: seq<string>)
    ensures |r| <= |SplitAt(text, '\n')|
  {
    KeepNonBlank(SplitAt(text, '\n'))
  }

  /** The lines the finders see are exactly the lines of the text that are not all whitespace. */
  lemma NonBlankLinesMembers(text: string, line: string)
    ensures line in NonBlankLines(text) <==> line in SplitAt(text, '\n') && !IsBlank(line)
    ensures line in NonBlankLines(text) ==> '\n' !in line && Trim(line) != ""
  {
    KeepNonBlankMembers(SplitAt(text, '\n'), line);
  }

  /**
   * The kept lines come in text order: the non-blank lines of two texts joined
   * by a line break are those of the first followed by those of the second.
   */
  lemma NonBlankLinesAppend(a: string, b: string)
    ensures NonBlankLines(a + "\n" + b) == NonBlankLines(a) + NonBlankLines(b)
  {
    var pa, pb := SplitAt(a, '\n'), SplitAt(b, '\n');
    JoinSplitAt(a, '\n');
    JoinSplitAt(b, '\n');
    JoinAppend(pa, pb, '\n');
    assert a + "\n" + b == Join(pa + pb, '\n');
    assert forall i :: 0 <= i < |pa + pb| ==> '\n' !in (pa + pb)[i] by {
      forall i | 0 <= i < |pa + pb| ensures '\n' !in (pa + pb)[i] {
        if i < |pa| { assert (pa + pb)[i] == pa[i]; } else { assert (pa + pb)[i] == pb[i - |pa|]; }
      }
    }
    SplitAtJoin(pa + pb, '\n');
    KeepNonBlankAppend(pa, pb);
  }

  /** `table.headers.length > 0 && table.rows.length > 0` */
  predicate Complete(t: Table)
  {
    |t.headers| > 0 && |t.rows| > 0
  }

  /** The final `.filter(...)`: the complete tables, in order. */
  function KeepComplete(ts: seq<Table>): (r: seq<Table>)
    ensures |r| <= |ts|
    ensures forall t :: t in r <==> t in ts && Complete(t)
  {
    if |ts| == 0 then []
    else (if Complete(ts[0]) then [ts[0]] else []) + KeepComplete(ts[1..])
  }

  /** A list of complete tables passes the filter unchanged. */
  lemma {:induction false} KeepCompleteOfComplete(ts: seq<Table>)
    requires forall i :: 0 <= i < |ts| ==> Complete(ts[i])
    ensures KeepComplete(ts) == ts
  {
    if |ts| > 0 {
      var rest := ts[1..];
      assert forall i :: 0 <= i < |rest| ==> rest[i] == ts[i + 1];
      KeepCompleteOfComplete(rest);
      assert ts == [ts[0]] + rest;
    }
  }

  /** What detectTablesAdvanced returns. */
  function DetectedTables(text: string): (r: seq<Table>)
    ensures forall t :: t in r ==> Complete(t)
  {
    var lines := NonBlankLines(text);
    if |lines| < 2 then [] else KeepComplete(GapTables(lines) + ColumnAlignedTables(lines))
  }

  /** detectTablesAdvanced: split, filter, both finders, and the final filter. */
  method DetectTablesAdvanced(text: string) returns (tables: seq<Table>)
    ensures tables == DetectedTables(text)
  {
    var lines := NonBlankLines(text);
    if |lines| < 2 {
      return [];
    }
    var potentialTables := FindPotentialTables(lines);
    var columnBasedTables := FindColumnAlignedTables(lines);
    tables := KeepComplete(potentialTables + columnBasedTables);
  }

  /**
   * The final filter never removes anything: both finders return only tables
   * with headers and rows, so the result is the gap tables followed by the
   * column table, if any.
   */
  lemma DetectedTablesUnfiltered(text: string)
    ensures var lines := NonBlankLines(text);
      DetectedTables(text) == if |lines| < 2 then [] else GapTables(lines) + ColumnAlignedTables(lines)
  {
    var lines := NonBlankLines(text);
    if |lines| >= 2 {
      var all := GapTables(lines) + ColumnAlignedTables(lines);
      forall i | 0 <= i < |all| ensures Complete(all[i]) {
        var t := all[i];
        if t in GapTables(lines) {
          GapTableComplete(lines, t);
        } else {
          ColumnTableComplete(lines, t);
        }
      }
      KeepCompleteOfComplete(all);
    }
  }

  /** Every table found is one of the gap finder's or the column finder's, and there is at most one of the latter. */
  lemma DetectedTablesSources(text: string, t: Table)
    requires t in DetectedTables(text)
    ensures |NonBlankLines(text)| >= 2
    ensures t in GapTables(NonBlankLines(text)) || t in ColumnAlignedTables(NonBlankLines(text))
    ensures |DetectedTables(text)| <= |GapTables(NonBlankLines(text))| + 1
  {
    DetectedTablesUnfiltered(text);
    ColumnAlignedTablesShape(NonBlankLines(text));
  }
}
