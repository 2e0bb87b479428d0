/**
 * The gap-delimited table finder (src/pdf/pdf.service.ts, findPotentialTables):
 * a scan over the lines with two states. Outside a table, a header-shaped line
 * opens a block; inside one, a row-shaped line extends it and any other line
 * closes it and is dropped. A closed block of two or more lines, and a block
 * still open at the end, is handed to extractTable, and the table is kept when
 * it has headers.
 */
module GapFinder {
  import opened JsText
  import opened LineClassifier
  import opened Tables
  import opened Extractor

  /** The block of lines `lines[start..end]` collected as `currentTable`. */
  datatype Block = Block(start: nat, end: nat)

  /** `line.trim() === '' || !this.isTableRow(line)`: the test that ends an open block. */
  predicate ClosesBlock(line: string)
  {
    Trim(line) == "" || !IsTableRow(line)
  }

  /** The blank test is subsumed: a line closes a block exactly when it is not row-shaped. */
  lemma ClosesBlockIsNotRow(line: string)
    ensures ClosesBlock(line) <==> !IsTableRow(line)
  {
    if Trim(line) == "" {
      BlankIsNeither(line);
    }
  }

  /** The two tests the scan makes of a line: does it open a block, does it close one. */
  datatype LineKind = LineKind(opens: bool, closes: bool)

  function KindOf(line: string): LineKind
  {
    LineKind(IsPotentialHeader(line), ClosesBlock(line))
  }

  /** A line that opens a block never closes one: headers are rows. */
  lemma OpenerDoesNotClose(line: string)
    ensures KindOf(line).opens ==> !KindOf(line).closes
  {
    HeaderIsRow(line);
    ClosesBlockIsNotRow(line);
  }

  /** The tests applied to every line; the scan uses `KindOf`, and is stated for any `classify`. */
  function Kinds(lines: seq<string>, classify: string -> LineKind): (r: seq<LineKind>)
    ensures |r| == |lines|
    ensures forall i :: 0 <= i < |lines| ==> r[i] == classify(lines[i])
  {
    seq(|lines|, i requires 0 <= i < |lines| => classify(lines[i]))
  }

  /** The block that a close or the end of input emits: only one of two lines or more. */
  function Emit(start: nat, end: nat): (r: seq<Block>)
    ensures r == [] || r == [Block(start, end)]
  {
    if end - start >= 2 then [Block(start, end)] else []
  }

  /**
   * The blocks the scan emits from line `i` on, where `open` is the start of the
   * block being collected (`inTable` is `open.Some?`).
   */
  function ScanBlocks(kinds: seq<LineKind>, i: nat, open: Option<nat>): seq<Block>
    requires i <= |kinds|
    requires open.Some? ==> open.value < i
    decreases |kinds| - i
  {
    if i == |kinds| then
      if open.Some? then Emit(open.value, i) else []
    else if open.None? then
      if kinds[i].opens then ScanBlocks(kinds, i + 1, Some(i))
      else ScanBlocks(kinds, i + 1, None)
    else if kinds[i].closes then
      Emit(open.value, i) + ScanBlocks(kinds, i + 1, None)
    else
      ScanBlocks(kinds, i + 1, open)
  }

  /** Every block the scan emits over the whole input. */
  function GapBlocks(lines: seq<string>): seq<Block>
  {
    ScanBlocks(Kinds(lines, KindOf), 0, None)
  }

  /** The lines of a block (a block that does not lie inside the input has none). */
  function BlockLines(lines: seq<string>, b: Block): (r: seq<string>)
    ensures b.start <= b.end <= |lines| ==> r == lines[b.start..b.end] && |r| == b.end - b.start
  {
    if b.start <= b.end <= |lines| then lines[b.start..b.end] else []
  }

  /** A block the scan can emit: two lines or more, an opening line first, no closing line inside, closed by a closing line or the end. */
  predicate WellFormed(kinds: seq<LineKind>, b: Block)
  {
    && b.start + 2 <= b.end <= |kinds|
    && kinds[b.start].opens
    && (forall j :: b.start < j < b.end ==> !kinds[j].closes)
    && (b.end < |kinds| ==> kinds[b.end].closes)
  }

  /** Blocks in input order with at least one line between each block and the next (the line that closed it). */
  predicate Separated(blocks: seq<Block>)
  {
    forall k :: 0 <= k < |blocks| - 1 ==> blocks[k].end < blocks[k + 1].start
  }

  /** The state the scan keeps while a block is open: it began at an opening line and no later line closed it. */
  predicate OpenState(kinds: seq<LineKind>, i: nat, open: Option<nat>)
    requires i <= |kinds|
  {
    open.Some? ==>
      && open.value < i
      && kinds[open.value].opens
      && forall j :: open.value < j < i ==> !kinds[j].closes
  }

  /** A line that does not close the open block extends it. */
  lemma OpenStateExtend(kinds: seq<LineKind>, i: nat, start: nat)
    requires i < |kinds| && OpenState(kinds, i, Some(start)) && !kinds[i].closes
    ensures OpenState(kinds, i + 1, Some(start))
  {
  }

  /** An opening line starts a block of one line. */
  lemma OpenStateStart(kinds: seq<LineKind>, i: nat)
    requires i < |kinds| && kinds[i].opens
    ensures OpenState(kinds, i + 1, Some(i))
  {
  }

  /** Where the next emitted block can start at the earliest. */
  function Low(i: nat, open: Option<nat>): nat
  {
    if open.Some? then open.value else i
  }

  /** Every block is well formed and starts at `low` or later, and the blocks are in order and apart. */
  predicate ShapedFrom(kinds: seq<LineKind>, blocks: seq<Block>, low: nat)
  {
    && (forall k :: 0 <= k < |blocks| ==> WellFormed(kinds, blocks[k]) && low <= blocks[k].start)
    && Separated(blocks)
  }

  lemma {:induction false} ScanBlocksShape(kinds: seq<LineKind>, i: nat, open: Option<nat>)
    requires i <= |kinds|
    requires OpenState(kinds, i, open)
    ensures ShapedFrom(kinds, ScanBlocks(kinds, i, open), Low(i, open))
    decreases |kinds| - i
  {
    if i < |kinds| {
      if open.None? {
        if kinds[i].opens {
          ScanBlocksShape(kinds, i + 1, Some(i));
        } else {
          ScanBlocksShape(kinds, i + 1, None);
        }
      } else if kinds[i].closes {
        ScanBlocksShape(kinds, i + 1, None);
        EmitShape(kinds, open.value, i, ScanBlocks(kinds, i + 1, None));
      } else {
        ScanBlocksShape(kinds, i + 1, open);
      }
    }
  }

  /** A closing line puts the open block, if it is emitted, in front of the later blocks. */
  lemma EmitShape(kinds: seq<LineKind>, start: nat, i: nat, rest: seq<Block>)
    requires i < |kinds| && OpenState(kinds, i, Some(start)) && kinds[i].closes
    requires ShapedFrom(kinds, rest, i + 1)
    ensures ShapedFrom(kinds, Emit(start, i) + rest, start)
  {
    var emitted := Emit(start, i);
    if |emitted| == 1 {
      assert WellFormed(kinds, emitted[0]);
    } else {
      assert emitted + rest == rest;
    }
  }

  /**
   * The blocks of the whole input are well formed, in order and apart: each is
   * two lines or more, starts at a header line, continues with row lines, and
   * ends at a line that is not a row (which opens no block) or at the end.
   */
  lemma GapBlocksShape(lines: seq<string>)
    ensures var blocks := GapBlocks(lines);
      && (forall k :: 0 <= k < |blocks| ==> WellFormed(Kinds(lines, KindOf), blocks[k]))
      && Separated(blocks)
  {
    ScanBlocksShape(Kinds(lines, KindOf), 0, None);
  }

  /** WellFormed in terms of the lines themselves. */
  lemma WellFormedLines(lines: seq<string>, b: Block)
    requires WellFormed(Kinds(lines, KindOf), b)
    ensures b.start + 2 <= b.end <= |lines|
    ensures IsPotentialHeader(lines[b.start])
    ensures forall j :: b.start < j < b.end ==> IsTableRow(lines[j]) && Trim(lines[j]) != ""
    ensures b.end < |lines| ==> !IsTableRow(lines[b.end]) && !IsPotentialHeader(lines[b.end])
  {
    var kinds := Kinds(lines, KindOf);
    assert kinds[b.start] == KindOf(lines[b.start]);
    forall j | b.start < j < b.end ensures IsTableRow(lines[j]) && Trim(lines[j]) != "" {
      assert kinds[j] == KindOf(lines[j]);
    }
    if b.end < |lines| {
      assert kinds[b.end] == KindOf(lines[b.end]);
      ClosesBlockIsNotRow(lines[b.end]);
      HeaderIsRow(lines[b.end]);
    }
  }

  /**
   * The table `extract` makes of each block, in order. The scan is stated for any
   * extractor; findPotentialTables passes extractTable (`ExtractedTable`).
   */
  function Candidates(lines: seq<string>, blocks: seq<Block>, extract: seq<string> -> Table): (r: seq<Table>)
    ensures |r| == |blocks|
    ensures forall k :: 0 <= k < |blocks| ==> r[k] == extract(BlockLines(lines, blocks[k]))
  {
    seq(|blocks|, k requires 0 <= k < |blocks| => extract(BlockLines(lines, blocks[k])))
  }

  /** `if (table.headers.length > 0) tables.push(table)`, over a sequence of tables. */
  function WithHeaders(tables: seq<Table>): (r: seq<Table>)
    ensures |r| <= |tables|
  {
    if |tables| == 0 then []
    else (if |tables[0].headers| > 0 then [tables[0]] else []) + WithHeaders(tables[1..])
  }

  /** The filter keeps exactly the tables that have headers. */
  lemma {:induction false} WithHeadersMembers(tables: seq<Table>)
    ensures forall t :: t in WithHeaders(tables) <==> t in tables && |t.headers| > 0
  {
    if |tables| > 0 {
      WithHeadersMembers(tables[1..]);
      assert tables == [tables[0]] + tables[1..];
    }
  }

  lemma {:induction false} WithHeadersAppend(a: seq<Table>, b: seq<Table>)
    ensures WithHeaders(a + b) == WithHeaders(a) + WithHeaders(b)
  {
    if |a| > 0 {
      assert (a + b)[1..] == a[1..] + b;
      WithHeadersAppend(a[1..], b);
    } else {
      assert a + b == b;
    }
  }

  lemma CandidatesAppend(lines: seq<string>, a: seq<Block>, b: seq<Block>, extract: seq<string> -> Table)
    ensures Candidates(lines, a + b, extract) == Candidates(lines, a, extract) + Candidates(lines, b, extract)
  {
    var c := Candidates(lines, a + b, extract);
    var d := Candidates(lines, a, extract) + Candidates(lines, b, extract);
    forall k | 0 <= k < |c| ensures c[k] == d[k] {
      if k < |a| { assert (a + b)[k] == a[k]; } else { assert (a + b)[k] == b[k - |a|]; }
    }
  }

  /** The tables the scan yields from line `i` on, for any extractor. */
  function BlockTables(lines: seq<string>, kinds: seq<LineKind>, i: nat, open: Option<nat>, extract: seq<string> -> Table): seq<Table>
    requires i <= |kinds| && (open.Some? ==> open.value < i)
  {
    WithHeaders(Candidates(lines, ScanBlocks(kinds, i, open), extract))
  }

  /** What findPotentialTables returns: extractTable on each block, the tables with headers kept. */
  function GapTables(lines: seq<string>): seq<Table>
  {
    BlockTables(lines, Kinds(lines, KindOf), 0, None, ExtractedTable)
  }

  /** The table a closed block contributes: extractTable's result when the block has two lines or more and the table has headers. */
  function Closed(block: seq<string>, extract: seq<string> -> Table): (r: seq<Table>)
    ensures |r| <= 1
  {
    if |block| >= 2 && |extract(block).headers| > 0 then [extract(block)] else []
  }

  /** The state after a line that emits nothing: an opening line outside a table opens one, a non-closing line inside keeps it. */
  function NextOpen(kinds: seq<LineKind>, i: nat, open: Option<nat>): Option<nat>
    requires i < |kinds|
  {
    if open.Some? then open else if kinds[i].opens then Some(i) else None
  }

  /** A line that emits nothing leaves the tables still to come unchanged. */
  lemma QuietStep(lines: seq<string>, kinds: seq<LineKind>, i: nat, open: Option<nat>, extract: seq<string> -> Table)
    requires |kinds| == |lines| && i < |kinds| && OpenState(kinds, i, open)
    requires open.None? || !kinds[i].closes
    ensures OpenState(kinds, i + 1, NextOpen(kinds, i, open))
    ensures BlockTables(lines, kinds, i, open, extract) == BlockTables(lines, kinds, i + 1, NextOpen(kinds, i, open), extract)
  {
    if open.Some? {
      OpenStateExtend(kinds, i, open.value);
    } else if kinds[i].opens {
      OpenStateStart(kinds, i);
    }
  }

  /** A closing line emits the open block and the scan goes on outside a table. */
  lemma CloseStep(lines: seq<string>, kinds: seq<LineKind>, i: nat, start: nat, extract: seq<string> -> Table)
    requires |kinds| == |lines| && i < |kinds| && OpenState(kinds, i, Some(start)) && kinds[i].closes
    ensures OpenState(kinds, i + 1, None)
    ensures BlockTables(lines, kinds, i, Some(start), extract)
      == Closed(lines[start..i], extract) + BlockTables(lines, kinds, i + 1, None, extract)
  {
    ScanBlocksShape(kinds, i + 1, None);
    var emitted := Emit(start, i);
    var rest := ScanBlocks(kinds, i + 1, None);
    CandidatesAppend(lines, emitted, rest, extract);
    WithHeadersAppend(Candidates(lines, emitted, extract), Candidates(lines, rest, extract));
    if |emitted| == 1 {
      var c := Candidates(lines, emitted, extract);
      assert c == [extract(lines[start..i])];
      assert WithHeaders(c) == Closed(lines[start..i], extract) by {
        assert c[1..] == [];
      }
    }
  }

  /** At the end of input the open block is flushed. */
  lemma EndStep(lines: seq<string>, kinds: seq<LineKind>, start: nat, extract: seq<string> -> Table)
    requires |kinds| == |lines| && OpenState(kinds, |kinds|, Some(start))
    ensures BlockTables(lines, kinds, |kinds|, Some(start), extract) == Closed(lines[start..], extract)
  {
    var emitted := Emit(start, |kinds|);
    if |emitted| == 1 {
      var c := Candidates(lines, emitted, extract);
      assert lines[start..|kinds|] == lines[start..];
      assert c == [extract(lines[start..])];
      assert c[1..] == [];
    }
  }

  /** Every table of the scan is the extractor's result on one of its blocks, and has headers. */
  lemma BlockTablesFromBlocks(lines: seq<string>, kinds: seq<LineKind>, i: nat, open: Option<nat>, extract: seq<string> -> Table, t: Table)
    requires |kinds| == |lines| && i <= |kinds| && OpenState(kinds, i, open)
    requires t in BlockTables(lines, kinds, i, open, extract)
    ensures |t.headers| > 0
    ensures exists k :: && 0 <= k < |ScanBlocks(kinds, i, open)|
                        && WellFormed(kinds, ScanBlocks(kinds, i, open)[k])
                        && t == extract(BlockLines(lines, ScanBlocks(kinds, i, open)[k]))
  {
    ScanBlocksShape(kinds, i, open);
    var candidates := Candidates(lines, ScanBlocks(kinds, i, open), extract);
    WithHeadersMembers(candidates);
    var k :| 0 <= k < |candidates| && candidates[k] == t;
  }

  /** extractTable on a block of two lines or more: with headers, it has a row per line after the first. */
  lemma BlockTableShape(block: seq<string>)
    requires |block| >= 2
    ensures |ExtractedTable(block).headers| > 0 ==> |ExtractedTable(block).rows| == |block| - 1 >= 1
  {
    ExtractedTableShape(block);
  }

  /** Every table findPotentialTables returns is extractTable's result on a well-formed block of the input. */
  lemma GapTableOrigin(lines: seq<string>, t: Table)
    requires t in GapTables(lines)
    ensures exists b :: b in GapBlocks(lines) && WellFormed(Kinds(lines, KindOf), b) && t == ExtractedTable(BlockLines(lines, b))
  {
    var kinds := Kinds(lines, KindOf);
    BlockTablesFromBlocks(lines, kinds, 0, None, ExtractedTable, t);
    var blocks := ScanBlocks(kinds, 0, None);
    var k :| 0 <= k < |blocks| && WellFormed(kinds, blocks[k]) && t == ExtractedTable(BlockLines(lines, blocks[k]));
    assert blocks[k] in GapBlocks(lines);
  }

  /** Every table findPotentialTables returns has headers and at least one row. */
  lemma GapTableComplete(lines: seq<string>, t: Table)
    requires t in GapTables(lines)
    ensures |t.headers| > 0 && |t.rows| >= 1
  {
    var kinds := Kinds(lines, KindOf);
    BlockTablesFromBlocks(lines, kinds, 0, None, ExtractedTable, t);
    var blocks := ScanBlocks(kinds, 0, None);
    var k :| 0 <= k < |blocks| && WellFormed(kinds, blocks[k]) && t == ExtractedTable(BlockLines(lines, blocks[k]));
    var b := blocks[k];
    assert b.start + 2 <= b.end <= |lines|;
    var block := BlockLines(lines, b);
    assert t == ExtractedTable(block);
    BlockTableShape(block);
  }

  /**
   * The scan as a state machine emitting tables directly: a closing line flushes
   * the open block through `Closed`, and so does the end of input.
   */
  function ScanTables(lines: seq<string>, kinds: seq<LineKind>, i: nat, open: Option<nat>, extract: seq<string> -> Table): seq<Table>
    requires |kinds| == |lines| && i <= |kinds| && (open.Some? ==> open.value < i)
    decreases |kinds| - i
  {
    if i == |kinds| then
      if open.Some? then Closed(lines[open.value..], extract) else []
    else if open.None? then
      ScanTables(lines, kinds, i + 1, if kinds[i].opens then Some(i) else None, extract)
    else if kinds[i].closes then
      Closed(lines[open.value..i], extract) + ScanTables(lines, kinds, i + 1, None, extract)
    else
      ScanTables(lines, kinds, i + 1, open, extract)
  }

  /** Flushing block by block as the scan goes gives the tables of the emitted blocks. */
  lemma {:induction false} ScanTablesAreBlockTables(lines: seq<string>, kinds: seq<LineKind>, i: nat, open: Option<nat>, extract: seq<string> -> Table)
    requires |kinds| == |lines| && i <= |kinds| && OpenState(kinds, i, open)
    ensures ScanTables(lines, kinds, i, open, extract) == BlockTables(lines, kinds, i, open, extract)
    decreases |kinds| - i
  {
    if i == |kinds| {
      if open.Some? {
        EndStep(lines, kinds, open.value, extract);
      }
    } else if open.Some? && kinds[i].closes {
      CloseStep(lines, kinds, i, open.value, extract);
      ScanTablesAreBlockTables(lines, kinds, i + 1, None, extract);
    } else {
      QuietStep(lines, kinds, i, open, extract);
      ScanTablesAreBlockTables(lines, kinds, i + 1, NextOpen(kinds, i, open), extract);
    }
  }

  /** `extract` is extractTable, stated so that it is only unfolded where a table is actually extracted. */
  ghost predicate IsExtractTable(extract: seq<string> -> Table)
  {
    forall block {:trigger ExtractedTable(block)} :: extract(block) == ExtractedTable(block)
  }

  /**
   * `if (currentTable.length >= 2) { const table = this.extractTable(currentTable);
   * if (table.headers.length > 0) tables.push(table) }`, the flush the scan does
   * at a closing line and at the end.
   */
  method FlushBlock(block: seq<string>, ghost extract: seq<string> -> Table) returns (found: seq<Table>)
    requires IsExtractTable(extract)
    ensures found == Closed(block, extract)
  {
    found := [];
    if |block| >= 2 {
      var table := ExtractTable(block);
      if |table.headers| > 0 {
        found := [table];
      }
    }
  }

  /** The loop of findPotentialTables, with the two line tests given as `classify`. */
  method ScanLines(lines: seq<string>, classify: string -> LineKind, ghost extract: seq<string> -> Table) returns (tables: seq<Table>)
    requires IsExtractTable(extract)
    ensures tables == ScanTables(lines, Kinds(lines, classify), 0, None, extract)
  {
    tables := [];
    var currentTable: seq<string> := [];
    var inTable := false;
    ghost var kinds := Kinds(lines, classify);
    ghost var open: Option<nat> := None;
    for i := 0 to |lines|
      invariant OpenState(kinds, i, open)
      invariant inTable == open.Some?
      invariant currentTable == if inTable then lines[open.value..i] else []
      invariant tables + ScanTables(lines, kinds, i, open, extract) == ScanTables(lines, kinds, 0, None, extract)
    {
      var line := lines[i];
      var kind := classify(line);
      assert kinds[i] == kind;
      if kind.opens && !inTable {
        OpenStateStart(kinds, i);
        assert ScanTables(lines, kinds, i, open, extract) == ScanTables(lines, kinds, i + 1, Some(i), extract);
        inTable := true;
        assert [line] == lines[i..i + 1];
        currentTable := [line];
        open := Some(i);
        continue;
      }
      if inTable {
        if kind.closes {
          var found := FlushBlock(currentTable, extract);
          ghost var later := ScanTables(lines, kinds, i + 1, None, extract);
          assert ScanTables(lines, kinds, i, open, extract) == found + later;
          assert (tables + found) + later == tables + (found + later);
          tables := tables + found;
          inTable := false;
          currentTable := [];
          open := None;
        } else {
          OpenStateExtend(kinds, i, open.value);
          assert ScanTables(lines, kinds, i, open, extract) == ScanTables(lines, kinds, i + 1, open, extract);
          assert currentTable + [line] == lines[open.value..i + 1];
          currentTable := currentTable + [line];
        }
      } else {
        assert ScanTables(lines, kinds, i, open, extract) == ScanTables(lines, kinds, i + 1, None, extract);
      }
    }
    if inTable {
      assert currentTable == lines[open.value..];
      var found := FlushBlock(currentTable, extract);
      tables := tables + found;
    }
  }

  /**
   * findPotentialTables: the scan with `isPotentialHeader` opening a block and
   * `line.trim() === '' || !this.isTableRow(line)` closing it, and extractTable
   * on every flushed block.
   */
  method FindPotentialTables(lines: seq<string>) returns (tables: seq<Table>)
    ensures tables == GapTables(lines)
  {
    tables := ScanLines(lines, KindOf, ExtractedTable);
    ScanTablesAreBlockTables(lines, Kinds(lines, KindOf), 0, None, ExtractedTable);
  }
}
