/** The table and row values the detector produces, and the row-building step both extractors share. */
module Tables {

  datatype Option<+T> = None | Some(value: T)

  /** A row object: header name to cell text. */
  type Row = map<string, string>

  /** `{ headers, rows }` */
  datatype Table = Table(headers: seq<string>, rows: seq<Row>)

  /** `values[index] || ''`: a token that is missing reads as the empty string. */
  function CellAt(cells: seq<string>, i: nat): string
  {
    if i < |cells| then cells[i] else ""
  }

  /** No later index carries the same key, so the assignment at `i` is the one that stays. */
  predicate LastOccurrence(keys: seq<string>, i: int)
    requires 0 <= i < |keys|
  {
    forall j :: i < j < |keys| ==> keys[j] != keys[i]
  }

  /**
   * The object left by `keys.forEach((key, index) => { row[key] = cell(index) })`:
   * one entry per distinct key, and for a repeated key the value of its last index.
   */
  function ZipRow(keys: seq<string>, cells: seq<string>): (row: Row)
    ensures forall k :: k in row <==> k in keys
    ensures forall i :: 0 <= i < |keys| && LastOccurrence(keys, i) ==> row[keys[i]] == CellAt(cells, i)
    decreases |keys|
  {
    if |keys| == 0 then map[]
    else
      var n := |keys| - 1;
      var before := ZipRow(keys[..n], cells);
      ZipRowExtend(keys, cells, before);
      before[keys[n] := CellAt(cells, n)]
  }

  /** Assigning the last key on top of the object for the earlier keys gives the object for all keys. */
  lemma ZipRowExtend(keys: seq<string>, cells: seq<string>, before: Row)
    requires |keys| > 0
    requires forall k :: k in before <==> k in keys[..|keys| - 1]
    requires forall i :: 0 <= i < |keys| - 1 && LastOccurrence(keys[..|keys| - 1], i) ==>
      keys[..|keys| - 1][i] in before && before[keys[..|keys| - 1][i]] == CellAt(cells, i)
    ensures var row := before[keys[|keys| - 1] := CellAt(cells, |keys| - 1)];
      && (forall k :: k in row <==> k in keys)
      && (forall i :: 0 <= i < |keys| && LastOccurrence(keys, i) ==> row[keys[i]] == CellAt(cells, i))
  {
    var n := |keys| - 1;
    var prefix := keys[..n];
    var row := before[keys[n] := CellAt(cells, n)];
    assert keys == prefix + [keys[n]];
    forall i | 0 <= i < |keys| && LastOccurrence(keys, i) ensures row[keys[i]] == CellAt(cells, i) {
      if i < n {
        assert keys[i] != keys[n];
        assert prefix[i] == keys[i];
        forall j | i < j < n ensures prefix[j] != prefix[i] {
          assert prefix[j] == keys[j];
        }
      }
    }
  }

  /** The `forEach` loop that fills one row object. */
  method BuildRow(keys: seq<string>, cells: seq<string>) returns (row: Row)
    ensures row == ZipRow(keys, cells)
  {
    row := map[];
    for index := 0 to |keys|
      invariant row == ZipRow(keys[..index], cells)
    {
      assert keys[..index + 1][..index] == keys[..index];
      row := row[keys[index] := CellAt(cells, index)];
    }
    assert keys[..|keys|] == keys;
  }

  /**
   * One row object per line of `body`, keyed by `keys` and filled with the
   * cells `cells` cuts from that line. Both extractors build their rows this way.
   */
  function RowsBy(keys: seq<string>, body: seq<string>, cells: string -> seq<string>): (r: seq<Row>)
    ensures |r| == |body|
    decreases |body|
  {
    if |body| == 0 then []
    else RowsBy(keys, body[..|body| - 1], cells) + [ZipRow(keys, cells(body[|body| - 1]))]
  }

  /** Row `i` is built from line `i` of the body. */
  lemma {:induction false} RowsByAt(keys: seq<string>, body: seq<string>, cells: string -> seq<string>, i: nat)
    requires i < |body|
    ensures RowsBy(keys, body, cells)[i] == ZipRow(keys, cells(body[i]))
    decreases |body|
  {
    var n := |body| - 1;
    if i < n {
      RowsByAt(keys, body[..n], cells, i);
      assert body[..n][i] == body[i];
    }
  }

  /**
   * `rows` holds one row per line of `body`; each row has an entry for exactly
   * the keys, and under a key the cell `cells` cuts from its line at the key's
   * last index.
   */
  ghost predicate FilledFrom(rows: seq<Row>, keys: seq<string>, body: seq<string>, cells: string -> seq<string>)
  {
    && |rows| == |body|
    && (forall i, k :: 0 <= i < |rows| ==> (k in rows[i] <==> k in keys))
    && (forall i, j :: 0 <= i < |rows| && 0 <= j < |keys| && LastOccurrence(keys, j) ==>
          keys[j] in rows[i] && rows[i][keys[j]] == CellAt(cells(body[i]), j))
  }

  /** The rows as a whole are filled from the body. */
  lemma RowsByCells(keys: seq<string>, body: seq<string>, cells: string -> seq<string>)
    ensures FilledFrom(RowsBy(keys, body, cells), keys, body, cells)
  {
    forall i | 0 <= i < |body| ensures RowsBy(keys, body, cells)[i] == ZipRow(keys, cells(body[i])) {
      RowsByAt(keys, body, cells, i);
    }
  }

  /** Building one more row appends it: the loop step of every row builder. */
  lemma RowsBySnoc(keys: seq<string>, body: seq<string>, cells: string -> seq<string>, i: nat)
    requires i < |body|
    ensures RowsBy(keys, body[..i + 1], cells) == RowsBy(keys, body[..i], cells) + [ZipRow(keys, cells(body[i]))]
  {
    assert body[..i + 1][..i] == body[..i] && body[..i + 1][i] == body[i];
  }
}
