/**
 * Column detection by character position (src/pdf/pdf.service.ts,
 * detectColumnPositions and countColumnAlignments). A column starts wherever
 * one of the first ten lines has a non-space character after a space or at
 * offset 0; a line is aligned with the columns when it has a non-space
 * character at (all but one of) those offsets. Only the space character counts
 * here, not tabs or other whitespace.
 */
module ColumnPositions {

  /** `Math.min(10, lines.length)`: how many lines are sampled for column starts. */
  const SampleLimit: nat := 10

  function SampleSize(lines: seq<string>): (n: nat)
    ensures n <= |lines| && n <= SampleLimit
    ensures n == SampleLimit || n == |lines|
  {
    if |lines| < SampleLimit then |lines| else SampleLimit
  }

  /** Offset `j` is where a run of non-space characters begins: the scan adds `j` when it leaves `inText == false`. */
  predicate StartsToken(line: string, j: int)
  {
    0 <= j < |line| && line[j] != ' ' && (j == 0 || line[j - 1] == ' ')
  }

  /** The token starts of `line` below offset `j`. */
  function StartsBelow(line: string, j: nat): (r: set<nat>)
    ensures forall k :: k in r <==> k < j && StartsToken(line, k)
  {
    set k: nat | k < j && StartsToken(line, k)
  }

  /** The token starts of the first `n` lines. */
  function SampleStarts(lines: seq<string>, n: nat): set<nat>
    requires n <= |lines|
  {
    if n == 0 then {} else SampleStarts(lines, n - 1) + StartsBelow(lines[n - 1], |lines[n - 1]|)
  }

  /** The set `columnPositions` holds after the sampling loops. */
  function ColumnStarts(lines: seq<string>): set<nat>
  {
    SampleStarts(lines, SampleSize(lines))
  }

  /** A position is in the set exactly when one of the first `n` lines starts a token there. */
  lemma {:induction false} SampleStartsMembers(lines: seq<string>, n: nat, k: nat)
    requires n <= |lines|
    ensures k in SampleStarts(lines, n) <==> exists i :: 0 <= i < n && StartsToken(lines[i], k)
  {
    if n > 0 {
      SampleStartsMembers(lines, n - 1, k);
      if StartsToken(lines[n - 1], k) {
        assert k in StartsBelow(lines[n - 1], |lines[n - 1]|);
      }
    }
  }

  /** detectColumnPositions collects the token starts of the first ten lines and no others. */
  lemma ColumnStartsMembers(lines: seq<string>, k: nat)
    ensures k in ColumnStarts(lines) <==> exists i :: 0 <= i < SampleSize(lines) && StartsToken(lines[i], k)
  {
    SampleStartsMembers(lines, SampleSize(lines), k);
  }

  /** Every column start lies inside a sampled line, so it is below the longest one. */
  lemma ColumnStartsInLines(lines: seq<string>, k: nat)
    requires k in ColumnStarts(lines)
    ensures exists i :: 0 <= i < |lines| && k < |lines[i]| && lines[i][k] != ' '
  {
    ColumnStartsMembers(lines, k);
  }

  /** A non-empty finite set of naturals has a least element: here is one. */
  lemma {:induction false} LeastWitness(s: set<nat>) returns (least: nat)
    requires s != {}
    ensures least in s && forall x :: x in s ==> least <= x
    decreases s
  {
    var y :| y in s;
    var rest := s - {y};
    if rest == {} {
      least := y;
      forall x | x in s ensures y <= x {
        assert x !in rest;
      }
    } else {
      var m := LeastWitness(rest);
      least := if y < m then y else m;
      forall x | x in s ensures least <= x {
        if x != y {
          assert x in rest;
        }
      }
    }
  }

  lemma LeastExists(s: set<nat>)
    requires s != {}
    ensures exists m :: m in s && forall x :: x in s ==> m <= x
  {
    var m := LeastWitness(s);
  }

  /** The least element of a non-empty set. */
  function Least(s: set<nat>): (m: nat)
    requires s != {}
    ensures m in s && forall x :: x in s ==> m <= x
  {
    LeastExists(s);
    var m :| m in s && forall x :: x in s ==> m <= x;
    m
  }

  predicate StrictlyIncreasing(ps: seq<nat>)
  {
    forall i, j :: 0 <= i < j < |ps| ==> ps[i] < ps[j]
  }

  /** `Array.from(set).sort((a, b) => a - b)`: the elements of a set in ascending numeric order. */
  function SortedElements(s: set<nat>): (r: seq<nat>)
    ensures |r| == |s|
    ensures forall x :: x in r <==> x in s
    ensures StrictlyIncreasing(r)
    decreases s
  {
    if s == {} then []
    else
      var m := Least(s);
      var rest := SortedElements(s - {m});
      assert forall i :: 0 <= i < |rest| ==> rest[i] in s - {m};
      ConsIncreasing(m, rest);
      [m] + rest
  }

  /** Putting a number below every element in front keeps a sequence ascending. */
  lemma ConsIncreasing(m: nat, ps: seq<nat>)
    requires StrictlyIncreasing(ps)
    requires forall i :: 0 <= i < |ps| ==> m < ps[i]
    ensures StrictlyIncreasing([m] + ps)
  {
    var r := [m] + ps;
    forall i, j | 0 <= i < j < |r| ensures r[i] < r[j] {
      assert r[j] == ps[j - 1];
      if i > 0 {
        assert r[i] == ps[i - 1];
      }
    }
  }

  /** Two ascending sequences with the same elements are the same sequence. */
  lemma {:induction false} SameAscending(ps: seq<nat>, qs: seq<nat>)
    requires StrictlyIncreasing(ps) && StrictlyIncreasing(qs)
    requires forall x :: x in ps <==> x in qs
    ensures ps == qs
    decreases |ps|
  {
    assert |ps| == 0 || ps[0] in qs;
    assert |qs| == 0 || qs[0] in ps;
    if |ps| > 0 && |qs| > 0 {
      assert ps[0] == qs[0] by {
        var i :| 0 <= i < |qs| && qs[i] == ps[0];
        var j :| 0 <= j < |ps| && ps[j] == qs[0];
        assert qs[0] <= qs[i] && ps[0] <= ps[j];
      }
      var pt, qt := ps[1..], qs[1..];
      forall x ensures x in pt <==> x in qt {
        if x in pt {
          var i :| 0 <= i < |pt| && pt[i] == x;
          assert ps[0] < ps[i + 1];
          assert x in qs;
        }
        if x in qt {
          var i :| 0 <= i < |qt| && qt[i] == x;
          assert qs[0] < qs[i + 1];
          assert x in ps;
        }
      }
      SameAscending(pt, qt);
      assert ps == [ps[0]] + pt && qs == [qs[0]] + qt;
    }
  }

  /** A set has only one ascending listing, so the sort's result is fixed by its elements. */
  lemma SortedElementsUnique(s: set<nat>, ps: seq<nat>)
    requires StrictlyIncreasing(ps)
    requires forall x :: x in ps <==> x in s
    ensures ps == SortedElements(s)
  {
    SameAscending(ps, SortedElements(s));
  }

  /** detectColumnPositions: both loops of the source, then the sort. */
  method DetectColumnPositions(lines: seq<string>) returns (positions: seq<nat>)
    ensures positions == SortedElements(ColumnStarts(lines))
  {
    var columnPositions: set<nat> := {};
    var n := SampleSize(lines);
    for i := 0 to n
      invariant columnPositions == SampleStarts(lines, i)
    {
      var line := lines[i];
      var inText := false;
      var found := columnPositions;
      for j := 0 to |line|
        invariant inText == (j > 0 && line[j - 1] != ' ')
        invariant found == columnPositions + StartsBelow(line, j)
      {
        if line[j] != ' ' && !inText {
          found := found + {j};
          inText := true;
        } else if line[j] == ' ' && inText {
          inText := false;
        }
      }
      columnPositions := found;
    }
    positions := SortedElements(columnPositions);
  }

  /** `positions[i] < line.length && line[positions[i]] !== ' '` */
  predicate Hits(line: string, p: nat)
  {
    p < |line| && line[p] != ' '
  }

  /** The count `countColumnAlignments` returns, over a prefix of the positions. */
  function AlignedCount(line: string, ps: seq<nat>): (count: nat)
    ensures count <= |ps|
    decreases |ps|
  {
    if |ps| == 0 then 0
    else AlignedCount(line, ps[..|ps| - 1]) + (if Hits(line, ps[|ps| - 1]) then 1 else 0)
  }

  /** countColumnAlignments: one pass over the positions, counting hits. */
  method CountColumnAlignments(line: string, positions: seq<nat>) returns (count: nat)
    ensures count == AlignedCount(line, positions)
  {
    count := 0;
    for i := 0 to |positions|
      invariant count == AlignedCount(line, positions[..i])
    {
      assert positions[..i + 1][..i] == positions[..i];
      if positions[i] < |line| && line[positions[i]] != ' ' {
        count := count + 1;
      }
    }
    assert positions[..|positions|] == positions;
  }

  /** The count reaches the number of positions exactly when every position is hit. */
  lemma {:induction false} AllAligned(line: string, ps: seq<nat>)
    ensures AlignedCount(line, ps) == |ps| <==> forall i :: 0 <= i < |ps| ==> Hits(line, ps[i])
    decreases |ps|
  {
    if |ps| > 0 {
      var n := |ps| - 1;
      AllAligned(line, ps[..n]);
      assert forall i :: 0 <= i < n ==> ps[..n][i] == ps[i];
    }
  }

  /**
   * `countColumnAlignments(line, positions) >= positions.length - 1`, the test
   * findColumnAlignedTables filters with, holds exactly when no two positions
   * are both missed.
   */
  lemma {:induction false} AtMostOneMiss(line: string, ps: seq<nat>)
    ensures AlignedCount(line, ps) >= |ps| - 1 <==>
      forall i, j :: 0 <= i < j < |ps| ==> Hits(line, ps[i]) || Hits(line, ps[j])
    decreases |ps|
  {
    if |ps| > 0 {
      var n := |ps| - 1;
      var prefix := ps[..n];
      assert forall i :: 0 <= i < n ==> prefix[i] == ps[i];
      AtMostOneMiss(line, prefix);
      AllAligned(line, prefix);
      if !Hits(line, ps[n]) && AlignedCount(line, prefix) < n {
        var i :| 0 <= i < n && !Hits(line, prefix[i]);
        assert !Hits(line, ps[i]) && !Hits(line, ps[n]);
      }
    }
  }
}
