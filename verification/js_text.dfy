/**
 * The JavaScript string built-ins the table detector relies on: the `\s`
 * character class (which is also the set `String.prototype.trim` removes),
 * `trim`, `split` on a single character, `split(/\s{2,}/)`, and `slice`.
 */
module JsText {

  /** ECMAScript WhiteSpace plus LineTerminator: the members of `\s`, and what `trim` strips. */
  predicate IsWhite(c: char)
  {
    || ('\t' <= c <= '\r')
    || c == ' ' || c == '\U{00A0}' || c == '\U{1680}'
    || ('\U{2000}' <= c <= '\U{200A}')
    || c == '\U{2028}' || c == '\U{2029}' || c == '\U{202F}' || c == '\U{205F}'
    || c == '\U{3000}' || c == '\U{FEFF}'
  }

  /** Every character is whitespace (this includes the empty string). */
  predicate IsBlank(s: string)
  {
    forall i :: 0 <= i < |s| ==> IsWhite(s[i])
  }

  /** Neither end is whitespace. */
  predicate IsTrimmed(s: string)
  {
    s == [] || (!IsWhite(s[0]) && !IsWhite(s[|s| - 1]))
  }

  /** No two adjacent whitespace characters. */
  predicate NoDoubleWhite(s: string)
  {
    forall i :: 0 <= i < |s| - 1 ==> !IsWhite(s[i]) || !IsWhite(s[i + 1])
  }

  function TrimStart(s: string): (r: string)
    ensures |r| <= |s| && r == s[|s| - |r|..]
    ensures IsBlank(s[..|s| - |r|])
    ensures r == [] || !IsWhite(r[0])
  {
    if |s| > 0 && IsWhite(s[0]) then
      var r := TrimStart(s[1..]);
      assert s[..|s| - |r|] == [s[0]] + s[1..][..|s[1..]| - |r|];
      r
    else s
  }

  function TrimEnd(s: string): (r: string)
    ensures |r| <= |s| && r == s[..|r|]
    ensures IsBlank(s[|r|..])
    ensures r == [] || !IsWhite(r[|r| - 1])
  {
    if |s| > 0 && IsWhite(s[|s| - 1]) then
      var r := TrimEnd(s[..|s| - 1]);
      assert s[|r|..] == s[..|s| - 1][|r|..] + [s[|s| - 1]];
      r
    else s
  }

  /** `String.prototype.trim`: the slice of `s` left after removing whitespace at both ends. */
  function Trim(s: string): (r: string)
    ensures |r| <= |s|
    ensures IsTrimmed(r)
    ensures r == [] <==> IsBlank(s)
    ensures exists a, b :: 0 <= a <= b <= |s| && r == s[a..b] && IsBlank(s[..a]) && IsBlank(s[b..])
  {
    TrimFacts(s);
    TrimSlice(s);
    TrimEnd(TrimStart(s))
  }

  lemma TrimFacts(s: string)
    ensures IsTrimmed(TrimEnd(TrimStart(s)))
    ensures TrimEnd(TrimStart(s)) == [] <==> IsBlank(s)
  {
    var t := TrimStart(s);
    var r := TrimEnd(t);
    if r != [] {
      assert r[0] == t[0];
      assert s[|s| - |t|] == t[0];
    } else {
      assert t[|r|..] == t;
      assert IsBlank(t);
      assert t == [];
      assert s[..|s|] == s;
    }
  }

  /** What trim keeps is one slice of `s`, with only whitespace cut on either side. */
  lemma TrimSlice(s: string)
    ensures exists a, b :: 0 <= a <= b <= |s| && TrimEnd(TrimStart(s)) == s[a..b] && IsBlank(s[..a]) && IsBlank(s[b..])
  {
    var t := TrimStart(s);
    var r := TrimEnd(t);
    var a := |s| - |t|;
    SliceOfSuffix(s, a, |r|);
    assert r == s[a..a + |r|] && t[|r|..] == s[a + |r|..];
  }

  /** Cutting a suffix of `s` again is cutting `s` itself. */
  lemma SliceOfSuffix(s: string, a: nat, m: nat)
    requires a + m <= |s|
    ensures s[a..][..m] == s[a..a + m] && s[a..][m..] == s[a + m..]
  {
  }

  lemma {:induction false} TrimOfTrimmed(s: string)
    requires IsTrimmed(s)
    ensures Trim(s) == s
  {
    assert TrimStart(s) == s;
    assert TrimEnd(s) == s;
  }

  /** `.map(s => s.trim())` */
  function TrimAll(parts: seq<string>): (r: seq<string>)
    ensures |r| == |parts|
    ensures forall i :: 0 <= i < |r| ==> r[i] == Trim(parts[i])
  {
    seq(|parts|, i requires 0 <= i < |parts| => Trim(parts[i]))
  }

  /** Every element of a trimmed list is trimmed. */
  lemma TrimAllTrimmed(parts: seq<string>)
    ensures forall x :: x in TrimAll(parts) ==> IsTrimmed(x)
  {
    forall x | x in TrimAll(parts) ensures IsTrimmed(x) {
      var j :| 0 <= j < |parts| && TrimAll(parts)[j] == x;
      assert x == Trim(parts[j]);
    }
  }

  /** `String.prototype.split(c)` for a one-character separator `c`. */
  function SplitAt(s: string, c: char): (r: seq<string>)
    ensures |r| >= 1
    ensures forall i :: 0 <= i < |r| ==> c !in r[i]
  {
    if |s| == 0 then [""]
    else
      var rest := SplitAt(s[1..], c);
      if s[0] == c then [""] + rest else [[s[0]] + rest[0]] + rest[1..]
  }

  /** `Array.prototype.join(c)`: the inverse of `SplitAt`. */
  function Join(parts: seq<string>, c: char): string
    requires |parts| >= 1
  {
    if |parts| == 1 then parts[0] else parts[0] + [c] + Join(parts[1..], c)
  }

  /** Joining two lists is joining each and putting one separator between them. */
  lemma {:induction false} JoinAppend(x: seq<string>, y: seq<string>, c: char)
    requires |x| >= 1 && |y| >= 1
    ensures Join(x + y, c) == Join(x, c) + [c] + Join(y, c)
    decreases |x|
  {
    assert (x + y)[0] == x[0] && (x + y)[1..] == x[1..] + y;
    if |x| > 1 {
      JoinAppend(x[1..], y, c);
      var j1, j2 := Join(x[1..], c), Join(y, c);
      assert x[0] + [c] + (j1 + [c] + j2) == (x[0] + [c] + j1) + [c] + j2;
    }
  }

  lemma {:induction false} JoinSplitAt(s: string, c: char)
    ensures Join(SplitAt(s, c), c) == s
  {
    if |s| > 0 {
      var rest := SplitAt(s[1..], c);
      JoinSplitAt(s[1..], c);
      if s[0] == c {
        assert SplitAt(s, c) == [""] + rest;
        assert ([""] + rest)[1..] == rest;
      } else {
        var r := SplitAt(s, c);
        assert r == [[s[0]] + rest[0]] + rest[1..];
        if |rest| == 1 {
          assert r == [[s[0]] + rest[0]];
        } else {
          assert r[1..] == rest[1..];
          assert Join(r, c) == [s[0]] + rest[0] + [c] + Join(rest[1..], c);
        }
      }
    }
  }

  lemma {:induction false} SplitAtJoin(parts: seq<string>, c: char)
    requires |parts| >= 1
    requires forall i :: 0 <= i < |parts| ==> c !in parts[i]
    ensures SplitAt(Join(parts, c), c) == parts
    decreases |parts|, |parts[0]|
  {
    if |parts[0]| > 0 {
      var p := parts[0];
      var tail := [p[1..]] + parts[1..];
      assert tail[0] == p[1..] && tail[1..] == parts[1..];
      assert Join(tail, c) == Join(parts, c)[1..] by {
        if |parts| > 1 {
          assert Join(parts, c) == p + [c] + Join(parts[1..], c);
        }
      }
      assert forall i :: 0 <= i < |tail| ==> c !in tail[i] by {
        forall i | 0 <= i < |tail| ensures c !in tail[i] {
          if i == 0 { assert forall x :: x in p[1..] ==> x in p; } else { assert tail[i] == parts[i]; }
        }
      }
      SplitAtJoin(tail, c);
      assert Join(parts, c)[0] == p[0];
      assert [p[0]] + p[1..] == p;
      assert SplitAt(Join(parts, c), c) == [[p[0]] + tail[0]] + tail[1..];
      assert [p] + parts[1..] == parts;
    } else if |parts| > 1 {
      assert Join(parts, c) == [c] + Join(parts[1..], c);
      SplitAtJoin(parts[1..], c);
      assert [""] + parts[1..] == parts;
    }
  }

  /** The length of the run of whitespace at the start of `s`. */
  function LeadingWhite(s: string): (k: nat)
    ensures k <= |s| && IsBlank(s[..k])
    ensures k < |s| ==> !IsWhite(s[k])
  {
    if |s| > 0 && IsWhite(s[0]) then 1 + LeadingWhite(s[1..]) else 0
  }

  /**
   * `String.prototype.split(/\s{2,}/)`: the regular expression is tried left to
   * right and is greedy, so the separators are exactly the maximal runs of two or
   * more whitespace characters; a run of one whitespace character stays in its piece.
   */
  function SplitWhiteRuns(s: string): (r: seq<string>)
    ensures |r| >= 1
    ensures r[0] == [] || (|s| > 0 && r[0][0] == s[0])
    ensures forall i :: 0 <= i < |r| ==> NoDoubleWhite(r[i])
    decreases |s|
  {
    if |s| == 0 then [""]
    else
      var k := LeadingWhite(s);
      if k >= 2 then [""] + SplitWhiteRuns(s[k..])
      else
        var rest := SplitWhiteRuns(s[1..]);
        var first := [s[0]] + rest[0];
        assert NoDoubleWhite(first) by {
          forall i | 0 <= i < |first| - 1 ensures !IsWhite(first[i]) || !IsWhite(first[i + 1]) {
            if i == 0 {
              assert first[1] == rest[0][0] == s[1];
            } else {
              assert first[i] == rest[0][i - 1] && first[i + 1] == rest[0][i];
            }
          }
        }
        [first] + rest[1..]
  }

  /** The pieces of `s` hold no character that is not in `s`. */
  lemma {:induction false} SplitWhiteRunsChars(s: string)
    ensures forall i, j :: 0 <= i < |SplitWhiteRuns(s)| && 0 <= j < |SplitWhiteRuns(s)[i]| ==> SplitWhiteRuns(s)[i][j] in s
    decreases |s|
  {
    if |s| > 0 {
      var k := LeadingWhite(s);
      if k >= 2 {
        SplitWhiteRunsChars(s[k..]);
        var r := SplitWhiteRuns(s);
        assert r == [""] + SplitWhiteRuns(s[k..]);
        forall i, j | 0 <= i < |r| && 0 <= j < |r[i]| ensures r[i][j] in s {
          assert r[i] == SplitWhiteRuns(s[k..])[i - 1];
          assert r[i][j] in s[k..];
        }
      } else {
        SplitWhiteRunsChars(s[1..]);
        var rest := SplitWhiteRuns(s[1..]);
        var r := SplitWhiteRuns(s);
        forall i, j | 0 <= i < |r| && 0 <= j < |r[i]| ensures r[i][j] in s {
          if i == 0 {
            if j > 0 {
              assert r[0][j] == rest[0][j - 1];
              assert rest[0][j - 1] in s[1..];
            }
          } else {
            assert r[i] == rest[i];
            assert r[i][j] in s[1..];
          }
        }
      }
    }
  }

  /** A string with no run of two whitespace characters is not split at all. */
  lemma {:induction false} SplitWhiteRunsNoGap(s: string)
    requires NoDoubleWhite(s)
    ensures SplitWhiteRuns(s) == [s]
    decreases |s|
  {
    if |s| > 0 {
      if |s| >= 2 && IsWhite(s[0]) {
        assert !IsWhite(s[1..][0]);
      }
      assert NoDoubleWhite(s[1..]) by {
        forall i | 0 <= i < |s[1..]| - 1 ensures !IsWhite(s[1..][i]) || !IsWhite(s[1..][i + 1]) {
          assert s[1..][i] == s[i + 1] && s[1..][i + 1] == s[i + 2];
        }
      }
      SplitWhiteRunsNoGap(s[1..]);
      assert [s[0]] + s[1..] == s;
    }
  }

  /** The pieces put back together, with `gaps[i]` between piece `i` and piece `i + 1`. */
  function Interleave(pieces: seq<string>, gaps: seq<string>): string
    requires |pieces| == |gaps| + 1
    decreases |gaps|
  {
    if |gaps| == 0 then pieces[0]
    else pieces[0] + gaps[0] + Interleave(pieces[1..], gaps[1..])
  }

  /** The runs `split(/\s{2,}/)` cuts out, from left to right. */
  function WhiteRuns(s: string): (gaps: seq<string>)
    ensures forall i :: 0 <= i < |gaps| ==> |gaps[i]| >= 2 && IsBlank(gaps[i])
    decreases |s|
  {
    if |s| == 0 then []
    else
      var k := LeadingWhite(s);
      if k >= 2 then [s[..k]] + WhiteRuns(s[k..]) else WhiteRuns(s[1..])
  }

  /** The split loses nothing: putting the cut runs back between the pieces gives the line. */
  lemma {:induction false} SplitWhiteRunsJoin(s: string)
    ensures |WhiteRuns(s)| + 1 == |SplitWhiteRuns(s)|
    ensures Interleave(SplitWhiteRuns(s), WhiteRuns(s)) == s
    decreases |s|
  {
    if |s| > 0 {
      var k := LeadingWhite(s);
      if k >= 2 {
        SplitWhiteRunsJoin(s[k..]);
        JoinAfterRun(s, k);
      } else {
        SplitWhiteRunsJoin(s[1..]);
        JoinAfterChar(s);
      }
    }
  }

  /** The step of `SplitWhiteRunsJoin` for a line that starts with a run. */
  lemma JoinAfterRun(s: string, k: nat)
    requires 2 <= k == LeadingWhite(s)
    requires |WhiteRuns(s[k..])| + 1 == |SplitWhiteRuns(s[k..])|
    requires Interleave(SplitWhiteRuns(s[k..]), WhiteRuns(s[k..])) == s[k..]
    ensures |WhiteRuns(s)| + 1 == |SplitWhiteRuns(s)|
    ensures Interleave(SplitWhiteRuns(s), WhiteRuns(s)) == s
  {
    var r := SplitWhiteRuns(s);
    var gaps := WhiteRuns(s);
    assert r == [""] + SplitWhiteRuns(s[k..]) && gaps == [s[..k]] + WhiteRuns(s[k..]);
    assert r[1..] == SplitWhiteRuns(s[k..]) && gaps[1..] == WhiteRuns(s[k..]);
    assert Interleave(r, gaps) == [] + s[..k] + s[k..];
    Rejoin(s, k);
  }

  /** A string is its prefix followed by the matching suffix. */
  lemma Rejoin(s: string, k: nat)
    requires k <= |s|
    ensures [] + s[..k] + s[k..] == s
  {
  }

  /** The step of `SplitWhiteRunsJoin` for a line whose first character stays in the first piece. */
  lemma JoinAfterChar(s: string)
    requires |s| > 0 && LeadingWhite(s) < 2
    requires |WhiteRuns(s[1..])| + 1 == |SplitWhiteRuns(s[1..])|
    requires Interleave(SplitWhiteRuns(s[1..]), WhiteRuns(s[1..])) == s[1..]
    ensures |WhiteRuns(s)| + 1 == |SplitWhiteRuns(s)|
    ensures Interleave(SplitWhiteRuns(s), WhiteRuns(s)) == s
  {
    var rest := SplitWhiteRuns(s[1..]);
    assert SplitWhiteRuns(s) == [[s[0]] + rest[0]] + rest[1..];
    assert WhiteRuns(s) == WhiteRuns(s[1..]);
    InterleaveCons(s[0], rest, WhiteRuns(s[1..]));
    assert [s[0]] + s[1..] == s;
  }

  /** A character put in front of the first piece ends up in front of the whole. */
  lemma InterleaveCons(c: char, pieces: seq<string>, gaps: seq<string>)
    requires |pieces| == |gaps| + 1
    ensures Interleave([[c] + pieces[0]] + pieces[1..], gaps) == [c] + Interleave(pieces, gaps)
  {
    var longer := [[c] + pieces[0]] + pieces[1..];
    if |gaps| > 0 {
      assert longer[1..] == pieces[1..];
      var tail := Interleave(pieces[1..], gaps[1..]);
      assert ([c] + pieces[0]) + gaps[0] + tail == [c] + (pieces[0] + gaps[0] + tail);
    }
  }

  /** No piece has whitespace on a side where it was cut. */
  predicate CutClean(pieces: seq<string>)
  {
    && (forall i :: 0 <= i < |pieces| - 1 ==> pieces[i] == [] || !IsWhite(pieces[i][|pieces[i]| - 1]))
    && (forall i :: 0 < i < |pieces| ==> pieces[i] == [] || !IsWhite(pieces[i][0]))
  }

  /**
   * The runs cut out are maximal: a piece before a cut does not end with
   * whitespace and a piece after a cut does not start with it.
   */
  lemma {:induction false} SplitWhiteRunsMaximal(s: string)
    ensures CutClean(SplitWhiteRuns(s))
    decreases |s|
  {
    var r := SplitWhiteRuns(s);
    if |s| > 0 {
      var k := LeadingWhite(s);
      if k >= 2 {
        var rest := SplitWhiteRuns(s[k..]);
        SplitWhiteRunsMaximal(s[k..]);
        assert r == [""] + rest;
        forall i | 0 < i < |r| - 1 ensures r[i] == [] || !IsWhite(r[i][|r[i]| - 1]) {
          assert r[i] == rest[i - 1];
          assert rest[i - 1] == [] || !IsWhite(rest[i - 1][|rest[i - 1]| - 1]);
        }
        forall i | 0 < i < |r| ensures r[i] == [] || !IsWhite(r[i][0]) {
          assert r[i] == rest[i - 1];
          if i == 1 {
            if rest[0] != [] {
              assert rest[0][0] == s[k..][0] == s[k];
            }
          } else {
            assert rest[i - 1] == [] || !IsWhite(rest[i - 1][0]);
          }
        }
      } else {
        var rest := SplitWhiteRuns(s[1..]);
        SplitWhiteRunsMaximal(s[1..]);
        assert r == [[s[0]] + rest[0]] + rest[1..];
        if |r| > 1 {
          FirstPieceEnd(s);
        }
        forall i | 0 < i < |r| - 1 ensures r[i] == [] || !IsWhite(r[i][|r[i]| - 1]) {
          assert r[i] == rest[i];
          assert rest[i] == [] || !IsWhite(rest[i][|rest[i]| - 1]);
        }
        forall i | 0 < i < |r| ensures r[i] == [] || !IsWhite(r[i][0]) {
          assert r[i] == rest[i];
          assert rest[i] == [] || !IsWhite(rest[i][0]);
        }
      }
    }
  }

  /** No piece between two cuts is empty: a run is never cut in two. */
  lemma {:induction false} SplitWhiteRunsInner(s: string)
    ensures forall i :: 0 < i < |SplitWhiteRuns(s)| - 1 ==> SplitWhiteRuns(s)[i] != []
    decreases |s|
  {
    var r := SplitWhiteRuns(s);
    if |s| > 0 {
      var k := LeadingWhite(s);
      if k >= 2 {
        var rest := SplitWhiteRuns(s[k..]);
        SplitWhiteRunsInner(s[k..]);
        assert r == [""] + rest;
        forall i | 0 < i < |r| - 1 ensures r[i] != [] {
          assert r[i] == rest[i - 1];
          if i == 1 {
            FirstPieceAtText(s[k..]);
          }
        }
      } else {
        var rest := SplitWhiteRuns(s[1..]);
        SplitWhiteRunsInner(s[1..]);
        assert r == [[s[0]] + rest[0]] + rest[1..];
        forall i | 0 < i < |r| - 1 ensures r[i] != [] {
          assert r[i] == rest[i];
        }
      }
    }
  }

  /** A line that does not start with whitespace and is cut somewhere has a non-empty first piece. */
  lemma FirstPieceAtText(t: string)
    requires |SplitWhiteRuns(t)| > 1
    requires |t| > 0 ==> !IsWhite(t[0])
    ensures SplitWhiteRuns(t)[0] != []
  {
    assert |t| > 0;
    assert LeadingWhite(t) == 0;
    assert SplitWhiteRuns(t)[0] == [t[0]] + SplitWhiteRuns(t[1..])[0];
  }

  /** When the first character stays in a first piece that is followed by a cut, the piece does not end with whitespace. */
  lemma FirstPieceEnd(s: string)
    requires |s| > 0 && LeadingWhite(s) < 2
    requires |SplitWhiteRuns(s)| > 1
    requires CutClean(SplitWhiteRuns(s[1..]))
    ensures var first := SplitWhiteRuns(s)[0]; first == [] || !IsWhite(first[|first| - 1])
  {
    var rest := SplitWhiteRuns(s[1..]);
    var first := [s[0]] + rest[0];
    assert SplitWhiteRuns(s)[0] == first;
    if rest[0] == [] {
      assert |s[1..]| > 0;
      assert LeadingWhite(s[1..]) >= 2;
      assert IsWhite(s[1..][0]);
    } else {
      assert first[|first| - 1] == rest[0][|rest[0]| - 1];
    }
  }

  /** `String.prototype.slice(start, end)` for non-negative arguments: both are clamped to the length. */
  function Slice(s: string, start: nat, end: nat): (r: string)
    ensures start >= |s| || end <= start ==> r == []
    ensures start < end <= |s| ==> r == s[start..end]
    ensures start < |s| <= end ==> r == s[start..]
  {
    var from := if start < |s| then start else |s|;
    var to := if end < |s| then end else |s|;
    if from < to then s[from..to] else []
  }
}
