/**
 * The two line predicates of the table detector (src/pdf/pdf.service.ts,
 * isPotentialHeader and isTableRow): a line is split on runs of two or more
 * whitespace characters, the pieces that trim to nothing are dropped, and the
 * rest are counted.
 */
module LineClassifier {
  import opened JsText

  /**
   * `.filter(p => p.trim())`: a piece survives when trimming leaves something,
   * which by the contract of `Trim` is when it is not all whitespace.
   */
  function KeepNonBlank(parts: seq<string>): (r: seq<string>)
    ensures |r| <= |parts|
    ensures forall i :: 0 <= i < |r| ==> !IsBlank(r[i])
  {
    if |parts| == 0 then []
    else (if !IsBlank(parts[0]) then [parts[0]] else []) + KeepNonBlank(parts[1..])
  }

  /** The filter keeps exactly the pieces that are not all whitespace, in their order. */
  lemma {:induction false} KeepNonBlankMembers(parts: seq<string>, x: string)
    ensures x in KeepNonBlank(parts) <==> x in parts && !IsBlank(x)
  {
    if |parts| > 0 {
      KeepNonBlankMembers(parts[1..], x);
      assert parts == [parts[0]] + parts[1..];
    }
  }

  /** The filter keeps the input's order and repeats: it works piece by piece. */
  lemma {:induction false} KeepNonBlankAppend(a: seq<string>, b: seq<string>)
    ensures KeepNonBlank(a + b) == KeepNonBlank(a) + KeepNonBlank(b)
  {
    if |a| > 0 {
      var x := a[0];
      var head := if !IsBlank(x) then [x] else [];
      assert (a + b)[0] == x && (a + b)[1..] == a[1..] + b;
      KeepNonBlankAppend(a[1..], b);
      var rest, tail := KeepNonBlank(a[1..]), KeepNonBlank(b);
      assert KeepNonBlank(a + b) == head + (rest + tail);
      assert KeepNonBlank(a) == head + rest;
      assert head + (rest + tail) == (head + rest) + tail;
    } else {
      assert a + b == b;
    }
  }

  /** On one piece the filter is its test. */
  lemma KeepNonBlankSingle(x: string)
    ensures KeepNonBlank([x]) == if !IsBlank(x) then [x] else []
  {
    assert [x][1..] == [];
  }

  /** `line.split(/\s{2,}/).filter(p => p.trim())` */
  function Tokens(line: string): seq<string>
  {
    KeepNonBlank(SplitWhiteRuns(line))
  }

  predicate IsPotentialHeader(line: string)
  {
    |Tokens(line)| >= 3
  }

  predicate IsTableRow(line: string)
  {
    |Tokens(line)| >= 2
  }

  /** Offset `j` holds a non-whitespace character that directly follows two whitespace characters. */
  predicate AfterWideGap(s: string, j: int)
  {
    2 <= j < |s| && !IsWhite(s[j]) && IsWhite(s[j - 1]) && IsWhite(s[j - 2])
  }

  /** Some non-whitespace character is followed, further on, by one that comes right after a wide gap. */
  ghost predicate RowShaped(s: string)
  {
    exists i, j :: 0 <= i < j < |s| && !IsWhite(s[i]) && AfterWideGap(s, j)
  }

  /** As RowShaped, with two characters that come right after wide gaps. */
  ghost predicate HeaderShaped(s: string)
  {
    exists i, j, m :: 0 <= i < j < m < |s| && !IsWhite(s[i]) && AfterWideGap(s, j) && AfterWideGap(s, m)
  }

  ghost predicate HasGap(s: string)
  {
    exists j :: AfterWideGap(s, j)
  }

  ghost predicate HasTwoGaps(s: string)
  {
    exists j, m :: j < m && AfterWideGap(s, j) && AfterWideGap(s, m)
  }

  /** Both predicates test the same token count, against 3 and against 2. */
  lemma HeaderIsRow(line: string)
    ensures IsPotentialHeader(line) ==> IsTableRow(line)
  {
  }

  /** A line of whitespace only (the empty line included) is neither a header nor a row. */
  lemma BlankIsNeither(line: string)
    requires IsBlank(line)
    ensures Tokens(line) == []
    ensures !IsTableRow(line) && !IsPotentialHeader(line)
  {
    SplitWhiteRunsChars(line);
    var parts := SplitWhiteRuns(line);
    forall i | 0 <= i < |parts| ensures IsBlank(parts[i]) {
      forall j | 0 <= j < |parts[i]| ensures IsWhite(parts[i][j]) {
        assert parts[i][j] in line;
      }
    }
    AllBlankDropped(parts);
  }

  /** A line is a table row exactly when it is RowShaped. */
  lemma {:induction false} TableRowShape(line: string)
    ensures IsTableRow(line) <==> RowShaped(line)
    decreases |line|
  {
    var s := line;
    if |s| == 0 {
      assert SplitWhiteRuns(s) == [""];
    } else {
      var k := LeadingWhite(s);
      if k >= 2 {
        AfterLeadingRun(s);
        TableRowShape(s[k..]);
        ShiftBlankPrefix(s, k);
      } else if IsWhite(s[0]) {
        ShortLead(s);
        TableRowShape(s[1..]);
        assert s[..1][0] == s[0];
        ShiftBlankPrefix(s, 1);
      } else {
        ShortLead(s);
        GapsAfterFirst(s[1..]);
        ShiftNonWhite(s);
      }
    }
  }

  /** A line is a potential header exactly when it is HeaderShaped. */
  lemma {:induction false} PotentialHeaderShape(line: string)
    ensures IsPotentialHeader(line) <==> HeaderShaped(line)
    decreases |line|
  {
    var s := line;
    if |s| == 0 {
      assert SplitWhiteRuns(s) == [""];
    } else {
      var k := LeadingWhite(s);
      if k >= 2 {
        AfterLeadingRun(s);
        PotentialHeaderShape(s[k..]);
        ShiftBlankPrefix(s, k);
      } else if IsWhite(s[0]) {
        ShortLead(s);
        PotentialHeaderShape(s[1..]);
        assert s[..1][0] == s[0];
        ShiftBlankPrefix(s, 1);
      } else {
        ShortLead(s);
        TwoGapsAfterFirst(s[1..]);
        ShiftNonWhite(s);
      }
    }
  }

  // ----- helpers: the shapes under dropping a prefix -----

  lemma {:induction false} NonWhiteAfterBlank(s: string, k: nat, i: int)
    requires k <= |s| && IsBlank(s[..k])
    requires 0 <= i < |s| && !IsWhite(s[i])
    ensures i >= k
  {
  }

  lemma {:induction false} ShiftBlankPrefix(s: string, k: nat)
    requires k <= |s| && IsBlank(s[..k])
    ensures RowShaped(s) <==> RowShaped(s[k..])
    ensures HeaderShaped(s) <==> HeaderShaped(s[k..])
  {
    ShiftBlankPrefixRow(s, k);
    ShiftBlankPrefixHeader(s, k);
  }

  lemma {:induction false} ShiftBlankPrefixRow(s: string, k: nat)
    requires k <= |s| && IsBlank(s[..k])
    ensures RowShaped(s) <==> RowShaped(s[k..])
  {
    var u := s[k..];
    if RowShaped(s) {
      var i, j :| 0 <= i < j < |s| && !IsWhite(s[i]) && AfterWideGap(s, j);
      NonWhiteAfterBlank(s, k, i);
      assert !IsWhite(u[i - k]) && AfterWideGap(u, j - k);
    }
    if RowShaped(u) {
      var i, j :| 0 <= i < j < |u| && !IsWhite(u[i]) && AfterWideGap(u, j);
      assert !IsWhite(s[i + k]) && AfterWideGap(s, j + k);
    }
  }

  lemma ShiftBlankPrefixHeader(s: string, k: nat)
    requires k <= |s| && IsBlank(s[..k])
    ensures HeaderShaped(s) <==> HeaderShaped(s[k..])
  {
    if HeaderShaped(s) {
      HeaderAfterBlankPrefix(s, k);
    }
    if HeaderShaped(s[k..]) {
      HeaderBeforeBlankPrefix(s, k);
    }
  }

  lemma HeaderAfterBlankPrefix(s: string, k: nat)
    requires k <= |s| && IsBlank(s[..k]) && HeaderShaped(s)
    ensures HeaderShaped(s[k..])
  {
    var u := s[k..];
    var i, j, m :| 0 <= i < j < m < |s| && !IsWhite(s[i]) && AfterWideGap(s, j) && AfterWideGap(s, m);
    NonWhiteAfterBlank(s, k, i);
    assert !IsWhite(u[i - k]) && AfterWideGap(u, j - k) && AfterWideGap(u, m - k);
  }

  lemma HeaderBeforeBlankPrefix(s: string, k: nat)
    requires k <= |s| && HeaderShaped(s[k..])
    ensures HeaderShaped(s)
  {
    var u := s[k..];
    var i, j, m :| 0 <= i < j < m < |u| && !IsWhite(u[i]) && AfterWideGap(u, j) && AfterWideGap(u, m);
    assert !IsWhite(s[i + k]) && AfterWideGap(s, j + k) && AfterWideGap(s, m + k);
  }

  lemma ShiftNonWhite(s: string)
    requires |s| > 0 && !IsWhite(s[0])
    ensures RowShaped(s) <==> HasGap(s[1..])
    ensures HeaderShaped(s) <==> HasTwoGaps(s[1..])
  {
    ShiftNonWhiteRow(s);
    ShiftNonWhiteHeader(s);
  }

  lemma ShiftNonWhiteRow(s: string)
    requires |s| > 0 && !IsWhite(s[0])
    ensures RowShaped(s) <==> HasGap(s[1..])
  {
    var u := s[1..];
    if RowShaped(s) {
      var i, j :| 0 <= i < j < |s| && !IsWhite(s[i]) && AfterWideGap(s, j);
      assert AfterWideGap(u, j - 1);
    }
    if HasGap(u) {
      var j :| AfterWideGap(u, j);
      assert !IsWhite(s[0]) && AfterWideGap(s, j + 1);
    }
  }

  lemma ShiftNonWhiteHeader(s: string)
    requires |s| > 0 && !IsWhite(s[0])
    ensures HeaderShaped(s) <==> HasTwoGaps(s[1..])
  {
    var u := s[1..];
    if HeaderShaped(s) {
      var i, j, m :| 0 <= i < j < m < |s| && !IsWhite(s[i]) && AfterWideGap(s, j) && AfterWideGap(s, m);
      assert AfterWideGap(u, j - 1) && AfterWideGap(u, m - 1);
    }
    if HasTwoGaps(u) {
      var j, m :| j < m && AfterWideGap(u, j) && AfterWideGap(u, m);
      assert !IsWhite(s[0]) && AfterWideGap(s, j + 1) && AfterWideGap(s, m + 1);
    }
  }

  lemma {:induction false} ShiftGaps(t: string)
    requires |t| > 0 && !AfterWideGap(t, 2)
    ensures HasGap(t) <==> HasGap(t[1..])
    ensures HasTwoGaps(t) <==> HasTwoGaps(t[1..])
  {
    var u := t[1..];
    if HasGap(t) {
      var j :| AfterWideGap(t, j);
      assert AfterWideGap(u, j - 1);
    }
    if HasGap(u) {
      var j :| AfterWideGap(u, j);
      assert AfterWideGap(t, j + 1);
    }
    if HasTwoGaps(t) {
      var j, m :| j < m && AfterWideGap(t, j) && AfterWideGap(t, m);
      assert AfterWideGap(u, j - 1) && AfterWideGap(u, m - 1);
    }
    if HasTwoGaps(u) {
      var j, m :| j < m && AfterWideGap(u, j) && AfterWideGap(u, m);
      assert AfterWideGap(t, j + 1) && AfterWideGap(t, m + 1);
    }
  }

  /** A line that opens with a wide gap: the gap start is a gap, and further gaps are those of the rest. */
  lemma {:induction false} ShiftLeadingGap(t: string, k: nat)
    requires 2 <= k < |t| && IsBlank(t[..k]) && !IsWhite(t[k])
    ensures HasGap(t)
    ensures HasTwoGaps(t) <==> HasGap(t[k..])
  {
    var u := t[k..];
    assert t[..k][k - 1] == t[k - 1] && t[..k][k - 2] == t[k - 2];
    assert AfterWideGap(t, k);
    if HasTwoGaps(t) {
      var j, m :| j < m && AfterWideGap(t, j) && AfterWideGap(t, m);
      assert AfterWideGap(u, m - k);
    }
    if HasGap(u) {
      var j :| AfterWideGap(u, j);
      assert AfterWideGap(t, j + k);
    }
  }

  lemma {:induction false} BlankHasNoGap(t: string)
    requires IsBlank(t)
    ensures !HasGap(t) && !HasTwoGaps(t)
  {
  }

  // ----- helpers: how the token count unfolds along the split -----

  /** The number of non-blank pieces after the first piece of the split. */
  function LaterTokenCount(s: string): nat
  {
    |KeepNonBlank(SplitWhiteRuns(s)[1..])|
  }

  lemma {:induction false} KeepNonBlankCons(x: string, rest: seq<string>)
    ensures |KeepNonBlank([x] + rest)| == (if IsBlank(x) then 0 else 1) + |KeepNonBlank(rest)|
  {
    assert ([x] + rest)[1..] == rest;
  }

  lemma {:induction false} AllBlankDropped(parts: seq<string>)
    requires forall i :: 0 <= i < |parts| ==> IsBlank(parts[i])
    ensures KeepNonBlank(parts) == []
  {
    if |parts| > 0 {
      AllBlankDropped(parts[1..]);
    }
  }

  lemma {:induction false} WhitePrefixBlank(c: char, x: string)
    requires IsWhite(c)
    ensures IsBlank([c] + x) <==> IsBlank(x)
  {
    if IsBlank(x) {
      forall i | 0 <= i < |[c] + x| ensures IsWhite(([c] + x)[i]) {
        if i > 0 { assert ([c] + x)[i] == x[i - 1]; }
      }
    }
    if IsBlank([c] + x) {
      forall i | 0 <= i < |x| ensures IsWhite(x[i]) {
        assert ([c] + x)[i + 1] == x[i];
      }
    }
  }

  lemma {:induction false} LeadingWhiteTwo(s: string)
    requires |s| > 0
    ensures LeadingWhite(s) >= 2 <==> |s| >= 2 && IsWhite(s[0]) && IsWhite(s[1])
  {
    if |s| >= 2 && IsWhite(s[0]) {
      assert s[1..][0] == s[1];
    }
  }

  /** Splitting a line that opens with a wide gap: the gap becomes an empty first piece. */
  lemma {:induction false} SplitLeadingRun(s: string)
    requires |s| > 0 && LeadingWhite(s) >= 2
    ensures SplitWhiteRuns(s) == [""] + SplitWhiteRuns(s[LeadingWhite(s)..])
    ensures SplitWhiteRuns(s)[1..] == SplitWhiteRuns(s[LeadingWhite(s)..])
  {
  }

  lemma {:induction false} AfterLeadingRun(s: string)
    requires |s| > 0 && LeadingWhite(s) >= 2
    ensures Tokens(s) == Tokens(s[LeadingWhite(s)..])
    ensures LaterTokenCount(s) == |Tokens(s[LeadingWhite(s)..])|
  {
    var u := s[LeadingWhite(s)..];
    SplitLeadingRun(s);
    KeepNonBlankCons("", SplitWhiteRuns(u));
  }

  /** A line that opens with a non-whitespace character: the first piece is a token. */
  lemma {:induction false} FirstPieceTokens(u: string)
    requires |u| > 0 && !IsWhite(u[0])
    ensures |Tokens(u)| == 1 + LaterTokenCount(u)
  {
    var parts := SplitWhiteRuns(u);
    assert LeadingWhite(u) == 0;
    assert parts[0][0] == u[0];
    assert parts == [parts[0]] + parts[1..];
    KeepNonBlankCons(parts[0], parts[1..]);
  }

  /** Splitting a line whose leading whitespace is shorter than two: the first character joins the first piece. */
  lemma {:induction false} ShortLead(s: string)
    requires |s| > 0 && LeadingWhite(s) < 2
    ensures LaterTokenCount(s) == LaterTokenCount(s[1..])
    ensures IsWhite(s[0]) ==> |Tokens(s)| == |Tokens(s[1..])|
    ensures !IsWhite(s[0]) ==> |Tokens(s)| == 1 + LaterTokenCount(s[1..])
    ensures !AfterWideGap(s, 2)
  {
    LeadingWhiteTwo(s);
    var rest := SplitWhiteRuns(s[1..]);
    var parts := SplitWhiteRuns(s);
    assert parts == [[s[0]] + rest[0]] + rest[1..];
    assert parts[1..] == rest[1..];
    assert rest == [rest[0]] + rest[1..];
    KeepNonBlankCons([s[0]] + rest[0], rest[1..]);
    KeepNonBlankCons(rest[0], rest[1..]);
    if IsWhite(s[0]) {
      WhitePrefixBlank(s[0], rest[0]);
    } else {
      assert ([s[0]] + rest[0])[0] == s[0];
    }
  }

  /** After the first piece, there is a token exactly when some character follows a wide gap. */
  lemma {:induction false} GapsAfterFirst(t: string)
    ensures LaterTokenCount(t) >= 1 <==> HasGap(t)
    decreases |t|
  {
    if |t| == 0 {
      assert SplitWhiteRuns(t) == [""];
    } else if LeadingWhite(t) >= 2 {
      GapsAfterLeadingRun(t);
    } else {
      ShortLead(t);
      GapsAfterFirst(t[1..]);
      ShiftGaps(t);
    }
  }

  /** A line that opens with a wide gap has a token after its first piece exactly when it has text. */
  lemma GapsAfterLeadingRun(t: string)
    requires |t| > 0 && LeadingWhite(t) >= 2
    ensures LaterTokenCount(t) >= 1 <==> HasGap(t)
  {
    var k := LeadingWhite(t);
    AfterLeadingRun(t);
    if k == |t| {
      assert t[..k] == t && t[k..] == "";
      assert SplitWhiteRuns("") == [""];
      BlankHasNoGap(t);
    } else {
      FirstPieceTokens(t[k..]);
      ShiftLeadingGap(t, k);
    }
  }

  /** After the first piece, there are two tokens exactly when two characters follow wide gaps. */
  lemma {:induction false} TwoGapsAfterFirst(t: string)
    ensures LaterTokenCount(t) >= 2 <==> HasTwoGaps(t)
    decreases |t|
  {
    if |t| == 0 {
      assert SplitWhiteRuns(t) == [""];
    } else {
      var k := LeadingWhite(t);
      if k >= 2 {
        AfterLeadingRun(t);
        if k == |t| {
          assert t[..k] == t;
          BlankHasNoGap(t);
        } else {
          FirstPieceTokens(t[k..]);
          GapsAfterFirst(t[k..]);
          ShiftLeadingGap(t, k);
        }
      } else {
        ShortLead(t);
        TwoGapsAfterFirst(t[1..]);
        ShiftGaps(t);
      }
    }
  }
}
