/**
 The text vocabulary shared by the editors and scanners: searching, line
 splitting, joining and trimming, with the exact semantics of the Rust string
 methods the source calls.
 */
module Text {

  lemma ConcatAssoc<T>(a: seq<T>, b: seq<T>, c: seq<T>)
    ensures (a + b) + c == a + (b + c)
  {
  }

  lemma SliceOfSlice<T>(s: seq<T>, lo: nat, hi: nat, i: nat, j: nat)
    requires lo <= hi <= |s| && i <= j <= hi - lo
    ensures s[lo..hi][i..j] == s[lo + i..lo + j]
  {
    var u, v := s[lo..hi][i..j], s[lo + i..lo + j];
    assert forall k :: 0 <= k < j - i ==> u[k] == s[lo..hi][i + k] == s[lo + i + k] == v[k];
  }

  // ----- Searching -------------------------------------------------------

  /** `m` occurs in `s` at position `i`. */
  predicate OccursAt(s: string, m: string, i: int) {
    0 <= i && i + |m| <= |s| && s[i..i + |m|] == m
  }

  /** `m` occurs somewhere in `s` (`str::contains`). */
  ghost predicate Contains(s: string, m: string) {
    exists i :: OccursAt(s, m, i)
  }

  predicate StartsWith(s: string, m: string) {
    m <= s
  }

  predicate EndsWith(s: string, m: string) {
    |m| <= |s| && s[|s| - |m|..] == m
  }

  /** The first occurrence of `m` at or after `from`, or -1 (`str::find`). */
  function FindFrom(s: string, m: string, from: nat): (r: int)
    requires from <= |s|
    ensures r == -1 || (from <= r && OccursAt(s, m, r))
    ensures forall j :: from <= j && (r == -1 || j < r) ==> !OccursAt(s, m, j)
    decreases |s| - from
  {
    if OccursAt(s, m, from) then from
    else if from == |s| then -1
    else FindFrom(s, m, from + 1)
  }

  function Find(s: string, m: string): (r: int)
    ensures r == -1 <==> !Contains(s, m)
    ensures r != -1 ==> OccursAt(s, m, r) && forall j :: 0 <= j < r ==> !OccursAt(s, m, j)
  {
    var r := FindFrom(s, m, 0);
    r
  }

  /** `Find` returns any position that is an occurrence with none before it. */
  lemma FindIs(s: string, m: string, i: nat)
    requires OccursAt(s, m, i)
    requires forall j :: 0 <= j < i ==> !OccursAt(s, m, j)
    ensures Find(s, m) == i
  {
  }

  lemma FindFromIs(s: string, m: string, from: nat, i: nat)
    requires from <= i && OccursAt(s, m, i)
    requires forall j :: from <= j < i ==> !OccursAt(s, m, j)
    ensures from <= |s| && FindFrom(s, m, from) == i
  {
  }

  lemma OccursAtIndex(s: string, m: string, i: int, k: int)
    requires OccursAt(s, m, i) && 0 <= k < |m|
    ensures s[i + k] == m[k]
  {
    assert s[i..i + |m|][k] == m[k];
  }

  /** Shifting an occurrence through a concatenation. */
  lemma OccursAtSuffix(a: string, b: string, m: string, i: int)
    requires 0 <= i
    ensures OccursAt(a + b, m, |a| + i) <==> OccursAt(b, m, i)
  {
    if |a| + i + |m| <= |a + b| {
      assert (a + b)[|a| + i..|a| + i + |m|] == b[i..i + |m|];
    }
  }

  lemma OccursAtPrefix(a: string, b: string, m: string, i: int)
    requires 0 <= i && i + |m| <= |a|
    ensures OccursAt(a + b, m, i) <==> OccursAt(a, m, i)
  {
    assert (a + b)[i..i + |m|] == a[i..i + |m|];
  }

  // ----- Lines -----------------------------------------------------------

  /** Everything before a cut: empty, or ending with the newline that closes its last line. */
  predicate LineAligned(s: string) {
    s == "" || s[|s| - 1] == '\n'
  }

  predicate EndsWithNewline(s: string) {
    s != "" && s[|s| - 1] == '\n'
  }

  lemma AlignedConcat(a: string, b: string)
    requires LineAligned(a) && LineAligned(b)
    ensures LineAligned(a + b)
  {
  }

  /** The length of the first newline-terminated piece of `s`, newline included. */
  function PieceLen(s: string): (n: nat)
    requires s != ""
    ensures 1 <= n <= |s|
    ensures forall k :: 0 <= k < n - 1 ==> s[k] != '\n'
    ensures n < |s| ==> s[n - 1] == '\n'
  {
    if s[0] == '\n' || |s| == 1 then 1
    else
      var n := PieceLen(s[1..]);
      assert forall k :: 1 <= k < n ==> s[k] == s[1..][k - 1];
      n + 1
  }

  lemma PieceLenUnique(s: string, n: nat)
    requires 1 <= n <= |s|
    requires forall k :: 0 <= k < n - 1 ==> s[k] != '\n'
    requires n < |s| ==> s[n - 1] == '\n'
    ensures PieceLen(s) == n
  {
    var p := PieceLen(s);
    var last := s[p - 1];
    assert p < |s| ==> last == '\n';
  }

  /** The text of a piece without its line ending: `\n` or `\r\n`. */
  function LineText(piece: string): string {
    if piece == "" || piece[|piece| - 1] != '\n' then piece
    else if |piece| >= 2 && piece[|piece| - 2] == '\r' then piece[..|piece| - 2]
    else piece[..|piece| - 1]
  }

  /** `str::split_inclusive('\n')`. */
  function Pieces(s: string): seq<string> {
    if s == "" then []
    else [s[..PieceLen(s)]] + Pieces(s[PieceLen(s)..])
  }

  /** `str::lines()`. */
  function Lines(s: string): (ls: seq<string>)
    ensures s != "" ==> ls != []
  {
    if s == "" then []
    else [LineText(s[..PieceLen(s)])] + Lines(s[PieceLen(s)..])
  }

  /** Lines written back, each closed by a newline. */
  function Join(ls: seq<string>): (s: string)
    ensures LineAligned(s)
  {
    if ls == [] then "" else ls[0] + "\n" + Join(ls[1..])
  }

  /** The text with its last line closed. */
  function Terminated(s: string): (t: string)
    ensures LineAligned(t) && s <= t
  {
    if LineAligned(s) then s else s + "\n"
  }

  /** One closed line: a newline at the end and nowhere else. */
  predicate IsPiece(p: string) {
    p != "" && p[|p| - 1] == '\n' && forall k :: 0 <= k < |p| - 1 ==> p[k] != '\n'
  }

  lemma FirstPiece(p: string, rest: string)
    requires IsPiece(p)
    ensures Lines(p + rest) == [LineText(p)] + Lines(rest)
  {
    var s := p + rest;
    assert forall k :: 0 <= k < |p| ==> s[k] == p[k];
    PieceLenUnique(s, |p|);
    assert s[..|p|] == p && s[|p|..] == rest;
  }

  /** A non-empty text is one unclosed line, or a closed line and the rest. */
  lemma SplitPiece(s: string) returns (p: string, rest: string)
    requires s != ""
    ensures s == p + rest && |rest| < |s|
    ensures IsPiece(p) || (rest == "" && '\n' !in p && Lines(s) == [s])
  {
    var n := PieceLen(s);
    p, rest := s[..n], s[n..];
    assert s == p + rest;
    if p[n - 1] != '\n' {
      assert rest == "" && p == s;
    }
  }

  lemma {:induction false} LinesConcat(a: string, b: string)
    requires LineAligned(a)
    ensures Lines(a + b) == Lines(a) + Lines(b)
    decreases |a|
  {
    if a == "" {
      assert a + b == b;
    } else {
      var p, rest := SplitPiece(a);
      ConcatAssoc(p, rest, b);
      assert IsPiece(p);
      assert LineAligned(rest);
      LinesConcat(rest, b);
      FirstPiece(p, rest + b);
      FirstPiece(p, rest);
      ConcatAssoc([LineText(p)], Lines(rest), Lines(b));
    }
  }

  lemma {:induction false} JoinConcat(a: seq<string>, b: seq<string>)
    ensures Join(a + b) == Join(a) + Join(b)
    decreases |a|
  {
    if a == [] {
      assert a + b == b;
    } else {
      assert (a + b)[1..] == a[1..] + b;
      JoinConcat(a[1..], b);
    }
  }

  lemma JoinAppend(ls: seq<string>, l: string)
    ensures Join(ls + [l]) == Join(ls) + l + "\n"
  {
    JoinConcat(ls, [l]);
    assert Join([l]) == l + "\n" + Join([]);
  }

  /** A line a text can give back unchanged: no newline in it, no carriage return at its end. */
  predicate CleanLine(l: string) {
    '\n' !in l && (l == "" || l[|l| - 1] != '\r')
  }

  predicate CleanLines(ls: seq<string>) {
    forall i :: 0 <= i < |ls| ==> CleanLine(ls[i])
  }

  lemma CleanPiece(l: string)
    requires CleanLine(l)
    ensures IsPiece(l + "\n") && LineText(l + "\n") == l
  {
    assert (l + "\n")[..|l|] == l;
  }

  lemma {:induction false} LinesOfJoin(ls: seq<string>)
    requires CleanLines(ls)
    ensures Lines(Join(ls)) == ls
    decreases |ls|
  {
    if ls != [] {
      CleanPiece(ls[0]);
      FirstPiece(ls[0] + "\n", Join(ls[1..]));
      LinesOfJoin(ls[1..]);
    }
  }

  /** No line of `s`, once closed, ends in `\r\n`: the text that line-by-line rewriting leaves alone. */
  predicate NoCrLf(s: string) {
    forall i :: 0 <= i < |s| && s[i] == '\r' ==> i + 1 < |s| && s[i + 1] != '\n'
  }

  lemma NoCrLfConcat(a: string, b: string)
    requires LineAligned(a) && NoCrLf(a) && NoCrLf(b)
    ensures NoCrLf(a + b)
  {
    forall i | 0 <= i < |a + b| && (a + b)[i] == '\r'
      ensures i + 1 < |a + b| && (a + b)[i + 1] != '\n'
    {
      if i < |a| {
        assert a[i] == '\r' && i + 1 < |a|;
        assert (a + b)[i + 1] == a[i + 1];
      } else {
        assert b[i - |a|] == '\r';
        assert (a + b)[i + 1] == b[i - |a| + 1];
      }
    }
  }

  /** A closed line without `\r\n` is its text and a newline. */
  lemma PieceText(p: string)
    requires IsPiece(p)
    ensures NoCrLf(p) ==> LineText(p) + "\n" == p && CleanLine(LineText(p))
    ensures !NoCrLf(p) ==> |LineText(p)| == |p| - 2
  {
    assert p[..|p| - 1] + "\n" == p;
  }

  lemma JoinFirstPiece(p: string, rest: string)
    requires IsPiece(p)
    ensures Join(Lines(p + rest)) == (LineText(p) + "\n") + Join(Lines(rest))
  {
    FirstPiece(p, rest);
    JoinConcat([LineText(p)], Lines(rest));
    assert Join([LineText(p)]) == LineText(p) + "\n";
  }

  lemma TerminatedConcat(a: string, b: string)
    requires LineAligned(a)
    ensures Terminated(a + b) == a + Terminated(b)
  {
    ConcatAssoc(a, b, "\n");
    if b == "" { assert a + b == a; }
  }

  /** Splitting into lines and writing them back closes the last line and changes nothing else. */
  lemma {:induction false} JoinOfLines(s: string)
    requires NoCrLf(s)
    ensures Join(Lines(s)) == Terminated(s)
    ensures CleanLines(Lines(s))
    decreases |s|
  {
    if s != "" {
      var p, rest := SplitPiece(s);
      if IsPiece(p) {
        NoCrLfSplit(p, rest);
        JoinOfLines(rest);
        TerminatedConcat(p, rest);
        PieceText(p);
        JoinFirstPiece(p, rest);
        FirstPiece(p, rest);
        CleanLinesCons(LineText(p), Lines(rest));
      } else {
        JoinOfOneLine(s);
      }
    }
  }

  lemma CleanLinesCons(l: string, ls: seq<string>)
    requires CleanLine(l) && CleanLines(ls)
    ensures CleanLines([l] + ls)
  {
  }

  lemma JoinOfOneLine(s: string)
    requires s != "" && '\n' !in s && NoCrLf(s)
    ensures Join([s]) == Terminated(s) && CleanLine(s)
  {
    assert Join([s]) == s + "\n";
    assert s[|s| - 1] in s;
  }

  lemma NoCrLfSplit(a: string, b: string)
    requires LineAligned(a) && NoCrLf(a + b)
    ensures NoCrLf(a) && NoCrLf(b)
  {
    assert (a + b)[..|a|] == a && (a + b)[|a|..] == b;
  }

  /** Rewriting line by line shortens a closed text exactly when one of its lines ends in `\r\n`. */
  lemma {:induction false} JoinOfLinesLength(s: string)
    requires LineAligned(s)
    ensures |Join(Lines(s))| <= |s|
    ensures |Join(Lines(s))| == |s| ==> NoCrLf(s)
    decreases |s|
  {
    if s != "" {
      var p, rest := SplitPiece(s);
      assert IsPiece(p);
      assert LineAligned(rest);
      JoinOfLinesLength(rest);
      PieceText(p);
      JoinFirstPiece(p, rest);
      if |Join(Lines(s))| == |s| {
        NoCrLfConcat(p, rest);
      }
    }
  }

  // ----- Markers inside lines --------------------------------------------

  /** A marker without a newline never straddles the end of a line. */
  lemma NoStraddle(a: string, b: string, m: string, i: int)
    requires LineAligned(a) && '\n' !in m && m != ""
    requires OccursAt(a + b, m, i)
    ensures i + |m| <= |a| || |a| <= i
  {
    if i < |a| < i + |m| {
      OccursAtIndex(a + b, m, i, |a| - 1 - i);
      assert false;
    }
  }

  lemma ContainsConcat(a: string, b: string, m: string)
    requires LineAligned(a) && '\n' !in m && m != ""
    ensures Contains(a + b, m) <==> Contains(a, m) || Contains(b, m)
  {
    if Contains(a + b, m) {
      var i :| OccursAt(a + b, m, i);
      NoStraddle(a, b, m, i);
      if i + |m| <= |a| {
        OccursAtPrefix(a, b, m, i);
      } else {
        OccursAtSuffix(a, b, m, i - |a|);
      }
    }
    if Contains(a, m) {
      var i :| OccursAt(a, m, i);
      OccursAtPrefix(a, b, m, i);
    }
    if Contains(b, m) {
      var i :| OccursAt(b, m, i);
      OccursAtSuffix(a, b, m, i);
    }
  }

  /** A marker that starts with a character it holds nowhere else cannot begin just before another copy of itself. */
  lemma FirstCopy(pre: string, m: string, rest: string)
    requires m != "" && forall k :: 1 <= k < |m| ==> m[k] != m[0]
    requires forall j :: 0 <= j && j + |m| <= |pre| ==> !OccursAt(pre, m, j)
    ensures Find(pre + m + rest, m) == |pre|
  {
    var s := pre + m + rest;
    assert s[|pre|..|pre| + |m|] == m;
    assert s[|pre|] == m[0];
    forall j | 0 <= j < |pre|
      ensures !OccursAt(s, m, j)
    {
      if j + |m| <= |pre| {
        assert s[j..j + |m|] == pre[j..j + |m|];
        assert !OccursAt(pre, m, j);
      } else {
        assert m[|pre| - j] != m[0];
        if OccursAt(s, m, j) { OccursAtIndex(s, m, j, |pre| - j); }
      }
    }
    FindIs(s, m, |pre|);
  }

  /** A marker is first found right after whole lines that do not hold it. */
  lemma FirstAfterLines(pre: string, u: string, m: string, v: string)
    requires m != "" && '\n' !in m
    requires LineAligned(u) && !Contains(u, m)
    ensures FindFrom(pre + (u + (m + v)), m, |pre|) == |pre| + |u|
  {
    var w := u + (m + v);
    forall j | 0 <= j < |u| ensures !OccursAt(w, m, j) {
      if OccursAt(w, m, j) {
        NoStraddle(u, m + v, m, j);
        OccursAtPrefix(u, m + v, m, j);
      }
    }
    assert OccursAt(m + v, m, 0);
    OccursAtSuffix(u, m + v, m, 0);
    OccursAtSuffix(pre, w, m, |u|);
    forall j | |pre| <= j < |pre| + |u| ensures !OccursAt(pre + w, m, j) {
      OccursAtSuffix(pre, w, m, j - |pre|);
    }
    FindFromIs(pre + w, m, |pre|, |pre| + |u|);
  }

  lemma NoMarkerBeforeNewline(s: string, m: string)
    requires !Contains(s, m) && m != "" && '\n' !in m
    ensures !Contains(s + "\n", m)
  {
    forall i | OccursAt(s + "\n", m, i) ensures false {
      if i + |m| <= |s| {
        OccursAtPrefix(s, "\n", m, i);
      } else {
        OccursAtIndex(s + "\n", m, i, |m| - 1);
      }
    }
  }

  lemma ClosingLineFrom(s: string, k: nat, n: nat, m: string)
    requires m != "" && '\n' !in m
    requires k <= n && OccursAt(s, m, n)
    requires LineAligned(s[k..n]) && !Contains(s[k..n], m)
    ensures FindFrom(s, m, k) == n
  {
    var u := s[k..n];
    forall j | k <= j < n ensures !OccursAt(s, m, j) {
      if OccursAt(s, m, j) {
        if j + |m| <= n {
          SliceOfSlice(s, k, n, j - k, j - k + |m|);
          assert OccursAt(u, m, j - k);
        } else {
          OccursAtIndex(s, m, j, n - 1 - j);
        }
      }
    }
    FindFromIs(s, m, k, n);
  }

  lemma AbsentMeansNowhere(pre: string, m: string)
    requires !Contains(pre, m)
    ensures forall j :: 0 <= j && j + |m| <= |pre| ==> !OccursAt(pre, m, j)
  {
  }

  lemma StillAbsent(content: string, m: string)
    requires !Contains(content, m) && m != "" && '\n' !in m
    ensures !Contains(Terminated(content) + "\n", m)
  {
    if !LineAligned(content) {
      NoMarkerBeforeNewline(content, m);
    }
    NoMarkerBeforeNewline(Terminated(content), m);
  }

  /** A slice of a stretch without the marker is without it. */
  lemma SliceAbsent(s: string, m: string, lo: nat, hi: nat)
    requires lo <= hi <= |s|
    requires forall j :: lo <= j ==> !OccursAt(s, m, j)
    ensures !Contains(s[lo..hi], m)
  {
    forall j | 0 <= j ensures !OccursAt(s[lo..hi], m, j) {
      assert !OccursAt(s, m, lo + j);
      if OccursAt(s[lo..hi], m, j) {
        SliceOfSlice(s, lo, hi, j, j + |m|);
      }
    }
  }

  /** Whatever a line contains, its text contains. */
  lemma {:induction false} LineInText(s: string, m: string, i: nat)
    requires i < |Lines(s)| && Contains(Lines(s)[i], m)
    ensures Contains(s, m)
    decreases |s|
  {
    hide Lines, LineText, OccursAt;
    EmptyLines();
    var p, rest := SplitPiece(s);
    if IsPiece(p) {
      FirstPiece(p, rest);
      if i == 0 {
        LineTextFront(p);
        var k :| OccursAt(LineText(p), m, k);
        FrontHolds(LineText(p), p, m, k);
        FrontHolds(p, s, m, k);
      } else {
        assert Lines(s)[i] == Lines(rest)[i - 1];
        LineInText(rest, m, i - 1);
        var k :| OccursAt(rest, m, k);
        OccursBehind(p, rest, m, k);
      }
    }
  }

  lemma EmptyLines()
    ensures Lines("") == []
  {
  }

  lemma LineTextFront(p: string)
    ensures LineText(p) <= p
  {
  }

  lemma FrontHolds(a: string, s: string, m: string, k: int)
    requires a <= s && OccursAt(a, m, k)
    ensures OccursAt(s, m, k)
  {
    assert s == a + s[|a|..];
    OccursAtPrefix(a, s[|a|..], m, k);
  }

  lemma OccursBehind(a: string, b: string, m: string, k: int)
    requires OccursAt(b, m, k)
    ensures OccursAt(a + b, m, |a| + k)
  {
    OccursAtSuffix(a, b, m, k);
  }

  /** A marker of a text stands whole in one of its lines. */
  lemma {:induction false} TextInLine(s: string, m: string) returns (i: nat)
    requires Contains(s, m) && m != "" && '\n' !in m && '\r' !in m
    ensures i < |Lines(s)| && Contains(Lines(s)[i], m)
    decreases |s|
  {
    var p, rest := SplitPiece(s);
    if !IsPiece(p) {
      i := 0;
    } else {
      FirstPiece(p, rest);
      ContainsConcat(p, rest, m);
      if Contains(p, m) {
        i := 0;
        var k :| OccursAt(p, m, k);
        PieceHolds(p, m, k);
      } else {
        i := TextInLine(rest, m);
        i := i + 1;
      }
    }
  }

  lemma PieceHolds(p: string, m: string, k: nat)
    requires IsPiece(p) && OccursAt(p, m, k) && m != "" && '\n' !in m && '\r' !in m
    ensures OccursAt(LineText(p), m, k)
  {
    var l := LineText(p);
    OccursAtIndex(p, m, k, |m| - 1);
    assert m[|m| - 1] in m;
    assert forall j :: |l| <= j < |p| ==> p[j] == '\n' || p[j] == '\r';
    assert k + |m| <= |l|;
    assert l[k..k + |m|] == p[k..k + |m|];
  }

  /** A text that opens with a marker has the marker at the start of its first line. */
  lemma FirstLineStarts(s: string, m: string)
    requires StartsWith(s, m) && m != "" && '\n' !in m && '\r' !in m
    ensures Lines(s) != [] && StartsWith(Lines(s)[0], m)
  {
    var p, rest := SplitPiece(s);
    assert forall k :: 0 <= k < |m| ==> s[k] in m;
    if IsPiece(p) {
      FirstPiece(p, rest);
      assert s[|p| - 1] == '\n';
      assert |m| < |p|;
      assert |p| >= 2 ==> s[|p| - 2] == p[|p| - 2];
      assert LineText(p) == s[..|LineText(p)|];
    }
  }

  // ----- Trimming --------------------------------------------------------

  /** The Unicode White_Space property, as `char::is_whitespace` tests it. */
  predicate IsWhitespace(c: char) {
    || '\t' <= c <= '\r' || c == ' ' || c == '\U{85}' || c == '\U{A0}' || c == '\U{1680}'
    || '\U{2000}' <= c <= '\U{200A}' || c == '\U{2028}' || c == '\U{2029}' || c == '\U{202F}'
    || c == '\U{205F}' || c == '\U{3000}'
  }

  function TrimStart(s: string): (t: string)
    ensures t == "" || !IsWhitespace(t[0])
    ensures |t| <= |s| && t == s[|s| - |t|..]
    ensures forall k :: 0 <= k < |s| - |t| ==> IsWhitespace(s[k])
  {
    if s != "" && IsWhitespace(s[0]) then
      var t := TrimStart(s[1..]);
      assert forall k :: 1 <= k < |s| - |t| ==> s[k] == s[1..][k - 1];
      t
    else s
  }

  function TrimEnd(s: string): (t: string)
    ensures t == "" || !IsWhitespace(t[|t| - 1])
    ensures t <= s
    ensures forall k :: |t| <= k < |s| ==> IsWhitespace(s[k])
  {
    if s != "" && IsWhitespace(s[|s| - 1]) then TrimEnd(s[..|s| - 1]) else s
  }

  function Trim(s: string): string {
    TrimEnd(TrimStart(s))
  }

  predicate AllWhitespace(s: string) {
    forall k :: 0 <= k < |s| ==> IsWhitespace(s[k])
  }

  /** Right-trimming is determined by where the trailing whitespace begins. */
  lemma TrimEndUnique(t: string, w: string)
    requires t == "" || !IsWhitespace(t[|t| - 1])
    requires AllWhitespace(w)
    ensures TrimEnd(t + w) == t
  {
    var s := t + w;
    assert t != "" ==> s[|t| - 1] == t[|t| - 1];
    assert forall k :: |t| <= k < |s| ==> s[k] == w[k - |t|];
  }

  lemma TrimUnique(w1: string, t: string, w2: string)
    requires AllWhitespace(w1) && AllWhitespace(w2)
    requires t == "" || (!IsWhitespace(t[0]) && !IsWhitespace(t[|t| - 1]))
    ensures Trim(w1 + t + w2) == t
  {
    if t == "" {
      assert AllWhitespace(w1 + t + w2);
      assert TrimStart(w1 + t + w2) == "" by { TrimStartUnique(w1 + t + w2, ""); assert w1 + t + w2 + "" == w1 + t + w2; }
    } else {
      ConcatAssoc(w1, t, w2);
      TrimStartUnique(w1, t + w2);
      TrimEndUnique(t, w2);
    }
  }

  const WHITE_SPACE := {
    0x9, 0xA, 0xB, 0xC, 0xD, 0x20, 0x85, 0xA0, 0x1680,
    0x2000, 0x2001, 0x2002, 0x2003, 0x2004, 0x2005, 0x2006, 0x2007, 0x2008, 0x2009, 0x200A,
    0x2028, 0x2029, 0x202F, 0x205F, 0x3000}

  /** Exactly the 25 White_Space code points of Unicode are trimmed away. */
  lemma TrimmedAwayIff(c: char)
    ensures Trim([c]) == "" <==> (c as int in WHITE_SPACE)
  {
    WhiteSpaceIs(c);
    hide IsWhitespace;
    assert [c][1..] == "" && TrimEnd("") == "";
  }

  lemma WhiteSpaceIs(c: char)
    ensures IsWhitespace(c) <==> (c as int in WHITE_SPACE)
  {
  }

  lemma TrimStartUnique(w: string, t: string)
    requires t == "" || !IsWhitespace(t[0])
    requires AllWhitespace(w)
    ensures TrimStart(w + t) == t
  {
    var s := w + t;
    assert forall k :: 0 <= k < |w| ==> s[k] == w[k];
    assert t != "" ==> s[|w|] == t[0];
  }

  /** Every text is its trimmed core between two stretches of whitespace. */
  lemma TrimParts(s: string) returns (w1: string, w2: string)
    ensures s == w1 + Trim(s) + w2
    ensures AllWhitespace(w1) && AllWhitespace(w2)
    ensures Trim(s) == "" || (!IsWhitespace(Trim(s)[0]) && !IsWhitespace(Trim(s)[|Trim(s)| - 1]))
  {
    hide TrimStart, TrimEnd, IsWhitespace;
    var a := TrimStart(s);
    var t := TrimEnd(a);
    w1, w2 := s[..|s| - |a|], a[|t|..];
    assert t != "" ==> t[0] == a[0];
    JoinParts(s, a, t);
  }

  lemma JoinParts(s: string, a: string, t: string)
    requires |a| <= |s| && a == s[|s| - |a|..] && t <= a
    ensures s == s[..|s| - |a|] + t + a[|t|..]
  {
  }

  lemma TrimAgain(s: string)
    ensures Trim(Trim(s)) == Trim(s)
  {
    var w1, w2 := TrimParts(s);
    TrimUnique("", Trim(s), "");
    assert "" + Trim(s) + "" == Trim(s);
  }

  /** Trailing whitespace does not change what trimming leaves. */
  lemma TrimIgnoresTail(s: string, w: string)
    requires AllWhitespace(w)
    ensures Trim(s + w) == Trim(s)
  {
    var w1, w2 := TrimParts(s);
    ConcatAssoc(w1 + Trim(s), w2, w);
    TrimUnique(w1, Trim(s), w2 + w);
  }

  // ----- Replacing -------------------------------------------------------

  /** `str::replace` of one character by a string. */
  function ReplaceChar(s: string, c: char, by_: string): string {
    if s == "" then "" else (if s[0] == c then by_ else [s[0]]) + ReplaceChar(s[1..], c, by_)
  }
}
