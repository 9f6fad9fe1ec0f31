/**
 The root table of a config file as a TOML reader bounds it, beside the one the
 migration's two line scanners take: where the missing keys land, and which
 lines pass for root keys.
 */
module TomlRoot {
  import opened Text
  import opened ConfigMigration
  import opened TomlReader

  // ----- Where the root table ends ---------------------------------------------------

  /** Length of the lines above the first header line that starts outside every value. */
  function RootEnd(s: string, l: Lexer): (n: nat)
    ensures n <= |s|
    decreases |s|
  {
    if s == "" then 0
    else
      var p := s[..PieceLen(s)];
      if l == TOP && IsHeader(Trim(LineText(p))) then 0 else |p| + RootEnd(s[PieceLen(s)..], Lex(l, p))
  }

  /** The first line led by `[` starts inside a value: it is a row of an array, or text of a string. */
  predicate BracketRow(ms: seq<Mark>) {
    ms != [] && if IsHeader(ms[0].text) then !ms[0].top else BracketRow(ms[1..])
  }

  lemma HeaderPieceIff(p: string)
    ensures OpensTable(p) <==> IsHeader(Trim(LineText(p)))
  {
    TrimPiece(p);
    assert StartsWith(Trim(p), "[") <==> Trim(p) != "" && Trim(p)[0] == '[';
  }

  lemma CutStep(s: string, l: Lexer, p: string, rest: string)
    requires s != "" && p == s[..PieceLen(s)] && rest == s[PieceLen(s)..]
    ensures RootLength(Pieces(s)) == if OpensTable(p) then 0 else |p| + RootLength(Pieces(rest))
    ensures BracketRow(Marks(s, l)) <==> if OpensTable(p) then l != TOP else BracketRow(Marks(rest, Lex(l, p)))
  {
    hide OpensTable, Trim, Lex, LineText, IsHeader;
    HeaderPieceIff(p);
    assert Pieces(s)[1..] == Pieces(rest);
    assert Marks(s, l)[1..] == Marks(rest, Lex(l, p));
  }

  /** The insertion point is where a TOML reader ends the root table exactly when the first line led by `[` is no row of a value. */
  lemma {:induction false} CutAtRootEndIff(s: string, l: Lexer)
    ensures RootLength(Pieces(s)) == RootEnd(s, l) <==> !BracketRow(Marks(s, l))
    decreases |s|
  {
    hide OpensTable, Trim, Lex, LineText, IsHeader, Pieces, RootLength, Marks, BracketRow;
    if s == "" {
      NoMarks(l);
      NothingToCut(l);
    } else {
      var p, rest := s[..PieceLen(s)], s[PieceLen(s)..];
      HeaderPieceIff(p);
      CutStep(s, l, p, rest);
      CutAtRootEndIff(rest, Lex(l, p));
    }
  }

  lemma NothingToCut(l: Lexer)
    ensures RootLength(Pieces("")) == 0 && !BracketRow(Marks("", l))
  {
  }

  /** What a reader is inside of at the insertion point. */
  lemma {:induction false} StateAtCut(s: string, l: Lexer)
    ensures var at := RootLength(Pieces(s));
            && at <= |s|
            && (BracketRow(Marks(s, l)) <==> at < |s| && Lex(l, s[..at]) != TOP)
    decreases |s|
  {
    hide OpensTable, Lex, Pieces, RootLength, Marks, BracketRow;
    NoMarks(l);
    NothingToCut(l);
    if s != "" {
      var p, rest := s[..PieceLen(s)], s[PieceLen(s)..];
      CutStep(s, l, p, rest);
      if OpensTable(p) {
        assert s[..0] == "";
      } else {
        StateAtCut(rest, Lex(l, p));
        var at := RootLength(Pieces(rest));
        assert s == p + rest;
        CutInRest(p, rest, at);
        LexConcat(l, p, rest[..at]);
      }
    }
  }

  /** The text above the insertion point, its last line closed. */
  function RootFront(content: string): string {
    NoTableLength(content);
    Terminated(content[..RootLength(Pieces(content))])
  }

  function Behind(content: string): string {
    NoTableLength(content);
    content[RootLength(Pieces(content))..]
  }

  /** The missing keys go where no table is open, and outside every value if and only if the first line led by `[` is no row of a value. */
  lemma InsertedAtTopIff(content: string, missing: seq<(string, string)>)
    requires missing != [] && Complete(content)
    ensures RootFront(content) + Join(LinesOf(missing)) <= Backfilled(content, missing)
    ensures forall m :: m in LinesRead(RootFront(content)) ==> !IsHeader(m.text)
    ensures Lex(TOP, RootFront(content)) == TOP <==> !BracketRow(LinesRead(content))
  {
    hide RootLength, Pieces, Lex, Marks, Join, BracketRow;
    var at := RootLength(Pieces(content));
    StateAtCut(content, TOP);
    InsertionCut(content);
    FrontHasNoHeader(content[..at]);
    FrontOf(content, at);
    var front, block := RootFront(content), Join(LinesOf(missing));
    if at < |content| {
      ConcatAssoc(front, block, "\n");
      ConcatAssoc(front + block, "\n", content[at..]);
    }
  }

  lemma FrontOf(content: string, at: nat)
    requires at <= |content|
    ensures at == |content| ==> content[..at] == content
    ensures LineAligned(content[..at]) ==> Terminated(content[..at]) == content[..at]
  {
  }

  lemma FrontHasNoHeader(pre: string)
    requires RootOnly(LineKinds(pre))
    ensures forall m :: m in LinesRead(Terminated(pre)) ==> !IsHeader(m.text)
  {
    hide LineKinds, Marks;
    MarksTerminated(pre, TOP);
    MarkKinds(pre, TOP);
    var ms := LinesRead(pre);
    forall m | m in ms ensures !IsHeader(m.text) {
      var i :| 0 <= i < |ms| && ms[i] == m;
      assert LineKinds(pre)[i] == KindOfTrimmed(m.text);
    }
  }

  // ----- Which lines are root keys -------------------------------------------------------

  predicate IsKey(m: Mark) {
    KindOfTrimmed(m.text).Assign?
  }

  /** The lines the key scan takes. */
  function KeyMarks(ms: seq<Mark>): seq<Mark> {
    if ms == [] || IsHeader(ms[0].text) then []
    else (if IsKey(ms[0]) then [ms[0]] else []) + KeyMarks(ms[1..])
  }

  /** The lines that assign a bare root key: they start outside every value, above the first header that does. */
  function RootMarks(ms: seq<Mark>): (rs: seq<Mark>)
    ensures forall m :: m in rs ==> m.top
  {
    if ms == [] || (ms[0].top && IsHeader(ms[0].text)) then []
    else (if ms[0].top && IsKey(ms[0]) then [ms[0]] else []) + RootMarks(ms[1..])
  }

  function PairsOf(ms: seq<Mark>): seq<(string, string)> {
    if ms == [] then []
    else (match KindOfTrimmed(ms[0].text)
          case Assign(key, line) => [(key, line)]
          case _ => []) + PairsOf(ms[1..])
  }

  /** Above the first line led by `[`, a line inside a value looks like an assignment. */
  predicate Spurious(ms: seq<Mark>) {
    ms != [] && !IsHeader(ms[0].text) && ((IsKey(ms[0]) && !ms[0].top) || Spurious(ms[1..]))
  }

  /** A row of a value led by `[`, the first such line, and a root key below it. */
  predicate Hidden(ms: seq<Mark>) {
    ms != [] && if IsHeader(ms[0].text) then !ms[0].top && RootMarks(ms[1..]) != [] else Hidden(ms[1..])
  }

  lemma {:induction false} KeyLinesOfMarks(ms: seq<Mark>)
    ensures KeyLines(KindsOf(ms)) == PairsOf(KeyMarks(ms))
    decreases |ms|
  {
    hide KindOfTrimmed, IsHeader;
    if ms != [] {
      var m, rest := ms[0], ms[1..];
      KeyLinesOfMarks(rest);
      HeaderKindIff(m.text);
      assert KindsOf(ms)[1..] == KindsOf(rest);
      assert [] + KeyMarks(rest) == KeyMarks(rest);
      assert ([m] + KeyMarks(rest))[1..] == KeyMarks(rest);
      assert [] + KeyLines(KindsOf(rest)) == KeyLines(KindsOf(rest));
    }
  }

  lemma HeaderKindIff(text: string)
    ensures KindOfTrimmed(text).Header? <==> IsHeader(text)
  {
  }

  lemma {:induction false} KeyMarksIff(ms: seq<Mark>)
    ensures KeyMarks(ms) == RootMarks(ms) <==> !Spurious(ms) && !Hidden(ms)
    decreases |ms|
  {
    hide KindOfTrimmed, IsKey, IsHeader;
    if ms != [] {
      var m, ks, rs := ms[0], KeyMarks(ms[1..]), RootMarks(ms[1..]);
      KeyMarksIff(ms[1..]);
      assert [] + ks == ks && [] + rs == rs;
      assert ([m] + ks)[1..] == ks && ([m] + rs)[1..] == rs;
      if !IsHeader(m.text) && IsKey(m) && !m.top {
        assert m !in rs && ([m] + ks)[0] == m;
      }
    }
  }

  /** The scanned keys are the root's bare keys, line for line, if and only if no line of a value passes for one and none is cut off by a row of a value. */
  lemma ScannedKeysIff(content: string)
    ensures var ms := LinesRead(content);
            && TopLevelKeys(content) == PairsOf(KeyMarks(ms))
            && (KeyMarks(ms) == RootMarks(ms) <==> !Spurious(ms) && !Hidden(ms))
  {
    hide Marks, LineKinds, KeyMarks, RootMarks, Spurious, Hidden, KindsOf, KeyLines;
    MarkKinds(content, TOP);
    KeyLinesOfMarks(LinesRead(content));
    KeyMarksIff(LinesRead(content));
  }

  /** An insertion point outside every value hides no key. */
  lemma {:induction false} HiddenBehindRow(ms: seq<Mark>)
    ensures Hidden(ms) ==> BracketRow(ms)
    decreases |ms|
  {
    if ms != [] { HiddenBehindRow(ms[1..]); }
  }
}
