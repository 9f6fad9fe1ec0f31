/**
 A reader of TOML text as far as tables and keys go: where strings, arrays and
 comments reach, which lines start outside every value, and what a header or
 an assignment names.
 */
module TomlReader {
  import opened Wrappers
  import opened Text
  import opened ConfigMigration

  // ----- Between two characters ----------------------------------------------------

  /**
   Outside strings; in a comment; behind one or two quotes that open a string;
   in a one-line string; in a multi-line one, behind `n` quotes in a row;
   behind the three quotes that close it, which up to two more may precede.
   `esc` is a backslash just read.
   */
  datatype Mode =
    | Bare
    | Comment
    | Opening(q: char, n: nat)
    | OneLine(q: char, esc: bool)
    | Multi(q: char, n: nat, esc: bool)
    | Closing(q: char, n: nat)

  /** `depth` counts the open brackets and braces. */
  datatype Lexer = Lexer(mode: Mode, depth: nat)

  const TOP := Lexer(Bare, 0)

  function InBare(depth: nat, c: char): Lexer {
    if c == '"' || c == '\'' then Lexer(Opening(c, 1), depth)
    else if c == '#' then Lexer(Comment, depth)
    else if c == '[' || c == '{' then Lexer(Bare, depth + 1)
    else if (c == ']' || c == '}') && depth > 0 then Lexer(Bare, depth - 1)
    else Lexer(Bare, depth)
  }

  /** A one-line string does not reach over the end of its line. */
  function InOneLine(q: char, esc: bool, depth: nat, c: char): Lexer {
    if c == '\n' then Lexer(Bare, depth)
    else if esc then Lexer(OneLine(q, false), depth)
    else if c == q then Lexer(Bare, depth)
    else Lexer(OneLine(q, q == '"' && c == '\\'), depth)
  }

  function LexChar(l: Lexer, c: char): Lexer {
    match l.mode
    case Bare => InBare(l.depth, c)
    case Comment => if c == '\n' then Lexer(Bare, l.depth) else l
    case Opening(q, n) =>
      if c == q then Lexer(if n == 1 then Opening(q, 2) else Multi(q, 0, false), l.depth)
      else if n == 1 then InOneLine(q, false, l.depth, c)
      else InBare(l.depth, c)
    case OneLine(q, esc) => InOneLine(q, esc, l.depth, c)
    case Multi(q, n, esc) =>
      if esc then Lexer(Multi(q, 0, false), l.depth)
      else if c == q then Lexer(if n == 2 then Closing(q, 0) else Multi(q, n + 1, false), l.depth)
      else Lexer(Multi(q, 0, q == '"' && c == '\\'), l.depth)
    case Closing(q, n) =>
      if c == q && n < 2 then Lexer(Closing(q, n + 1), l.depth) else InBare(l.depth, c)
  }

  function Lex(l: Lexer, s: string): Lexer
    decreases |s|
  {
    if s == "" then l else Lex(LexChar(l, s[0]), s[1..])
  }

  lemma {:induction false} LexConcat(l: Lexer, a: string, b: string)
    ensures Lex(l, a + b) == Lex(Lex(l, a), b)
    decreases |a|
  {
    if a == "" {
      assert a + b == b;
    } else {
      assert (a + b)[0] == a[0] && (a + b)[1..] == a[1..] + b;
      LexConcat(LexChar(l, a[0]), a[1..], b);
    }
  }

  /** Every string and every bracket is closed by the end of the text. */
  predicate Complete(s: string) {
    Lex(TOP, Terminated(s)) == TOP
  }

  // ----- Lines ------------------------------------------------------------------------

  /** A line: whether it starts outside every value, and its text, trimmed. */
  datatype Mark = Mark(top: bool, text: string)

  predicate IsHeader(text: string) {
    text != "" && text[0] == '['
  }

  function Marks(s: string, l: Lexer): seq<Mark>
    decreases |s|
  {
    if s == "" then []
    else
      var p := s[..PieceLen(s)];
      [Mark(l == TOP, Trim(LineText(p)))] + Marks(s[PieceLen(s)..], Lex(l, p))
  }

  function LinesRead(s: string): seq<Mark> {
    Marks(s, TOP)
  }

  lemma FirstMark(p: string, rest: string, l: Lexer)
    requires IsPiece(p)
    ensures Marks(p + rest, l) == [Mark(l == TOP, Trim(LineText(p)))] + Marks(rest, Lex(l, p))
  {
    hide Trim, LineText, Lex;
    var s := p + rest;
    assert forall k :: 0 <= k < |p| ==> s[k] == p[k];
    PieceLenUnique(s, |p|);
    assert s[..|p|] == p && s[|p|..] == rest;
  }

  lemma OpenMark(s: string, l: Lexer)
    requires s != "" && '\n' !in s
    ensures Marks(s, l) == [Mark(l == TOP, Trim(s))]
  {
    hide Trim, Lex;
    OpenLine(s);
    PieceLenUnique(s, |s|);
    assert s[..|s|] == s && s[|s|..] == "";
    assert Marks("", Lex(l, s)) == [];
  }

  lemma NoMarks(l: Lexer)
    ensures Marks("", l) == [] && Lex(l, "") == l
  {
  }

  lemma {:induction false} MarksConcat(a: string, b: string, l: Lexer)
    requires LineAligned(a)
    ensures Marks(a + b, l) == Marks(a, l) + Marks(b, Lex(l, a))
    decreases |a|
  {
    hide Marks, Lex;
    NoMarks(l);
    if a == "" {
      assert a + b == b && [] + Marks(b, l) == Marks(b, l);
    } else {
      var p, rest := SplitPiece(a);
      AlignedSplit(p, rest);
      MarksConcat(rest, b, Lex(l, p));
      ConcatAssoc(p, rest, b);
      FirstMark(p, rest, l);
      FirstMark(p, rest + b, l);
      LexConcat(l, p, rest);
      var first := [Mark(l == TOP, Trim(LineText(p)))];
      ConcatAssoc(first, Marks(rest, Lex(l, p)), Marks(b, Lex(Lex(l, p), rest)));
    }
  }

  lemma AlignedSplit(p: string, rest: string)
    requires p != "" && LineAligned(p + rest)
    requires IsPiece(p) || (rest == "" && '\n' !in p)
    ensures IsPiece(p) && LineAligned(rest)
  {
    assert rest != "" ==> (p + rest)[|p + rest| - 1] == rest[|rest| - 1];
    assert rest == "" ==> p + rest == p && p[|p| - 1] in p;
  }

  /** Closing the last line changes no line. */
  lemma {:induction false} MarksTerminated(s: string, l: Lexer)
    ensures Marks(Terminated(s), l) == Marks(s, l)
    decreases |s|
  {
    if !LineAligned(s) {
      hide Marks, Lex, Trim;
      var p, rest := SplitPiece(s);
      if IsPiece(p) {
        TerminatedConcat(p, rest);
        MarksTerminated(rest, Lex(l, p));
        FirstMark(p, rest, l);
        FirstMark(p, Terminated(rest), l);
      } else {
        assert p + rest == p;
        OpenMark(s, l);
        ClosedMark(s, l);
      }
    }
  }

  lemma ClosedMark(s: string, l: Lexer)
    requires s != "" && '\n' !in s
    ensures Marks(s + "\n", l) == [Mark(l == TOP, Trim(s))]
  {
    hide Lex, Trim, Marks, LineText;
    assert IsPiece(s + "\n") by { ClosedPiece(s); }
    FirstMark(s + "\n", "", l);
    assert s + "\n" + "" == s + "\n";
    NoMarks(Lex(l, s + "\n"));
    TrimPiece(s + "\n");
    TrimIgnoresTail(s, "\n");
  }

  lemma ClosedPiece(s: string)
    requires '\n' !in s
    ensures IsPiece(s + "\n")
  {
    assert forall k :: 0 <= k < |s| ==> (s + "\n")[k] == s[k] && s[k] in s;
  }

  /** What the key scan makes of the lines. */
  function KindsOf(ms: seq<Mark>): (ks: seq<LineKind>)
    ensures |ks| == |ms| && forall i :: 0 <= i < |ms| ==> ks[i] == KindOfTrimmed(ms[i].text)
  {
    seq(|ms|, i requires 0 <= i < |ms| => KindOfTrimmed(ms[i].text))
  }

  lemma {:induction false} MarkKinds(s: string, l: Lexer)
    ensures LineKinds(s) == KindsOf(Marks(s, l))
    decreases |s|
  {
    hide KindOfTrimmed, Trim, Lex, LineText;
    if s == "" {
      NoKinds();
    } else {
      var p, rest := s[..PieceLen(s)], s[PieceLen(s)..];
      MarkKinds(rest, Lex(l, p));
      assert Lines(s) == [LineText(p)] + Lines(rest);
      var first := Mark(l == TOP, Trim(LineText(p)));
      assert Marks(s, l) == [first] + Marks(rest, Lex(l, p));
      assert LineKinds(s) == [Kind(LineText(p))] + LineKinds(rest) by {
        KindsConcat([LineText(p)], Lines(rest));
        assert Kinds([LineText(p)]) == [Kind(LineText(p))];
      }
      assert KindsOf([first] + Marks(rest, Lex(l, p))) == [KindOfTrimmed(first.text)] + KindsOf(Marks(rest, Lex(l, p)));
    }
  }

  /** The lines a reader takes for headers, keys, comments and blanks: those that start outside every value. */
  function TopTexts(ms: seq<Mark>): seq<string> {
    if ms == [] then [] else (if ms[0].top then [ms[0].text] else []) + TopTexts(ms[1..])
  }

  lemma {:induction false} TopTextsConcat(a: seq<Mark>, b: seq<Mark>)
    ensures TopTexts(a + b) == TopTexts(a) + TopTexts(b)
    decreases |a|
  {
    if a == [] {
      assert a + b == b;
    } else {
      assert (a + b)[1..] == a[1..] + b;
      TopTextsConcat(a[1..], b);
      ConcatAssoc(if a[0].top then [a[0].text] else [], TopTexts(a[1..]), TopTexts(b));
    }
  }

  function Tops(s: string): seq<string> {
    TopTexts(LinesRead(s))
  }

  /** Behind a text with every value closed a reader starts afresh. */
  lemma TopsConcat(a: string, b: string)
    requires LineAligned(a) && Lex(TOP, a) == TOP
    ensures Tops(a + b) == Tops(a) + Tops(b)
  {
    hide Marks, TopTexts, Lex;
    MarksConcat(a, b, TOP);
    TopTextsConcat(LinesRead(a), LinesRead(b));
  }

  // ----- What a line names ---------------------------------------------------------------

  /** Characters TOML 1.0 allows raw in a basic string, besides quote and backslash. */
  predicate Printable(c: char) {
    c == '\t' || (c >= ' ' && c != '\U{7F}')
  }

  function Unescape(c: char): Option<char> {
    match c
    case '"' => Some('"')
    case '\\' => Some('\\')
    case 'b' => Some('\U{8}')
    case 't' => Some('\t')
    case 'n' => Some('\n')
    case 'f' => Some('\U{C}')
    case 'r' => Some('\r')
    case _ => None
  }

  function HexDigit(c: char): Option<nat> {
    if '0' <= c <= '9' then Some((c - '0') as nat)
    else if 'a' <= c <= 'f' then Some(10 + (c - 'a') as nat)
    else if 'A' <= c <= 'F' then Some(10 + (c - 'A') as nat)
    else None
  }

  function HexValue(s: string): Option<nat> {
    if s == "" then Some(0)
    else
      var high, low := HexValue(s[..|s| - 1]), HexDigit(s[|s| - 1]);
      if high.None? || low.None? then None else Some(16 * high.value + low.value)
  }

  /** The character a `\u` or `\U` escape names, when its digits name one. */
  function ScalarOf(digits: string): Option<char> {
    var v := HexValue(digits);
    if v.Some? && (v.value < 0xD800 || 0xE000 <= v.value < 0x11_0000) then Some(v.value as char) else None
  }

  /** The character a backslash and what follows it stand for, and how much that is. */
  function ReadEscape(s: string): (r: Option<(char, nat)>)
    requires s != "" && s[0] == '\\'
    ensures r.Some? ==> 2 <= r.value.1 <= |s|
  {
    if |s| < 2 then None
    else if Unescape(s[1]).Some? then Some((Unescape(s[1]).value, 2))
    else
      var n := if s[1] == 'u' then 6 else 10;
      if (s[1] != 'u' && s[1] != 'U') || |s| < n || ScalarOf(s[2..n]).None? then None
      else Some((ScalarOf(s[2..n]).value, n))
  }

  /** Reads a basic string from just after its opening quote: its value, and the text after its closing quote. */
  function ReadBasic(s: string): Option<(string, string)>
    decreases |s|
  {
    if s == "" then None
    else if s[0] == '"' then Some(("", s[1..]))
    else if s[0] == '\\' then
      var escape := ReadEscape(s);
      if escape.None? then None
      else
        match ReadBasic(s[escape.value.1..])
        case None => None
        case Some((v, rest)) => Some(([escape.value.0] + v, rest))
    else if !Printable(s[0]) then None
    else
      match ReadBasic(s[1..])
      case None => None
      case Some((v, rest)) => Some(([s[0]] + v, rest))
  }

  function ReadLiteral(s: string): Option<(string, string)> {
    if s == "" || !(Printable(s[0]) || s[0] == '\'') then None
    else if s[0] == '\'' then Some(("", s[1..]))
    else
      match ReadLiteral(s[1..])
      case None => None
      case Some((v, rest)) => Some(([s[0]] + v, rest))
  }

  /** The key characters in front. */
  function BareLength(s: string): (n: nat)
    ensures n <= |s| && forall i :: 0 <= i < n ==> IsKeyChar(s[i])
    ensures n < |s| ==> !IsKeyChar(s[n])
  {
    if s == "" || !IsKeyChar(s[0]) then 0
    else
      var n := BareLength(s[1..]);
      assert forall i :: 1 <= i < n + 1 ==> s[i] == s[1..][i - 1];
      n + 1
  }

  /** A key of one part, in any of its three spellings, and the text after it. */
  function ReadKey(s: string): Option<(string, string)> {
    if s == "" then None
    else if s[0] == '"' then ReadBasic(s[1..])
    else if s[0] == '\'' then ReadLiteral(s[1..])
    else if BareLength(s) == 0 then None
    else Some((s[..BareLength(s)], s[BareLength(s)..]))
  }

  datatype Opened = Opened(name: string, many: bool)

  predicate EndsLine(s: string) {
    TrimStart(s) == "" || TrimStart(s)[0] == '#'
  }

  /** The table a header line opens, when its name has one part: `[name]` or `[[name]]`, and nothing behind it but a comment. */
  function HeaderName(text: string): Option<Opened> {
    if !IsHeader(text) then None
    else
      var many := |text| > 1 && text[1] == '[';
      var close := if many then "]]" else "]";
      var key := ReadKey(TrimStart(text[|close|..]));
      if key.None? then None
      else
        var behind := TrimStart(key.value.1);
        if StartsWith(behind, close) && EndsLine(behind[|close|..]) then Some(Opened(key.value.0, many)) else None
  }

  /** The root name an assignment line defines: the first part of its key. */
  function AssignName(text: string): Option<string> {
    var key := ReadKey(text);
    if key.None? then None
    else
      var behind := TrimStart(key.value.1);
      if behind != "" && (behind[0] == '=' || behind[0] == '.') then Some(key.value.0) else None
  }
}
