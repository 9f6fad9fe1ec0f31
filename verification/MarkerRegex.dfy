/**
 Prompt markers as extended regular expressions: escaping, joining, and what
 the resulting patterns match.
 */
module MarkerRegex {
  import opened Wrappers
  import opened Text

  const APOSTROPHE := '\''
  const RIGHT_QUOTE := '\U{2019}'

  predicate IsSpecial(c: char) {
    c in ".^$*+?()[]{}|\\"
  }

  function EscapedChar(c: char): string {
    if IsSpecial(c) then ['\\', c] else [c]
  }

  function Escaped(marker: string): string {
    if marker == "" then "" else EscapedChar(marker[0]) + Escaped(marker[1..])
  }

  method EscapeForRegexAlternation(marker: string) returns (escaped: string)
    ensures escaped == Escaped(marker)
  {
    escaped := "";
    for i := 0 to |marker|
      invariant escaped + Escaped(marker[i..]) == Escaped(marker)
    {
      var c := marker[i];
      assert marker[i..][0] == c && marker[i..][1..] == marker[i + 1..];
      ConcatAssoc(escaped, EscapedChar(c), Escaped(marker[i + 1..]));
      if IsSpecial(c) {
        escaped := escaped + ['\\', c];
      } else {
        escaped := escaped + [c];
      }
    }
    assert marker[|marker|..] == "" && escaped + "" == escaped;
  }

  /** The class of both apostrophe forms. */
  const QUOTE_CLASS := ['[', APOSTROPHE, RIGHT_QUOTE, ']']

  predicate IsQuote(c: char) {
    c == APOSTROPHE || c == RIGHT_QUOTE
  }

  function TolerantChar(c: char): string {
    if IsQuote(c) then QUOTE_CLASS else EscapedChar(c)
  }

  function Tolerant(marker: string): string {
    if marker == "" then "" else TolerantChar(marker[0]) + Tolerant(marker[1..])
  }

  method BroadGrantMarkerRegex(marker: string) returns (out: string)
    ensures out == Tolerant(marker)
  {
    hide Tolerant, IsSpecial;
    out := "";
    for i := 0 to |marker|
      invariant out + Tolerant(marker[i..]) == Tolerant(marker)
    {
      var c := marker[i];
      TolerantStep(marker, i);
      ConcatAssoc(out, TolerantChar(c), Tolerant(marker[i + 1..]));
      if c == APOSTROPHE || c == RIGHT_QUOTE {
        out := out + QUOTE_CLASS;
      } else if IsSpecial(c) {
        out := out + ['\\'];
        out := out + [c];
        assert ['\\'] + [c] == ['\\', c];
      } else {
        out := out + [c];
      }
    }
    TolerantStep(marker, |marker|);
    assert out + "" == out;
  }

  lemma TolerantStep(marker: string, i: nat)
    requires i <= |marker|
    ensures Tolerant(marker[i..]) == if i == |marker| then "" else TolerantChar(marker[i]) + Tolerant(marker[i + 1..])
  {
    if i < |marker| { assert marker[i..][0] == marker[i] && marker[i..][1..] == marker[i + 1..]; }
  }

  /** The markers of one profile field, escaped and joined by bars. */
  function Alternation(markers: seq<string>): string {
    if markers == [] then ""
    else if |markers| == 1 then Escaped(markers[0])
    else Escaped(markers[0]) + "|" + Alternation(markers[1..])
  }

  // ----- Patterns ------------------------------------------------------------------------

  /** One position of a pattern: a character, or one of a set of characters. */
  datatype Atom = Lit(c: char) | OneOf(cs: set<char>)

  /** A parsed pattern: alternatives, each a string of atoms. */
  type Pattern = seq<seq<Atom>>

  /** The closing bracket of the expression that opens before `s`, and the characters inside. */
  function ParseClass(s: string): Option<(set<char>, string)>
    decreases |s|
  {
    if s == "" then None
    else if s[0] == ']' then Some(({}, s[1..]))
    else if s[0] == '[' || s[0] == '-' || s[0] == '^' then None
    else
      match ParseClass(s[1..])
      case None => None
      case Some((cs, rest)) => Some(({s[0]} + cs, rest))
  }

  lemma {:induction false} ParseClassShorter(s: string)
    ensures ParseClass(s).Some? ==> |ParseClass(s).value.1| < |s|
    decreases |s|
  {
    if s != "" && s[0] != ']' { ParseClassShorter(s[1..]); }
  }

  /** The special characters of section 9.4.3. */
  predicate IsOperator(c: char) {
    c in ".[\\()*+?{|^$"
  }

  /** What a backslash may stand before: those, and the closing bracket and brace, which readers accept either way. */
  predicate IsEscapable(c: char) {
    IsOperator(c) || c == ']' || c == '}'
  }

  /**
   The extended-regex reading of a pattern (section 9.4 of the Base
   Definitions volume of POSIX.1-2017), as `grep -E` applies it: an escaped
   special character stands for itself, a bar or a newline separates
   alternatives, brackets hold a set. Every other special character would act
   as an operator; the reader gives up on it.
   */
  function Parse(s: string, current: seq<Atom>): Option<Pattern>
    decreases |s|
  {
    if s == "" then Some([current])
    else if s[0] == '\\' then
      if |s| >= 2 && IsEscapable(s[1]) then Parse(s[2..], current + [Lit(s[1])]) else None
    else if s[0] == '|' || s[0] == '\n' then
      match Parse(s[1..], [])
      case None => None
      case Some(more) => Some([current] + more)
    else if s[0] == '[' then
      ParseClassShorter(s[1..]);
      match ParseClass(s[1..])
      case None => None
      case Some((cs, rest)) => Parse(rest, current + [OneOf(cs)])
    else if IsOperator(s[0]) then None
    else Parse(s[1..], current + [Lit(s[0])])
  }

  predicate AtomMatches(a: Atom, c: char) {
    match a
    case Lit(d) => c == d
    case OneOf(cs) => c in cs
  }

  predicate AtomsMatch(atoms: seq<Atom>, s: string) {
    |atoms| == |s| && forall i :: 0 <= i < |s| ==> AtomMatches(atoms[i], s[i])
  }

  ghost predicate Denotes(pattern: string, s: string) {
    Parse(pattern, []).Some? && exists i :: 0 <= i < |Parse(pattern, []).value| && AtomsMatch(Parse(pattern, []).value[i], s)
  }

  function Literals(marker: string): (r: seq<Atom>)
    ensures |r| == |marker| && forall i :: 0 <= i < |marker| ==> r[i] == Lit(marker[i])
  {
    seq(|marker|, i requires 0 <= i < |marker| => Lit(marker[i]))
  }

  // ----- Escaped markers -----------------------------------------------------------------

  lemma ParseEscapedChar(c: char, rest: string, current: seq<Atom>)
    requires c != '\n'
    ensures Parse(EscapedChar(c) + rest, current) == Parse(rest, current + [Lit(c)])
  {
    var s := EscapedChar(c) + rest;
    if IsSpecial(c) {
      assert s[0] == '\\' && s[1] == c && s[2..] == rest;
    } else {
      assert s[0] == c && s[1..] == rest;
      assert IsSpecial('\\') && IsSpecial('|') && IsSpecial('[');
    }
  }

  lemma {:induction false} ParseEscaped(marker: string, rest: string, current: seq<Atom>)
    requires '\n' !in marker
    ensures Parse(Escaped(marker) + rest, current) == Parse(rest, current + Literals(marker))
    decreases |marker|
  {
    if marker == "" {
      assert Escaped(marker) + rest == rest;
      assert current + Literals(marker) == current;
    } else {
      assert marker[0] in marker;
      ConcatAssoc(EscapedChar(marker[0]), Escaped(marker[1..]), rest);
      ParseEscapedChar(marker[0], Escaped(marker[1..]) + rest, current);
      ParseEscaped(marker[1..], rest, current + [Lit(marker[0])]);
      assert current + [Lit(marker[0])] + Literals(marker[1..]) == current + Literals(marker);
    }
  }

  function Patterns(markers: seq<string>): (r: Pattern)
    ensures |r| == |markers| && forall i :: 0 <= i < |markers| ==> r[i] == Literals(markers[i])
  {
    seq(|markers|, i requires 0 <= i < |markers| => Literals(markers[i]))
  }

  ghost predicate OneLiners(markers: seq<string>) {
    forall i :: 0 <= i < |markers| ==> '\n' !in markers[i]
  }

  lemma ParseBar(rest: string, current: seq<Atom>)
    requires Parse(rest, []).Some?
    ensures Parse("|" + rest, current) == Some([current] + Parse(rest, []).value)
  {
    assert ("|" + rest)[1..] == rest;
  }

  lemma {:induction false} ParseAlternation(markers: seq<string>)
    requires markers != [] && OneLiners(markers)
    ensures Parse(Alternation(markers), []) == Some(Patterns(markers))
    decreases |markers|
  {
    var first := markers[0];
    if |markers| == 1 {
      ParseEscaped(first, "", []);
      assert Escaped(first) + "" == Escaped(first);
      assert [] + Literals(first) == Literals(first);
      assert Patterns(markers) == [Literals(first)];
    } else {
      hide Parse, Escaped;
      var rest := Alternation(markers[1..]);
      ParseAlternation(markers[1..]);
      ConcatAssoc(Escaped(first), "|", rest);
      ParseBar(rest, Literals(first));
      ParseEscaped(first, "|" + rest, []);
      assert [] + Literals(first) == Literals(first);
      assert Patterns(markers) == [Literals(first)] + Patterns(markers[1..]);
    }
  }

  /** For one-line markers, at least one of them, the joined pattern matches the markers and nothing else. */
  lemma AlternationDenotes(markers: seq<string>, s: string)
    requires markers != [] && OneLiners(markers)
    ensures Denotes(Alternation(markers), s) <==> s in markers
  {
    ParseAlternation(markers);
    var ps := Patterns(markers);
    forall i | 0 <= i < |ps| ensures AtomsMatch(ps[i], s) <==> s == markers[i] {
    }
  }

  // ----- Exactly when the pattern means the markers ------------------------------------------

  ghost predicate LiteralLines(atoms: seq<Atom>) {
    forall i :: 0 <= i < |atoms| ==> atoms[i].Lit? && atoms[i].c != '\n'
  }

  ghost predicate AllLiteralLines(p: Option<Pattern>) {
    p.Some? && forall k :: 0 <= k < |p.value| ==> LiteralLines(p.value[k])
  }

  function Joined(marker: string, more: seq<string>): string {
    if more == [] then Escaped(marker) else Escaped(marker) + "|" + Alternation(more)
  }

  lemma JoinedHead(marker: string, more: seq<string>)
    ensures marker != "" ==> Joined(marker, more) == EscapedChar(marker[0]) + Joined(marker[1..], more)
    ensures marker == "" && more != [] ==> Joined(marker, more) == "|" + Joined(more[0], more[1..])
    ensures marker == "" && more == [] ==> Joined(marker, more) == ""
  {
    if marker != "" && more != [] {
      ConcatAssoc(EscapedChar(marker[0]), Escaped(marker[1..]), "|");
      ConcatAssoc(EscapedChar(marker[0]), Escaped(marker[1..]) + "|", Alternation(more));
    }
    if marker == "" && more != [] {
      assert Alternation(more) == Joined(more[0], more[1..]);
    }
  }

  /** Whatever the markers hold, the alternatives are strings of plain characters without a newline. */
  lemma {:induction false} ParseJoined(marker: string, more: seq<string>, current: seq<Atom>)
    requires LiteralLines(current)
    ensures AllLiteralLines(Parse(Joined(marker, more), current))
    decreases |more|, |marker|
  {
    JoinedHead(marker, more);
    var s := Joined(marker, more);
    if marker == "" {
      if more != [] {
        assert s[0] == '|' && s[1..] == Joined(more[0], more[1..]);
        ParseJoined(more[0], more[1..], []);
      }
    } else {
      var rest := Joined(marker[1..], more);
      if marker[0] == '\n' {
        assert s[0] == '\n' && s[1..] == rest;
        ParseJoined(marker[1..], more, []);
      } else {
        ParseEscapedChar(marker[0], rest, current);
        ParseJoined(marker[1..], more, current + [Lit(marker[0])]);
      }
    }
  }

  lemma DenotedHasNoNewline(markers: seq<string>, s: string)
    requires markers != [] && Denotes(Alternation(markers), s)
    ensures '\n' !in s
  {
    assert Alternation(markers) == Joined(markers[0], markers[1..]);
    ParseJoined(markers[0], markers[1..], []);
    var p := Parse(Alternation(markers), []).value;
    var i :| 0 <= i < |p| && AtomsMatch(p[i], s);
    assert LiteralLines(p[i]);
    assert forall k :: 0 <= k < |s| ==> AtomMatches(p[i][k], s[k]);
  }

  lemma EmptyListMatchesEmpty()
    ensures Denotes(Alternation([]), "")
  {
    var p := Parse(Alternation([]), []);
    assert p == Some([[]]);
    assert AtomsMatch(p.value[0], "");
  }

  /** The pattern printed for a marker list means exactly the list, if and only if the list has a marker and every marker is one line. */
  lemma AlternationDenotesIff(markers: seq<string>)
    ensures (forall s :: Denotes(Alternation(markers), s) <==> s in markers)
            <==> markers != [] && OneLiners(markers)
  {
    hide Denotes;
    if markers == [] {
      EmptyListMatchesEmpty();
      assert "" !in markers;
    } else if OneLiners(markers) {
      forall s ensures Denotes(Alternation(markers), s) <==> s in markers {
        AlternationDenotes(markers, s);
      }
    } else {
      var i :| 0 <= i < |markers| && '\n' in markers[i];
      if Denotes(Alternation(markers), markers[i]) {
        DenotedHasNoNewline(markers, markers[i]);
      }
      assert markers[i] in markers;
    }
  }

  // ----- The apostrophe-tolerant pattern ---------------------------------------------------------

  function TolerantAtom(c: char): Atom {
    if IsQuote(c) then OneOf({APOSTROPHE, RIGHT_QUOTE}) else Lit(c)
  }

  function TolerantAtoms(marker: string): (r: seq<Atom>)
    ensures |r| == |marker| && forall i :: 0 <= i < |marker| ==> r[i] == TolerantAtom(marker[i])
  {
    seq(|marker|, i requires 0 <= i < |marker| => TolerantAtom(marker[i]))
  }

  lemma ParseQuoteClass(rest: string, current: seq<Atom>)
    ensures Parse(QUOTE_CLASS + rest, current) == Parse(rest, current + [OneOf({APOSTROPHE, RIGHT_QUOTE})])
  {
    var s := QUOTE_CLASS + rest;
    var inner := [APOSTROPHE, RIGHT_QUOTE, ']'] + rest;
    assert s[0] == '[' && s[1..] == inner;
    assert inner[1..] == [RIGHT_QUOTE, ']'] + rest;
    assert inner[1..][1..] == [']'] + rest;
    assert inner[1..][1..][1..] == rest;
    assert ParseClass(inner[1..][1..]) == Some(({}, rest));
    assert ParseClass(inner[1..]) == Some(({RIGHT_QUOTE} + {}, rest));
    assert ParseClass(inner) == Some(({APOSTROPHE} + ({RIGHT_QUOTE} + {}), rest));
    assert {APOSTROPHE} + ({RIGHT_QUOTE} + {}) == {APOSTROPHE, RIGHT_QUOTE};
  }

  lemma FirstAtom(marker: string)
    requires marker != ""
    ensures TolerantAtoms(marker) == [TolerantAtom(marker[0])] + TolerantAtoms(marker[1..])
  {
  }

  lemma {:induction false} ParseTolerant(marker: string, current: seq<Atom>)
    requires '\n' !in marker
    ensures Parse(Tolerant(marker), current) == Some([current + TolerantAtoms(marker)])
    decreases |marker|
  {
    if marker == "" {
      assert current + TolerantAtoms(marker) == current;
    } else {
      hide Parse, EscapedChar;
      var c := marker[0];
      assert c in marker;
      if IsQuote(c) {
        ParseQuoteClass(Tolerant(marker[1..]), current);
      } else {
        ParseEscapedChar(c, Tolerant(marker[1..]), current);
      }
      ParseTolerant(marker[1..], current + [TolerantAtom(c)]);
      FirstAtom(marker);
      ConcatAssoc(current, [TolerantAtom(c)], TolerantAtoms(marker[1..]));
    }
  }

  /** The two forms a terminal may draw, U+0027 and U+2019. */
  predicate IsApostrophe(c: char) {
    c as int == 0x27 || c as int == 0x2019
  }

  /** The strings agree up to which apostrophe form each position uses. */
  predicate SameUpToQuotes(x: string, y: string) {
    |x| == |y| && forall i :: 0 <= i < |x| ==> x[i] == y[i] || (IsApostrophe(x[i]) && IsApostrophe(y[i]))
  }

  lemma TolerantAtomIff(c: char, d: char)
    ensures AtomMatches(TolerantAtom(c), d) <==> c == d || (IsApostrophe(c) && IsApostrophe(d))
  {
  }

  /** The broad-grant pattern matches its marker in either apostrophe form, and nothing else. */
  lemma TolerantDenotes(marker: string, s: string)
    requires '\n' !in marker
    ensures Denotes(Tolerant(marker), s) <==> SameUpToQuotes(marker, s)
  {
    hide Parse, Tolerant, TolerantAtom, AtomMatches, IsApostrophe;
    ParseTolerant(marker, []);
    var atoms := TolerantAtoms(marker);
    assert [] + atoms == atoms;
    var p := Parse(Tolerant(marker), []).value;
    assert p == [atoms] && p[0] == atoms;
    forall i | 0 <= i < |marker| && i < |s|
      ensures AtomMatches(atoms[i], s[i]) <==> marker[i] == s[i] || (IsApostrophe(marker[i]) && IsApostrophe(s[i]))
    {
      TolerantAtomIff(marker[i], s[i]);
    }
    assert Denotes(Tolerant(marker), s) <==> AtomsMatch(atoms, s);
  }
}
