/**
 Stripping terminal control sequences from a captured log: the five-state
 scanner, and the grammar of everything it can meet.
 */
module AnsiStrip {

  const ESC := '\U{1B}'
  const BEL := '\U{7}'

  datatype AnsiState = Normal | SeenEsc | InCsi | InOsc | InOscEscSeen

  predicate IsFinal(c: char) {
    '@' <= c <= '~'
  }

  /** One character: the next state, and what is written. */
  function Step(state: AnsiState, c: char): (AnsiState, string) {
    match state
    case Normal => if c == ESC then (SeenEsc, "") else (Normal, [c])
    case SeenEsc => if c == '[' then (InCsi, "") else if c == ']' then (InOsc, "") else (Normal, [c])
    case InCsi => (if IsFinal(c) then Normal else InCsi, "")
    case InOsc => (if c == BEL then Normal else if c == ESC then InOscEscSeen else InOsc, "")
    case InOscEscSeen => (if c == '\\' then Normal else InOsc, "")
  }

  function Run(state: AnsiState, input: string): (AnsiState, string)
    decreases |input|
  {
    if input == "" then (state, "")
    else
      var (next, written) := Step(state, input[0]);
      var (last, output) := Run(next, input[1..]);
      (last, written + output)
  }

  function Stripped(input: string): string {
    Run(Normal, input).1
  }

  method StripAnsi(input: string) returns (output: string)
    ensures output == Stripped(input)
  {
    output := "";
    var state := Normal;
    for i := 0 to |input|
      invariant output + Run(state, input[i..]).1 == Run(Normal, input).1
    {
      var c := input[i];
      assert input[i..][0] == c && input[i..][1..] == input[i + 1..];
      ghost var before, rest := output, Run(Step(state, c).0, input[i + 1..]).1;
      Regroup(before, Step(state, c).1, rest);
      match state {
        case Normal =>
          if c == ESC {
            state := SeenEsc;
          } else {
            output := output + [c];
          }
        case SeenEsc =>
          if c == '[' {
            state := InCsi;
          } else if c == ']' {
            state := InOsc;
          } else {
            output := output + [c];
            state := Normal;
          }
        case InCsi =>
          if IsFinal(c) {
            state := Normal;
          }
        case InOsc =>
          if c == BEL {
            state := Normal;
          } else if c == ESC {
            state := InOscEscSeen;
          }
        case InOscEscSeen =>
          state := if c == '\\' then Normal else InOsc;
      }
    }
    assert input[|input|..] == "";
  }

  lemma Regroup(a: string, b: string, c: string)
    ensures a + (b + c) == (a + b) + c
    ensures b == "" ==> a + (b + c) == a + c
  {
  }

  // ----- Splitting the input ------------------------------------------------

  /** The scan can stop anywhere and go on with the state it had. */
  lemma {:induction false} RunConcat(state: AnsiState, a: string, b: string)
    ensures var (mid, x) := Run(state, a);
            var (last, y) := Run(mid, b);
            Run(state, a + b) == (last, x + y)
    decreases |a|
  {
    if a == "" {
      assert a + b == b;
      assert "" + Run(state, b).1 == Run(state, b).1;
    } else {
      assert (a + b)[0] == a[0] && (a + b)[1..] == a[1..] + b;
      var (next, written) := Step(state, a[0]);
      RunConcat(next, a[1..], b);
      Regroup(written, Run(next, a[1..]).1, Run(Run(next, a[1..]).0, b).1);
    }
  }

  // ----- The grammar ----------------------------------------------------------

  /** One element of an operating system command's payload: a character, or an ESC that does not end it and what it takes along. */
  datatype OscUnit = Plain(c: char) | Escaped(c: char)

  datatype Terminator = Bell | StringTerminator

  /** Everything a terminal stream is made of, as the scanner reads it. */
  datatype Token =
    | Char(c: char)
    | TwoChar(c: char)
    | Csi(params: string, final: char)
    | Osc(body: seq<OscUnit>, end: Terminator)
    | CutEsc
    | CutCsi(params: string)
    | CutOsc(body: seq<OscUnit>, esc: bool)

  predicate ValidUnit(u: OscUnit) {
    match u
    case Plain(c) => c != BEL && c != ESC
    case Escaped(c) => c != '\\'
  }

  predicate ValidUnits(us: seq<OscUnit>) {
    forall i :: 0 <= i < |us| ==> ValidUnit(us[i])
  }

  predicate NoFinal(params: string) {
    forall i :: 0 <= i < |params| ==> !IsFinal(params[i])
  }

  predicate ValidToken(t: Token) {
    match t
    case Char(c) => c != ESC
    case TwoChar(c) => c != '[' && c != ']'
    case Csi(params, final) => NoFinal(params) && IsFinal(final)
    case Osc(body, _) => ValidUnits(body)
    case CutEsc => true
    case CutCsi(params) => NoFinal(params)
    case CutOsc(body, _) => ValidUnits(body)
  }

  predicate IsCut(t: Token) {
    t.CutEsc? || t.CutCsi? || t.CutOsc?
  }

  /** A stream: valid tokens, of which only the last may be cut off. */
  predicate ValidStream(ts: seq<Token>) {
    && (forall i :: 0 <= i < |ts| ==> ValidToken(ts[i]))
    && (forall i :: 0 <= i < |ts| - 1 ==> !IsCut(ts[i]))
  }

  function PrintUnit(u: OscUnit): string {
    match u
    case Plain(c) => [c]
    case Escaped(c) => [ESC, c]
  }

  function PrintUnits(us: seq<OscUnit>): string {
    if us == [] then "" else PrintUnit(us[0]) + PrintUnits(us[1..])
  }

  function PrintToken(t: Token): string {
    match t
    case Char(c) => [c]
    case TwoChar(c) => [ESC, c]
    case Csi(params, final) => [ESC, '['] + (params + [final])
    case Osc(body, end) => [ESC, ']'] + (PrintUnits(body) + (if end.Bell? then [BEL] else [ESC, '\\']))
    case CutEsc => [ESC]
    case CutCsi(params) => [ESC, '['] + params
    case CutOsc(body, esc) => [ESC, ']'] + (PrintUnits(body) + (if esc then [ESC] else ""))
  }

  function Print(ts: seq<Token>): string {
    if ts == [] then "" else PrintToken(ts[0]) + Print(ts[1..])
  }

  /** What a terminal would show of a token. */
  function VisibleToken(t: Token): string {
    match t
    case Char(c) => [c]
    case TwoChar(c) => [c]
    case _ => ""
  }

  function Visible(ts: seq<Token>): string {
    if ts == [] then "" else VisibleToken(ts[0]) + Visible(ts[1..])
  }

  // ----- Printing then stripping -------------------------------------------------

  lemma {:induction false} RunParams(params: string)
    requires NoFinal(params)
    ensures Run(InCsi, params) == (InCsi, "")
    decreases |params|
  {
    if params != "" {
      RunParams(params[1..]);
      assert Step(InCsi, params[0]) == (InCsi, "");
      assert "" + "" == "";
    }
  }

  lemma RunOne(state: AnsiState, c: char)
    ensures Run(state, [c]) == Step(state, c)
  {
    assert [c][1..] == "";
    assert Step(state, c).1 + "" == Step(state, c).1;
  }

  lemma RunTwo(state: AnsiState, c: char, d: char)
    ensures var (mid, x) := Step(state, c);
            var (last, y) := Step(mid, d);
            Run(state, [c, d]) == (last, x + y)
  {
    RunOne(state, c);
    RunOne(Step(state, c).0, d);
    RunConcat(state, [c], [d]);
    assert [c] + [d] == [c, d];
  }

  lemma {:induction false} RunUnits(us: seq<OscUnit>)
    requires ValidUnits(us)
    ensures Run(InOsc, PrintUnits(us)) == (InOsc, "")
    decreases |us|
  {
    if us != [] {
      RunUnits(us[1..]);
      if us[0].Plain? { RunOne(InOsc, us[0].c); } else { RunTwo(InOsc, ESC, us[0].c); }
      RunConcat(InOsc, PrintUnit(us[0]), PrintUnits(us[1..]));
    }
  }

  /** Each whole token leaves the scanner where it started and writes exactly its visible part. */
  lemma RunToken(t: Token)
    requires ValidToken(t)
    ensures Run(Normal, PrintToken(t)).1 == VisibleToken(t)
    ensures !IsCut(t) ==> Run(Normal, PrintToken(t)).0 == Normal
  {
    match t {
      case Char(c) => RunOne(Normal, c);
      case TwoChar(c) => RunTwo(Normal, ESC, c);
      case Csi(params, final) =>
        RunTwo(Normal, ESC, '[');
        RunParams(params);
        RunOne(InCsi, final);
        RunConcat(InCsi, params, [final]);
        RunConcat(Normal, [ESC, '['], params + [final]);
      case Osc(body, end) =>
        var last := if end.Bell? then [BEL] else [ESC, '\\'];
        RunTwo(Normal, ESC, ']');
        RunUnits(body);
        if end.Bell? { RunOne(InOsc, BEL); } else { RunTwo(InOsc, ESC, '\\'); }
        RunConcat(InOsc, PrintUnits(body), last);
        RunConcat(Normal, [ESC, ']'], PrintUnits(body) + last);
      case CutEsc => RunOne(Normal, ESC);
      case CutCsi(params) =>
        RunTwo(Normal, ESC, '[');
        RunParams(params);
        RunConcat(Normal, [ESC, '['], params);
      case CutOsc(body, esc) =>
        var last := if esc then [ESC] else "";
        RunTwo(Normal, ESC, ']');
        RunUnits(body);
        if esc { RunOne(InOsc, ESC); }
        RunConcat(InOsc, PrintUnits(body), last);
        RunConcat(Normal, [ESC, ']'], PrintUnits(body) + last);
    }
  }

  /** Stripping a printed stream gives what its tokens show, one after the other. */
  lemma {:induction false} StripPrinted(ts: seq<Token>)
    requires ValidStream(ts)
    ensures Stripped(Print(ts)) == Visible(ts)
    decreases |ts|
  {
    if ts != [] {
      RunToken(ts[0]);
      RunConcat(Normal, PrintToken(ts[0]), Print(ts[1..]));
      if |ts| == 1 {
        assert ts[1..] == [];
        assert Run(Run(Normal, PrintToken(ts[0])).0, "").1 == "";
      } else {
        StripPrinted(ts[1..]);
      }
    }
  }

  // ----- Every input is a stream ----------------------------------------------------

  /** A payload up to its terminator, or to the end of the input. */
  lemma ReadOsc(s: string) returns (body: seq<OscUnit>, end: Terminator, rest: string, closed: bool, esc: bool)
    ensures ValidUnits(body)
    ensures closed ==> s == PrintUnits(body) + ((if end.Bell? then [BEL] else [ESC, '\\']) + rest) && |rest| < |s|
    ensures !closed ==> s == PrintUnits(body) + (if esc then [ESC] else "")
    decreases |s|
  {
    body, end, rest, closed, esc := [], Bell, "", false, false;
    if s == "" {
    } else if s[0] == BEL {
      rest, closed := s[1..], true;
      assert s == [BEL] + rest;
    } else if s == [ESC] {
      esc := true;
    } else if s[0] == ESC && s[1] == '\\' {
      end, rest, closed := StringTerminator, s[2..], true;
      assert s == [ESC, '\\'] + rest;
    } else {
      var unit := if s[0] == ESC then Escaped(s[1]) else Plain(s[0]);
      var n := if s[0] == ESC then 2 else 1;
      assert s == PrintUnit(unit) + s[n..];
      var more;
      more, end, rest, closed, esc := ReadOsc(s[n..]);
      body := [unit] + more;
      assert body[1..] == more;
      if closed {
        Regroup(PrintUnit(unit), PrintUnits(more), (if end.Bell? then [BEL] else [ESC, '\\']) + rest);
      } else {
        Regroup(PrintUnit(unit), PrintUnits(more), if esc then [ESC] else "");
      }
    }
  }

  lemma ReadParams(s: string) returns (n: nat)
    ensures n <= |s| && NoFinal(s[..n]) && (n < |s| ==> IsFinal(s[n]))
  {
    n := 0;
    while n < |s| && !IsFinal(s[n])
      invariant n <= |s| && NoFinal(s[..n])
    {
      n := n + 1;
    }
  }

  lemma ReadToken(s: string) returns (t: Token, rest: string)
    requires s != ""
    ensures ValidToken(t) && s == PrintToken(t) + rest && |rest| < |s|
    ensures IsCut(t) ==> rest == ""
  {
    if s[0] != ESC {
      t, rest := Char(s[0]), s[1..];
    } else if |s| == 1 {
      t, rest := CutEsc, "";
    } else if s[1] == '[' {
      var n := ReadParams(s[2..]);
      var params := s[2..][..n];
      if 2 + n < |s| {
        t, rest := Csi(params, s[2 + n]), s[n + 3..];
        assert s == [ESC, '['] + (params + [s[2 + n]]) + rest;
      } else {
        t, rest := CutCsi(params), "";
      }
    } else if s[1] == ']' {
      var body, end, tail, closed, esc := ReadOsc(s[2..]);
      assert s == [ESC, ']'] + s[2..];
      if closed {
        t, rest := Osc(body, end), tail;
        var last := if end.Bell? then [BEL] else [ESC, '\\'];
        Regroup(PrintUnits(body), last, rest);
        Regroup([ESC, ']'], PrintUnits(body) + last, rest);
      } else {
        t, rest := CutOsc(body, esc), "";
        assert PrintToken(t) + "" == PrintToken(t);
      }
    } else {
      t, rest := TwoChar(s[1]), s[2..];
    }
  }

  /** Every input whatever is a stream, so the scanner's output is always what that stream shows. */
  lemma {:induction false} EveryInputIsAStream(input: string) returns (ts: seq<Token>)
    ensures ValidStream(ts) && Print(ts) == input && Visible(ts) == Stripped(input)
    decreases |input|
  {
    if input == "" {
      ts := [];
    } else {
      var t, rest := ReadToken(input);
      var more := EveryInputIsAStream(rest);
      ts := [t] + more;
      assert ts[1..] == more;
      assert IsCut(t) ==> more == [];
      StripPrinted(ts);
    }
  }

  // ----- Stripping twice ---------------------------------------------------------------

  lemma {:induction false} PlainUnchanged(s: string)
    requires ESC !in s
    ensures Stripped(s) == s
    decreases |s|
  {
    if s != "" {
      assert s[0] in s;
      PlainUnchanged(s[1..]);
      assert s == [s[0]] + s[1..];
    }
  }

  lemma {:induction false} NeverLonger(state: AnsiState, s: string)
    ensures |Run(state, s).1| <= |s|
    ensures state == Normal && ESC in s ==> |Run(state, s).1| < |s|
    decreases |s|
  {
    if s != "" {
      NeverLonger(Step(state, s[0]).0, s[1..]);
      assert s == [s[0]] + s[1..];
    }
  }

  /** Stripping the result again changes nothing exactly when no ESC came through the first time. */
  lemma IdempotentIff(input: string)
    ensures Stripped(Stripped(input)) == Stripped(input) <==> ESC !in Stripped(input)
  {
    var once := Stripped(input);
    if ESC in once {
      NeverLonger(Normal, once);
    } else {
      PlainUnchanged(once);
    }
  }

  /** An ESC comes through exactly where the stream has an ESC behind an ESC outside any sequence. */
  lemma {:induction false} EscVisibleIff(ts: seq<Token>)
    requires ValidStream(ts)
    ensures ESC in Visible(ts) <==> TwoChar(ESC) in ts
    decreases |ts|
  {
    if ts != [] {
      EscVisibleIff(ts[1..]);
      assert TwoChar(ESC) in ts <==> ts[0] == TwoChar(ESC) || TwoChar(ESC) in ts[1..];
      assert ESC in VisibleToken(ts[0]) <==> ts[0] == TwoChar(ESC) by {
        if ts[0].Char? || ts[0].TwoChar? {
          assert VisibleToken(ts[0]) == [ts[0].c];
        }
      }
    }
  }

  // ----- Exactly which operating system commands end where they should ------------------------

  /** The content of a command: nothing in it ends the command. */
  predicate CommandContent(w: string) {
    && BEL !in w
    && forall i :: 0 <= i < |w| - 1 && w[i] == ESC ==> w[i + 1] != '\\'
  }

  /** How many ESC stand at the end. */
  function TrailingEscs(w: string): (n: nat)
    ensures n <= |w|
  {
    if w == "" || w[|w| - 1] != ESC then 0 else 1 + TrailingEscs(w[..|w| - 1])
  }

  function TerminatorText(end: Terminator): string {
    if end.Bell? then [BEL] else [ESC, '\\']
  }

  /** Inside a command the scanner pairs the ESCs of a run. */
  lemma {:induction false} RunContent(w: string)
    requires CommandContent(w)
    ensures Run(InOsc, w) == (if TrailingEscs(w) % 2 == 0 then InOsc else InOscEscSeen, "")
    decreases |w|
  {
    if w != "" {
      hide Run, CommandContent;
      var front, c := w[..|w| - 1], w[|w| - 1];
      ContentFront(w);
      RunContent(front);
      RunConcat(InOsc, front, [c]);
      RunOne(Run(InOsc, front).0, c);
      assert w == front + [c];
    }
  }

  lemma ContentFront(w: string)
    requires CommandContent(w) && w != ""
    ensures var front, c := w[..|w| - 1], w[|w| - 1];
            && CommandContent(front) && c != BEL
            && (TrailingEscs(front) > 0 ==> c != '\\')
  {
    var front := w[..|w| - 1];
    assert forall i :: 0 <= i < |front| ==> front[i] == w[i];
    assert w[|w| - 1] in w;
  }

  /** What is left of a command whose terminator comes, and of the text behind it. */
  lemma RunCommand(w: string, end: Terminator, rest: string)
    requires CommandContent(w)
    ensures Stripped([ESC, ']'] + w + TerminatorText(end) + rest) ==
            if TrailingEscs(w) % 2 == 0 then Stripped(rest) else Run(InOsc, rest).1
  {
    var stop := TerminatorText(end);
    var mid := if TrailingEscs(w) % 2 == 0 then InOsc else InOscEscSeen;
    RunContent(w);
    RunTwo(Normal, ESC, ']');
    RunConcat(Normal, [ESC, ']'], w);
    RunConcat(Normal, [ESC, ']'] + w, stop);
    RunConcat(Normal, [ESC, ']'] + w + stop, rest);
    if end.Bell? { RunOne(mid, BEL); } else { RunTwo(mid, ESC, '\\'); }
    assert "" + "" == "";
    assert "" + Run(InOsc, rest).1 == Run(InOsc, rest).1 && "" + Stripped(rest) == Stripped(rest);
  }

  /**
   A command ends at its BEL or string terminator, whatever text follows,
   exactly when the content ends in an even number of ESCs.
   */
  lemma CommandEndsIff(w: string, end: Terminator)
    requires CommandContent(w)
    ensures (forall rest :: Stripped([ESC, ']'] + w + TerminatorText(end) + rest) == Stripped(rest))
            <==> TrailingEscs(w) % 2 == 0
  {
    if TrailingEscs(w) % 2 == 0 {
      forall rest ensures Stripped([ESC, ']'] + w + TerminatorText(end) + rest) == Stripped(rest) {
        RunCommand(w, end, rest);
      }
    } else {
      RunCommand(w, end, "x");
      RunOne(InOsc, 'x');
      RunOne(Normal, 'x');
      assert Stripped([ESC, ']'] + w + TerminatorText(end) + "x") != Stripped("x");
    }
  }

  /** The string terminator behind one more ESC: the text after the command is lost. */
  lemma UnendedCommand()
    ensures Stripped([ESC, ']', 'a', ESC, ESC, '\\'] + "log") == ""
  {
    var w := ['a', ESC];
    assert w[..1] == ['a'] && TrailingEscs(['a']) == 0 && TrailingEscs(w) == 1;
    RunCommand(w, StringTerminator, "log");
    assert [ESC, ']'] + w + [ESC, '\\'] == [ESC, ']', 'a', ESC, ESC, '\\'];
    assert "log" == ['l'] + ['o'] + ['g'];
    RunConcat(InOsc, ['l'], ['o']);
    RunConcat(InOsc, ['l'] + ['o'], ['g']);
    RunOne(InOsc, 'l');
    RunOne(InOsc, 'o');
    RunOne(InOsc, 'g');
  }

  // ----- The bytes of ECMA-48 ---------------------------------------------------------

  /** Text without an ESC is printed as it stands. */
  lemma {:induction false} PlainKept(s: string)
    requires '\U{1B}' !in s
    ensures Run(Normal, s) == (Normal, s)
    decreases |s|
  {
    if s != "" {
      PlainKept(s[1..]);
      assert s == [s[0]] + s[1..];
    }
  }

  lemma {:induction false} OutsideFinals(params: string)
    requires forall i :: 0 <= i < |params| ==> !('@' <= params[i] <= '~')
    ensures Run(InCsi, params) == (InCsi, "")
    decreases |params|
  {
    if params != "" {
      OutsideFinals(params[1..]);
      assert Step(InCsi, params[0]) == (InCsi, "") && "" + "" == "";
    }
  }

  lemma CsiRun(params: string, c: char)
    requires forall i :: 0 <= i < |params| ==> !('@' <= params[i] <= '~')
    ensures Run(Normal, ['\U{1B}', '['] + (params + [c])) == (if '@' <= c <= '~' then Normal else InCsi, "")
  {
    OutsideFinals(params);
    RunOne(InCsi, c);
    RunTwo(Normal, '\U{1B}', '[');
    RunConcat(InCsi, params, [c]);
    RunConcat(Normal, ['\U{1B}', '['], params + [c]);
    assert "" + "" == "";
  }

  /** A control sequence, whatever it holds before its first character of `@` to `~`, is stripped and what follows is read afresh. */
  lemma SequenceStripped(params: string, final: char, rest: string)
    requires forall i :: 0 <= i < |params| ==> !('@' <= params[i] <= '~')
    requires '@' <= final <= '~'
    ensures Stripped(['\U{1B}', '['] + (params + [final]) + rest) == Stripped(rest)
  {
    CsiRun(params, final);
    RunConcat(Normal, ['\U{1B}', '['] + (params + [final]), rest);
  }

  /**
   A control sequence ends where ECMA-48 says (section 5.4): behind parameter
   and intermediate bytes, one of `@` to `~` ends it and is stripped with it,
   and no other character does.
   */
  lemma SequenceEndsIff(params: string, c: char)
    requires forall i :: 0 <= i < |params| ==> ' ' <= params[i] <= '?'
    ensures (forall rest :: Stripped(['\U{1B}', '['] + (params + [c]) + rest) == Stripped(rest)) <==> '@' <= c <= '~'
  {
    var s := ['\U{1B}', '['] + (params + [c]);
    if '@' <= c <= '~' {
      forall rest ensures Stripped(s + rest) == Stripped(rest) {
        SequenceStripped(params, c, rest);
      }
    } else {
      CsiRun(params, c);
      RunConcat(Normal, s, "1");
      RunOne(InCsi, '1');
      RunOne(Normal, '1');
      assert Stripped("1") == "1" && Stripped(s + "1") == "";
    }
  }

  lemma {:induction false} PayloadRun(body: string)
    requires '\U{7}' !in body && '\U{1B}' !in body
    ensures Run(InOsc, body) == (InOsc, "")
    decreases |body|
  {
    if body != "" {
      PayloadRun(body[1..]);
      assert Step(InOsc, body[0]) == (InOsc, "") && "" + "" == "";
    }
  }

  /** A command is stripped up to BEL, or up to ESC backslash, and what follows is read afresh. */
  lemma CommandStripped(body: string, end: string, rest: string)
    requires '\U{7}' !in body && '\U{1B}' !in body
    requires end == ['\U{7}'] || end == ['\U{1B}', '\\']
    ensures Stripped(['\U{1B}', ']'] + (body + end) + rest) == Stripped(rest)
  {
    PayloadRun(body);
    RunTwo(Normal, '\U{1B}', ']');
    if end == ['\U{7}'] { RunOne(InOsc, '\U{7}'); } else { RunTwo(InOsc, '\U{1B}', '\\'); }
    RunConcat(InOsc, body, end);
    RunConcat(Normal, ['\U{1B}', ']'], body + end);
    RunConcat(Normal, ['\U{1B}', ']'] + (body + end), rest);
  }

  /** Any other character behind an ESC is printed, the ESC is not. */
  lemma TwoCharacterStripped(c: char, rest: string)
    requires c != '[' && c != ']'
    ensures Stripped(['\U{1B}', c] + rest) == [c] + Stripped(rest)
  {
    RunTwo(Normal, '\U{1B}', c);
    RunConcat(Normal, ['\U{1B}', c], rest);
  }
}
