/**
 The `[supervisor]` section init writes, and the TOML string its test command
 reads back as.
 */
module SupervisorSection {
  import opened Wrappers
  import opened Text
  import opened ConfigMigration
  import opened TomlReader
  import opened TomlTables

  /** Backslashes doubled, then quotes escaped. */
  function Escaped(s: string): string {
    ReplaceChar(ReplaceChar(s, '\\', "\\\\"), '"', "\\\"")
  }

  function SectionFor(enabled: bool, testCommand: string): string {
    if !enabled then "\n[supervisor]\nenabled = false\n"
    else
      var trimmed := Trim(testCommand);
      "\n[supervisor]\n" + "enabled = true\n"
      + (if trimmed == "" then "" else "test_command = \"" + (Escaped(trimmed) + "\"\n"))
  }

  /** Whatever was answered, the section is one the migration recognises afterwards. */
  lemma SectionIsSupervisorText(enabled: bool, testCommand: string)
    ensures SupervisorText(SectionFor(enabled, testCommand))
  {
    var header := "\n[supervisor]\n";
    if !enabled {
      assert SectionFor(enabled, testCommand) == header + "enabled = false\n";
    } else {
      assert header <= header + "enabled = true\n";
    }
  }

  // ----- TOML basic strings ------------------------------------------------------

  function EscapedChar(c: char): string {
    if c == '\\' then "\\\\" else if c == '"' then "\\\"" else [c]
  }

  lemma {:induction false} ReplaceConcat(a: string, b: string, c: char, r: string)
    ensures ReplaceChar(a + b, c, r) == ReplaceChar(a, c, r) + ReplaceChar(b, c, r)
    decreases |a|
  {
    if a == "" {
      assert a + b == b;
    } else {
      assert (a + b)[1..] == a[1..] + b;
      ReplaceConcat(a[1..], b, c, r);
      ConcatAssoc(if a[0] == c then r else [a[0]], ReplaceChar(a[1..], c, r), ReplaceChar(b, c, r));
    }
  }

  lemma EscapedCharIs(c: char)
    ensures Escaped([c]) == EscapedChar(c)
  {
    var r := "\\\\";
    assert [c][1..] == "" && ReplaceChar("", '\\', r) == "" && ReplaceChar("", '"', "\\\"") == "";
    assert ReplaceChar([c], '\\', r) == (if c == '\\' then r else [c]) + "";
    if c == '\\' {
      assert r[0] == '\\' && r[1..] == "\\" && r[1..][1..] == "";
      assert ReplaceChar("\\", '"', "\\\"") == "\\" + "";
      assert ReplaceChar(r, '"', "\\\"") == "\\" + ("\\" + "");
    } else {
      assert ReplaceChar([c], '"', "\\\"") == EscapedChar(c) + "";
    }
  }

  lemma EscapedStep(s: string)
    requires s != ""
    ensures Escaped(s) == EscapedChar(s[0]) + Escaped(s[1..])
  {
    var r := "\\\\";
    assert s == [s[0]] + s[1..];
    ReplaceConcat([s[0]], s[1..], '\\', r);
    ReplaceConcat(ReplaceChar([s[0]], '\\', r), ReplaceChar(s[1..], '\\', r), '"', "\\\"");
    EscapedCharIs(s[0]);
  }

  predicate AllPrintable(s: string) {
    forall i :: 0 <= i < |s| ==> Printable(s[i])
  }

  /** The reader gives the value back, and stops at the closing quote, exactly when the value has no control character but tabs. */
  lemma {:induction false} EscapedReadsBackIff(s: string, rest: string)
    ensures ReadBasic(Escaped(s) + ("\"" + rest)) == Some((s, rest)) <==> AllPrintable(s)
    ensures ReadBasic(Escaped(s) + ("\"" + rest)).None? <==> !AllPrintable(s)
    decreases |s|
  {
    var tail := "\"" + rest;
    if s == "" {
      assert Escaped("") == "";
      assert "" + tail == tail;
      assert tail[0] == '"' && tail[1..] == rest;
    } else {
      EscapedReadsBackIff(s[1..], rest);
      EscapedStep(s);
      ConcatAssoc(EscapedChar(s[0]), Escaped(s[1..]), tail);
      assert s == [s[0]] + s[1..];
      assert AllPrintable(s) <==> Printable(s[0]) && AllPrintable(s[1..]) by {
        assert forall i :: 1 <= i < |s| ==> s[i] == s[1..][i - 1];
      }
      assert Printable('\\') && Printable('"');
    }
  }

  /** The command recorded in the section reads back as the trimmed answer. */
  lemma TestCommandReadsBackIff(testCommand: string)
    requires Trim(testCommand) != ""
    ensures var line := "test_command = \"";
            var head := "\n[supervisor]\n" + "enabled = true\n" + line;
            && head <= SectionFor(true, testCommand)
            && (ReadBasic(SectionFor(true, testCommand)[|head|..]) == Some((Trim(testCommand), "\n"))
                <==> AllPrintable(Trim(testCommand)))
  {
    var t := Trim(testCommand);
    var line := "test_command = \"";
    var front := "\n[supervisor]\n" + "enabled = true\n";
    var tail := Escaped(t) + "\"\n";
    ConcatAssoc(front, line, tail);
    assert (front + line + tail)[|front + line|..] == tail;
    EscapedReadsBackIff(t, "\n");
    assert "\"" + "\n" == "\"\n";
  }

  // ----- One table ------------------------------------------------------------------

  lemma {:induction false} EscapedHolds(s: string, c: char)
    requires c !in s && c != '\\' && c != '"'
    ensures c !in Escaped(s)
    decreases |s|
  {
    hide Escaped;
    if s == "" {
      NothingEscaped();
    } else {
      EscapedHolds(s[1..], c);
      EscapedStep(s);
      assert s[0] in s && c !in EscapedChar(s[0]);
    }
  }

  lemma NothingEscaped()
    ensures Escaped("") == ""
  {
  }

  /** A closed line that does not start with a bracket is no header. */
  lemma NoHeaderLine(line: string, l: Lexer)
    requires line != "" && '\n' !in line && line[0] != '[' && !IsWhitespace(line[0])
    ensures forall m :: m in Marks(line + "\n", l) ==> !IsHeader(m.text)
  {
    hide Trim, Marks;
    ClosedMark(line, l);
    TrimKeepsFront(line);
  }

  lemma NoHeaderBehind(first: string, second: string, l: Lexer)
    requires LineAligned(first)
    requires forall m :: m in Marks(first, l) ==> !IsHeader(m.text)
    requires forall m :: m in Marks(second, Lex(l, first)) ==> !IsHeader(m.text)
    ensures forall m :: m in Marks(first + second, l) ==> !IsHeader(m.text)
  {
    hide Marks, Lex, IsHeader;
    MarksConcat(first, second, l);
  }

  /** What stands below the section's header line. */
  function SectionBody(enabled: bool, testCommand: string): string {
    if !enabled then "enabled = false\n"
    else "enabled = true\n" + if Trim(testCommand) == "" then "" else CommandLine(Trim(testCommand)) + "\n"
  }

  function CommandLine(trimmed: string): string {
    "test_command = \"" + (Escaped(trimmed) + "\"")
  }

  lemma SectionParts(enabled: bool, testCommand: string)
    ensures SectionFor(enabled, testCommand) == "\n[supervisor]\n" + SectionBody(enabled, testCommand)
  {
    hide Escaped, Trim;
    var header, t := "\n[supervisor]\n", Trim(testCommand);
    if enabled && t != "" {
      CommandClosed(t);
      ConcatAssoc(header, "enabled = true\n", CommandLine(t) + "\n");
    }
  }

  lemma CommandClosed(trimmed: string)
    ensures "test_command = \"" + (Escaped(trimmed) + "\"\n") == CommandLine(trimmed) + "\n"
  {
    hide Escaped;
    assert "\"" + "\n" == "\"\n";
    ConcatAssoc(Escaped(trimmed), "\"", "\n");
    ConcatAssoc("test_command = \"", Escaped(trimmed) + "\"", "\n");
  }

  lemma CommandLineIs(trimmed: string)
    requires '\n' !in trimmed
    ensures CommandLine(trimmed) != "" && CommandLine(trimmed)[0] == 't' && '\n' !in CommandLine(trimmed)
  {
    hide Escaped;
    EscapedHolds(trimmed, '\n');
  }

  lemma BodyHasNoHeader(enabled: bool, testCommand: string, l: Lexer)
    requires '\n' !in Trim(testCommand)
    ensures forall m :: m in Marks(SectionBody(enabled, testCommand), l) ==> !IsHeader(m.text)
  {
    hide Marks, Lex, CommandLine, Trim, IsHeader;
    var first := if enabled then "enabled = true" else "enabled = false";
    NoHeaderLine(first, l);
    if enabled {
      var second := if Trim(testCommand) == "" then "" else CommandLine(Trim(testCommand)) + "\n";
      var behind := Lex(l, first + "\n");
      NoMarks(behind);
      if Trim(testCommand) != "" {
        CommandLineIs(Trim(testCommand));
        NoHeaderLine(CommandLine(Trim(testCommand)), behind);
      }
      assert first + "\n" == "enabled = true\n";
      NoHeaderBehind(first + "\n", second, l);
    } else {
      assert first + "\n" == "enabled = false\n";
    }
  }

  /** Whatever was answered on one line, the section opens one supervisor table and defines nothing else of that name. */
  lemma SectionIsOneTable(enabled: bool, testCommand: string)
    requires '\n' !in Trim(testCommand)
    ensures OneTable(Tops(SectionFor(enabled, testCommand)), "supervisor")
  {
    hide OneTable, SectionBody, SectionFor, Lex, Marks, Trim, IsHeader;
    SectionParts(enabled, testCommand);
    BodyHasNoHeader(enabled, testCommand, Lex(TOP, "[supervisor]\n"));
    HeaderOverBody(SectionFor(enabled, testCommand), SectionBody(enabled, testCommand));
  }

  // ----- What the section says -----------------------------------------------------------

  /** The text behind `key = ` on the first line that starts with it. */
  function Setting(ls: seq<string>, key: string): Option<string> {
    if ls == [] then None
    else if StartsWith(ls[0], key + " = ") then Some(ls[0][|key| + 3..])
    else Setting(ls[1..], key)
  }

  lemma TwoPieces(first: string, second: string, rest: string)
    requires CleanLine(first) && CleanLine(second)
    ensures Lines(first + "\n" + (second + "\n" + rest)) == [first, second] + Lines(rest)
  {
    hide Lines, LineText, CleanLine, IsPiece;
    CleanPiece(first);
    CleanPiece(second);
    FirstPiece(first + "\n", second + "\n" + rest);
    FirstPiece(second + "\n", rest);
  }

  lemma HeaderLines(body: string)
    ensures Lines("\n[supervisor]\n" + body) == ["", "[supervisor]"] + Lines(body)
  {
    hide Lines;
    TwoPieces("", "[supervisor]", body);
    assert "" + "\n" + ("[supervisor]" + "\n" + body) == "\n[supervisor]\n" + body;
  }

  lemma SectionLines(enabled: bool, testCommand: string)
    requires '\n' !in Trim(testCommand)
    ensures Lines(SectionFor(enabled, testCommand)) ==
            ["", "[supervisor]", if enabled then "enabled = true" else "enabled = false"]
            + if enabled && Trim(testCommand) != "" then [CommandLine(Trim(testCommand))] else []
  {
    hide Lines, Trim, CommandLine, SectionFor, LineText;
    var body := SectionBody(enabled, testCommand);
    SectionParts(enabled, testCommand);
    HeaderLines(body);
    var flag := if enabled then "enabled = true" else "enabled = false";
    CleanPiece(flag);
    FlagLine(enabled);
    var rest := if enabled && Trim(testCommand) != "" then CommandLine(Trim(testCommand)) + "\n" else "";
    assert body == flag + "\n" + rest;
    FirstPiece(flag + "\n", rest);
    EmptyLines();
    if rest != "" {
      CommandLineIs(Trim(testCommand));
      CommandLineClean(Trim(testCommand));
      CleanPiece(CommandLine(Trim(testCommand)));
      assert rest + "" == rest;
      FirstPiece(rest, "");
    }
  }

  lemma FlagLine(enabled: bool)
    ensures enabled ==> "enabled = true" + "\n" == "enabled = true\n"
    ensures !enabled ==> "enabled = false" + "\n" == "enabled = false\n"
  {
  }

  lemma CommandLineClean(trimmed: string)
    requires '\n' !in CommandLine(trimmed)
    ensures CleanLine(CommandLine(trimmed))
  {
    hide Escaped;
    var front := "test_command = \"" + Escaped(trimmed);
    assert CommandLine(trimmed) == front + "\"";
  }

  /**
   The section switches the supervisor on exactly when that was answered, and
   holds a test command exactly when it is on and one was given, which then
   reads back as the trimmed answer.
   */
  lemma SectionSays(enabled: bool, testCommand: string)
    requires '\n' !in Trim(testCommand)
    ensures var ls := Lines(SectionFor(enabled, testCommand));
            && Setting(ls, "enabled") == Some(if enabled then "true" else "false")
            && (Setting(ls, "test_command").Some? <==> enabled && Trim(testCommand) != "")
            && (enabled && Trim(testCommand) != "" ==>
                  Setting(ls, "test_command").value != ""
                  && (ReadBasic(Setting(ls, "test_command").value[1..]) == Some((Trim(testCommand), ""))
                      <==> AllPrintable(Trim(testCommand))))
  {
    hide Lines, Trim, SectionFor, ReadBasic, Escaped;
    var t := Trim(testCommand);
    SectionLines(enabled, testCommand);
    var ls := Lines(SectionFor(enabled, testCommand));
    SettingsApart(ls, enabled);
    if enabled && t != "" {
      var value := "\"" + (Escaped(t) + "\"");
      assert CommandLine(t) == "test_command = " + value;
      CommandSetting(ls, value);
      EscapedReadsBackIff(t, "");
      assert "\"" + "" == "\"" && value[1..] == Escaped(t) + "\"";
    } else {
      NoCommandSetting(ls);
    }
  }

  lemma SettingsApart(ls: seq<string>, enabled: bool)
    requires |ls| >= 3 && ls[0] == "" && ls[1] == "[supervisor]"
    requires ls[2] == if enabled then "enabled = true" else "enabled = false"
    ensures Setting(ls, "enabled") == Some(if enabled then "true" else "false")
    ensures Setting(ls, "test_command") == Setting(ls[3..], "test_command")
  {
    hide Setting;
    assert ls[1..][0] == ls[1] && ls[1..][1..] == ls[2..] && ls[2..][0] == ls[2] && ls[2..][1..] == ls[3..];
    SkipsLine(ls, "enabled");
    SkipsLine(ls[1..], "enabled");
    SkipsLine(ls, "test_command");
    SkipsLine(ls[1..], "test_command");
    SkipsLine(ls[2..], "test_command");
    FlagSetting(ls[2..], if enabled then "true" else "false");
  }

  lemma SkipsLine(ls: seq<string>, key: string)
    requires ls != [] && key != "" && (ls[0] == "" || ls[0][0] != key[0])
    ensures Setting(ls, key) == Setting(ls[1..], key)
  {
    assert (key + " = ")[0] == key[0];
  }

  lemma FlagSetting(ls: seq<string>, flag: string)
    requires ls != [] && ls[0] == "enabled = " + flag
    ensures Setting(ls, "enabled") == Some(flag)
  {
    assert "enabled" + " = " == "enabled = ";
    assert ls[0][|"enabled"| + 3..] == flag;
  }

  lemma CommandSetting(ls: seq<string>, value: string)
    requires |ls| == 4 && ls[3] == "test_command = " + value
    requires Setting(ls, "test_command") == Setting(ls[3..], "test_command")
    ensures Setting(ls, "test_command") == Some(value)
  {
    assert "test_command" + " = " == "test_command = ";
    assert ls[3..][0] == ls[3] && ls[3][|"test_command"| + 3..] == value;
  }

  lemma NoCommandSetting(ls: seq<string>)
    requires |ls| == 3 && Setting(ls, "test_command") == Setting(ls[3..], "test_command")
    ensures Setting(ls, "test_command") == None
  {
  }
}
