/**
 Quoting a string for a POSIX shell, against a reader of shell words.
 */
module ShellWord {
  import opened Wrappers
  import opened Text

  function Quoted(s: string): string {
    "'" + QuotedBody(s) + "'"
  }

  function QuotedBody(s: string): string {
    if s == "" then "" else (if s[0] == '\'' then "'\\''" else [s[0]]) + QuotedBody(s[1..])
  }

  method ShellQuote(s: string) returns (quoted: string)
    ensures quoted == Quoted(s)
  {
    quoted := "'";
    for i := 0 to |s|
      invariant quoted + QuotedBody(s[i..]) == "'" + QuotedBody(s)
    {
      var c := s[i];
      assert s[i..][0] == c && s[i..][1..] == s[i + 1..];
      ConcatAssoc(quoted, if c == '\'' then "'\\''" else [c], QuotedBody(s[i + 1..]));
      if c == '\'' {
        quoted := quoted + "'\\''";
      } else {
        quoted := quoted + [c];
      }
    }
    assert s[|s|..] == "" && quoted + "" == quoted;
    quoted := quoted + "'";
  }

  // ----- The shell's reading -----------------------------------------------------------

  /** What the reader hands on: a whole word, or an unquoted character the shell would act on. */
  datatype Item = Word(text: string) | Active(c: char)

  /**
   Unquoted, just behind an unquoted backslash (section 2.2.1), in single
   quotes (section 2.2.2), in double quotes or behind a backslash there
   (section 2.2.3), or in a comment (section 2.3).
   */
  datatype Mode = Plain | Backslashed | SingleQuoted | DoubleQuoted | DoubleBackslashed | Comment

  /** The reader between two characters: what it has handed on, and the word it is in, if any. */
  datatype Reader = Reader(mode: Mode, word: Option<string>, items: seq<Item>)

  predicate IsBlank(c: char) {
    c == ' ' || c == '\t'
  }

  /** Characters with a meaning outside quotes, beyond quotes, backslash and comment sign. */
  predicate IsActive(c: char) {
    c in "|&;<>()$`*?[~=%!{}\n"
  }

  /** Characters that keep their meaning in double quotes. */
  predicate IsActiveInDouble(c: char) {
    c == '$' || c == '`'
  }

  function Grown(word: Option<string>, c: char): Option<string> {
    Some((if word.Some? then word.value else "") + [c])
  }

  function Opened(word: Option<string>): Option<string> {
    Some(if word.Some? then word.value else "")
  }

  function Flushed(r: Reader): seq<Item> {
    r.items + (if r.word.Some? then [Word(r.word.value)] else [])
  }

  function Read(r: Reader, c: char): Reader {
    match r.mode
    case SingleQuoted =>
      if c == '\'' then r.(mode := Plain) else r.(word := Grown(r.word, c))
    case Backslashed =>
      if c == '\n' then r.(mode := Plain) else Reader(Plain, Grown(r.word, c), r.items)
    case DoubleQuoted =>
      if c == '"' then r.(mode := Plain)
      else if c == '\\' then r.(mode := DoubleBackslashed)
      else if IsActiveInDouble(c) then Reader(DoubleQuoted, Some(""), Flushed(r) + [Active(c)])
      else r.(word := Grown(r.word, c))
    case DoubleBackslashed =>
      if c == '\n' then r.(mode := DoubleQuoted)
      else if IsActiveInDouble(c) || c == '"' || c == '\\' then Reader(DoubleQuoted, Grown(r.word, c), r.items)
      else Reader(DoubleQuoted, Grown(Grown(r.word, '\\'), c), r.items)
    case Comment =>
      if c == '\n' then Reader(Plain, None, Flushed(r) + [Active(c)]) else r
    case Plain =>
      if c == '\'' then Reader(SingleQuoted, Opened(r.word), r.items)
      else if c == '"' then Reader(DoubleQuoted, Opened(r.word), r.items)
      else if c == '#' && r.word.None? then r.(mode := Comment)
      else if c == '\\' then r.(mode := Backslashed)
      else if IsBlank(c) then Reader(Plain, None, Flushed(r))
      else if IsActive(c) then Reader(Plain, None, Flushed(r) + [Active(c)])
      else r.(word := Grown(r.word, c))
  }

  function ReadAll(r: Reader, s: string): Reader
    decreases |s|
  {
    if s == "" then r else ReadAll(Read(r, s[0]), s[1..])
  }

  const START := Reader(Plain, None, [])

  function Items(s: string): seq<Item> {
    Flushed(ReadAll(START, s))
  }

  lemma {:induction false} ReadConcat(r: Reader, a: string, b: string)
    ensures ReadAll(r, a + b) == ReadAll(ReadAll(r, a), b)
    decreases |a|
  {
    if a == "" {
      assert a + b == b;
    } else {
      assert (a + b)[0] == a[0] && (a + b)[1..] == a[1..] + b;
      ReadConcat(Read(r, a[0]), a[1..], b);
    }
  }

  /** The reader moves in step whatever it has handed on before. */
  lemma {:induction false} ReadKeepsItems(r: Reader, earlier: seq<Item>, s: string)
    ensures ReadAll(r.(items := earlier + r.items), s)
            == ReadAll(r, s).(items := earlier + ReadAll(r, s).items)
    decreases |s|
  {
    if s != "" {
      var next := Read(r, s[0]);
      ConcatAssoc(earlier, r.items, if r.word.Some? then [Word(r.word.value)] else []);
      ConcatAssoc(earlier, Flushed(r), [Active(s[0])]);
      assert Read(r.(items := earlier + r.items), s[0]) == next.(items := earlier + next.items);
      ReadKeepsItems(next, earlier, s[1..]);
    }
  }

  /** The escape sequence for a quote closes, adds one quote, and reopens. */
  lemma ReadEscapedQuote(w: string, items: seq<Item>)
    ensures ReadAll(Reader(SingleQuoted, Some(w), items), "'\\''") == Reader(SingleQuoted, Some(w + "'"), items)
  {
    var r := Reader(SingleQuoted, Some(w), items);
    ReadConcat(r, "'", "\\");
    ReadConcat(r, "'\\", "'");
    ReadConcat(r, "'\\'", "'");
    assert "'" + "\\" == "'\\" && "'\\" + "'" == "'\\'" && "'\\'" + "'" == "'\\''";
  }

  lemma {:induction false} ReadBody(w: string, items: seq<Item>, s: string)
    ensures ReadAll(Reader(SingleQuoted, Some(w), items), QuotedBody(s)) == Reader(SingleQuoted, Some(w + s), items)
    decreases |s|
  {
    var r := Reader(SingleQuoted, Some(w), items);
    if s == "" {
      assert w + s == w;
    } else {
      var first := if s[0] == '\'' then "'\\''" else [s[0]];
      if s[0] == '\'' {
        ReadEscapedQuote(w, items);
      }
      assert ReadAll(r, first) == Reader(SingleQuoted, Some(w + [s[0]]), items);
      ReadConcat(r, first, QuotedBody(s[1..]));
      ReadBody(w + [s[0]], items, s[1..]);
      assert w + [s[0]] + s[1..] == w + s;
    }
  }

  /** Wherever the reader is between words or inside one, a quoted string adds itself to the word and nothing else. */
  lemma ReadQuoted(r: Reader, s: string)
    requires r.mode == Plain
    ensures ReadAll(r, Quoted(s)) == Reader(Plain, Some((if r.word.Some? then r.word.value else "") + s), r.items)
  {
    var inQuotes := Reader(SingleQuoted, Opened(r.word), r.items);
    ReadConcat(r, "'", QuotedBody(s));
    ReadBody(inQuotes.word.value, r.items, s);
    ReadConcat(r, "'" + QuotedBody(s), "'");
  }

  /** The whole of a quoted string is one word, the string itself. */
  lemma QuotedIsOneWord(s: string)
    ensures Items(Quoted(s)) == [Word(s)]
  {
    ReadQuoted(START, s);
    assert "" + s == s;
  }

  /**
   In any surrounding text that leaves the reader outside quotes and comments,
   a quoted string between blanks is exactly one word more, and changes how nothing
   else is read.
   */
  lemma QuotedAmongWords(before: string, s: string, after: string)
    requires ReadAll(START, before).mode == Plain
    ensures Items(before + " " + Quoted(s) + " " + after) == Items(before) + [Word(s)] + Items(after)
  {
    var r1 := ReadAll(START, before);
    var blank1 := Reader(Plain, None, Flushed(r1));
    ReadConcat(START, before, " ");
    ReadConcat(START, before + " ", Quoted(s));
    ReadQuoted(blank1, s);
    assert "" + s == s;
    var quoted := Reader(Plain, Some(s), blank1.items);
    ReadConcat(START, before + " " + Quoted(s), " ");
    var blank2 := Reader(Plain, None, blank1.items + [Word(s)]);
    ReadConcat(START, before + " " + Quoted(s) + " ", after);
    var earlier := blank1.items + [Word(s)];
    assert START.(items := earlier + START.items) == blank2;
    ReadKeepsItems(START, earlier, after);
    var r3 := ReadAll(START, after);
    ConcatAssoc(earlier, r3.items, if r3.word.Some? then [Word(r3.word.value)] else []);
  }
}
