/**
 What a migration does to the tables and root names of a config file, as its
 own line scanners see them and as a TOML reader does.
 */
module TomlTables {
  import opened Wrappers
  import opened Text
  import opened ConfigMigration
  import opened TomlReader
  import opened TomlRoot

  /** The header lines, trimmed, in order. */
  function HeaderTexts(kinds: seq<LineKind>): seq<string> {
    if kinds == [] then []
    else (if kinds[0].Header? then [kinds[0].text] else []) + HeaderTexts(kinds[1..])
  }

  function Headers(content: string): seq<string> {
    HeaderTexts(LineKinds(content))
  }

  lemma {:induction false} HeadersConcat(a: seq<LineKind>, b: seq<LineKind>)
    ensures HeaderTexts(a + b) == HeaderTexts(a) + HeaderTexts(b)
    decreases |a|
  {
    if a == [] {
      assert a + b == b;
    } else {
      assert (a + b)[1..] == a[1..] + b;
      HeadersConcat(a[1..], b);
      ConcatAssoc(if a[0].Header? then [a[0].text] else [], HeaderTexts(a[1..]), HeaderTexts(b));
    }
  }

  lemma {:induction false} NoHeaders(kinds: seq<LineKind>)
    requires RootOnly(kinds)
    ensures HeaderTexts(kinds) == []
    decreases |kinds|
  {
    if kinds != [] { NoHeaders(kinds[1..]); }
  }

  lemma {:induction false} HeaderListed(kinds: seq<LineKind>, text: string)
    ensures text in HeaderTexts(kinds) <==> Header(text) in kinds
    decreases |kinds|
  {
    if kinds != [] {
      HeaderListed(kinds[1..], text);
      assert Header(text) in kinds <==> Header(text) == kinds[0] || Header(text) in kinds[1..];
    }
  }

  lemma HasSectionListed(content: string)
    ensures HasSection(content, "supervisor") <==> "[supervisor]" in Headers(content)
  {
    HasSectionKinds(content);
    HeaderListed(LineKinds(content), "[supervisor]");
  }

  // ----- Headers through a migration --------------------------------------------------

  lemma BackfilledHeaders(content: string, missing: seq<(string, string)>)
    requires Assignments(missing)
    ensures Headers(Backfilled(content, missing)) == Headers(content)
  {
    hide LineKinds, Join, RootOnly, Assignments, HeaderTexts, LinesOf, Backfilled, RootFront, Behind;
    if missing == [] {
      NothingFilled(content);
    } else {
      var front, block, back := RootFront(content), Join(LinesOf(missing)), Behind(content);
      BackfilledCut(content, missing);
      BlockKinds(missing);
      NoHeaders(LineKinds(block));
      if back == "" {
        TerminatedKinds(content);
        LineKindsConcat(front, block);
        HeadersConcat(LineKinds(content), LineKinds(block));
        assert Headers(content) + [] == Headers(content);
      } else {
        InsertedKinds(front, block, back);
        LineKindsConcat(front, back);
        InsertedHeaders(LineKinds(front), LineKinds(block), LineKinds(back));
      }
    }
  }

  lemma InsertedHeaders(pre: seq<LineKind>, block: seq<LineKind>, post: seq<LineKind>)
    requires RootOnly(block)
    ensures HeaderTexts(pre + (block + [Other]) + post) == HeaderTexts(pre + post)
  {
    NoHeaders(block + [Other]);
    hide HeaderTexts, RootOnly;
    HeadersConcat(pre, block + [Other]);
    HeadersConcat(pre + (block + [Other]), post);
    HeadersConcat(pre, post);
    assert HeaderTexts(pre) + [] == HeaderTexts(pre);
  }

  lemma WithSupervisorHeaders(content: string, section: string)
    ensures Headers(WithSupervisor(content, section)) ==
            Headers(content) + (if HasSection(content, "supervisor") then [] else Headers(section))
  {
    hide LineKinds, HasSection, HeaderTexts;
    if HasSection(content, "supervisor") {
      assert Headers(content) + [] == Headers(content);
    } else {
      var base := if EndsWithNewline(content) then content else content + "\n";
      ClosedHeaders(content, base);
      LineKindsConcat(base, section);
      HeadersConcat(LineKinds(base), LineKinds(section));
    }
  }

  lemma ClosedHeaders(content: string, base: string)
    requires base == if EndsWithNewline(content) then content else content + "\n"
    ensures Headers(base) == Headers(content) && LineAligned(base)
  {
    hide LineKinds;
    NoKinds();
    if content == "" {
      BlankLineKinds();
      assert base == "\n" && [Other][1..] == [];
    } else {
      TerminatedKinds(content);
      assert base == Terminated(content);
    }
  }

  /** Every table header of a non-blank file survives, in order; the section's follow when the file had no supervisor header. */
  lemma MigratedHeaders(existing: string, template: string, section: string)
    requires Trim(existing) != ""
    ensures Headers(Migrated(existing, template, section)) ==
            Headers(existing) + (if HasSection(existing, "supervisor") then [] else Headers(section))
  {
    hide Headers, HasSection, MissingKeys, Backfilled, WithSupervisor, Assignments;
    var missing := MissingKeys(existing, template);
    MissingAssign(existing, template);
    BackfilledHeaders(existing, missing);
    HasSectionListed(existing);
    HasSectionListed(Backfilled(existing, missing));
    WithSupervisorHeaders(Backfilled(existing, missing), section);
  }

  // ----- What a file defines ------------------------------------------------------------

  predicate AnyHeader(ts: seq<string>) {
    ts != [] && (IsHeader(ts[0]) || AnyHeader(ts[1..]))
  }

  /** How many lines above the first header give `name` a value, or a name inside it one. */
  function RootNames(ts: seq<string>, name: string): nat {
    if ts == [] || IsHeader(ts[0]) then 0
    else (if AssignName(ts[0]) == Some(name) then 1 else 0) + RootNames(ts[1..], name)
  }

  /** How many header lines open the table. */
  function Opens(ts: seq<string>, table: Opened): nat {
    if ts == [] then 0
    else (if HeaderName(ts[0]) == Some(table) then 1 else 0) + Opens(ts[1..], table)
  }

  function Definitions(ts: seq<string>, name: string): nat {
    Opens(ts, Opened(name, false)) + Opens(ts, Opened(name, true)) + RootNames(ts, name)
  }

  /** One plain header opens the table, and nothing else defines its name. */
  predicate OneTable(ts: seq<string>, name: string) {
    Opens(ts, Opened(name, false)) == 1 && Definitions(ts, name) == 1
  }

  lemma {:induction false} CountsConcat(a: seq<string>, b: seq<string>, name: string)
    ensures RootNames(a + b, name) == RootNames(a, name) + if AnyHeader(a) then 0 else RootNames(b, name)
    ensures AnyHeader(a + b) <==> AnyHeader(a) || AnyHeader(b)
    decreases |a|
  {
    hide AssignName, IsHeader;
    if a == [] {
      assert a + b == b;
    } else {
      assert (a + b)[1..] == a[1..] + b;
      CountsConcat(a[1..], b, name);
    }
  }

  lemma {:induction false} OpensConcat(a: seq<string>, b: seq<string>, table: Opened)
    ensures Opens(a + b, table) == Opens(a, table) + Opens(b, table)
    decreases |a|
  {
    hide HeaderName;
    if a == [] {
      assert a + b == b;
    } else {
      assert (a + b)[1..] == a[1..] + b;
      OpensConcat(a[1..], b, table);
    }
  }

  lemma {:induction false} NoneOpened(ts: seq<string>, table: Opened)
    requires !AnyHeader(ts)
    ensures Opens(ts, table) == 0
    decreases |ts|
  {
    if ts != [] { NoneOpened(ts[1..], table); }
  }

  lemma {:induction false} NoHeaderOnTop(ms: seq<Mark>)
    requires forall m :: m in ms ==> !IsHeader(m.text)
    ensures !AnyHeader(TopTexts(ms))
    decreases |ms|
  {
    if ms != [] {
      NoHeaderOnTop(ms[1..]);
      var rest := TopTexts(ms[1..]);
      assert [] + rest == rest && ([ms[0].text] + rest)[1..] == rest;
    }
  }

  // ----- The names of the missing keys ----------------------------------------------------

  function KeyCount(pairs: seq<(string, string)>, name: string): nat {
    if pairs == [] then 0 else (if pairs[0].0 == name then 1 else 0) + KeyCount(pairs[1..], name)
  }

  /** Every line closes the values it opens. */
  ghost predicate SelfContained(pairs: seq<(string, string)>) {
    forall x :: x in pairs ==> Lex(TOP, x.1 + "\n") == TOP
  }

  /** A line the key scan takes is a bare key, whitespace, and an equals sign. */
  lemma AssignShape(text: string) returns (key: string, w: string, rest: string)
    requires KindOfTrimmed(text).Assign? && Trim(text) == text
    ensures KindOfTrimmed(text) == Assign(key, text) && IsBareKey(key)
    ensures AllWhitespace(w) && rest != "" && rest[0] == '=' && text == key + (w + rest)
  {
    hide IsKeyChar, IsWhitespace, TrimStart, TrimEnd, Trim, Find;
    var eq := Find(text, "=");
    OccursAtIndex(text, "=", eq, 0);
    rest := text[eq..];
    key := Trim(text[..eq]);
    TightStart(text);
    var w1, w2 := TrimParts(text[..eq]);
    KeyInFront(text, eq, key, w1, w2);
    w := w2;
    assert text == (key + w) + rest;
    ConcatAssoc(key, w, rest);
  }

  lemma TightStart(text: string)
    requires text != "" && Trim(text) == text
    ensures !IsWhitespace(text[0])
  {
    var w1, w2 := TrimParts(text);
  }

  lemma KeyInFront(text: string, eq: nat, key: string, w1: string, w2: string)
    requires eq < |text| && text[..eq] == w1 + key + w2 && key != ""
    requires AllWhitespace(w1) && !IsWhitespace(text[0])
    ensures w1 == "" && key + w2 == text[..eq]
  {
    hide IsWhitespace;
    assert (w1 + key + w2)[0] == text[0];
    assert "" + key == key;
  }

  /** A bare key is read up to the first character that is none of its own. */
  lemma BareReads(key: string, rest: string)
    requires IsBareKey(key) && (rest == "" || !IsKeyChar(rest[0]))
    ensures ReadKey(key + rest) == Some((key, rest))
  {
    hide IsKeyChar;
    var s := key + rest;
    var n := BareLength(s);
    assert s[0] == key[0] && IsKeyChar(key[0]);
    assert IsKeyChar('"') || IsKeyChar('\'') ==> false by { QuotesAreNoKeys(); }
    assert forall i :: 0 <= i < |key| ==> s[i] == key[i] && IsKeyChar(s[i]);
    assert rest != "" ==> s[|key|] == rest[0];
    assert s[..|key|] == key && s[|key|..] == rest;
  }

  lemma QuotesAreNoKeys()
    ensures !IsKeyChar('"') && !IsKeyChar('\'') && !IsKeyChar('=') && !IsKeyChar('[') && !IsKeyChar(']')
    ensures forall c :: IsWhitespace(c) ==> !IsKeyChar(c)
  {
  }

  /** It names the same key to a TOML reader. */
  lemma AssignedName(text: string)
    requires KindOfTrimmed(text).Assign? && Trim(text) == text
    ensures AssignName(text) == Some(KindOfTrimmed(text).key) && !IsHeader(text)
  {
    hide IsKeyChar, IsWhitespace, TrimStart, Trim, KindOfTrimmed, ReadKey;
    HeaderKindIff(text);
    QuotesAreNoKeys();
    var key, w, rest := AssignShape(text);
    BareReads(key, w + rest);
    EqualsStays(rest);
    TrimStartUnique(w, rest);
  }

  lemma EqualsStays(rest: string)
    requires rest != "" && rest[0] == '='
    ensures !IsWhitespace(rest[0])
  {
  }

  // ----- The file with the missing keys ---------------------------------------------------

  lemma {:induction false} LinesOnTop(ls: seq<string>)
    requires forall l :: l in ls ==> CleanLine(l) && Trim(l) == l && Lex(TOP, l + "\n") == TOP
    ensures Lex(TOP, Join(ls)) == TOP && Tops(Join(ls)) == ls
    decreases |ls|
  {
    hide Lex, Trim, CleanLine, LineText;
    NoMarks(TOP);
    if ls != [] {
      var l, rest := ls[0], Join(ls[1..]);
      LinesOnTop(ls[1..]);
      CleanPiece(l);
      LexConcat(TOP, l + "\n", rest);
      FirstMark(l + "\n", rest, TOP);
      var first := Mark(true, l);
      assert ([first] + LinesRead(rest))[1..] == LinesRead(rest);
    }
  }

  lemma {:induction false} NamesOfLines(pairs: seq<(string, string)>, name: string)
    requires Assignments(pairs)
    ensures !AnyHeader(LinesOf(pairs)) && RootNames(LinesOf(pairs), name) == KeyCount(pairs, name)
    decreases |pairs|
  {
    hide Kind, AssignName, IsHeader, CleanLine;
    if pairs != [] {
      assert IsAssignment(pairs[0]);
      AssignmentNamed(pairs[0]);
      NamesOfLines(pairs[1..], name);
      assert LinesOf(pairs)[1..] == LinesOf(pairs[1..]);
    }
  }

  lemma AssignmentNamed(pair: (string, string))
    requires IsAssignment(pair)
    ensures AssignName(pair.1) == Some(pair.0) && !IsHeader(pair.1)
    ensures CleanLine(pair.1) && Trim(pair.1) == pair.1
  {
    hide Trim, AssignName, IsHeader, CleanLine, Find, IsBareKey;
    AssignedName(pair.1);
  }

  lemma BlockOnTop(pairs: seq<(string, string)>)
    requires Assignments(pairs) && SelfContained(pairs)
    ensures Lex(TOP, Join(LinesOf(pairs))) == TOP && Tops(Join(LinesOf(pairs))) == LinesOf(pairs)
  {
    hide Lex, Trim, CleanLine, Tops, Join;
    var ls := LinesOf(pairs);
    forall l | l in ls ensures CleanLine(l) && Trim(l) == l && Lex(TOP, l + "\n") == TOP {
      var i :| 0 <= i < |ls| && ls[i] == l;
      assert pairs[i] in pairs;
      AssignmentNamed(pairs[i]);
    }
    LinesOnTop(ls);
  }

  lemma BlankOnTop()
    ensures Lex(TOP, "\n") == TOP && Tops("\n") == [""]
  {
    hide Trim;
    ClosedMarkOfNothing();
    var ms := [Mark(true, "")];
    assert Lex(LexChar(TOP, '\n'), "") == TOP && "\n"[1..] == "";
    assert ms[1..] == [] && TopTexts([]) == [];
  }

  lemma ClosedMarkOfNothing()
    ensures LinesRead("\n") == [Mark(true, "")]
  {
    hide Marks, Trim;
    assert IsPiece("\n") && "\n" + "" == "\n" && LineText("\n") == "";
    FirstMark("\n", "", TOP);
    NoMarks(Lex(TOP, "\n"));
    BlankLine("");
  }

  function Gap(content: string): seq<string> {
    if Behind(content) == "" then [] else [""]
  }

  lemma TopsTerminated(content: string)
    ensures Tops(Terminated(content)) == Tops(content)
  {
    hide Marks, TopTexts;
    MarksTerminated(content, TOP);
  }

  lemma Unpadded<T>(a: seq<T>, b: seq<T>)
    ensures a + (b + []) + [] == a + b && a + [] == a
  {
  }

  lemma AfterTop(a: string, b: string)
    requires LineAligned(a) && Lex(TOP, a) == TOP
    ensures Tops(a + b) == Tops(a) + Tops(b)
    ensures Lex(TOP, a + b) == Lex(TOP, b) && Lex(TOP, Terminated(a + b)) == Lex(TOP, Terminated(b))
  {
    hide Lex, Tops;
    TopsConcat(a, b);
    TerminatedConcat(a, b);
    LexConcat(TOP, a, b);
    LexConcat(TOP, a, Terminated(b));
  }

  lemma StackedTops(front: string, block: string, back: string)
    requires LineAligned(front) && LineAligned(block) && Lex(TOP, front) == TOP && Lex(TOP, block) == TOP
    ensures Tops(front + (block + "\n") + back) == Tops(front) + (Tops(block) + [""]) + Tops(back)
    ensures Lex(TOP, Terminated(front + (block + "\n") + back)) == Lex(TOP, Terminated(back))
  {
    hide Lex, Tops;
    BlankOnTop();
    AfterTop(block, "\n");
    AfterTop(front, block + "\n");
    AlignedConcat(front, block + "\n");
    AfterTop(front + (block + "\n"), back);
  }

  /** When the block lands outside every value its lines are read between those above it and those below. */
  lemma BackfilledTops(content: string, missing: seq<(string, string)>)
    requires missing != [] && Assignments(missing) && SelfContained(missing)
    requires Complete(content) && !BracketRow(LinesRead(content))
    ensures Complete(Backfilled(content, missing))
    ensures Tops(content) == Tops(RootFront(content)) + Tops(Behind(content))
    ensures Tops(Backfilled(content, missing)) ==
            Tops(RootFront(content)) + (LinesOf(missing) + Gap(content)) + Tops(Behind(content))
  {
    hide Lex, Tops, Join, BracketRow, LinesRead, LinesOf, SelfContained, Assignments, Backfilled, RootFront, Behind;
    var front, back, block := RootFront(content), Behind(content), Join(LinesOf(missing));
    BackfilledCut(content, missing);
    InsertedAtTopIff(content, missing);
    BlockOnTop(missing);
    if back == "" {
      EndedTops(content, block);
      Unpadded(Tops(front), LinesOf(missing));
    } else {
      AfterTop(front, back);
      StackedTops(front, block, back);
    }
  }

  lemma BackfilledCut(content: string, missing: seq<(string, string)>)
    requires missing != []
    ensures var front, back, block := RootFront(content), Behind(content), Join(LinesOf(missing));
            && LineAligned(front)
            && (back == "" ==> front == Terminated(content) && Backfilled(content, missing) == front + block)
            && (back != "" ==> content == front + back && Backfilled(content, missing) == front + (block + "\n") + back)
  {
    hide RootLength, Pieces, Join, LinesOf, LineKinds, RootOnly, StartsTable;
    var at := RootLength(Pieces(content));
    InsertionCut(content);
    FrontOf(content, at);
    CutParts(content, at);
  }

  lemma EndedTops(content: string, block: string)
    requires Complete(content) && LineAligned(block) && Lex(TOP, block) == TOP
    ensures Complete(Terminated(content) + block)
    ensures Tops(Terminated(content) + block) == Tops(content) + Tops(block)
    ensures Tops(Terminated(content)) == Tops(content) && Tops("") == []
  {
    hide Lex, Tops, LinesRead;
    NoMarks(TOP);
    NoTops();
    TopsTerminated(content);
    AfterTop(Terminated(content), block);
    AlignedConcat(Terminated(content), block);
  }

  lemma NoTops()
    ensures Tops("") == []
  {
  }

  // ----- Counting through a migration ----------------------------------------------------

  /** The missing keys become root names, and nothing else changes. */
  lemma BackfilledCounts(content: string, missing: seq<(string, string)>, name: string)
    requires Assignments(missing) && SelfContained(missing) && Complete(content)
    requires missing == [] || !BracketRow(LinesRead(content))
    ensures Complete(Backfilled(content, missing))
    ensures RootNames(Tops(Backfilled(content, missing)), name) == RootNames(Tops(content), name) + KeyCount(missing, name)
    ensures AnyHeader(Tops(Backfilled(content, missing))) <==> AnyHeader(Tops(content))
    ensures forall many :: Opens(Tops(Backfilled(content, missing)), Opened(name, many)) == Opens(Tops(content), Opened(name, many))
  {
    hide Tops, LinesRead, BracketRow, RootNames, Opens, AnyHeader, LinesOf, Lex, Complete, Backfilled, RootFront, Behind, Gap,
      SelfContained, Assignments;
    if missing == [] {
      NothingFilled(content);
    } else {
      var front, back := Tops(RootFront(content)), Tops(Behind(content));
      var block := LinesOf(missing) + Gap(content);
      BackfilledTops(content, missing);
      FrontTops(content);
      NamesOfLines(missing, name);
      GapIs(content);
      GapCounts(LinesOf(missing), Gap(content), name);
      CountsBetween(front, block, back, name);
      OpensBetween(front, block, back, Opened(name, false));
      OpensBetween(front, block, back, Opened(name, true));
    }
  }

  lemma NothingFilled(content: string)
    ensures Backfilled(content, []) == content && forall name :: KeyCount([], name) == 0
  {
  }

  lemma GapIs(content: string)
    ensures Gap(content) == [] || Gap(content) == [""]
  {
  }

  lemma FrontTops(content: string)
    ensures !AnyHeader(Tops(RootFront(content)))
  {
    hide LinesRead, AnyHeader, TopTexts, LineKinds, RootLength, Pieces;
    InsertionCut(content);
    FrontHasNoHeader(content[..RootLength(Pieces(content))]);
    NoHeaderOnTop(LinesRead(RootFront(content)));
  }

  lemma GapCounts(lines: seq<string>, gap: seq<string>, name: string)
    requires !AnyHeader(lines) && (gap == [] || gap == [""])
    ensures !AnyHeader(lines + gap) && RootNames(lines + gap, name) == RootNames(lines, name)
  {
    CountsConcat(lines, gap, name);
    assert AssignName("") == None;
    assert gap != [] ==> gap[1..] == [];
  }

  lemma CountsBetween(front: seq<string>, block: seq<string>, back: seq<string>, name: string)
    requires !AnyHeader(front) && !AnyHeader(block)
    ensures RootNames(front + block + back, name) == RootNames(front + back, name) + RootNames(block, name)
    ensures AnyHeader(front + block + back) <==> AnyHeader(front + back)
  {
    hide RootNames, AnyHeader;
    CountsConcat(front, block, name);
    CountsConcat(front + block, back, name);
    CountsConcat(front, back, name);
  }

  lemma OpensBetween(front: seq<string>, block: seq<string>, back: seq<string>, table: Opened)
    requires !AnyHeader(block)
    ensures Opens(front + block + back, table) == Opens(front + back, table)
  {
    hide Opens, AnyHeader;
    NoneOpened(block, table);
    OpensConcat(front, block, table);
    OpensConcat(front + block, back, table);
    OpensConcat(front, back, table);
  }

  /** The section is read behind a complete file. */
  lemma WithSupervisorTops(content: string, section: string)
    requires content != "" && Complete(content)
    ensures Tops(WithSupervisor(content, section)) ==
            Tops(content) + if HasSection(content, "supervisor") then [] else Tops(section)
  {
    hide Tops, HasSection, Lex;
    if HasSection(content, "supervisor") {
      assert Tops(content) + [] == Tops(content);
    } else {
      TopsTerminated(content);
      AfterTop(Terminated(content), section);
    }
  }

  lemma WithSupervisorCounts(content: string, section: string, name: string)
    requires content != "" && Complete(content)
    ensures var file := Tops(WithSupervisor(content, section));
            var added := if HasSection(content, "supervisor") then [] else Tops(section);
            && RootNames(file, name) == RootNames(Tops(content), name) + (if AnyHeader(Tops(content)) then 0 else RootNames(added, name))
            && forall many :: Opens(file, Opened(name, many)) == Opens(Tops(content), Opened(name, many)) + Opens(added, Opened(name, many))
  {
    hide Tops, HasSection, RootNames, AnyHeader, Opens, Complete, WithSupervisor;
    var added := if HasSection(content, "supervisor") then [] else Tops(section);
    WithSupervisorTops(content, section);
    CountsConcat(Tops(content), added, name);
    OpensConcat(Tops(content), added, Opened(name, false));
    OpensConcat(Tops(content), added, Opened(name, true));
  }

  // ----- Exactly one supervisor table ------------------------------------------------------

  /** What the template's lines are for the file: complete, and no supervisor table. */
  ghost predicate PlainTemplate(template: string) {
    SelfContained(TopLevelKeys(template)) && forall x :: x in TopLevelKeys(template) ==> x.0 != "supervisor"
  }

  /** Nothing is added at the root, or it lands outside every value. */
  predicate AddedAtTop(existing: string, template: string) {
    MissingKeys(existing, template) == [] || Lex(TOP, RootFront(existing)) == TOP
  }

  lemma {:induction false} NotCounted(pairs: seq<(string, string)>, name: string)
    requires forall x :: x in pairs ==> x.0 != name
    ensures KeyCount(pairs, name) == 0
    decreases |pairs|
  {
    if pairs != [] { NotCounted(pairs[1..], name); }
  }

  lemma MissingPlain(existing: string, template: string)
    requires PlainTemplate(template)
    ensures Assignments(MissingKeys(existing, template)) && SelfContained(MissingKeys(existing, template))
    ensures KeyCount(MissingKeys(existing, template), "supervisor") == 0
  {
    hide TopLevelKeys, Absent, Lex;
    MissingAssign(existing, template);
    AbsentFrom(KeysOf(TopLevelKeys(existing)), TopLevelKeys(template));
    NotCounted(MissingKeys(existing, template), "supervisor");
  }

  /** The definitions of the supervisor table after a migration whose keys land outside every value. */
  lemma MigratedCounts(existing: string, template: string, section: string)
    requires Trim(existing) != "" && Complete(existing) && PlainTemplate(template)
    requires MissingKeys(existing, template) == [] || !BracketRow(LinesRead(existing))
    requires OneTable(Tops(section), "supervisor")
    ensures var file := Tops(Migrated(existing, template, section));
            var added := if HasSection(existing, "supervisor") then 0 else 1;
            && Opens(file, Opened("supervisor", false)) == Opens(Tops(existing), Opened("supervisor", false)) + added
            && Definitions(file, "supervisor") == Definitions(Tops(existing), "supervisor") + added
  {
    hide Tops, HasSection, RootNames, AnyHeader, Opens, Complete, WithSupervisor, Backfilled, MissingKeys, PlainTemplate, BracketRow,
      Assignments, SelfContained, KeyCount, LinesRead, Trim;
    var missing := MissingKeys(existing, template);
    var filled := Backfilled(existing, missing);
    MissingPlain(existing, template);
    BackfilledCounts(existing, missing, "supervisor");
    SectionKept(existing, missing);
    FilledNotEmpty(existing, missing);
    NothingCounted("supervisor");
    WithSupervisorCounts(filled, section, "supervisor");
  }

  lemma NothingCounted(name: string)
    ensures RootNames([], name) == 0 && forall many :: Opens([], Opened(name, many)) == 0
  {
  }

  lemma FilledNotEmpty(existing: string, missing: seq<(string, string)>)
    requires Trim(existing) != ""
    ensures Backfilled(existing, missing) != ""
  {
    hide RootLength, Pieces, Join;
    NoTableLength(existing);
    assert Trim("") == "";
  }

  /**
   A migration puts its keys outside every value and leaves exactly one
   supervisor table if and only if the first line led by `[` is no row of a
   value (or no key is missing), and the file either has a bare header line
   and one supervisor table, or nothing that defines that name.
   */
  lemma OneSupervisorIff(existing: string, template: string, section: string)
    requires Trim(existing) != "" && Complete(existing) && PlainTemplate(template)
    requires OneTable(Tops(section), "supervisor")
    ensures AddedAtTop(existing, template) && OneTable(Tops(Migrated(existing, template, section)), "supervisor")
            <==> (MissingKeys(existing, template) == [] || !BracketRow(LinesRead(existing)))
                 && if HasSection(existing, "supervisor") then OneTable(Tops(existing), "supervisor")
                    else Definitions(Tops(existing), "supervisor") == 0
  {
    hide Tops, HasSection, RootNames, Opens, Complete, Migrated, MissingKeys, PlainTemplate, BracketRow, LinesRead, Trim, RootFront, Lex;
    var missing := MissingKeys(existing, template);
    if missing != [] { InsertedAtTopIff(existing, missing); }
    if missing == [] || !BracketRow(LinesRead(existing)) { MigratedCounts(existing, template, section); }
  }

  /** A blank file is replaced by the template, and the section follows by the same rule. */
  lemma SeededSupervisorIff(existing: string, template: string, section: string)
    requires Trim(existing) == "" && template != "" && Complete(template)
    requires OneTable(Tops(section), "supervisor")
    ensures OneTable(Tops(Migrated(existing, template, section)), "supervisor")
            <==> if HasSection(template, "supervisor") then OneTable(Tops(template), "supervisor")
                 else Definitions(Tops(template), "supervisor") == 0
  {
    hide Tops, HasSection, RootNames, Opens, Complete, WithSupervisor, Trim;
    NothingCounted("supervisor");
    WithSupervisorCounts(template, section, "supervisor");
  }

  // ----- Every added key exactly once ------------------------------------------------------

  lemma {:induction false} AbsentCount(present: set<string>, template: seq<(string, string)>, name: string)
    ensures KeyCount(Absent(present, template), name) == if name in present then 0 else KeyCount(template, name)
    decreases |template|
  {
    if template != [] {
      var rest := Absent(present, template[1..]);
      AbsentCount(present, template[1..], name);
      assert [] + rest == rest && ([template[0]] + rest)[1..] == rest;
    }
  }

  lemma SectionTops(section: string)
    requires SupervisorText(section)
    ensures |Tops(section)| >= 2 && Tops(section)[..2] == ["", "[supervisor]"]
  {
    hide Tops, Lex, LineText, Kind;
    var header, rest := "[supervisor]\n", section[14..];
    assert section == "\n" + (header + rest);
    BlankOnTop();
    TopsConcat("\n", header + rest);
    HeaderAbove(rest);
  }

  lemma Trimmed(l: string)
    requires l != "" && !IsWhitespace(l[0]) && !IsWhitespace(l[|l| - 1])
    ensures Trim(l) == l && Trim(l + "\n") == l
  {
    hide Trim;
    TrimUnique("", l, "");
    TrimUnique("", l, "\n");
    assert "" + l + "" == l && "" + l + "\n" == l + "\n";
  }

  /** A supervisor header over lines none of which is a header is one supervisor table. */
  lemma HeaderOverBody(section: string, body: string)
    requires section == "\n[supervisor]\n" + body
    requires forall m :: m in Marks(body, Lex(TOP, "[supervisor]\n")) ==> !IsHeader(m.text)
    ensures OneTable(Tops(section), "supervisor")
  {
    hide Lex, Marks, Opens, RootNames, HeaderName, IsHeader, AnyHeader, TopTexts;
    var header := "[supervisor]\n";
    var below := TopTexts(Marks(body, Lex(TOP, header)));
    assert section == "\n" + (header + body);
    BlankOnTop();
    TopsConcat("\n", header + body);
    HeaderAbove(body);
    NoHeaderOnTop(Marks(body, Lex(TOP, header)));
    HeadedCounts(below);
  }

  lemma HeaderAbove(body: string)
    ensures Tops("[supervisor]\n" + body) == ["[supervisor]"] + TopTexts(Marks(body, Lex(TOP, "[supervisor]\n")))
  {
    hide Lex, Trim, Marks;
    var header := "[supervisor]";
    CleanPiece(header);
    assert header + "\n" == "[supervisor]\n";
    Trimmed(header);
    FirstMark(header + "\n", body, TOP);
    var behind := Marks(body, Lex(TOP, header + "\n"));
    assert ([Mark(true, header)] + behind)[1..] == behind;
  }

  lemma HeadedCounts(below: seq<string>)
    requires !AnyHeader(below)
    ensures OneTable([""] + (["[supervisor]"] + below), "supervisor")
  {
    hide HeaderName, AssignName, AnyHeader;
    var ts := ["[supervisor]"] + below;
    var all := [""] + ts;
    BareHeaderReads();
    BlankReads();
    assert all[0] == "" && all[1..] == ts && ts[0] == "[supervisor]" && ts[1..] == below;
    forall many ensures Opens(all, Opened("supervisor", many)) == if many then 0 else 1 {
      var table := Opened("supervisor", many);
      NoneOpened(below, table);
      assert Opens(all, table) == Opens(ts, table);
    }
    assert RootNames(all, "supervisor") == RootNames(ts, "supervisor");
    assert ts[0][0] == '[';
  }

  lemma BlankReads()
    ensures HeaderName("") == None && AssignName("") == None
  {
  }

  lemma BareHeaderReads()
    ensures HeaderName("[supervisor]") == Some(Opened("supervisor", false))
  {
    hide HeaderName, ReadKey;
    var inner := "supervisor" + "]";
    BareReads("supervisor", "]");
    assert "]" + "" == "]" && "[" + inner == "[supervisor]" && TrimStart("") == "";
    HeaderReads("[supervisor]", inner, "supervisor", "");
  }

  lemma SectionNamesNothing(section: string, name: string)
    requires SupervisorText(section)
    ensures RootNames(Tops(section), name) == 0
  {
    hide Tops, SupervisorText;
    SectionTops(section);
    var ts := Tops(section);
    assert ts[0] == ts[..2][0] && ts[1] == ts[..2][1] && ts[1..][0] == ts[1];
    assert AssignName("") == None;
  }

  /** How often the file names a root key afterwards. */
  lemma MigratedNames(existing: string, template: string, section: string, name: string)
    requires Trim(existing) != "" && Complete(existing) && SelfContained(TopLevelKeys(template)) && SupervisorText(section)
    requires MissingKeys(existing, template) == [] || !BracketRow(LinesRead(existing))
    ensures RootNames(Tops(Migrated(existing, template, section)), name) ==
            RootNames(Tops(existing), name)
            + if name in KeysOf(TopLevelKeys(existing)) then 0 else KeyCount(TopLevelKeys(template), name)
  {
    hide Tops, HasSection, RootNames, AnyHeader, Opens, Complete, WithSupervisor, Backfilled, BracketRow,
      Assignments, KeyCount, LinesRead, Trim, SupervisorText, TopLevelKeys, Lex, Absent;
    var missing := MissingKeys(existing, template);
    MissingAssign(existing, template);
    AbsentFrom(KeysOf(TopLevelKeys(existing)), TopLevelKeys(template));
    BackfilledCounts(existing, missing, name);
    AbsentCount(KeysOf(TopLevelKeys(existing)), TopLevelKeys(template), name);
    FilledNotEmpty(existing, missing);
    NothingCounted(name);
    SectionNamesNothing(section, name);
    WithSupervisorCounts(Backfilled(existing, missing), section, name);
  }

  /** Every key the migration adds is defined once if and only if the key scan takes each template key the root already names. */
  lemma AddedOnceIff(existing: string, template: string, section: string)
    requires Trim(existing) != "" && Complete(existing) && SelfContained(TopLevelKeys(template)) && SupervisorText(section)
    requires MissingKeys(existing, template) == [] || !BracketRow(LinesRead(existing))
    requires forall x :: x in TopLevelKeys(template) ==> KeyCount(TopLevelKeys(template), x.0) == 1
    ensures (forall x :: x in MissingKeys(existing, template)
              ==> RootNames(Tops(Migrated(existing, template, section)), x.0) == 1)
            <==> forall x :: x in TopLevelKeys(template) ==>
                   RootNames(Tops(existing), x.0) == 0 || x.0 in KeysOf(TopLevelKeys(existing))
  {
    hide Tops, RootNames, Complete, Migrated, BracketRow, KeyCount, LinesRead, Trim, SupervisorText, TopLevelKeys, Lex, Absent, SelfContained;
    var present, wanted := KeysOf(TopLevelKeys(existing)), TopLevelKeys(template);
    AbsentFrom(present, wanted);
    forall x | x in wanted
      ensures RootNames(Tops(Migrated(existing, template, section)), x.0) ==
              RootNames(Tops(existing), x.0) + if x.0 in present then 0 else 1
    {
      MigratedNames(existing, template, section, x.0);
    }
  }

  lemma {:induction false} KeyOfPairs(ms: seq<Mark>, key: string)
    ensures key in KeysOf(PairsOf(ms)) <==> exists m :: m in ms && IsKey(m) && KindOfTrimmed(m.text).key == key
    decreases |ms|
  {
    hide KindOfTrimmed, KeysOf;
    KeysOfAtMostOne();
    if ms != [] {
      var m, rest := ms[0], PairsOf(ms[1..]);
      var kind := KindOfTrimmed(m.text);
      KeyOfPairs(ms[1..], key);
      assert forall x :: x in ms <==> x == m || x in ms[1..];
      var head := if kind.Assign? then [(kind.key, kind.line)] else [];
      assert PairsOf(ms) == head + rest;
      KeysOfSum(head, rest);
    }
  }

  lemma KeysOfAtMostOne()
    ensures KeysOf([]) == {} && forall x :: KeysOf([x]) == {x.0}
  {
    assert forall x: (string, string) :: [x][0].0 == x.0;
  }

  lemma KeysOfSum(a: seq<(string, string)>, b: seq<(string, string)>)
    ensures KeysOf(a + b) == KeysOf(a) + KeysOf(b)
  {
    forall k | k in KeysOf(b) ensures k in KeysOf(a + b) {
      var i :| 0 <= i < |b| && b[i].0 == k;
      assert (a + b)[|a| + i] == b[i];
    }
    forall k | k in KeysOf(a) ensures k in KeysOf(a + b) {
      var i :| 0 <= i < |a| && a[i].0 == k;
      assert (a + b)[i] == a[i];
    }
  }

  /** Where no value misleads the scan, it takes exactly the keys a root line spells bare. */
  lemma ScannedMeansBare(existing: string, key: string)
    requires !Spurious(LinesRead(existing)) && !Hidden(LinesRead(existing))
    ensures key in KeysOf(TopLevelKeys(existing))
            <==> exists m :: m in RootMarks(LinesRead(existing)) && IsKey(m) && KindOfTrimmed(m.text).key == key
  {
    hide TopLevelKeys, Marks, PairsOf, KeysOf, RootMarks, Spurious, Hidden, IsKey;
    ScannedKeysIff(existing);
    KeyOfPairs(RootMarks(LinesRead(existing)), key);
  }

  /** A root line assigns the key in its bare spelling. */
  ghost predicate SpelledBare(content: string, key: string) {
    exists m :: m in RootMarks(LinesRead(content)) && IsKey(m) && KindOfTrimmed(m.text).key == key
  }

  /** Every added key is defined once if and only if no template key stands at the root in quotes or dots alone. */
  lemma AddedOnceBareIff(existing: string, template: string, section: string)
    requires Trim(existing) != "" && Complete(existing) && SelfContained(TopLevelKeys(template)) && SupervisorText(section)
    requires !BracketRow(LinesRead(existing)) && !Spurious(LinesRead(existing))
    requires forall x :: x in TopLevelKeys(template) ==> KeyCount(TopLevelKeys(template), x.0) == 1
    ensures (forall x :: x in MissingKeys(existing, template)
              ==> RootNames(Tops(Migrated(existing, template, section)), x.0) == 1)
            <==> forall x :: x in TopLevelKeys(template) ==>
                   RootNames(Tops(existing), x.0) == 0 || SpelledBare(existing, x.0)
  {
    hide Tops, RootNames, Complete, Migrated, BracketRow, Spurious, Hidden, KeyCount, LinesRead, Trim, SupervisorText, TopLevelKeys, Lex,
      MissingKeys, SelfContained, RootMarks, KeysOf;
    AddedOnceIff(existing, template, section);
    HiddenBehindRow(LinesRead(existing));
    forall x | x in TopLevelKeys(template)
      ensures x.0 in KeysOf(TopLevelKeys(existing)) <==> SpelledBare(existing, x.0)
    {
      ScannedMeansBare(existing, x.0);
    }
  }

  // ----- Files on which it fails ----------------------------------------------------------------

  lemma {:induction false} BasicReads(key: string, rest: string)
    requires forall i :: 0 <= i < |key| ==> IsKeyChar(key[i])
    ensures ReadBasic(key + ("\"" + rest)) == Some((key, rest))
    decreases |key|
  {
    var s := key + ("\"" + rest);
    if key == "" {
      assert s == "\"" + rest && s[1..] == rest;
    } else {
      BasicReads(key[1..], rest);
      assert s[0] == key[0] && s[1..] == key[1..] + ("\"" + rest);
      assert key == [key[0]] + key[1..];
    }
  }

  /** A quoted key is a root name the key scan does not take. */
  lemma QuotedKeyUnseen(key: string, rest: string)
    requires IsBareKey(key) && rest != "" && rest[0] == '='
    ensures var text := "\"" + (key + ("\"" + rest));
            AssignName(text) == Some(key) && !KindOfTrimmed(text).Assign?
  {
    hide ReadBasic, TrimStart, TrimEnd, IsWhitespace;
    var text := "\"" + (key + ("\"" + rest));
    assert text[1..] == key + ("\"" + rest);
    BasicReads(key, rest);
    EqualsStays(rest);
    TrimStartUnique("", rest);
    assert "" + rest == rest;
    QuoteInFront(text);
  }

  lemma QuoteInFront(text: string)
    requires text != "" && text[0] == '"'
    ensures !KindOfTrimmed(text).Assign?
  {
    hide Trim, IsWhitespace, IsKeyChar, Find;
    var eq := Find(text, "=");
    if eq != -1 {
      OccursAtIndex(text, "=", eq, 0);
      assert text[..eq][0] == '"';
      QuotesStay();
      TrimKeepsFront(text[..eq]);
    }
  }

  lemma QuotesStay()
    ensures !IsWhitespace('"') && !IsKeyChar('"')
  {
  }

  lemma TrimKeepsFront(a: string)
    requires a != "" && !IsWhitespace(a[0])
    ensures Trim(a) != "" && Trim(a)[0] == a[0]
  {
    hide Trim, IsWhitespace;
    var w1, w2 := TrimParts(a);
    assert a[0] == (w1 + Trim(a) + w2)[0];
  }

  /** A header of the table in any other spelling than the bare one ends up above a second header. */
  lemma OtherSpellingDoubled(line: string, template: string, section: string)
    requires CleanLine(line) && Trim(line) == line && Lex(TOP, line + "\n") == TOP
    requires HeaderName(line) == Some(Opened("supervisor", false)) && line != "[supervisor]"
    requires PlainTemplate(template) && OneTable(Tops(section), "supervisor")
    ensures OneTable(Tops(line + "\n"), "supervisor")
    ensures Opens(Tops(Migrated(line + "\n", template, section)), Opened("supervisor", false)) == 2
  {
    hide Lex, HeaderName, Trim, CleanLine, LineText, Migrated, HasSection, PlainTemplate, AssignName, KindOfTrimmed, MissingKeys;
    var file := line + "\n";
    NamedIsHeader(line);
    HeaderFile(line);
    assert [Mark(true, line)][1..] == [] && [line][1..] == [];
    assert TopTexts([]) == [] && Tops(file) == [line] + [] == [line];
    NothingCounted("supervisor");
    MigratedCounts(file, template, section);
  }

  lemma NamedIsHeader(text: string)
    requires HeaderName(text).Some?
    ensures IsHeader(text)
  {
  }

  lemma HeaderFile(line: string)
    requires CleanLine(line) && Trim(line) == line && IsHeader(line) && line != "[supervisor]"
    ensures LinesRead(line + "\n") == [Mark(true, line)]
    ensures Trim(line + "\n") != "" && !HasSection(line + "\n", "supervisor")
  {
    hide Lex, Trim, CleanLine, LineText, HasSection;
    var file := line + "\n";
    CleanPiece(line);
    TrimPiece(file);
    assert file + "" == file;
    FirstMark(file, "", TOP);
    NoMarks(Lex(TOP, file));
    LineKindsPiece(file);
    HasSectionKinds(file);
  }

  /** `["supervisor"]` and `[supervisor] # note`. */
  const QUOTED := "[\"supervisor\"]"
  const COMMENTED := "[supervisor] # note"

  /** Both are supervisor tables to a TOML reader, and the migration adds a second one. */
  lemma UnseenHeadersDoubled(line: string, template: string, section: string)
    requires line == QUOTED || line == COMMENTED
    requires PlainTemplate(template) && OneTable(Tops(section), "supervisor")
    ensures OneTable(Tops(line + "\n"), "supervisor")
    ensures Opens(Tops(Migrated(line + "\n", template, section)), Opened("supervisor", false)) == 2
  {
    hide Tops, Opens, OneTable, PlainTemplate, Migrated, HeaderName, Lex, Trim;
    SpelledHeaders();
    OtherSpellingDoubled(line, template, section);
  }

  lemma SpelledHeaders()
    ensures forall line :: line == QUOTED || line == COMMENTED ==>
      CleanLine(line) && Trim(line) == line && Lex(TOP, line + "\n") == TOP
      && HeaderName(line) == Some(Opened("supervisor", false)) && line != "[supervisor]"
  {
    hide HeaderName, Lex, Trim;
    QuotedName();
    CommentedName();
    QuotedLexed();
    CommentedLexed();
    assert QUOTED[0] == '[' && QUOTED[|QUOTED| - 1] == ']' && COMMENTED[0] == '[' && COMMENTED[|COMMENTED| - 1] == 'e';
    Trimmed(QUOTED);
    Trimmed(COMMENTED);
  }

  lemma HeaderReads(text: string, inner: string, key: string, tail: string)
    requires text == "[" + inner && inner != "" && inner[0] != '[' && !IsWhitespace(inner[0])
    requires ReadKey(inner) == Some((key, "]" + tail)) && EndsLine(tail)
    ensures HeaderName(text) == Some(Opened(key, false))
  {
    hide ReadKey, TrimStart, EndsLine;
    assert text[1..] == inner && text[1] == inner[0];
    TrimStartUnique("", inner);
    TrimStartUnique("", "]" + tail);
    assert "" + inner == inner && "" + ("]" + tail) == "]" + tail && ("]" + tail)[1..] == tail;
  }

  lemma QuotedName()
    ensures HeaderName(QUOTED) == Some(Opened("supervisor", false))
  {
    hide ReadKey, HeaderName;
    var inner := "\"supervisor\"]";
    QuotedKeyRead(inner);
    assert "]" + "" == "]" && QUOTED == "[" + inner;
    HeaderReads(QUOTED, inner, "supervisor", "");
  }

  lemma QuotedKeyRead(inner: string)
    requires inner == "\"supervisor\"]"
    ensures ReadKey(inner) == Some(("supervisor", "]"))
  {
    hide ReadBasic;
    BasicReads("supervisor", "]");
    assert "\"" + "]" == "\"]";
    assert inner[1..] == "supervisor" + "\"]";
  }

  lemma CommentedName()
    ensures HeaderName(COMMENTED) == Some(Opened("supervisor", false))
  {
    hide ReadKey, HeaderName, EndsLine;
    var inner := "supervisor" + ("]" + " # note");
    BareReads("supervisor", "]" + " # note");
    NoteEnds();
    assert COMMENTED == "[" + inner;
    HeaderReads(COMMENTED, inner, "supervisor", " # note");
  }

  lemma NoteEnds()
    ensures EndsLine(" # note")
  {
    TrimStartUnique(" ", "# note");
    assert " " + "# note" == " # note";
  }

  // ----- Short texts, character by character --------------------------------------------

  lemma LexThree(l: Lexer, a: char, b: char, c: char)
    ensures Lex(l, [a, b, c]) == LexChar(LexChar(LexChar(l, a), b), c)
  {
    hide LexChar;
    assert [a, b, c][1..] == [b, c] && [b, c][1..] == [c] && [c][1..] == "";
    var l1 := LexChar(l, a);
    assert Lex(l, [a, b, c]) == Lex(l1, [b, c]) == Lex(LexChar(l1, b), [c]);
  }

  /** Key characters and blanks open and close nothing. */
  lemma {:induction false} LexPlain(l: Lexer, s: string)
    requires l.mode == Bare || l.mode == Comment || l.mode == OneLine('"', false)
    requires forall i :: 0 <= i < |s| ==> IsKeyChar(s[i]) || s[i] == ' '
    ensures Lex(l, s) == l
    decreases |s|
  {
    if s != "" {
      assert LexChar(l, s[0]) == l by { PlainChar(l, s[0]); }
      LexPlain(l, s[1..]);
    }
  }

  lemma PlainChar(l: Lexer, c: char)
    requires l.mode == Bare || l.mode == Comment || l.mode == OneLine('"', false)
    requires IsKeyChar(c) || c == ' '
    ensures LexChar(l, c) == l
  {
  }

  lemma LexParts(l: Lexer, a: string, b: string, c: string)
    ensures Lex(l, a + b + c) == Lex(Lex(Lex(l, a), b), c)
  {
    hide Lex;
    LexConcat(l, a + b, c);
    LexConcat(l, a, b);
  }

  lemma QuotedLexed()
    ensures Lex(TOP, QUOTED + "\n") == TOP
  {
    hide Lex;
    var within := Lexer(OneLine('"', false), 1);
    LexThree(TOP, '[', '"', 's');
    LexPlain(within, "upervisor");
    LexThree(within, '"', ']', '\n');
    LexParts(TOP, ['[', '"', 's'], "upervisor", ['"', ']', '\n']);
    QuotedText();
  }

  lemma CommentedLexed()
    ensures Lex(TOP, COMMENTED + "\n") == TOP
  {
    hide Lex;
    LexThree(TOP, '[', 's', 'u');
    LexPlain(Lexer(Bare, 1), "pervisor");
    LexThree(Lexer(Bare, 1), ']', ' ', '#');
    LexParts(TOP, ['[', 's', 'u'], "pervisor", [']', ' ', '#']);
    LexPlain(Lexer(Comment, 0), " no");
    LexThree(Lexer(Comment, 0), 't', 'e', '\n');
    LexParts(TOP, ['[', 's', 'u'] + "pervisor" + [']', ' ', '#'], " no", ['t', 'e', '\n']);
    CommentedText();
  }

  lemma QuotedText()
    ensures QUOTED + "\n" == ['[', '"', 's'] + "upervisor" + ['"', ']', '\n']
  {
    assert QUOTED + "\n" == ['[', '"', 's'] + "upervisor" + ['"', ']', '\n'];
  }

  lemma CommentedText()
    ensures COMMENTED + "\n" == ['[', 's', 'u'] + "pervisor" + [']', ' ', '#'] + " no" + ['t', 'e', '\n']
  {
    assert COMMENTED + "\n" == ['[', 's', 'u'] + "pervisor" + [']', ' ', '#'] + " no" + ['t', 'e', '\n'];
  }

  /** `a = [`, and a row of the array below it. */
  const ARRAY_OPEN := "a = [\n"
  const ARRAY_ROW := "[1] ]\n"

  /** The first line led by `[` is a row of the array: a missing key would land inside it. */
  lemma InsideAnArray()
    ensures Complete(ARRAY_OPEN + ARRAY_ROW) && BracketRow(LinesRead(ARRAY_OPEN + ARRAY_ROW))
  {
    hide Lex, Marks, Trim;
    var file, inner := ARRAY_OPEN + ARRAY_ROW, Lexer(Bare, 1);
    ArrayLexed();
    LexConcat(TOP, ARRAY_OPEN, ARRAY_ROW);
    assert file[|file| - 1] == '\n';
    ClosedMark("a = [", TOP);
    ClosedMark("[1] ]", inner);
    assert "a = [" + "\n" == ARRAY_OPEN && "[1] ]" + "\n" == ARRAY_ROW;
    MarksConcat(ARRAY_OPEN, ARRAY_ROW, TOP);
    Trimmed("a = [");
    Trimmed("[1] ]");
    assert ([Mark(true, "a = [")] + [Mark(false, "[1] ]")])[1..] == [Mark(false, "[1] ]")];
  }

  lemma ArrayLexed()
    ensures Lex(TOP, ARRAY_OPEN) == Lexer(Bare, 1) && Lex(Lexer(Bare, 1), ARRAY_ROW) == TOP
  {
    hide Lex;
    LexThree(TOP, 'a', ' ', '=');
    LexThree(TOP, ' ', '[', '\n');
    LexConcat(TOP, ['a', ' ', '='], [' ', '[', '\n']);
    assert ARRAY_OPEN == ['a', ' ', '='] + [' ', '[', '\n'];
    var inner := Lexer(Bare, 1);
    LexThree(inner, '[', '1', ']');
    LexThree(inner, ' ', ']', '\n');
    LexConcat(inner, ['[', '1', ']'], [' ', ']', '\n']);
    assert ARRAY_ROW == ['[', '1', ']'] + [' ', ']', '\n'];
  }
}
