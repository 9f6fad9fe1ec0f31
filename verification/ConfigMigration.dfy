/**
 Upgrading a user's `config.toml` in place: absent top-level keys go to the end
 of the root table, an absent `[supervisor]` section to the end of the file.
 */
module ConfigMigration {
  import opened Text

  // ----- One line ----------------------------------------------------------

  predicate IsKeyChar(c: char) {
    'a' <= c <= 'z' || 'A' <= c <= 'Z' || '0' <= c <= '9' || c == '_' || c == '-'
  }

  predicate IsBareKey(key: string) {
    key != "" && forall i :: 0 <= i < |key| ==> IsKeyChar(key[i])
  }

  /** What the scanners make of a line: a table header, an assignment, or neither. */
  datatype LineKind = Header(text: string) | Assign(key: string, line: string) | Other

  function KindOfTrimmed(trimmed: string): LineKind {
    if trimmed == "" || trimmed[0] == '#' then Other
    else if trimmed[0] == '[' then Header(trimmed)
    else
      var eq := Find(trimmed, "=");
      if eq == -1 then Other
      else
        var key := Trim(trimmed[..eq]);
        if IsBareKey(key) then Assign(key, trimmed) else Other
  }

  function Kind(line: string): LineKind {
    KindOfTrimmed(Trim(line))
  }

  function Kinds(ls: seq<string>): (ks: seq<LineKind>)
    ensures |ks| == |ls|
    ensures forall i :: 0 <= i < |ls| ==> ks[i] == Kind(ls[i])
  {
    seq(|ls|, i requires 0 <= i < |ls| => Kind(ls[i]))
  }

  function LineKinds(content: string): seq<LineKind> {
    Kinds(Lines(content))
  }

  predicate OpensTable(piece: string) {
    StartsWith(Trim(piece), "[")
  }

  // ----- The two scanners ----------------------------------------------------

  /** Key-value lines above the first header, as `(key, trimmed line)`. */
  function KeyLines(kinds: seq<LineKind>): seq<(string, string)> {
    if kinds == [] then []
    else
      match kinds[0]
      case Header(_) => []
      case Other => KeyLines(kinds[1..])
      case Assign(key, line) => [(key, line)] + KeyLines(kinds[1..])
  }

  function TopLevelKeys(content: string): seq<(string, string)> {
    KeyLines(LineKinds(content))
  }

  method TopLevelKeyLines(content: string) returns (keys: seq<(string, string)>)
    ensures keys == TopLevelKeys(content)
  {
    hide Lines, Trim, IsBareKey;
    var ls := Lines(content);
    ghost var kinds := Kinds(ls);
    keys := [];
    for i := 0 to |ls|
      invariant keys + KeyLines(kinds[i..]) == KeyLines(kinds)
    {
      assert kinds[i..][0] == kinds[i] && kinds[i..][1..] == kinds[i + 1..];
      var trimmed := Trim(ls[i]);
      if trimmed == "" || trimmed[0] == '#' {
        continue;
      }
      if trimmed[0] == '[' {
        assert keys + [] == keys;
        return;
      }
      var eq := Find(trimmed, "=");
      if eq == -1 {
        continue;
      }
      var key := Trim(trimmed[..eq]);
      if IsBareKey(key) {
        ConcatAssoc(keys, [(key, trimmed)], KeyLines(kinds[i + 1..]));
        keys := keys + [(key, trimmed)];
      }
    }
    assert keys + [] == keys;
  }

  /** Length of the pieces above the first one that opens a table. */
  function RootLength(pieces: seq<string>): nat {
    if pieces == [] || OpensTable(pieces[0]) then 0 else |pieces[0]| + RootLength(pieces[1..])
  }

  method TopLevelInsertOffset(content: string) returns (offset: nat)
    ensures offset == RootLength(Pieces(content))
  {
    var pieces := Pieces(content);
    offset := 0;
    for i := 0 to |pieces|
      invariant offset + RootLength(pieces[i..]) == RootLength(pieces)
      invariant forall k :: 0 <= k < i ==> !OpensTable(pieces[k])
    {
      assert pieces[i..][0] == pieces[i] && pieces[i..][1..] == pieces[i + 1..];
      if OpensTable(pieces[i]) {
        return;
      }
      offset := offset + |pieces[i]|;
    }
    NoTableLength(content);
    return |content|;
  }

  lemma {:induction false} NoTableLength(content: string)
    ensures (forall k :: 0 <= k < |Pieces(content)| ==> !OpensTable(Pieces(content)[k]))
            ==> RootLength(Pieces(content)) == |content|
    ensures RootLength(Pieces(content)) <= |content|
    decreases |content|
  {
    if content != "" {
      var ps := Pieces(content);
      NoTableLength(content[PieceLen(content)..]);
      assert forall k :: 0 <= k < |ps| - 1 ==> ps[1..][k] == ps[k + 1];
    }
  }

  /** A header line of the given name, not commented out. */
  predicate IsSectionLine(line: string, section: string) {
    var trimmed := TrimStart(line);
    !StartsWith(trimmed, "#") && TrimEnd(trimmed) == "[" + section + "]"
  }

  predicate HasSection(content: string, section: string) {
    exists i :: 0 <= i < |Lines(content)| && IsSectionLine(Lines(content)[i], section)
  }

  // ----- Migration -------------------------------------------------------------

  function KeysOf(pairs: seq<(string, string)>): set<string> {
    set i | 0 <= i < |pairs| :: pairs[i].0
  }

  /** The pairs of `template` whose key `present` lacks, in order. */
  function Absent(present: set<string>, template: seq<(string, string)>): seq<(string, string)> {
    if template == [] then []
    else (if template[0].0 in present then [] else [template[0]]) + Absent(present, template[1..])
  }

  function MissingKeys(existing: string, template: string): seq<(string, string)> {
    Absent(KeysOf(TopLevelKeys(existing)), TopLevelKeys(template))
  }

  function LinesOf(pairs: seq<(string, string)>): seq<string> {
    seq(|pairs|, i requires 0 <= i < |pairs| => pairs[i].1)
  }

  /** `content` with `missing` added at the end of its root table. */
  function Backfilled(content: string, missing: seq<(string, string)>): string {
    NoTableLength(content);
    var at := RootLength(Pieces(content));
    var block := Join(LinesOf(missing));
    if missing == [] then content
    else if at == |content| then Terminated(content) + block
    else content[..at] + (block + "\n") + content[at..]
  }

  function WithSupervisor(content: string, section: string): string {
    if HasSection(content, "supervisor") then content
    else (if EndsWithNewline(content) then content else content + "\n") + section
  }

  /** The file after migration; `section` is the supervisor section the prompt chose. */
  function Migrated(existing: string, template: string, section: string): string {
    if Trim(existing) == "" then WithSupervisor(template, section)
    else WithSupervisor(Backfilled(existing, MissingKeys(existing, template)), section)
  }

  datatype Migration = Migration(sectionsAdded: bool, keysAdded: seq<string>) {
    predicate Changed() {
      sectionsAdded || keysAdded != []
    }
  }

  /** What a migration reports. */
  function Report(existing: string, template: string): Migration {
    Migration(Trim(existing) == "" || !HasSection(existing, "supervisor"), NamesOf(MissingKeys(existing, template)))
  }

  function NamesOf(pairs: seq<(string, string)>): (names: seq<string>)
    ensures |names| == |pairs| && forall i :: 0 <= i < |pairs| ==> names[i] == pairs[i].0
  {
    seq(|pairs|, i requires 0 <= i < |pairs| => pairs[i].0)
  }

  /** Some line is the bare supervisor header. */
  ghost predicate HasBareHeader(content: string) {
    exists i :: 0 <= i < |Lines(content)| && Trim(Lines(content)[i]) == "[supervisor]"
  }

  method BackfillKeys(content: string, missing: seq<(string, string)>) returns (result: string)
    requires missing != []
    ensures result == Backfilled(content, missing)
  {
    var block := KeyBlock(missing);
    var at := TopLevelInsertOffset(content);
    NoTableLength(content);
    result := content;
    if at == |content| {
      if content != "" && !EndsWithNewline(content) {
        result := result + "\n";
      }
      result := result + block;
    } else {
      block := block + "\n";
      result := content[..at] + block + content[at..];
    }
  }

  method KeyBlock(missing: seq<(string, string)>) returns (block: string)
    ensures block == Join(LinesOf(missing))
  {
    var ls := LinesOf(missing);
    block := "";
    for i := 0 to |missing|
      invariant block == Join(ls[..i])
    {
      JoinAppend(ls[..i], missing[i].1);
      assert ls[..i] + [missing[i].1] == ls[..i + 1];
      block := block + missing[i].1;
      block := block + "\n";
    }
    assert ls[..|missing|] == ls;
  }

  method MigrateExistingConfig(existing: string, template: string, section: string)
    returns (content: string, migration: Migration)
    requires section != ""
    ensures content == Migrated(existing, template, section) && migration == Report(existing, template)
    ensures migration.sectionsAdded <==> Trim(existing) == "" || !HasBareHeader(existing)
    ensures !migration.Changed() ==> content == existing
    ensures Trim(template) != "" && content == existing ==> !migration.Changed()
  {
    hide MissingKeys, HasSection, Trim, HasBareHeader, Backfilled;
    BareHeaderIff(existing);
    var missing := MissingKeys(existing, template);
    MissingAssign(existing, template);
    SectionKept(existing, missing);
    NothingMissed(existing);
    var seeded := Trim(existing) == "";
    content := if seeded then template else existing;
    if !seeded && missing != [] {
      content := BackfillKeys(content, missing);
    }
    var appended := if HasSection(content, "supervisor") then "" else section;
    migration := Migration(seeded || appended != "", NamesOf(missing));
    if !migration.Changed() {
      return;
    }
    if appended != "" {
      if !EndsWithNewline(content) {
        content := content + "\n";
      }
      content := content + appended;
    }
    if Trim(template) != "" { ChangeIsSeen(existing, template, section); }
  }

  lemma NothingMissed(existing: string)
    ensures Backfilled(existing, []) == existing
  {
  }

  /** Whatever is seeded, backfilled or appended makes the file another one. */
  lemma ChangeIsSeen(existing: string, template: string, section: string)
    requires section != "" && Trim(template) != "" && Report(existing, template).Changed()
    ensures Migrated(existing, template, section) != existing
  {
    hide MissingKeys, HasSection, Backfilled;
    var missing := MissingKeys(existing, template);
    MissingAssign(existing, template);
    SectionKept(existing, missing);
    if Trim(existing) == "" {
      SeedIsSeen(existing, template, section);
    } else {
      BackfilledLength(existing, missing);
      if missing == [] { NothingMissed(existing); }
    }
  }

  lemma SeedIsSeen(existing: string, template: string, section: string)
    requires Trim(existing) == "" && Trim(template) != ""
    ensures WithSupervisor(template, section) != existing
  {
    hide Trim, HasSection;
    if WithSupervisor(template, section) == existing {
      var tail := existing[|template|..];
      assert existing == template + tail;
      var w1, w2 := TrimParts(existing);
      assert AllWhitespace(existing);
      assert AllWhitespace(template) by { assert forall k :: 0 <= k < |template| ==> template[k] == existing[k]; }
      BlankLine(template);
    }
  }

  lemma BackfilledLength(content: string, missing: seq<(string, string)>)
    ensures missing != [] ==> |Backfilled(content, missing)| > |content|
  {
    hide RootLength, Pieces;
    NoTableLength(content);
    if missing != [] {
      assert LinesOf(missing) != [];
      JoinNotEmpty(LinesOf(missing));
    }
  }

  lemma JoinNotEmpty(ls: seq<string>)
    requires ls != []
    ensures Join(ls) != ""
  {
  }

  lemma BareHeaderIff(content: string)
    ensures HasSection(content, "supervisor") <==> HasBareHeader(content)
  {
    var ls := Lines(content);
    forall i | 0 <= i < |ls| ensures IsSectionLine(ls[i], "supervisor") <==> Trim(ls[i]) == "[supervisor]" {
      BareLineIff(ls[i]);
    }
  }

  lemma BareLineIff(l: string)
    ensures IsSectionLine(l, "supervisor") <==> Trim(l) == "[supervisor]"
  {
    hide TrimStart, TrimEnd;
    assert "[" + "supervisor" + "]" == "[supervisor]";
    assert TrimEnd(TrimStart(l)) <= TrimStart(l);
    assert StartsWith(TrimStart(l), "#") ==> TrimStart(l)[0] == '#';
  }

  /** The missing keys bring no supervisor header and take none away. */
  lemma SectionKept(content: string, missing: seq<(string, string)>)
    requires Assignments(missing)
    ensures HasSection(Backfilled(content, missing), "supervisor") <==> HasSection(content, "supervisor")
  {
    hide LineKinds, HasSection, Backfilled, RootOnly, Assignments;
    if missing == [] {
      NothingMissed(content);
    } else {
      var pre, block, post := BackfilledKinds(content, missing);
      HasSectionKinds(content);
      HasSectionKinds(Backfilled(content, missing));
      NoHeaderIn(block, "[supervisor]");
    }
  }

  lemma BackfilledKinds(content: string, missing: seq<(string, string)>)
    returns (pre: seq<LineKind>, block: seq<LineKind>, post: seq<LineKind>)
    requires missing != [] && Assignments(missing)
    ensures RootOnly(block)
    ensures LineKinds(content) == pre + post && LineKinds(Backfilled(content, missing)) == pre + block + post
  {
    hide LineKinds, RootLength, Pieces, Join, LinesOf, RootOnly, StartsTable, Assignments;
    NoTableLength(content);
    var at, lines := RootLength(Pieces(content)), Join(LinesOf(missing));
    InsertionCut(content);
    BlockKinds(missing);
    NoHeaderIn(LineKinds(lines), "");
    CutParts(content, at);
    pre, block, post := LineKinds(content[..at]), LineKinds(lines), LineKinds(content[at..]);
    if at == |content| {
      TerminatedKinds(content);
      LineKindsConcat(Terminated(content), lines);
      NoKinds();
    } else {
      block := block + [Other];
      InsertedKinds(content[..at], lines, content[at..]);
      LineKindsConcat(content[..at], content[at..]);
    }
  }

  lemma CutParts(content: string, at: nat)
    requires at <= |content|
    ensures content == content[..at] + content[at..] && (content[at..] == "" <==> at == |content|)
    ensures at == |content| ==> content[..at] == content
  {
  }

  lemma NoHeaderIn(kinds: seq<LineKind>, text: string)
    requires RootOnly(kinds)
    ensures Header(text) !in kinds && RootOnly(kinds + [Other])
  {
  }

  // ----- A text as its line kinds ------------------------------------------------

  /** Line endings are whitespace: a piece and its line look the same once trimmed. */
  lemma TrimPiece(p: string)
    ensures Trim(LineText(p)) == Trim(p)
  {
    hide Trim;
    var l := LineText(p);
    assert p == l + p[|l|..];
    assert AllWhitespace(p[|l|..]);
    TrimIgnoresTail(l, p[|l|..]);
  }

  lemma OpensTableKind(p: string)
    ensures OpensTable(p) <==> Kind(LineText(p)).Header?
  {
    TrimPiece(p);
    assert StartsWith(Trim(p), "[") <==> Trim(p) != "" && Trim(p)[0] == '[';
  }

  lemma SectionLineKind(l: string)
    ensures IsSectionLine(l, "supervisor") <==> Kind(l) == Header("[supervisor]")
  {
    hide Find, IsBareKey, TrimStart, TrimEnd;
    assert "[" + "supervisor" + "]" == "[supervisor]";
    assert TrimEnd(TrimStart(l)) <= TrimStart(l);
    assert StartsWith(TrimStart(l), "#") ==> TrimStart(l)[0] == '#';
  }

  lemma HasSectionKinds(content: string)
    ensures HasSection(content, "supervisor") <==> Header("[supervisor]") in LineKinds(content)
  {
    var ls, ks := Lines(content), LineKinds(content);
    forall i | 0 <= i < |ls| ensures IsSectionLine(ls[i], "supervisor") <==> ks[i] == Header("[supervisor]") {
      SectionLineKind(ls[i]);
    }
  }

  lemma KindsConcat(a: seq<string>, b: seq<string>)
    ensures Kinds(a + b) == Kinds(a) + Kinds(b)
  {
    hide Kind, Kinds;
    var c := a + b;
    forall i | 0 <= i < |c| ensures Kinds(c)[i] == (Kinds(a) + Kinds(b))[i] {
      assert c[i] == if i < |a| then a[i] else b[i - |a|];
    }
  }

  lemma LineKindsConcat(a: string, b: string)
    requires LineAligned(a)
    ensures LineKinds(a + b) == LineKinds(a) + LineKinds(b)
  {
    LinesConcat(a, b);
    KindsConcat(Lines(a), Lines(b));
  }

  lemma NoKinds()
    ensures LineKinds("") == [] && Pieces("") == []
  {
  }

  lemma LineKindsPiece(p: string)
    requires IsPiece(p)
    ensures LineKinds(p) == [Kind(LineText(p))]
  {
    FirstPiece(p, "");
    assert p + "" == p;
    assert Lines(p) == [LineText(p)];
    assert |Kinds(Lines(p))| == 1;
  }

  lemma OpenLine(s: string)
    requires s != "" && '\n' !in s
    ensures Pieces(s) == [s] && Lines(s) == [s] && LineText(s) == s
  {
    PieceLenUnique(s, |s|);
    assert s[|s| - 1] in s;
    assert s[..|s|] == s && s[|s|..] == "";
  }

  /** Closing the last line changes nothing the scanners see. */
  lemma {:induction false} TerminatedKinds(content: string)
    ensures LineKinds(Terminated(content)) == LineKinds(content)
    decreases |content|
  {
    if !LineAligned(content) {
      var p, rest := SplitPiece(content);
      if IsPiece(p) {
        assert !LineAligned(rest);
        TerminatedKinds(rest);
        TerminatedConcat(p, rest);
        LineKindsConcat(p, rest);
        LineKindsConcat(p, Terminated(rest));
      } else {
        assert p + "" == p;
        ClosedLineKinds(content);
      }
    }
  }

  lemma ClosedLineKinds(l: string)
    requires l != "" && '\n' !in l
    ensures LineKinds(l + "\n") == LineKinds(l)
  {
    hide KindOfTrimmed, Trim, Lines;
    var p := l + "\n";
    assert IsPiece(p);
    LineKindsPiece(p);
    OpenLine(l);
    TrimPiece(p);
    assert AllWhitespace("\n");
    TrimIgnoresTail(l, "\n");
    assert |Kinds(Lines(l))| == 1 && Kinds(Lines(l))[0] == Kind(l);
  }

  // ----- The two scanners agree on where the root table ends ------------------------

  ghost predicate RootOnly(kinds: seq<LineKind>) {
    forall i :: 0 <= i < |kinds| ==> !kinds[i].Header?
  }

  ghost predicate StartsTable(kinds: seq<LineKind>) {
    kinds != [] && kinds[0].Header?
  }

  lemma FirstPieceOf(p: string, rest: string)
    requires IsPiece(p)
    ensures Pieces(p + rest) == [p] + Pieces(rest)
  {
    var s := p + rest;
    assert forall k :: 0 <= k < |p| ==> s[k] == p[k];
    PieceLenUnique(s, |p|);
    assert s[..|p|] == p && s[|p|..] == rest;
  }

  lemma RootLengthPiece(p: string, rest: string)
    requires IsPiece(p)
    ensures RootLength(Pieces(p + rest)) == if OpensTable(p) then 0 else |p| + RootLength(Pieces(rest))
  {
    FirstPieceOf(p, rest);
    assert ([p] + Pieces(rest))[1..] == Pieces(rest);
  }

  lemma CutInRest(p: string, rest: string, n: nat)
    requires n <= |rest|
    ensures (p + rest)[..|p| + n] == p + rest[..n] && (p + rest)[|p| + n..] == rest[n..]
  {
  }

  /** The insertion point cuts the text into whole root-table lines and a rest that opens a table. */
  lemma {:induction false} InsertionCut(content: string)
    ensures var at := RootLength(Pieces(content));
            && at <= |content|
            && RootOnly(LineKinds(content[..at]))
            && (at < |content| ==> LineAligned(content[..at]) && StartsTable(LineKinds(content[at..])))
    decreases |content|
  {
    hide LineKinds, Kind, OpensTable;
    NoKinds();
    if content != "" {
      var p, rest := SplitPiece(content);
      OpensTableKind(p);
      if IsPiece(p) {
        RootLengthPiece(p, rest);
        LineKindsPiece(p);
        LineKindsConcat(p, rest);
        if OpensTable(p) {
          assert content[..0] == "" && content[0..] == content;
        } else {
          InsertionCut(rest);
          var at := RootLength(Pieces(rest));
          CutInRest(p, rest, at);
          LineKindsConcat(p, rest[..at]);
        }
      } else {
        assert p + "" == p;
        OpenLineCut(content);
      }
    }
  }

  lemma OpenLineCut(s: string)
    requires s != "" && '\n' !in s
    ensures var at := RootLength(Pieces(s));
            && at <= |s|
            && RootOnly(LineKinds(s[..at]))
            && (at < |s| ==> at == 0 && StartsTable(LineKinds(s[at..])))
  {
    OpenLine(s);
    OpensTableKind(s);
    assert [s][1..] == [];
    assert RootLength(Pieces(s)) == if OpensTable(s) then 0 else |s|;
    assert |Kinds(Lines(s))| == 1 && Kinds(Lines(s))[0] == Kind(s);
    assert s[..|s|] == s && s[0..] == s;
    assert LineKinds(s[..0]) == [];
  }

  // ----- Keys of composed texts ----------------------------------------------------

  lemma {:induction false} KeyLinesConcat(a: seq<LineKind>, b: seq<LineKind>)
    ensures KeyLines(a + b) == if RootOnly(a) then KeyLines(a) + KeyLines(b) else KeyLines(a)
    decreases |a|
  {
    if a == [] {
      assert a + b == b;
    } else {
      assert (a + b)[1..] == a[1..] + b;
      KeyLinesConcat(a[1..], b);
      assert RootOnly(a) <==> !a[0].Header? && RootOnly(a[1..]) by {
        assert forall i :: 1 <= i < |a| ==> a[i] == a[1..][i - 1];
      }
      if a[0].Assign? {
        ConcatAssoc([(a[0].key, a[0].line)], KeyLines(a[1..]), KeyLines(b));
      }
    }
  }

  // ----- The backfilled block --------------------------------------------------------

  /** A pair a block can be made of: a trimmed line that assigns its key. */
  ghost predicate IsAssignment(pair: (string, string)) {
    Kind(pair.1) == Assign(pair.0, pair.1) && CleanLine(pair.1)
  }

  ghost predicate Assignments(pairs: seq<(string, string)>) {
    forall i :: 0 <= i < |pairs| ==> IsAssignment(pairs[i])
  }

  lemma {:induction false} LinesHoldNoNewline(s: string, i: nat)
    requires i < |Lines(s)|
    ensures '\n' !in Lines(s)[i]
    decreases |s|
  {
    var p, rest := SplitPiece(s);
    if IsPiece(p) {
      FirstPiece(p, rest);
      if i > 0 { LinesHoldNoNewline(rest, i - 1); }
    }
  }

  lemma TrimmedClean(l: string)
    requires '\n' !in l
    ensures CleanLine(Trim(l))
  {
    var w1, w2 := TrimParts(l);
    var t := Trim(l);
    forall k | 0 <= k < |t| ensures t[k] != '\n' {
      assert t[k] == l[|w1| + k];
    }
  }

  lemma AssignedLine(l: string)
    requires Kind(l).Assign? && '\n' !in l
    ensures IsAssignment((Kind(l).key, Kind(l).line))
  {
    TrimAgain(l);
    TrimmedClean(l);
  }

  lemma {:induction false} KeyLinesFrom(kinds: seq<LineKind>, i: nat)
    requires i < |KeyLines(kinds)|
    ensures exists j :: 0 <= j < |kinds| && kinds[j] == Assign(KeyLines(kinds)[i].0, KeyLines(kinds)[i].1)
    decreases |kinds|
  {
    var pair := KeyLines(kinds)[i];
    if kinds[0].Assign? && i == 0 {
      assert kinds[0] == Assign(pair.0, pair.1);
    } else {
      var n := if kinds[0].Assign? then i - 1 else i;
      KeyLinesFrom(kinds[1..], n);
      var j :| 0 <= j < |kinds[1..]| && kinds[1..][j] == Assign(pair.0, pair.1);
      assert kinds[j + 1] == Assign(pair.0, pair.1);
    }
  }

  lemma TopLevelAssign(template: string)
    ensures Assignments(TopLevelKeys(template))
  {
    var ks := LineKinds(template);
    forall i | 0 <= i < |TopLevelKeys(template)| ensures IsAssignment(TopLevelKeys(template)[i]) {
      KeyLinesFrom(ks, i);
      var j :| 0 <= j < |ks| && ks[j] == Assign(TopLevelKeys(template)[i].0, TopLevelKeys(template)[i].1);
      LinesHoldNoNewline(template, j);
      AssignedLine(Lines(template)[j]);
    }
  }

  lemma {:induction false} AbsentFrom(present: set<string>, template: seq<(string, string)>)
    ensures forall x :: x in Absent(present, template) ==> x in template && x.0 !in present
    ensures forall x :: x in template ==> x.0 in present || x in Absent(present, template)
    decreases |template|
  {
    if template != [] {
      AbsentFrom(present, template[1..]);
      assert forall x :: x in template <==> x == template[0] || x in template[1..];
    }
  }

  lemma MissingAssign(existing: string, template: string)
    ensures Assignments(MissingKeys(existing, template))
  {
    var present := KeysOf(TopLevelKeys(existing));
    TopLevelAssign(template);
    AbsentFrom(present, TopLevelKeys(template));
    forall i | 0 <= i < |MissingKeys(existing, template)| ensures IsAssignment(MissingKeys(existing, template)[i]) {
      assert MissingKeys(existing, template)[i] in MissingKeys(existing, template);
    }
  }

  lemma {:induction false} KeyLinesOfPairs(pairs: seq<(string, string)>, kinds: seq<LineKind>)
    requires |kinds| == |pairs|
    requires forall i :: 0 <= i < |pairs| ==> kinds[i] == Assign(pairs[i].0, pairs[i].1)
    ensures KeyLines(kinds) == pairs
    decreases |pairs|
  {
    if pairs != [] {
      KeyLinesOfPairs(pairs[1..], kinds[1..]);
      assert pairs == [(kinds[0].key, kinds[0].line)] + pairs[1..];
    }
  }

  lemma BlockKinds(pairs: seq<(string, string)>)
    requires Assignments(pairs)
    ensures RootOnly(LineKinds(Join(LinesOf(pairs)))) && TopLevelKeys(Join(LinesOf(pairs))) == pairs
  {
    var ls := LinesOf(pairs);
    assert forall i :: 0 <= i < |ls| ==> IsAssignment(pairs[i]) && ls[i] == pairs[i].1;
    LinesOfJoin(ls);
    KeyLinesOfPairs(pairs, Kinds(ls));
  }

  lemma BlankLineKinds()
    ensures LineKinds("\n") == [Other]
  {
    LineKindsPiece("\n");
    assert LineText("\n") == "" && Trim("") == "";
  }

  /** Backfilling adds the missing keys behind the existing root keys and keeps every section. */
  lemma BackfilledKeys(content: string, missing: seq<(string, string)>)
    requires Assignments(missing)
    ensures TopLevelKeys(Backfilled(content, missing)) == TopLevelKeys(content) + missing
    ensures forall k :: k in LineKinds(content) ==> k in LineKinds(Backfilled(content, missing))
  {
    hide LineKinds, RootLength, Pieces, KeyLines, Join, RootOnly, Assignments;
    if missing == [] {
      assert TopLevelKeys(content) + [] == TopLevelKeys(content);
    } else {
      var at := RootLength(Pieces(content));
      var block := Join(LinesOf(missing));
      InsertionCut(content);
      BlockKinds(missing);
      NoTableLength(content);
      if at == |content| {
        assert content[..at] == content;
        TerminatedKinds(content);
        LineKindsConcat(Terminated(content), block);
        KeyLinesConcat(LineKinds(content), LineKinds(block));
      } else {
        assert content == content[..at] + content[at..];
        InsertedKinds(content[..at], block, content[at..]);
        InsertedKeys(LineKinds(content[..at]), LineKinds(block), LineKinds(content[at..]));
        LineKindsConcat(content[..at], content[at..]);
      }
    }
  }

  lemma InsertedKinds(pre: string, block: string, post: string)
    requires LineAligned(pre) && LineAligned(block)
    ensures LineKinds(pre + (block + "\n") + post) == LineKinds(pre) + (LineKinds(block) + [Other]) + LineKinds(post)
  {
    BlankLineKinds();
    LineKindsConcat(block, "\n");
    LineKindsConcat(pre, block + "\n");
    LineKindsConcat(pre + (block + "\n"), post);
  }

  lemma InsertedKeys(pre: seq<LineKind>, block: seq<LineKind>, post: seq<LineKind>)
    requires RootOnly(pre) && RootOnly(block) && StartsTable(post)
    ensures KeyLines(pre + (block + [Other]) + post) == KeyLines(pre + post) + KeyLines(block)
    ensures forall k :: k in pre + post ==> k in pre + (block + [Other]) + post
  {
    NoKeys();
    assert KeyLines(post) == [];
    hide KeyLines;
    KeyLinesConcat(block, [Other]);
    KeyLinesConcat(pre, block + [Other]);
    KeyLinesConcat(pre + (block + [Other]), post);
    KeyLinesConcat(pre, post);
  }

  // ----- What migration guarantees ------------------------------------------------------

  lemma {:induction false} AbsentNone(present: set<string>, template: seq<(string, string)>)
    requires forall i :: 0 <= i < |template| ==> template[i].0 in present
    ensures Absent(present, template) == []
    decreases |template|
  {
    if template != [] {
      AbsentNone(present, template[1..]);
    }
  }

  /** A supervisor section: a blank line, the active header, and the rest of its table. */
  ghost predicate SupervisorText(section: string) {
    StartsWith(section, "\n[supervisor]\n")
  }

  lemma SupervisorKinds(section: string)
    requires SupervisorText(section)
    ensures |LineKinds(section)| >= 2 && LineKinds(section)[0] == Other
    ensures LineKinds(section)[1] == Header("[supervisor]")
    ensures KeyLines(LineKinds(section)) == []
  {
    hide LineKinds, Kind;
    var header := "[supervisor]\n";
    var rest := section[14..];
    assert section == "\n" + (header + rest);
    BlankLineKinds();
    LineKindsConcat("\n", header + rest);
    assert IsPiece(header);
    LineKindsPiece(header);
    LineKindsConcat(header, rest);
    HeaderLine();
    var ks := LineKinds(section);
    assert ks[1..][0].Header?;
    assert KeyLines(ks) == KeyLines(ks[1..]);
  }

  lemma HeaderLine()
    ensures Kind(LineText("[supervisor]\n")) == Header("[supervisor]")
  {
    var l := "[supervisor]";
    CleanPiece(l);
    assert l + "\n" == "[supervisor]\n";
    TrimUnique("", l, "");
    assert "" + l + "" == l;
  }

  /** Adding the section keeps the root keys and leaves a supervisor section. */
  lemma ClosedBase(content: string, base: string)
    requires base == if EndsWithNewline(content) then content else content + "\n"
    ensures TopLevelKeys(base) == TopLevelKeys(content) && LineAligned(base)
  {
    hide LineKinds;
    NoKinds();
    if content == "" {
      BlankLineKinds();
      assert base == "\n";
      NoKeys();
    } else {
      TerminatedKinds(content);
      assert base == Terminated(content);
    }
  }

  lemma NoKeys()
    ensures KeyLines([Other]) == KeyLines([]) == []
  {
    assert [Other][1..] == [];
  }

  lemma WithSupervisorKinds(content: string, section: string)
    requires SupervisorText(section)
    ensures TopLevelKeys(WithSupervisor(content, section)) == TopLevelKeys(content)
    ensures HasSection(WithSupervisor(content, section), "supervisor")
  {
    hide LineKinds, HasSection, SupervisorText, KeyLines, LineAligned;
    HasSectionKinds(content);
    HasSectionKinds(WithSupervisor(content, section));
    SupervisorKinds(section);
    if !HasSection(content, "supervisor") {
      var base := if EndsWithNewline(content) then content else content + "\n";
      ClosedBase(content, base);
      LineKindsConcat(base, section);
      KeyLinesConcat(LineKinds(base), LineKinds(section));
      assert LineKinds(base + section)[|LineKinds(base)| + 1] == Header("[supervisor]");
      assert TopLevelKeys(content) + [] == TopLevelKeys(content);
    }
  }

  lemma NotBlank(content: string, k: LineKind)
    requires k in LineKinds(content) && k != Other
    ensures Trim(content) != ""
  {
    if Trim(content) == "" {
      var w1, w2 := TrimParts(content);
      assert AllWhitespace(content);
      BlankKinds(content);
    }
  }

  lemma {:induction false} BlankKinds(content: string)
    requires AllWhitespace(content)
    ensures forall k :: k in LineKinds(content) ==> k == Other
    decreases |content|
  {
    hide LineKinds, Trim;
    NoKinds();
    if content != "" {
      var p, rest := SplitPiece(content);
      assert AllWhitespace(p) && AllWhitespace(rest) by {
        assert forall k :: 0 <= k < |p| ==> p[k] == content[k];
        assert forall k :: 0 <= k < |rest| ==> rest[k] == content[|p| + k];
      }
      BlankLine(p);
      if IsPiece(p) {
        BlankKinds(rest);
        LineKindsPiece(p);
        LineKindsConcat(p, rest);
        TrimPiece(p);
      } else {
        assert p + "" == p;
        OpenLineKinds(content);
      }
    }
  }

  lemma OpenLineKinds(s: string)
    requires s != "" && '\n' !in s
    ensures LineKinds(s) == [Kind(s)]
  {
    OpenLine(s);
    assert |Kinds(Lines(s))| == 1;
  }

  lemma BlankLine(p: string)
    requires AllWhitespace(p)
    ensures Trim(p) == ""
  {
    TrimUnique(p, "", "");
    assert p + "" + "" == p;
  }

  /** The file after migration has the root keys it had, then the template's missing ones, and a supervisor section. */
  lemma MigratedKeys(existing: string, template: string, section: string)
    requires SupervisorText(section)
    ensures Trim(existing) != "" ==>
              TopLevelKeys(Migrated(existing, template, section)) == TopLevelKeys(existing) + MissingKeys(existing, template)
    ensures Trim(existing) == "" ==> TopLevelKeys(Migrated(existing, template, section)) == TopLevelKeys(template)
    ensures HasSection(Migrated(existing, template, section), "supervisor")
  {
    if Trim(existing) == "" {
      WithSupervisorKinds(template, section);
    } else {
      var missing := MissingKeys(existing, template);
      MissingAssign(existing, template);
      BackfilledKeys(existing, missing);
      WithSupervisorKinds(Backfilled(existing, missing), section);
    }
  }

  lemma NothingMissing(content: string, existing: string, template: string)
    requires TopLevelKeys(content) == TopLevelKeys(existing) + MissingKeys(existing, template)
             || TopLevelKeys(content) == TopLevelKeys(template)
    ensures MissingKeys(content, template) == []
  {
    hide TopLevelKeys;
    var present := KeysOf(TopLevelKeys(existing));
    var keys, wanted := TopLevelKeys(content), TopLevelKeys(template);
    AbsentFrom(present, wanted);
    forall i | 0 <= i < |wanted| ensures wanted[i].0 in KeysOf(keys) {
      if keys != wanted {
        var missing := MissingKeys(existing, template);
        assert wanted[i] in wanted;
        if wanted[i] in missing {
          var j :| 0 <= j < |missing| && missing[j] == wanted[i];
          assert keys[|TopLevelKeys(existing)| + j] == wanted[i];
        } else {
          var j :| 0 <= j < |TopLevelKeys(existing)| && TopLevelKeys(existing)[j].0 == wanted[i].0;
          assert keys[j].0 == wanted[i].0;
        }
      }
    }
    AbsentNone(KeysOf(keys), wanted);
  }

  /** Migrating a migrated file changes nothing, whatever the file was, blank or not. */
  lemma MigrationIdempotent(existing: string, template: string, section: string, again: string)
    requires SupervisorText(section)
    ensures var once := Migrated(existing, template, section);
            Migrated(once, template, again) == once && MissingKeys(once, template) == []
  {
    var once := Migrated(existing, template, section);
    MigratedKeys(existing, template, section);
    NothingMissing(once, existing, template);
    HasSectionKinds(once);
    NotBlank(once, Header("[supervisor]"));
  }

  /** A second migration reports nothing added, and a line of the file is the supervisor header. */
  lemma SecondReportsNothing(existing: string, template: string, section: string)
    requires SupervisorText(section)
    ensures var once := Migrated(existing, template, section);
            !Report(once, template).Changed() && HasBareHeader(once)
  {
    hide MissingKeys, HasSection, Trim, HasBareHeader, SupervisorText;
    var once := Migrated(existing, template, section);
    MigrationIdempotent(existing, template, section, section);
    MigratedKeys(existing, template, section);
    HasSectionKinds(once);
    NotBlank(once, Header("[supervisor]"));
    BareHeaderIff(once);
  }

  // ----- What a key is -----------------------------------------------------------------

  lemma {:induction false} FirstEquals(key: string, w: string, rest: string)
    requires '=' !in key && '=' !in w
    ensures Find(key + w + "=" + rest, "=") == |key + w|
  {
    var front := key + w;
    var s := front + "=" + rest;
    assert s[|front|..|front| + 1] == "=";
    forall j | 0 <= j < |front| ensures !OccursAt(s, "=", j) {
      assert s[j] == front[j] && front[j] != '=';
      if OccursAt(s, "=", j) { OccursAtIndex(s, "=", j, 0); }
    }
    FindIs(s, "=", |front|);
  }

  /** What stands before the first equals sign is a key if and only if it is made of ASCII letters, digits, underscores and dashes, blanks around it apart. */
  lemma KeyIff(key: string, w: string, rest: string)
    requires key != "" && '=' !in key && key[0] != '[' && key[0] != '#'
    requires !IsWhitespace(key[0]) && !IsWhitespace(key[|key| - 1]) && AllWhitespace(w)
    ensures KindOfTrimmed(key + w + "=" + rest) == Assign(key, key + w + "=" + rest)
            <==> forall c :: c in key ==> 'a' <= c <= 'z' || 'A' <= c <= 'Z' || '0' <= c <= '9' || c == '_' || c == '-'
    ensures !KindOfTrimmed(key + w + "=" + rest).Header?
  {
    hide Trim, Find, IsWhitespace;
    var s := key + w + "=" + rest;
    NoEqualsIn(w);
    FirstEquals(key, w, rest);
    assert s[0] == key[0] && s[..|key + w|] == key + w;
    TrimUnique("", key, w);
    assert "" + key + w == key + w;
    BareIff(key);
  }

  lemma NoEqualsIn(w: string)
    requires AllWhitespace(w)
    ensures '=' !in w
  {
    assert !IsWhitespace('=');
  }

  lemma BareIff(key: string)
    requires key != ""
    ensures IsBareKey(key) <==>
            forall c :: c in key ==> 'a' <= c <= 'z' || 'A' <= c <= 'Z' || '0' <= c <= '9' || c == '_' || c == '-'
  {
    assert forall i :: 0 <= i < |key| ==> key[i] in key;
  }

  /** Every character of a non-blank file survives in order: migration only inserts, at two places. */
  lemma MigrationAdditive(existing: string, template: string, section: string)
    returns (at: nat, inserted: string, appended: string)
    requires Trim(existing) != ""
    ensures at <= |existing|
    ensures Migrated(existing, template, section) == existing[..at] + inserted + existing[at..] + appended
    ensures MissingKeys(existing, template) == [] ==> inserted == ""
    ensures HasSection(existing, "supervisor") && SupervisorText(section) ==> appended == ""
    ensures at < |existing| ==> LineAligned(existing[..at]) && LineAligned(inserted)
  {
    hide LineKinds, HasSection, SupervisorText, TopLevelKeys, Kind, Trim;
    var missing := MissingKeys(existing, template);
    var filled := Backfilled(existing, missing);
    at, inserted := BackfilledShape(existing, missing);
    appended := WithSupervisor(filled, section)[|filled|..];
    assert WithSupervisor(filled, section) == filled + appended;
    MissingAssign(existing, template);
    BackfilledKeys(existing, missing);
    HasSectionKinds(existing);
    HasSectionKinds(filled);
  }

  lemma BackfilledShape(content: string, missing: seq<(string, string)>) returns (at: nat, inserted: string)
    ensures at <= |content| && Backfilled(content, missing) == content[..at] + inserted + content[at..]
    ensures missing == [] ==> inserted == ""
    ensures at < |content| ==> LineAligned(content[..at]) && LineAligned(inserted)
  {
    hide LineKinds, Kind, RootLength;
    NoTableLength(content);
    InsertionCut(content);
    var filled := Backfilled(content, missing);
    at := RootLength(Pieces(content));
    if missing == [] {
      inserted := "";
      SplitWithNothing(content, at);
    } else if at == |content| {
      inserted := filled[|content|..];
      assert content <= Terminated(content) <= filled;
      AtTheEnd(content, filled);
    } else {
      inserted := Join(LinesOf(missing)) + "\n";
    }
  }

  lemma SplitWithNothing(content: string, at: nat)
    requires at <= |content|
    ensures content == content[..at] + "" + content[at..]
  {
  }

  lemma AtTheEnd(content: string, filled: string)
    requires content <= filled
    ensures filled == content[..|content|] + filled[|content|..] + content[|content|..]
  {
  }
}
