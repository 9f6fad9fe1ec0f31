/**
 The per-worktree assignment section, generated from user-influenced text, and
 exactly when the block editors can find its end again.
 */
module AssignmentSection {
  import opened Wrappers
  import opened Text
  import opened SessionBlock

  datatype Assignment = Assignment(
    branch: string,
    cli: string,
    spec: Option<string>,
    ownedFiles: Option<seq<string>>,
    skill: Option<string>,
    rules: Option<string>)

  /** The full start marker line; the editors look only at its prefix. */
  const START_MARKER := START_PREFIX + " \U{2014} managed by git-paw," + " do not edit manually -->"

  const TITLE := "\n## git-paw Session Assignment\n\n"

  // ----- The text of each part -------------------------------------------

  /** A value between two fixed strings. */
  function Wrapped(before: string, value: string, after: string): string {
    before + (value + after)
  }

  /** A block of foreign text, its last line closed if it was not. */
  function Closed(text: string): string {
    if EndsWithNewline(text) then text else text + "\n"
  }

  function FileLines(files: seq<string>): string {
    if files == [] then "" else FileLines(files[..|files| - 1]) + Wrapped("- `", files[|files| - 1], "`\n")
  }

  function SpecPart(a: Assignment): string {
    if a.spec.None? then "" else "\n### Spec\n\n" + Closed(a.spec.value)
  }

  function FilesPart(a: Assignment): string {
    if a.ownedFiles.None? then "" else "\n### File Ownership\n\n" + FileLines(a.ownedFiles.value)
  }

  function SkillPart(a: Assignment): string {
    if a.skill.None? then "" else "\n" + Closed(a.skill.value)
  }

  function RulesPart(a: Assignment): string {
    if a.rules.None? then "" else "\n## Inter-Agent Rules\n\n" + Closed(a.rules.value)
  }

  function BodyText(a: Assignment): string {
    START_MARKER + "\n" + TITLE
    + Wrapped("- **Branch:** `", a.branch, "`\n")
    + Wrapped("- **CLI:** ", a.cli, "\n")
    + SpecPart(a) + FilesPart(a) + SkillPart(a) + RulesPart(a) + "\n"
  }

  function SectionText(a: Assignment): string {
    BodyText(a) + (END_MARKER + "\n")
  }

  method GenerateWorktreeSection(a: Assignment) returns (section: string)
    ensures section == SectionText(a)
  {
    section := START_MARKER;
    section := section + "\n";
    section := section + TITLE;
    section := section + Wrapped("- **Branch:** `", a.branch, "`\n");
    section := section + Wrapped("- **CLI:** ", a.cli, "\n");
    section := PushOption(section, "\n### Spec\n\n", a.spec);
    if a.ownedFiles.Some? {
      var files := FileList(a.ownedFiles.value);
      section := section + ("\n### File Ownership\n\n" + files);
    } else {
      assert section + "" == section;
    }
    section := PushOption(section, "\n", a.skill);
    section := PushOption(section, "\n## Inter-Agent Rules\n\n", a.rules);
    section := section + "\n";
    section := section + (END_MARKER + "\n");
  }

  method PushOption(section: string, heading: string, text: Option<string>) returns (result: string)
    ensures result == section + (if text.None? then "" else heading + Closed(text.value))
  {
    result := section;
    if text.Some? {
      result := result + (heading + Closed(text.value));
    }
  }

  method FileList(files: seq<string>) returns (list: string)
    ensures list == FileLines(files)
  {
    list := "";
    for i := 0 to |files|
      invariant list == FileLines(files[..i])
    {
      assert files[..i + 1][..i] == files[..i];
      list := list + Wrapped("- `", files[i], "`\n");
    }
    assert files[..|files|] == files;
  }

  // ----- Where the end marker can come from -------------------------------

  ghost predicate Mentions(text: Option<string>, m: string) {
    text.Some? && Contains(text.value, m)
  }

  /** Some embedded text holds the end marker. */
  ghost predicate EmbedsEndMarker(a: Assignment) {
    || Contains(a.branch, END_MARKER)
    || Contains(a.cli, END_MARKER)
    || Mentions(a.spec, END_MARKER)
    || (a.ownedFiles.Some? && exists i :: 0 <= i < |a.ownedFiles.value| && Contains(a.ownedFiles.value[i], END_MARKER))
    || Mentions(a.skill, END_MARKER)
    || Mentions(a.rules, END_MARKER)
  }

  /** Text without the marker's first character can be put in front of anything. */
  lemma NeutralBefore(x: string, y: string, m: string)
    requires m != "" && m[0] !in x
    ensures Contains(x + y, m) <==> Contains(y, m)
  {
    if Contains(x + y, m) {
      var i :| OccursAt(x + y, m, i);
      OccursAtIndex(x + y, m, i, 0);
      assert i >= |x|;
      OccursAtSuffix(x, y, m, i - |x|);
    }
    if Contains(y, m) {
      var i :| OccursAt(y, m, i);
      OccursAtSuffix(x, y, m, i);
    }
  }

  /** Text without the marker's last character can be put behind anything. */
  lemma NeutralAfter(x: string, y: string, m: string)
    requires m != "" && m[|m| - 1] !in y
    ensures Contains(x + y, m) <==> Contains(x, m)
  {
    if Contains(x + y, m) {
      var i :| OccursAt(x + y, m, i);
      OccursAtIndex(x + y, m, i, |m| - 1);
      assert i + |m| <= |x|;
      OccursAtPrefix(x, y, m, i);
    }
    if Contains(x, m) {
      var i :| OccursAt(x, m, i);
      OccursAtPrefix(x, y, m, i);
    }
  }

  lemma WrappedMention(before: string, value: string, after: string, m: string)
    requires m != "" && m[0] !in before && m[|m| - 1] !in after
    requires EndsWithNewline(after)
    ensures Contains(Wrapped(before, value, after), m) <==> Contains(value, m)
    ensures EndsWithNewline(Wrapped(before, value, after))
  {
    NeutralAfter(value, after, m);
    NeutralBefore(before, value + after, m);
  }

  lemma ClosedMention(before: string, text: string, m: string)
    requires m != "" && m[0] !in before && m[|m| - 1] != '\n'
    ensures Contains(before + Closed(text), m) <==> Contains(text, m)
    ensures EndsWithNewline(before + Closed(text))
  {
    NeutralAfter(text, "\n", m);
    NeutralBefore(before, Closed(text), m);
  }

  lemma EmptyMention(m: string)
    requires m != ""
    ensures !Contains("", m)
  {
  }

  lemma EndMarkerEnds()
    ensures END_MARKER != "" && END_MARKER[0] == '<' && END_MARKER[|END_MARKER| - 1] == '>'
    ensures '\n' !in END_MARKER
  {
  }

  lemma {:induction false} FilesMention(before: string, files: seq<string>)
    requires '<' !in before && LineAligned(before)
    ensures LineAligned(FileLines(files))
    ensures Contains(before + FileLines(files), END_MARKER)
            <==> exists i :: 0 <= i < |files| && Contains(files[i], END_MARKER)
    ensures LineAligned(before + FileLines(files))
    decreases |files|
  {
    hide Contains, Wrapped;
    EndMarkerEnds();
    if files == [] {
      assert before + "" == before;
      NeutralBefore(before, "", END_MARKER);
      EmptyMention(END_MARKER);
    } else {
      var init, last := files[..|files| - 1], files[|files| - 1];
      FilesMention(before, init);
      WrappedMention("- `", last, "`\n", END_MARKER);
      ConcatAssoc(before, FileLines(init), Wrapped("- `", last, "`\n"));
      ContainsConcat(before + FileLines(init), Wrapped("- `", last, "`\n"), END_MARKER);
      assert files == init + [last];
      assert forall i :: 0 <= i < |init| ==> files[i] == init[i];
    }
  }

  lemma OptionalParts(a: Assignment)
    ensures LineAligned(SpecPart(a)) && LineAligned(FilesPart(a)) && LineAligned(SkillPart(a)) && LineAligned(RulesPart(a))
    ensures Contains(SpecPart(a), END_MARKER) <==> Mentions(a.spec, END_MARKER)
    ensures Contains(SkillPart(a), END_MARKER) <==> Mentions(a.skill, END_MARKER)
    ensures Contains(RulesPart(a), END_MARKER) <==> Mentions(a.rules, END_MARKER)
    ensures Contains(FilesPart(a), END_MARKER) <==>
              (a.ownedFiles.Some? && exists i :: 0 <= i < |a.ownedFiles.value| && Contains(a.ownedFiles.value[i], END_MARKER))
  {
    hide Contains, Wrapped, FilesPart, Terminated;
    EndMarkerEnds();
    EmptyMention(END_MARKER);
    if a.spec.Some? { ClosedMention("\n### Spec\n\n", a.spec.value, END_MARKER); }
    if a.skill.Some? { ClosedMention("\n", a.skill.value, END_MARKER); }
    if a.rules.Some? { ClosedMention("\n## Inter-Agent Rules\n\n", a.rules.value, END_MARKER); }
    FilesPartMention(a);
  }

  lemma FilesPartMention(a: Assignment)
    ensures LineAligned(FilesPart(a))
    ensures Contains(FilesPart(a), END_MARKER) <==>
              (a.ownedFiles.Some? && exists i :: 0 <= i < |a.ownedFiles.value| && Contains(a.ownedFiles.value[i], END_MARKER))
  {
    hide Contains, FileLines;
    EmptyMention(END_MARKER);
    if a.ownedFiles.Some? { FilesMention("\n### File Ownership\n\n", a.ownedFiles.value); }
  }

  lemma StartMarkerFacts()
    ensures |START_MARKER| > 18 && START_MARKER[13] == 's'
    ensures forall k :: 1 <= k < |START_MARKER| ==> START_MARKER[k] != '<'
    ensures StartsWith(START_MARKER, START_PREFIX)
    ensures |END_MARKER| > 13 && END_MARKER[13] == 'e'
  {
    var note, rest := " \U{2014} managed by git-paw,", " do not edit manually -->";
    assert |START_PREFIX| == 18 && START_PREFIX[13] == 's';
    assert forall k :: 1 <= k < 18 ==> START_PREFIX[k] != '<';
    assert '<' !in note && '<' !in rest;
    assert START_MARKER == START_PREFIX + (note + rest);
    assert '<' !in note + rest;
  }

  lemma NoEndInStart()
    ensures !Contains(START_MARKER + "\n", END_MARKER)
  {
    StartMarkerFacts();
    EndMarkerEnds();
    forall i | 0 <= i ensures !OccursAt(START_MARKER + "\n", END_MARKER, i) {
      if OccursAt(START_MARKER + "\n", END_MARKER, i) {
        OccursAtIndex(START_MARKER + "\n", END_MARKER, i, 0);
        OccursAtIndex(START_MARKER + "\n", END_MARKER, i, 13);
      }
    }
  }

  lemma OpeningLines(a: Assignment)
    ensures var intro := START_MARKER + "\n" + TITLE;
            && LineAligned(intro) && !Contains(intro, END_MARKER) && StartsWith(intro, START_PREFIX)
  {
    EndMarkerEnds();
    StartMarkerFacts();
    NoEndInStart();
    NeutralBefore(TITLE, "", END_MARKER);
    EmptyMention(END_MARKER);
    assert TITLE + "" == TITLE;
    ContainsConcat(START_MARKER + "\n", TITLE, END_MARKER);
  }

  /** Appending whole lines: aligned, and mentioning the marker when either side does. */
  lemma Extend(x: string, y: string)
    requires LineAligned(x) && LineAligned(y)
    ensures LineAligned(x + y)
    ensures Contains(x + y, END_MARKER) <==> Contains(x, END_MARKER) || Contains(y, END_MARKER)
    ensures StartsWith(x, START_PREFIX) ==> StartsWith(x + y, START_PREFIX)
    ensures StartsWith(x, START_MARKER + "\n") ==> StartsWith(x + y, START_MARKER + "\n")
  {
    EndMarkerEnds();
    ContainsConcat(x, y, END_MARKER);
  }

  lemma BodyMentions(a: Assignment)
    ensures LineAligned(BodyText(a)) && StartsWith(BodyText(a), START_PREFIX)
    ensures StartsWith(BodyText(a), START_MARKER + "\n")
    ensures Contains(BodyText(a), END_MARKER) <==> EmbedsEndMarker(a)
  {
    hide Contains, Wrapped, SpecPart, FilesPart, SkillPart, RulesPart;
    EndMarkerEnds();
    OpeningLines(a);
    OptionalParts(a);
    WrappedMention("- **Branch:** `", a.branch, "`\n", END_MARKER);
    WrappedMention("- **CLI:** ", a.cli, "\n", END_MARKER);
    var b0 := START_MARKER + "\n" + TITLE;
    var b1 := b0 + Wrapped("- **Branch:** `", a.branch, "`\n");
    var b2 := b1 + Wrapped("- **CLI:** ", a.cli, "\n");
    Extend(b0, Wrapped("- **Branch:** `", a.branch, "`\n"));
    Extend(b1, Wrapped("- **CLI:** ", a.cli, "\n"));
    Extend(b2, SpecPart(a));
    Extend(b2 + SpecPart(a), FilesPart(a));
    Extend(b2 + SpecPart(a) + FilesPart(a), SkillPart(a));
    Extend(b2 + SpecPart(a) + FilesPart(a) + SkillPart(a), RulesPart(a));
    Extend(b2 + SpecPart(a) + FilesPart(a) + SkillPart(a) + RulesPart(a), "\n");
    NeutralBefore("\n", "", END_MARKER);
    EmptyMention(END_MARKER);
    assert "\n" + "" == "\n";
  }

  /** The generated section is one the editors can find and take out again, exactly when no embedded text holds the end marker. */
  lemma SectionWellFormedIff(a: Assignment)
    ensures WellFormedSection(SectionText(a)) <==> !EmbedsEndMarker(a)
  {
    BodyMentions(a);
  }

  // ----- What the editors make of an embedded end marker ----------------------

  /** The lines of a section whose block ends early: up to the first end line, and the lines left behind it. */
  lemma EarlyEnd(a: Assignment) returns (head: seq<string>, last: string, left: seq<string>)
    requires EmbedsEndMarker(a)
    ensures Lines(SectionText(a)) == head + [last] + left
    ensures head != [] && IsStart(head[0]) && IsEnd(last)
    ensures forall k :: 0 <= k < |head| ==> !IsEnd(head[k])
    ensures left != [] && left[|left| - 1] == END_MARKER
  {
    hide Lines, BodyText, EmbedsEndMarker, Find, StartsWith;
    var body := BodyText(a);
    BodyMentions(a);
    FirstBodyLine(body);
    SectionEndLine(body);
    EndMarkerEnds();
    var at := TextInLine(body, END_MARKER);
    var ls := Lines(body);
    var e := FirstEnd(ls, 0);
    head, last, left := ls[..e], ls[e], ls[e + 1..] + [END_MARKER];
    assert ls + [END_MARKER] == head + [last] + left;
  }

  lemma FirstBodyLine(body: string)
    requires StartsWith(body, START_MARKER + "\n")
    ensures Lines(body) != [] && Lines(body)[0] == START_MARKER
    ensures IsStart(START_MARKER) && !IsEnd(START_MARKER)
  {
    hide Lines, Find;
    StartMarkerFacts();
    NoEndInStart();
    var rest := body[|START_MARKER| + 1..];
    assert body == (START_MARKER + "\n") + rest;
    assert CleanLine(START_MARKER) by { StartMarkerClean(); }
    CleanPiece(START_MARKER);
    FirstPiece(START_MARKER + "\n", rest);
    var i := Find(START_MARKER, END_MARKER);
    if i != -1 { OccursAtPrefix(START_MARKER, "\n", END_MARKER, i); }
  }

  lemma StartMarkerClean()
    ensures CleanLine(START_MARKER)
  {
    var note, rest := " \U{2014} managed by git-paw,", " do not edit manually -->";
    assert START_MARKER == START_PREFIX + (note + rest);
    assert '\n' !in START_PREFIX && '\n' !in note && '\n' !in rest;
    assert START_MARKER[|START_MARKER| - 1] == rest[|rest| - 1];
  }

  lemma SectionEndLine(body: string)
    requires LineAligned(body)
    ensures Lines(body + (END_MARKER + "\n")) == Lines(body) + [END_MARKER]
  {
    EndMarkerEnds();
    LinesConcat(body, END_MARKER + "\n");
    CleanPiece(END_MARKER);
    FirstPiece(END_MARKER + "\n", "");
    assert END_MARKER + "\n" + "" == END_MARKER + "\n";
    NoLines();
  }

  /** The lines of a document around such a section. */
  lemma EarlyDocument(pre: string, a: Assignment, post: string)
    returns (head: seq<string>, last: string, left: seq<string>)
    requires LineAligned(pre) && StartFree(pre) && EmbedsEndMarker(a)
    ensures Lines(pre + SectionText(a) + post) == Lines(pre) + (head + [last]) + (left + Lines(post))
    ensures head != [] && IsStart(head[0]) && IsEnd(last) && left != [] && left[|left| - 1] == END_MARKER
    ensures forall k :: 0 <= k < |head| ==> !IsEnd(head[k])
    ensures forall k :: 0 <= k < |Lines(pre)| ==> !IsStart(Lines(pre)[k])
    ensures LineAligned(pre + SectionText(a))
  {
    hide Lines, BodyText, EmbedsEndMarker, IsStart, IsEnd;
    head, last, left := EarlyEnd(a);
    var s := SectionText(a);
    LinesConcat(pre, s);
    LinesConcat(pre + s, post);
    StartFreeLines(pre);
    var h := head + [last];
    ConcatAssoc(Lines(pre), h, left);
    ConcatAssoc(Lines(pre) + h, left, Lines(post));
  }

  lemma JoinLonger(left: seq<string>, ls: seq<string>)
    requires left != []
    ensures |Join(left + ls)| >= |Join(ls)| + |left[|left| - 1]| + 1
  {
    var front, last := left[..|left| - 1], left[|left| - 1];
    JoinConcat(left, ls);
    JoinAppend(front, last);
    assert front + [last] == left;
  }

  /**
   Replacing a generated section keeps the text around it and nothing else,
   exactly when no embedded text holds the end marker; otherwise the lines
   behind the embedded marker stay.
   */
  lemma SectionReplacedIff(pre: string, a: Assignment, post: string, s': string)
    requires LineAligned(pre) && StartFree(pre) && NoCrLf(pre) && NoCrLf(post)
    ensures ReplaceSection(pre + SectionText(a) + post, s') == pre + s' + Terminated(post) <==> !EmbedsEndMarker(a)
  {
    hide Lines, BodyText, EmbedsEndMarker, WellFormedSection, SectionText, Join;
    SectionWellFormedIff(a);
    if !EmbedsEndMarker(a) {
      ReplaceKeepsSurroundings(pre, SectionText(a), post, s');
    } else {
      var head, last, left := EarlyDocument(pre, a, post);
      Locate(Lines(pre), head, last, left + Lines(post));
      JoinOfLines(pre);
      JoinOfLines(post);
      JoinLonger(left, Lines(post));
    }
  }

  /** Removing a generated section takes it out, exactly when no embedded text holds the end marker. */
  lemma SectionRemovedIff(pre: string, a: Assignment, post: string)
    requires LineAligned(pre) && StartFree(pre) && NoCrLf(pre) && NoCrLf(post)
    ensures RemoveSection(pre + SectionText(a) + post) == Unblank(pre, post).0 + Unblank(pre, post).1 <==> !EmbedsEndMarker(a)
  {
    hide Lines, BodyText, EmbedsEndMarker, WellFormedSection, SectionText, Join, Unblank, RemoveSection, KeptLines;
    SectionWellFormedIff(a);
    if !EmbedsEndMarker(a) {
      RemoveKeepsSurroundings(pre, SectionText(a), post);
    } else {
      RemovalLeaves(pre, a, post);
      UnblankShorter(pre, post);
    }
  }

  lemma UnblankShorter(pre: string, post: string)
    ensures |Unblank(pre, post).0| + |Unblank(pre, post).1| <= |pre| + |post|
  {
  }

  lemma RemovalLeaves(pre: string, a: Assignment, post: string)
    requires LineAligned(pre) && StartFree(pre) && NoCrLf(pre) && NoCrLf(post) && EmbedsEndMarker(a)
    ensures |RemoveSection(pre + SectionText(a) + post)| > |pre| + |post|
  {
    hide Lines, BodyText, EmbedsEndMarker, SectionText, Join, RemoveSection, RemoveFrom;
    var head, last, left := EarlyDocument(pre, a, post);
    var doc := pre + SectionText(a) + post;
    var closed := EndsWithNewline(doc);
    var after := left + Lines(post);
    RemoveFromIs(Lines(pre), head, last, after, closed);
    RemoveIsRemoveFrom(doc, |Lines(pre)|);
    JoinOfLines(pre);
    JoinOfLines(post);
    KeptLong(Lines(pre), left, Lines(post));
    assert |END_MARKER| > 3;
  }

  lemma KeptLong(before: seq<string>, left: seq<string>, ls: seq<string>)
    requires left != [] && left[|left| - 1] == END_MARKER
    ensures var kept := KeptLines(before, left + ls);
            |Join(kept.0)| + |Join(kept.1)| + 1 >= |Join(before)| + |Join(ls)| + |END_MARKER| + 1
  {
    hide Join;
    JoinLonger(left, ls);
    if left[0] == "" {
      assert |END_MARKER| > 0 && |left| > 1;
      assert (left + ls)[1..] == left[1..] + ls;
      JoinLonger(left[1..], ls);
    } else if before != [] && before[|before| - 1] == "" {
      JoinBlankLast(before);
    }
  }

  // ----- What stands under which heading ------------------------------------------------------

  lemma Holds(pre: string, m: string, post: string)
    ensures Contains(pre + m + post, m)
  {
    var s := pre + m + post;
    assert s[|pre|..|pre| + |m|] == m;
    assert OccursAt(s, m, |pre|);
  }

  lemma StillHolds(pre: string, s: string, post: string, m: string)
    requires Contains(s, m)
    ensures Contains(pre + s, m) && Contains(s + post, m)
  {
    var i :| OccursAt(s, m, i);
    OccursAtSuffix(pre, s, m, i);
    OccursAtPrefix(s, post, m, i);
  }

  lemma InChain(f: string, s: string, g: string, k: string, r: string, e: string, m: string)
    requires Contains(f, m) || Contains(s, m) || Contains(g, m) || Contains(k, m) || Contains(r, m)
    ensures Contains(f + s + g + k + r + "\n" + e, m)
  {
    hide Contains;
    if Contains(f, m) { StillHolds("", f, s, m); } else if Contains(s, m) { StillHolds(f, s, "", m); }
    if Contains(f + s, m) { StillHolds("", f + s, g, m); } else if Contains(g, m) { StillHolds(f + s, g, "", m); }
    if Contains(f + s + g, m) { StillHolds("", f + s + g, k, m); } else if Contains(k, m) { StillHolds(f + s + g, k, "", m); }
    if Contains(f + s + g + k, m) { StillHolds("", f + s + g + k, r, m); } else { StillHolds(f + s + g + k, r, "", m); }
    StillHolds("", f + s + g + k + r, "\n", m);
    StillHolds("", f + s + g + k + r + "\n", e, m);
  }

  lemma PartHolds(heading: string, text: string)
    ensures Contains(heading + Closed(text), heading + text)
  {
    var rest := if EndsWithNewline(text) then "" else "\n";
    Holds("", heading + text, rest);
    assert "" + (heading + text) + rest == heading + Closed(text);
  }

  /** Each value stands behind its own label and each text under its own heading, whatever the other parts hold. */
  lemma ValuesUnderLabels(a: Assignment)
    ensures Contains(SectionText(a), "- **Branch:** `" + a.branch + "`\n- **CLI:** " + a.cli + "\n")
    ensures a.spec.Some? ==> Contains(SectionText(a), "\n### Spec\n\n" + a.spec.value)
    ensures a.ownedFiles.Some? ==> Contains(SectionText(a), "\n### File Ownership\n\n" + FileLines(a.ownedFiles.value))
    ensures a.skill.Some? ==> Contains(SectionText(a), "\n" + a.skill.value)
    ensures a.rules.Some? ==> Contains(SectionText(a), "\n## Inter-Agent Rules\n\n" + a.rules.value)
  {
    var f := START_MARKER + "\n" + TITLE + Wrapped("- **Branch:** `", a.branch, "`\n") + Wrapped("- **CLI:** ", a.cli, "\n");
    var end := END_MARKER + "\n";
    hide Contains, Closed, FileLines;
    FieldsHeld(a.branch, a.cli);
    InChain(f, SpecPart(a), FilesPart(a), SkillPart(a), RulesPart(a), end, "- **Branch:** `" + a.branch + "`\n- **CLI:** " + a.cli + "\n");
    if a.spec.Some? {
      PartHolds("\n### Spec\n\n", a.spec.value);
      InChain(f, SpecPart(a), FilesPart(a), SkillPart(a), RulesPart(a), end, "\n### Spec\n\n" + a.spec.value);
    }
    if a.ownedFiles.Some? {
      Holds("", FilesPart(a), "");
      assert "" + FilesPart(a) + "" == FilesPart(a);
      InChain(f, SpecPart(a), FilesPart(a), SkillPart(a), RulesPart(a), end, "\n### File Ownership\n\n" + FileLines(a.ownedFiles.value));
    }
    if a.skill.Some? {
      PartHolds("\n", a.skill.value);
      InChain(f, SpecPart(a), FilesPart(a), SkillPart(a), RulesPart(a), end, "\n" + a.skill.value);
    }
    if a.rules.Some? {
      PartHolds("\n## Inter-Agent Rules\n\n", a.rules.value);
      InChain(f, SpecPart(a), FilesPart(a), SkillPart(a), RulesPart(a), end, "\n## Inter-Agent Rules\n\n" + a.rules.value);
    }
  }

  /** The section opens with the marker line and its title. */
  lemma Opening(a: Assignment)
    ensures ("<!-- git-paw:start" + " \U{2014} managed by git-paw," + " do not edit manually -->") + "\n"
            + "\n## git-paw Session Assignment\n\n" <= SectionText(a)
  {
    var f := START_MARKER + "\n" + TITLE;
    hide Wrapped, SpecPart, FilesPart, SkillPart, RulesPart;
    assert f <= f + Wrapped("- **Branch:** `", a.branch, "`\n");
  }

  lemma FieldsHeld(branch: string, cli: string)
    ensures Contains(START_MARKER + "\n" + TITLE + Wrapped("- **Branch:** `", branch, "`\n") + Wrapped("- **CLI:** ", cli, "\n"),
                     "- **Branch:** `" + branch + "`\n- **CLI:** " + cli + "\n")
  {
    var head, x, y := START_MARKER + "\n" + TITLE, Wrapped("- **Branch:** `", branch, "`\n"), Wrapped("- **CLI:** ", cli, "\n");
    FieldsAre(branch, cli);
    Holds(head, x + y, "");
    ConcatAssoc(head, x, y);
    assert head + (x + y) + "" == head + (x + y);
  }

  lemma FieldsAre(branch: string, cli: string)
    ensures Wrapped("- **Branch:** `", branch, "`\n") + Wrapped("- **CLI:** ", cli, "\n")
            == "- **Branch:** `" + branch + "`\n- **CLI:** " + cli + "\n"
  {
    assert "`\n" + "- **CLI:** " == "`\n- **CLI:** ";
  }

  /** The owned files are listed in order, one to a line. */
  lemma {:induction false} FilesInOrder(x: seq<string>, y: seq<string>)
    ensures FileLines(x + y) == FileLines(x) + FileLines(y)
    ensures |x| == 1 ==> FileLines(x) == "- `" + x[0] + "`\n"
    decreases |y|
  {
    if |x| == 1 {
      assert x[..0] == [];
      assert Wrapped("- `", x[0], "`\n") == "- `" + x[0] + "`\n";
    }
    if y == [] {
      assert x + y == x;
    } else {
      assert (x + y)[..|x + y| - 1] == x + y[..|y| - 1];
      FilesInOrder(x, y[..|y| - 1]);
    }
  }
}
