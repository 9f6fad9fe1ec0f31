/**
 `AGENTS.md` under both editors at once: user text around at most one session
 block and at most one orchestrator pointer, over whole runs of tool steps.
 */
module ManagedDocument {
  import opened Text
  import opened SessionBlock
  import opened OrchestratorPointer

  /** A document cut into user text and the managed regions, in file order. */
  datatype Doc =
    | Plain(a: string)
    | WithSession(a: string, s: string, b: string)
    | WithPointer(a: string, b: string)
    | SessionFirst(a: string, s: string, b: string, c: string)
    | PointerFirst(a: string, b: string, s: string, c: string)

  function Render(d: Doc, p: string): string {
    match d
    case Plain(a) => a
    case WithSession(a, s, b) => a + s + b
    case WithPointer(a, b) => a + p + b
    case SessionFirst(a, s, b, c) => a + s + (b + p + c)
    case PointerFirst(a, b, s, c) => (a + p + b) + s + c
  }

  /** Text a user wrote: it opens no region, and its lines survive being split and rejoined. */
  ghost predicate UserText(t: string) {
    StartFree(t) && NoCrLf(t) && !Contains(t, POINTER_START)
  }

  /** A generated session section, free of the other editor's start marker. */
  ghost predicate UsableSection(s: string) {
    WellFormedSection(s) && !Contains(s, POINTER_START)
  }

  /** Bundled prose whose pointer section the session editor passes over. */
  ghost predicate UsableProse(prose: string) {
    && PlainProse(prose)
    && StartFree(PointerSection(prose))
    && NoCrLf(PointerSection(prose))
  }

  ghost predicate Valid(d: Doc) {
    match d
    case Plain(a) => UserText(a)
    case WithSession(a, s, b) => LineAligned(a) && UserText(a) && UsableSection(s) && UserText(b)
    case WithPointer(a, b) => LineAligned(a) && UserText(a) && UserText(b)
    case SessionFirst(a, s, b, c) =>
      LineAligned(a) && UserText(a) && UsableSection(s) && LineAligned(b) && UserText(b) && UserText(c)
    case PointerFirst(a, b, s, c) =>
      LineAligned(a) && UserText(a) && LineAligned(b) && UserText(b) && UsableSection(s) && UserText(c)
  }

  // ----- One step --------------------------------------------------------

  datatype Op = InjectSession(section: string) | RemoveSession | InjectOrchestrator

  ghost predicate ValidOp(op: Op) {
    op.InjectSession? ==> UsableSection(op.section)
  }

  /** What the code does to the file's text. */
  ghost function Apply(op: Op, content: string, prose: string): string {
    match op
    case InjectSession(s) => InjectSection(content, s)
    case RemoveSession => RemoveSection(content)
    case InjectOrchestrator => InjectPointer(content, prose)
  }

  /** What it should do to the regions and the text around them. */
  function Step(op: Op, d: Doc): Doc {
    match op
    case InjectSession(s') =>
      (match d
       case Plain(a) => WithSession(Gap(a), s', "")
       case WithSession(a, s, b) => WithSession(a, s', Terminated(b))
       case WithPointer(a, b) => PointerFirst(a, Terminated(b) + "\n", s', "")
       case SessionFirst(a, s, b, c) => SessionFirst(a, s', b, Terminated(c))
       case PointerFirst(a, b, s, c) => PointerFirst(a, b, s', Terminated(c)))
    case RemoveSession =>
      (match d
       case WithSession(a, s, b) => Plain(Unblank(a, b).0 + Unblank(a, b).1)
       case SessionFirst(a, s, b, c) => WithPointer(Unblank(a, b).0 + Unblank(a, b).1, c)
       case PointerFirst(a, b, s, c) => WithPointer(a, Unblank(b, c).0 + Unblank(b, c).1)
       case _ => d)
    case InjectOrchestrator =>
      (match d
       case Plain(a) => WithPointer(Gap(a), "")
       case WithSession(a, s, b) => SessionFirst(a, s, Terminated(b) + "\n", "")
       case _ => d)
  }

  /** Existing text with its last line closed and a blank line after it; nothing when there is no text. */
  function Gap(a: string): string {
    if a == "" then "" else Terminated(a) + "\n"
  }

  // ----- Facts about user text -------------------------------------------

  lemma UserTextConcat(a: string, b: string)
    requires LineAligned(a) && UserText(a) && UserText(b)
    ensures UserText(a + b)
  {
    StartFreeConcat(a, b);
    NoCrLfConcat(a, b);
    OrchestratorPointer.MarkerFacts();
    ContainsConcat(a, b, POINTER_START);
  }

  lemma NewlineIsUserText()
    ensures UserText("\n") && UserText("") && Lines("\n") == [""]
  {
    FirstPiece("\n", "");
    assert "\n" + "" == "\n";
    assert !IsStart("");
  }

  lemma LineOfPiece(s: string)
    requires '\n' !in s && s != "" && NoCrLf(s)
    ensures Lines(s) == [s] && Lines(s + "\n") == [s]
  {
    assert s[|s| - 1] in s;
    CleanPiece(s);
    FirstPiece(s + "\n", "");
    assert s + "\n" + "" == s + "\n";
    var p, rest := SplitPiece(s);
    assert p != "" ==> p[|p| - 1] in s;
  }

  /** Closing the last line leaves the lines as they are. */
  lemma {:induction false} TerminatedLines(t: string)
    requires NoCrLf(t)
    ensures Lines(Terminated(t)) == Lines(t)
    decreases |t|
  {
    if t != "" {
      var p, rest := SplitPiece(t);
      if IsPiece(p) {
        NoCrLfSplit(p, rest);
        TerminatedLines(rest);
        TerminatedConcat(p, rest);
        FirstPiece(p, rest);
        FirstPiece(p, Terminated(rest));
      } else {
        assert p == t by { assert p + "" == p; }
        LineOfPiece(t);
      }
    }
  }

  lemma TerminatedUserText(t: string)
    requires UserText(t)
    ensures UserText(Terminated(t))
  {
    TerminatedLines(t);
    OrchestratorPointer.MarkerFacts();
    NoMarkerBeforeNewline(t, POINTER_START);
  }

  lemma GapUserText(t: string)
    requires UserText(t)
    ensures UserText(Gap(t)) && LineAligned(Gap(t))
    ensures UserText(Terminated(t) + "\n")
  {
    TerminatedUserText(t);
    NewlineIsUserText();
    UserTextConcat(Terminated(t), "\n");
  }

  lemma UnblankUserText(pre: string, post: string)
    requires LineAligned(pre) && UserText(pre) && UserText(post)
    ensures var (x, y) := Unblank(pre, post);
            && LineAligned(x) && UserText(x) && UserText(y) && UserText(x + y)
            && (LineAligned(post) ==> LineAligned(x + y))
  {
    hide Lines, StartFree, Contains;
    var (x, y) := Unblank(pre, post);
    if FirstLineBlank(post) {
      assert post == "\n" + y;
      StartFreeConcat("\n", y);
      NoCrLfSplit("\n", y);
      OrchestratorPointer.MarkerFacts();
      ContainsConcat("\n", y, POINTER_START);
    } else if LastLineBlank(pre) && pre != "" {
      BlankLastLine(pre);
      assert pre == x + "\n";
      StartFreeConcat(x, "\n");
      NoCrLfSplit(x, "\n");
      OrchestratorPointer.MarkerFacts();
      ContainsConcat(x, "\n", POINTER_START);
    }
    UserTextConcat(x, y);
  }

  // ----- Each step of the code is the step on regions ---------------------

  lemma TerminatedInner(x: string, y: string, z: string)
    requires LineAligned(x) && EndsWithNewline(y)
    ensures Terminated(x + y + z) == x + y + Terminated(z)
    ensures x + y + z != ""
  {
    TerminatedConcat(x + y, z);
  }

  lemma InjectReplaces(pre: string, s: string, post: string, s': string)
    requires LineAligned(pre) && StartFree(pre) && NoCrLf(pre) && NoCrLf(post)
    requires WellFormedSection(s)
    ensures InjectSection(pre + s + post, s') == pre + s' + Terminated(post)
  {
    ReplaceKeepsSurroundings(pre, s, post, s');
  }

  /** User text on either side of the pointer section, as the session editor sees it. */
  lemma AroundPointer(x: string, prose: string, y: string)
    requires LineAligned(x) && UserText(x) && UserText(y) && UsableProse(prose)
    ensures StartFree(x + PointerSection(prose) + y) && NoCrLf(x + PointerSection(prose) + y)
    ensures LineAligned(y) ==> LineAligned(x + PointerSection(prose) + y)
    ensures Terminated(x + PointerSection(prose) + y) == x + PointerSection(prose) + Terminated(y)
    ensures x + PointerSection(prose) + y != ""
  {
    var p := PointerSection(prose);
    StartFreeConcat(x, p);
    AlignedConcat(x, p);
    StartFreeConcat(x + p, y);
    NoCrLfConcat(x, p);
    NoCrLfConcat(x + p, y);
    TerminatedInner(x, p, y);
  }

  lemma Regroup(x: string, y: string, z: string, w: string)
    ensures (x + y + z) + w == x + y + (z + w)
    ensures (x + y + z) + w + "" == x + y + (z + w) + ""
    ensures x + y + (z + w) + "" == x + y + (z + w)
  {
  }

  lemma InjectSessionRefines(d: Doc, s': string, prose: string)
    requires Valid(d) && UsableProse(prose) && UsableSection(s')
    ensures InjectSection(Render(d, PointerSection(prose)), s')
            == Render(Step(InjectSession(s'), d), PointerSection(prose))
  {
    var p := PointerSection(prose);
    match d {
      case Plain(a) =>
        assert Gap(a) + s' + "" == Gap(a) + s';
      case WithSession(a, s, b) =>
        InjectReplaces(a, s, b, s');
      case WithPointer(a, b) =>
        AroundPointer(a, prose, b);
        Regroup(a, p, Terminated(b), "\n");
        assert (a + p + (Terminated(b) + "\n")) + s' + "" == (a + p + (Terminated(b) + "\n")) + s';
      case SessionFirst(a, s, b, c) =>
        AroundPointer(b, prose, c);
        InjectReplaces(a, s, b + p + c, s');
      case PointerFirst(a, b, s, c) =>
        AroundPointer(a, prose, b);
        InjectReplaces(a + p + b, s, c, s');
    }
  }

  lemma RemoveSessionRefines(d: Doc, prose: string)
    requires Valid(d) && UsableProse(prose)
    ensures RemoveSection(Render(d, PointerSection(prose))) == Render(Step(RemoveSession, d), PointerSection(prose))
  {
    var p := PointerSection(prose);
    match d {
      case Plain(a) =>
      case WithSession(a, s, b) =>
        RemoveKeepsSurroundings(a, s, b);
      case WithPointer(a, b) =>
        AroundPointer(a, prose, b);
      case SessionFirst(a, s, b, c) =>
        AroundPointer(b, prose, c);
        RemoveKeepsSurroundings(a, s, b + p + c);
        UnblankBeforePointer(a, b, p, c);
      case PointerFirst(a, b, s, c) =>
        AroundPointer(a, prose, b);
        RemoveKeepsSurroundings(a + p + b, s, c);
        UnblankAfterPointer(a, p, b, c, prose);
    }
  }

  lemma UnblankBeforePointer(a: string, b: string, p: string, c: string)
    requires p != "" && p[0] != '\n'
    ensures var (x, y) := Unblank(a, b);
            Unblank(a, b + p + c).0 + Unblank(a, b + p + c).1 == (x + y) + p + c
  {
    var post := b + p + c;
    assert post[0] == if b != "" then b[0] else p[0];
    if FirstLineBlank(b) {
      assert post[1..] == b[1..] + p + c;
    }
  }

  lemma PointerLastLine(prose: string)
    ensures var lp := Lines(PointerSection(prose)); lp != [] && lp[|lp| - 1] == POINTER_END
    ensures POINTER_END != ""
  {
    OrchestratorPointer.MarkerFacts();
    SectionSplits(prose);
    CleanPiece(POINTER_END);
    LinesConcat(SectionHead(prose), POINTER_END + "\n");
    FirstPiece(POINTER_END + "\n", "");
    assert POINTER_END + "\n" + "" == POINTER_END + "\n";
  }

  lemma LastBlankAfterPointer(a: string, b: string, prose: string)
    requires LineAligned(a) && LineAligned(b)
    ensures LastLineBlank(a + PointerSection(prose) + b) <==> LastLineBlank(b)
  {
    var p := PointerSection(prose);
    PointerLastLine(prose);
    AlignedConcat(a, p);
    LinesConcat(a + p, b);
    LinesConcat(a, p);
  }

  lemma UnblankAfterPointer(a: string, p: string, b: string, c: string, prose: string)
    requires p == PointerSection(prose) && LineAligned(a) && LineAligned(b)
    ensures var (x, y) := Unblank(b, c);
            Unblank(a + p + b, c).0 + Unblank(a + p + b, c).1 == a + p + (x + y)
  {
    LastBlankAfterPointer(a, b, prose);
    assert !LastLineBlank("");
    hide LastLineBlank, FirstLineBlank, PointerSection, LineAligned;
    var (x, y) := Unblank(b, c);
    if !FirstLineBlank(c) && LastLineBlank(b) {
      assert (a + p + b)[..|a + p + b| - 1] == a + p + x;
    }
    ConcatAssoc(a + p, x, y);
  }

  lemma NoPointerStart(x: string, s: string, y: string)
    requires LineAligned(x) && !Contains(x, POINTER_START)
    requires EndsWithNewline(s) && !Contains(s, POINTER_START) && !Contains(y, POINTER_START)
    ensures !Contains(x + s + y, POINTER_START)
  {
    OrchestratorPointer.MarkerFacts();
    ContainsConcat(x, s, POINTER_START);
    ContainsConcat(x + s, y, POINTER_START);
  }

  lemma InjectPointerRefines(d: Doc, prose: string)
    requires Valid(d) && UsableProse(prose)
    ensures InjectPointer(Render(d, PointerSection(prose)), prose)
            == Render(Step(InjectOrchestrator, d), PointerSection(prose))
  {
    var p := PointerSection(prose);
    match d {
      case Plain(a) =>
        InjectAppends(a, prose);
        assert Gap(a) + p + "" == Gap(a) + p;
      case WithSession(a, s, b) =>
        NoPointerStart(a, s, b);
        InjectAppends(a + s + b, prose);
        TerminatedInner(a, s, b);
        Regroup(a, s, Terminated(b), "\n");
        AppendPointer(a, s, Terminated(b) + "\n", p);
      case WithPointer(a, b) =>
        AbsentMeansNowhere(a, POINTER_START);
        InjectKeepsSection(a, prose, b);
      case SessionFirst(a, s, b, c) =>
        NoPointerStart(a, s, b);
        AbsentMeansNowhere(a + s + b, POINTER_START);
        InjectKeepsSection(a + s + b, prose, c);
        AroundSession(a, s, b, p, c);
      case PointerFirst(a, b, s, c) =>
        AbsentMeansNowhere(a, POINTER_START);
        InjectKeepsSection(a, prose, b + s + c);
        AroundSession(a, p, b, s, c);
    }
  }

  lemma AppendPointer(a: string, s: string, b: string, p: string)
    ensures (a + s + b) + p == a + s + (b + p + "")
  {
  }

  lemma AroundSession(a: string, s: string, b: string, p: string, c: string)
    ensures (a + s + b) + p + c == a + s + (b + p + c)
  {
  }

  lemma StepKeepsValid(op: Op, d: Doc)
    requires Valid(d) && ValidOp(op)
    ensures Valid(Step(op, d))
  {
    NewlineIsUserText();
    match d {
      case Plain(a) => GapUserText(a);
      case WithSession(a, s, b) => TerminatedUserText(b); GapUserText(b); UnblankUserText(a, b);
      case WithPointer(a, b) => GapUserText(b);
      case SessionFirst(a, s, b, c) => TerminatedUserText(c); UnblankUserText(a, b);
      case PointerFirst(a, b, s, c) => TerminatedUserText(c); UnblankUserText(b, c);
    }
  }

  /** The text editors do to the file exactly what one step does to its regions. */
  lemma StepRefines(op: Op, d: Doc, prose: string)
    requires Valid(d) && ValidOp(op) && UsableProse(prose)
    ensures Valid(Step(op, d))
    ensures Apply(op, Render(d, PointerSection(prose)), prose) == Render(Step(op, d), PointerSection(prose))
  {
    StepKeepsValid(op, d);
    match op {
      case InjectSession(s) => InjectSessionRefines(d, s, prose);
      case RemoveSession => RemoveSessionRefines(d, prose);
      case InjectOrchestrator => InjectPointerRefines(d, prose);
    }
  }

  // ----- Whole runs ------------------------------------------------------

  ghost function Run(ops: seq<Op>, content: string, prose: string): string {
    if ops == [] then content else Run(ops[1..], Apply(ops[0], content, prose), prose)
  }

  function Steps(ops: seq<Op>, d: Doc): Doc {
    if ops == [] then d else Steps(ops[1..], Step(ops[0], d))
  }

  ghost predicate ValidOps(ops: seq<Op>) {
    forall i :: 0 <= i < |ops| ==> ValidOp(ops[i])
  }

  /** Over every run from any well-formed document the file stays the rendering of its regions. */
  lemma {:induction false} RunRefines(ops: seq<Op>, d: Doc, prose: string)
    requires Valid(d) && ValidOps(ops) && UsableProse(prose)
    ensures Valid(Steps(ops, d))
    ensures Run(ops, Render(d, PointerSection(prose)), prose) == Render(Steps(ops, d), PointerSection(prose))
    decreases |ops|
  {
    if ops != [] {
      StepRefines(ops[0], d, prose);
      RunRefines(ops[1..], Step(ops[0], d), prose);
    }
  }

  function NonBlank(ls: seq<string>): seq<string> {
    if ls == [] then []
    else (if ls[0] == "" then [] else [ls[0]]) + NonBlank(ls[1..])
  }

  function TextLines(t: string): seq<string> {
    NonBlank(Lines(t))
  }

  /** The non-blank lines outside both managed regions, in file order. */
  function OutsideLines(d: Doc): seq<string> {
    match d
    case Plain(a) => TextLines(a)
    case WithSession(a, s, b) => TextLines(a) + TextLines(b)
    case WithPointer(a, b) => TextLines(a) + TextLines(b)
    case SessionFirst(a, s, b, c) => TextLines(a) + TextLines(b) + TextLines(c)
    case PointerFirst(a, b, s, c) => TextLines(a) + TextLines(b) + TextLines(c)
  }

  lemma {:induction false} NonBlankConcat(a: seq<string>, b: seq<string>)
    ensures NonBlank(a + b) == NonBlank(a) + NonBlank(b)
    decreases |a|
  {
    if a == [] {
      assert a + b == b;
    } else {
      assert (a + b)[1..] == a[1..] + b;
      NonBlankConcat(a[1..], b);
      ConcatAssoc(if a[0] == "" then [] else [a[0]], NonBlank(a[1..]), NonBlank(b));
    }
  }

  lemma GapLines(t: string)
    requires UserText(t)
    ensures TextLines(Gap(t)) == TextLines(t)
    ensures TextLines(Terminated(t) + "\n") == TextLines(t)
    ensures Lines(Terminated(t)) == Lines(t)
  {
    TerminatedLines(t);
    NewlineIsUserText();
    LinesConcat(Terminated(t), "\n");
    NonBlankConcat(Lines(t), [""]);
    assert NonBlank([""]) == NonBlank([]);
  }

  lemma NonBlankSkips(ls: seq<string>)
    ensures NonBlank([""] + ls) == NonBlank(ls) && NonBlank(ls + [""]) == NonBlank(ls)
  {
    NonBlankConcat([""], ls);
    NonBlankConcat(ls, [""]);
    assert NonBlank([""]) == NonBlank([]);
  }

  lemma FirstBlankDropped(post: string)
    requires FirstLineBlank(post)
    ensures TextLines(post[1..]) == TextLines(post)
  {
    NewlineIsUserText();
    assert post == "\n" + post[1..];
    LinesConcat("\n", post[1..]);
    NonBlankSkips(Lines(post[1..]));
  }

  lemma LastBlankDropped(pre: string, x: string)
    requires pre == x + "\n" && LineAligned(x)
    ensures TextLines(x) == TextLines(pre)
  {
    NewlineIsUserText();
    LinesConcat(x, "\n");
    NonBlankSkips(Lines(x));
  }

  lemma UnblankLines(pre: string, post: string)
    requires LineAligned(pre) && UserText(pre) && UserText(post)
    ensures var (x, y) := Unblank(pre, post);
            TextLines(x + y) == TextLines(pre) + TextLines(post)
  {
    hide Lines, NonBlank, UserText, FirstLineBlank, LastLineBlank;
    var (x, y) := Unblank(pre, post);
    assert LineAligned(x) by { UnblankUserText(pre, post); }
    LinesConcat(x, y);
    NonBlankConcat(Lines(x), Lines(y));
    if FirstLineBlank(post) {
      FirstBlankDropped(post);
    } else if LastLineBlank(pre) && pre != "" {
      LastBlankDropped(pre, x);
    }
  }

  lemma NoTextLines(ls: seq<string>)
    ensures TextLines("") == [] && ls + [] == ls && [] + ls == ls
  {
  }

  lemma InjectKeepsOutside(s': string, d: Doc)
    requires Valid(d)
    ensures OutsideLines(Step(InjectSession(s'), d)) == OutsideLines(d)
  {
    hide Lines, NonBlank, UserText, Unblank, TextLines, Terminated;
    match d {
      case Plain(a) => GapLines(a); NoTextLines(TextLines(a));
      case WithSession(a, s, b) => TerminatedTextLines(b);
      case WithPointer(a, b) => GapLines(b); NoTextLines(TextLines(a) + TextLines(b));
      case SessionFirst(a, s, b, c) => TerminatedTextLines(c);
      case PointerFirst(a, b, s, c) => TerminatedTextLines(c);
    }
  }

  lemma TerminatedTextLines(t: string)
    requires UserText(t)
    ensures TextLines(Terminated(t)) == TextLines(t)
  {
    hide Lines, NonBlank, UserText, Terminated;
    GapLines(t);
  }

  lemma RemoveKeepsOutside(d: Doc)
    requires Valid(d)
    ensures OutsideLines(Step(RemoveSession, d)) == OutsideLines(d)
  {
    hide Lines, NonBlank, UserText, Unblank, TextLines;
    match d {
      case WithSession(a, s, b) => UnblankLines(a, b);
      case SessionFirst(a, s, b, c) => UnblankLines(a, b);
      case PointerFirst(a, b, s, c) =>
        UnblankLines(b, c);
        ConcatAssoc(TextLines(a), TextLines(b), TextLines(c));
      case _ =>
    }
  }

  lemma PointerKeepsOutside(d: Doc)
    requires Valid(d)
    ensures OutsideLines(Step(InjectOrchestrator, d)) == OutsideLines(d)
  {
    hide Lines, NonBlank, UserText, Unblank, TextLines, Terminated;
    match d {
      case Plain(a) => GapLines(a); NoTextLines(TextLines(a));
      case WithSession(a, s, b) => GapLines(b); NoTextLines(TextLines(a) + TextLines(b));
      case _ =>
    }
  }

  /** No step loses, adds or reorders a non-blank line outside the regions. */
  lemma StepKeepsOutside(op: Op, d: Doc)
    requires Valid(d) && ValidOp(op)
    ensures OutsideLines(Step(op, d)) == OutsideLines(d)
  {
    hide Step, OutsideLines, Valid;
    match op {
      case InjectSession(s') => InjectKeepsOutside(s', d);
      case RemoveSession => RemoveKeepsOutside(d);
      case InjectOrchestrator => PointerKeepsOutside(d);
    }
  }

  /**
   Over every run, from any document with any user text around the regions:
   at most one session block and one pointer, apart from each other, and the
   non-blank lines outside them exactly the user's.
   */
  lemma {:induction false} RunKeepsUserLines(ops: seq<Op>, d: Doc, prose: string)
    requires Valid(d) && ValidOps(ops) && UsableProse(prose)
    ensures exists d' :: Valid(d') && OutsideLines(d') == OutsideLines(d)
                         && Run(ops, Render(d, PointerSection(prose)), prose) == Render(d', PointerSection(prose))
    decreases |ops|
  {
    if ops != [] {
      StepRefines(ops[0], d, prose);
      StepKeepsOutside(ops[0], d);
      RunKeepsUserLines(ops[1..], Step(ops[0], d), prose);
    }
  }

  // ----- Runs from a file without regions ----------------------------------

  /** The five layouts a file `u` can be in: its text untouched in front, the regions behind it. */
  ghost predicate LaidOut(d: Doc, u: string) {
    match d
    case Plain(a) => a == u || a == Terminated(u)
    case WithSession(a, _, b) => a == Gap(u) && b == ""
    case WithPointer(a, b) => a == Gap(u) && b == ""
    case SessionFirst(a, _, b, c) => a == Gap(u) && b == "\n" && c == ""
    case PointerFirst(a, b, _, c) => a == Gap(u) && b == "\n" && c == ""
  }

  lemma GapUnblanked(u: string)
    requires UserText(u)
    ensures var (x, y) := Unblank(Gap(u), ""); x + y == Terminated(u)
    ensures Gap(Terminated(u)) == Gap(u)
    ensures var (x, y) := Unblank(Gap(u), "\n"); x + y == Gap(u)
    ensures var (x, y) := Unblank("\n", ""); x + y == ""
  {
    NewlineIsUserText();
    if u != "" {
      LinesConcat(Terminated(u), "\n");
      assert LastLineBlank(Gap(u));
    }
    assert LastLineBlank("\n");
    assert Gap(u) + "" == Gap(u);
    assert Terminated(u) + "" == Terminated(u);
  }

  lemma StepKeepsLayout(op: Op, d: Doc, u: string)
    requires UserText(u) && LaidOut(d, u)
    ensures LaidOut(Step(op, d), u)
  {
    GapUnblanked(u);
  }

  lemma {:induction false} StepsKeepLayout(ops: seq<Op>, d: Doc, u: string)
    requires UserText(u) && LaidOut(d, u)
    ensures LaidOut(Steps(ops, d), u)
    decreases |ops|
  {
    if ops != [] {
      StepKeepsLayout(ops[0], d, u);
      StepsKeepLayout(ops[1..], Step(ops[0], d), u);
    }
  }

  /** Whatever the tool does to a marker-free file, the file still begins with every byte of it. */
  lemma RunKeepsUserText(ops: seq<Op>, u: string, prose: string)
    requires UserText(u) && ValidOps(ops) && UsableProse(prose)
    ensures u <= Run(ops, u, prose)
    ensures Run(ops, u, prose) == Render(Steps(ops, Plain(u)), PointerSection(prose))
    ensures LaidOut(Steps(ops, Plain(u)), u)
  {
    RunRefines(ops, Plain(u), prose);
    StepsKeepLayout(ops, Plain(u), u);
  }

  lemma {:induction false} RunAppend(ops: seq<Op>, op: Op, content: string, prose: string)
    ensures Run(ops + [op], content, prose) == Apply(op, Run(ops, content, prose), prose)
    decreases |ops|
  {
    if ops == [] {
      assert ops + [op] == [op];
      assert Run([op], content, prose) == Run([], Apply(op, content, prose), prose);
    } else {
      assert (ops + [op])[1..] == ops[1..] + [op];
      RunAppend(ops[1..], op, Apply(ops[0], content, prose), prose);
    }
  }

  /** Tearing a session down leaves no session marker behind, whatever ran before it. */
  lemma TeardownLeavesNoSession(ops: seq<Op>, d: Doc, prose: string)
    requires Valid(d) && ValidOps(ops) && UsableProse(prose)
    ensures !HasSection(Run(ops + [RemoveSession], Render(d, PointerSection(prose)), prose))
  {
    RunAppend(ops, RemoveSession, Render(d, PointerSection(prose)), prose);
    RunRefines(ops, d, prose);
    var last := Steps(ops, d);
    StepRefines(RemoveSession, last, prose);
    match Step(RemoveSession, last) {
      case Plain(a) =>
      case WithPointer(a, b) => AroundPointer(a, prose, b);
    }
  }
}
