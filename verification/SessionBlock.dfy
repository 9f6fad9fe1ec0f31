/**
 The session block of `AGENTS.md`: a region delimited by whole marker lines,
 which git-paw injects, replaces and removes line by line.
 */
module SessionBlock {
  import opened Text

  /** Prefix that opens the block; the rest of its line is ignored. */
  const START_PREFIX := "<!-- git-paw:start"

  /** The line that closes the block. */
  const END_MARKER := "<!-- git-paw:end -->"

  predicate IsStart(line: string) {
    StartsWith(line, START_PREFIX)
  }

  predicate IsEnd(line: string) {
    Find(line, END_MARKER) != -1
  }

  /** Index of the first start line at or after `from`, or the number of lines. */
  function FirstStart(ls: seq<string>, from: nat := 0): (r: nat)
    requires from <= |ls|
    ensures from <= r <= |ls|
    ensures r < |ls| ==> IsStart(ls[r])
    ensures forall k :: from <= k < r ==> !IsStart(ls[k])
    decreases |ls| - from
  {
    if from == |ls| || IsStart(ls[from]) then from else FirstStart(ls, from + 1)
  }

  /** Index of the first line at or after `from` holding the end marker, or the number of lines. */
  function FirstEnd(ls: seq<string>, from: nat): (r: nat)
    requires from <= |ls|
    ensures from <= r <= |ls|
    ensures r < |ls| ==> IsEnd(ls[r])
    ensures forall k :: from <= k < r ==> !IsEnd(ls[k])
    decreases |ls| - from
  {
    if from == |ls| || IsEnd(ls[from]) then from else FirstEnd(ls, from + 1)
  }

  // ----- Specification functions -----------------------------------------

  ghost predicate HasSection(content: string) {
    exists i :: 0 <= i < |Lines(content)| && IsStart(Lines(content)[i])
  }

  ghost function ReplaceSection(content: string, section: string): string {
    var ls := Lines(content);
    var start := FirstStart(ls);
    if start == |ls| then content
    else ReplaceFrom(ls, start, EndsWithNewline(content), section)
  }

  ghost function ReplaceFrom(ls: seq<string>, start: nat, closed: bool, section: string): string
    requires start < |ls|
  {
    var end := FirstEnd(ls, start);
    var head := Join(ls[..start]) + section;
    if end < |ls| then head + Join(ls[end + 1..])
    else if closed && !EndsWithNewline(head) then head + "\n"
    else head
  }

  ghost function InjectSection(content: string, section: string): string {
    if content == "" then section
    else if HasSection(content) then ReplaceSection(content, section)
    else Terminated(content) + "\n" + section
  }

  /** The lines a removal deletes: the block, and one adjacent blank line, trailing before leading. */
  function RemovedRange(ls: seq<string>, start: nat): (r: (nat, nat))
    requires start < |ls|
    ensures r.0 <= start < r.1 <= |ls|
  {
    var end := FirstEnd(ls, start);
    var stop := if end < |ls| then end + 1 else |ls|;
    if stop < |ls| && ls[stop] == "" then (start, stop + 1)
    else if start > 0 && ls[start - 1] == "" then (start - 1, stop)
    else (start, stop)
  }

  ghost function RemoveSection(content: string): string {
    var ls := Lines(content);
    var start := FirstStart(ls);
    if start == |ls| then content
    else RemoveFrom(ls, start, EndsWithNewline(content))
  }

  ghost function RemoveFrom(ls: seq<string>, start: nat, closed: bool): string
    requires start < |ls|
  {
    var range := RemovedRange(ls, start);
    var kept := Join(ls[..range.0]) + Join(ls[range.1..]);
    if !closed && kept != "" then kept[..|kept| - 1] else kept
  }

  // ----- The editing operations ------------------------------------------

  method HasGitPawSection(content: string) returns (found: bool)
    ensures found <==> HasSection(content)
  {
    var ls := Lines(content);
    for i := 0 to |ls|
      invariant forall k :: 0 <= k < i ==> !IsStart(ls[k])
    {
      if IsStart(ls[i]) {
        return true;
      }
    }
    return false;
  }

  /** Appends every line of `ls` to `text`, each closed by a newline. */
  method PushLines(text: string, ls: seq<string>) returns (result: string)
    ensures result == text + Join(ls)
    ensures text == "" ==> result == Join(ls)
    ensures ls == [] ==> result == text
  {
    result := text;
    for i := 0 to |ls|
      invariant result == text + Join(ls[..i])
    {
      result := result + ls[i];
      result := result + "\n";
      JoinAppend(ls[..i], ls[i]);
      assert ls[..i] + [ls[i]] == ls[..i + 1];
      ConcatAssoc(text, Join(ls[..i]), ls[i]);
      ConcatAssoc(text, Join(ls[..i]) + ls[i], "\n");
    }
    assert ls[..|ls|] == ls;
  }

  method ReplaceGitPawSection(content: string, newSection: string) returns (result: string)
    ensures result == ReplaceSection(content, newSection)
  {
    var ls := Lines(content);
    var start := FirstStart(ls);
    if start == |ls| {
      return content;
    }
    result := SpliceSection(ls, start, EndsWithNewline(content), newSection);
  }

  method SpliceSection(ls: seq<string>, start: nat, closed: bool, newSection: string) returns (result: string)
    requires start < |ls|
    ensures result == ReplaceFrom(ls, start, closed, newSection)
  {
    hide Join;
    NoLines();
    var end := FirstEnd(ls, start);
    result := PushLines("", ls[..start]);
    result := result + newSection;
    if end < |ls| && end + 1 < |ls| {
      result := PushLines(result, ls[end + 1..]);
    }
    assert end + 1 == |ls| ==> ls[end + 1..] == [] && result + "" == result;
    if end == |ls| && closed && !EndsWithNewline(result) {
      result := result + "\n";
    }
  }

  method InjectIntoContent(content: string, section: string) returns (result: string)
    ensures result == InjectSection(content, section)
  {
    if content == "" {
      return section;
    }
    var found := HasGitPawSection(content);
    if found {
      result := ReplaceGitPawSection(content, section);
      return;
    }
    result := content;
    if !EndsWithNewline(content) {
      result := result + "\n";
    }
    result := result + "\n";
    result := result + section;
  }

  method RemoveGitPawSection(content: string) returns (result: string)
    ensures result == RemoveSection(content)
  {
    var ls := Lines(content);
    var start := FirstStart(ls);
    if start == |ls| {
      return content;
    }
    result := CutSection(ls, start, EndsWithNewline(content));
  }

  method CutSection(ls: seq<string>, start: nat, closed: bool) returns (result: string)
    requires start < |ls|
    ensures result == RemoveFrom(ls, start, closed)
  {
    hide Join;
    var end := FirstEnd(ls, start);
    var deleteStart := start;
    var deleteEnd := if end < |ls| then end + 1 else |ls|;
    if deleteEnd < |ls| && ls[deleteEnd] == "" {
      deleteEnd := deleteEnd + 1;
    } else if deleteStart > 0 && ls[deleteStart - 1] == "" {
      deleteStart := deleteStart - 1;
    }
    assert (deleteStart, deleteEnd) == RemovedRange(ls, start);
    result := PushLines("", ls[..deleteStart]);
    result := PushLines(result, ls[deleteEnd..]);
    ghost var kept := Join(ls[..deleteStart]) + Join(ls[deleteEnd..]);
    AlignedConcat(Join(ls[..deleteStart]), Join(ls[deleteEnd..]));
    assert result == kept;
    if closed && !EndsWithNewline(result) && result != "" {
      result := result + "\n";
    }
    if !closed && EndsWithNewline(result) {
      result := result[..|result| - 1];
    }
  }

  // ----- What the operations mean ----------------------------------------

  /** No line of `text` opens a block. */
  ghost predicate StartFree(text: string) {
    !HasSection(text)
  }

  /** The part of a section above its closing marker line. */
  function SectionBody(s: string): string {
    if |s| < |END_MARKER| + 1 then "" else s[..|s| - |END_MARKER| - 1]
  }

  /**
   A section as git-paw generates it: it opens with the start prefix, closes
   with one end-marker line, and holds the end marker nowhere above it.
   */
  ghost predicate WellFormedSection(s: string) {
    && StartsWith(s, START_PREFIX)
    && s == SectionBody(s) + (END_MARKER + "\n")
    && LineAligned(SectionBody(s))
    && !Contains(SectionBody(s), END_MARKER)
  }

  lemma MarkerFacts()
    ensures '\n' !in START_PREFIX && '\r' !in START_PREFIX && START_PREFIX != ""
    ensures '\n' !in END_MARKER && '\r' !in END_MARKER && END_MARKER != ""
    ensures !StartsWith(END_MARKER, START_PREFIX)
    ensures CleanLine(END_MARKER)
  {
    assert START_PREFIX[13] == 's' && END_MARKER[13] == 'e';
  }

  lemma NoLines()
    ensures Lines("") == [] && Join([]) == ""
  {
  }

  lemma SectionLines(s: string)
    requires WellFormedSection(s)
    ensures Lines(s) == Lines(SectionBody(s)) + [END_MARKER]
    ensures IsStart(Lines(s)[0]) && IsEnd(END_MARKER)
    ensures forall k :: 0 <= k < |Lines(SectionBody(s))| ==> !IsEnd(Lines(SectionBody(s))[k])
    ensures EndsWithNewline(s)
  {
    hide Lines, SectionBody, IsPiece, LineText;
    MarkerFacts();
    FirstLineStarts(s, START_PREFIX);
    assert Lines("") == [] by { NoLines(); }
    LinesConcat(SectionBody(s), END_MARKER + "\n");
    CleanPiece(END_MARKER);
    FirstPiece(END_MARKER + "\n", "");
    assert END_MARKER + "\n" + "" == END_MARKER + "\n";
    assert OccursAt(END_MARKER, END_MARKER, 0);
    forall k | 0 <= k < |Lines(SectionBody(s))|
      ensures !IsEnd(Lines(SectionBody(s))[k])
    {
      if IsEnd(Lines(SectionBody(s))[k]) {
        LineInText(SectionBody(s), END_MARKER, k);
      }
    }
  }

  lemma FirstEndIs(ls: seq<string>, from: nat, i: nat)
    requires from <= i < |ls| && IsEnd(ls[i])
    requires forall k :: from <= k < i ==> !IsEnd(ls[k])
    ensures FirstEnd(ls, from) == i
  {
  }

  /** Three runs of lines, cut apart again. */
  lemma CutLines(before: seq<string>, body: seq<string>, last: string, after: seq<string>)
    ensures var ls := before + (body + [last]) + after;
            && |ls| == |before| + |body| + 1 + |after|
            && ls[..|before|] == before
            && (forall k :: 0 <= k < |body| ==> ls[|before| + k] == body[k])
            && ls[|before| + |body|] == last
            && ls[|before| + |body| + 1..] == after
  {
  }

  /** The scan finds exactly the block, wherever it sits. */
  lemma Locate(before: seq<string>, body: seq<string>, last: string, after: seq<string>)
    requires forall k :: 0 <= k < |before| ==> !IsStart(before[k])
    requires body != [] && IsStart(body[0])
    requires forall k :: 0 <= k < |body| ==> !IsEnd(body[k])
    requires IsEnd(last)
    ensures var ls := before + (body + [last]) + after;
            && |before| + |body| < |ls|
            && FirstStart(ls) == |before|
            && FirstEnd(ls, |before|) == |before| + |body|
            && ls[..|before|] == before
            && ls[|before| + |body| + 1..] == after
  {
    var ls := before + (body + [last]) + after;
    CutLines(before, body, last, after);
    forall k | 0 <= k < |before| ensures !IsStart(ls[k]) {
      assert ls[k] == ls[..|before|][k];
    }
    forall k | |before| <= k < |before| + |body| ensures !IsEnd(ls[k]) {
      assert ls[|before| + (k - |before|)] == body[k - |before|];
    }
    assert ls[|before| + 0] == body[0];
    FirstEndIs(ls, |before|, |before| + |body|);
  }

  lemma StartFreeLines(text: string)
    requires StartFree(text)
    ensures forall k :: 0 <= k < |Lines(text)| ==> !IsStart(Lines(text)[k])
  {
  }

  lemma {:induction false} StartFreeConcat(a: string, b: string)
    requires LineAligned(a)
    ensures StartFree(a + b) <==> StartFree(a) && StartFree(b)
  {
    LinesConcat(a, b);
    var la, lb, l := Lines(a), Lines(b), Lines(a + b);
    assert forall i :: 0 <= i < |la| ==> l[i] == la[i];
    assert forall i :: 0 <= i < |lb| ==> l[|la| + i] == lb[i];
    if HasSection(a) {
      var i :| 0 <= i < |la| && IsStart(la[i]);
      assert IsStart(l[i]);
    }
    if HasSection(b) {
      var i :| 0 <= i < |lb| && IsStart(lb[i]);
      assert IsStart(l[|la| + i]);
    }
  }

  /** The lines of a text that carries one block. */
  lemma DocumentLines(pre: string, s: string, post: string)
    requires LineAligned(pre) && StartFree(pre) && WellFormedSection(s)
    ensures var body := Lines(SectionBody(s));
            && Lines(pre + s + post) == Lines(pre) + (body + [END_MARKER]) + Lines(post)
            && body != [] && IsStart(body[0])
            && (forall k :: 0 <= k < |body| ==> !IsEnd(body[k])) && IsEnd(END_MARKER)
            && (forall k :: 0 <= k < |Lines(pre)| ==> !IsStart(Lines(pre)[k]))
  {
    SectionLines(s);
    MarkerFacts();
    AlignedConcat(pre, s);
    LinesConcat(pre, s);
    LinesConcat(pre + s, post);
    StartFreeLines(pre);
  }

  /** Replacing swaps the block and keeps every character outside it, closing the last line. */
  lemma ReplaceKeepsSurroundings(pre: string, s: string, post: string, s': string)
    requires LineAligned(pre) && StartFree(pre) && NoCrLf(pre) && NoCrLf(post)
    requires WellFormedSection(s)
    ensures HasSection(pre + s + post)
    ensures ReplaceSection(pre + s + post, s') == pre + s' + Terminated(post)
  {
    DocumentLines(pre, s, post);
    var body := Lines(SectionBody(s));
    Locate(Lines(pre), body, END_MARKER, Lines(post));
    var ls := Lines(pre + s + post);
    assert IsStart(ls[|Lines(pre)|]);
    JoinOfLines(pre);
    JoinOfLines(post);
  }

  predicate FirstLineBlank(text: string) {
    text != "" && text[0] == '\n'
  }

  predicate LastLineBlank(text: string) {
    var ls := Lines(text);
    ls != [] && ls[|ls| - 1] == ""
  }

  /** The texts around a block, less the one blank line a removal takes with it. */
  function Unblank(pre: string, post: string): (r: (string, string)) {
    if FirstLineBlank(post) then (pre, post[1..])
    else if LastLineBlank(pre) && pre != "" then (pre[..|pre| - 1], post)
    else (pre, post)
  }

  lemma BlankFirstLine(post: string)
    requires NoCrLf(post)
    ensures FirstLineBlank(post) <==> (Lines(post) != [] && Lines(post)[0] == "")
    ensures FirstLineBlank(post) ==> NoCrLf(post[1..]) && Lines(post)[1..] == Lines(post[1..])
  {
    if post != "" {
      var p, rest := SplitPiece(post);
      if IsPiece(p) {
        FirstPiece(p, rest);
        NoCrLfSplit(p, rest);
        PieceText(p);
        if FirstLineBlank(post) {
          assert p[0] == '\n';
          assert |p| == 1;
          assert post[1..] == rest;
        }
      } else {
        assert post[0] in post;
      }
    }
  }

  lemma JoinBlankLast(ls: seq<string>)
    requires ls != [] && ls[|ls| - 1] == ""
    ensures Join(ls) == Join(ls[..|ls| - 1]) + "\n"
  {
    JoinAppend(ls[..|ls| - 1], "");
    assert ls[..|ls| - 1] + [""] == ls;
    assert Join(ls[..|ls| - 1]) + "" == Join(ls[..|ls| - 1]);
  }

  lemma BlankLastLine(pre: string)
    requires LineAligned(pre) && NoCrLf(pre) && LastLineBlank(pre)
    ensures pre != "" && Join(Lines(pre)[..|Lines(pre)| - 1]) == pre[..|pre| - 1]
  {
    JoinOfLines(pre);
    JoinBlankLast(Lines(pre));
  }

  /** The lines on either side of a block that a removal keeps. */
  function KeptLines(before: seq<string>, after: seq<string>): (r: (seq<string>, seq<string>)) {
    if after != [] && after[0] == "" then (before, after[1..])
    else if before != [] && before[|before| - 1] == "" then (before[..|before| - 1], after)
    else (before, after)
  }

  lemma RemovedRangeIs(before: seq<string>, body: seq<string>, last: string, after: seq<string>)
    requires forall k :: 0 <= k < |before| ==> !IsStart(before[k])
    requires body != [] && IsStart(body[0])
    requires forall k :: 0 <= k < |body| ==> !IsEnd(body[k])
    requires IsEnd(last)
    ensures var ls := before + (body + [last]) + after;
            && FirstStart(ls) == |before| < |ls|
            && var r := RemovedRange(ls, |before|);
            && (ls[..r.0], ls[r.1..]) == KeptLines(before, after)
  {
    var ls := before + (body + [last]) + after;
    Locate(before, body, last, after);
    var stop := |before| + |body| + 1;
    assert stop < |ls| ==> ls[stop] == ls[stop..][0] && ls[stop + 1..] == ls[stop..][1..];
    assert before != [] ==> ls[|before| - 1] == ls[..|before|][|before| - 1]
                            && ls[..|before| - 1] == ls[..|before|][..|before| - 1];
  }

  lemma KeptLinesText(pre: string, post: string)
    requires LineAligned(pre) && NoCrLf(pre) && NoCrLf(post)
    ensures var kept := KeptLines(Lines(pre), Lines(post));
            && Join(kept.0) == Unblank(pre, post).0
            && Join(kept.1) == Terminated(Unblank(pre, post).1)
  {
    BlankFirstLine(post);
    JoinOfLines(pre);
    JoinOfLines(post);
    hide Lines, Join, NoCrLf, FirstLineBlank;
    if FirstLineBlank(post) {
      JoinOfLines(post[1..]);
    } else if LastLineBlank(pre) {
      BlankLastLine(pre);
    }
  }

  /** Written-back lines lose the newline they gained when the original text was unclosed. */
  function Reclose(kept: string, closed: bool): string {
    if !closed && kept != "" then kept[..|kept| - 1] else kept
  }

  lemma RemoveFromIs(before: seq<string>, body: seq<string>, last: string, after: seq<string>, closed: bool)
    requires forall k :: 0 <= k < |before| ==> !IsStart(before[k])
    requires body != [] && IsStart(body[0])
    requires forall k :: 0 <= k < |body| ==> !IsEnd(body[k])
    requires IsEnd(last)
    ensures var ls := before + (body + [last]) + after;
            && FirstStart(ls) == |before| < |ls|
            && RemoveFrom(ls, |before|, closed)
               == Reclose(Join(KeptLines(before, after).0) + Join(KeptLines(before, after).1), closed)
  {
    RemovedRangeIs(before, body, last, after);
  }

  lemma RecloseText(x: string, y: string)
    ensures Reclose(x + Terminated(y), LineAligned(y)) == x + y
  {
    if LineAligned(y) {
      assert Terminated(y) == y;
    } else {
      ConcatAssoc(x, y, "\n");
    }
  }

  lemma UnblankClosed(pre: string, s: string, post: string)
    requires EndsWithNewline(s)
    ensures EndsWithNewline(pre + s + post) == LineAligned(Unblank(pre, post).1)
  {
  }

  lemma RemoveIsRemoveFrom(content: string, start: nat)
    requires start < |Lines(content)| && FirstStart(Lines(content)) == start
    ensures RemoveSection(content) == RemoveFrom(Lines(content), start, EndsWithNewline(content))
  {
  }

  /** Removing takes out the block and one adjacent blank line, and keeps every other character. */
  lemma RemoveKeepsSurroundings(pre: string, s: string, post: string)
    requires LineAligned(pre) && StartFree(pre) && NoCrLf(pre) && NoCrLf(post)
    requires WellFormedSection(s)
    ensures RemoveSection(pre + s + post) == Unblank(pre, post).0 + Unblank(pre, post).1
  {
    DocumentLines(pre, s, post);
    assert EndsWithNewline(s) by { SectionLines(s); }
    var closed := EndsWithNewline(pre + s + post);
    RemoveFromIs(Lines(pre), Lines(SectionBody(s)), END_MARKER, Lines(post), closed);
    RemoveIsRemoveFrom(pre + s + post, |Lines(pre)|);
    KeptLinesText(pre, post);
    UnblankClosed(pre, s, post);
    RecloseText(Unblank(pre, post).0, Unblank(pre, post).1);
  }

  // ----- A block without its end ---------------------------------------------------------

  lemma NoEndBehind(u: string, ls: seq<string>, n: nat)
    requires n <= |ls| && ls[n..] == Lines(u) && !Contains(u, END_MARKER)
    ensures FirstEnd(ls, n) == |ls|
  {
    forall k | n <= k < |ls| ensures !IsEnd(ls[k]) {
      assert ls[k] == ls[n..][k - n];
      if IsEnd(ls[k]) { LineInText(u, END_MARKER, k - n); }
    }
  }

  /** An open block at the end of a text, and the lines above it. */
  lemma OpenBlockLines(pre: string, u: string)
    requires LineAligned(pre) && StartFree(pre)
    requires StartsWith(u, START_PREFIX) && !Contains(u, END_MARKER)
    ensures var ls := Lines(pre + u);
            && ls == Lines(pre) + Lines(u) && Lines(u) != []
            && FirstStart(ls) == |Lines(pre)| && FirstEnd(ls, |Lines(pre)|) == |ls|
            && ls[..|Lines(pre)|] == Lines(pre)
  {
    hide Lines, IsStart, IsEnd, Contains;
    MarkerFacts();
    LinesConcat(pre, u);
    FirstLineStarts(u, START_PREFIX);
    StartFreeLines(pre);
    var ls, n := Lines(pre + u), |Lines(pre)|;
    assert ls[..n] == Lines(pre) && ls[n..] == Lines(u);
    assert ls[n] == Lines(u)[0];
    StartsHere(Lines(u)[0]);
    forall k | 0 <= k < n ensures !IsStart(ls[k]) { assert ls[k] == Lines(pre)[k]; }
    NoEndBehind(u, ls, n);
  }

  lemma StartsHere(l: string)
    requires StartsWith(l, START_PREFIX)
    ensures IsStart(l)
  {
  }

  /** Without an end marker the replacement takes everything from the start marker on, and the text ends in a newline if it did before. */
  lemma ReplaceTakesTheRest(pre: string, u: string, section: string)
    requires LineAligned(pre) && StartFree(pre) && NoCrLf(pre)
    requires "<!-- git-paw:start" <= u && !Contains(u, "<!-- git-paw:end -->")
    ensures ReplaceSection(pre + u, section) ==
            pre + section + if EndsWithNewline(u) && !EndsWithNewline(pre + section) then "\n" else ""
  {
    hide Lines, Contains, Join;
    OpenBlockLines(pre, u);
    JoinOfLines(pre);
    assert EndsWithNewline(pre + u) <==> EndsWithNewline(u);
    assert pre + section + "" == pre + section;
  }

  /** Nor does the removal leave anything of it; one blank line in front goes with it. */
  lemma RemoveTakesTheRest(pre: string, u: string)
    requires LineAligned(pre) && StartFree(pre) && NoCrLf(pre)
    requires "<!-- git-paw:start" <= u && !Contains(u, "<!-- git-paw:end -->")
    ensures var kept := if pre != "" && Lines(pre) != [] && Lines(pre)[|Lines(pre)| - 1] == "" then pre[..|pre| - 1] else pre;
            RemoveSection(pre + u) == if EndsWithNewline(u) || kept == "" then kept else kept[..|kept| - 1]
  {
    hide Lines, Contains, Join, RemoveFrom, IsStart, IsEnd;
    OpenBlockLines(pre, u);
    JoinOfLines(pre);
    var ls, n := Lines(pre + u), |Lines(pre)|;
    assert EndsWithNewline(pre + u) <==> EndsWithNewline(u);
    RemovedToEnd(ls, n, EndsWithNewline(u));
    if n > 0 && ls[n - 1] == "" {
      BlankLastCut(Lines(pre));
      assert ls[..n - 1] == Lines(pre)[..n - 1];
    }
    if pre == "" { NoLines(); }
  }

  lemma RemovedToEnd(ls: seq<string>, n: nat, closed: bool)
    requires n < |ls| && FirstEnd(ls, n) == |ls|
    ensures RemoveFrom(ls, n, closed) == Reclose(Join(ls[..if n > 0 && ls[n - 1] == "" then n - 1 else n]), closed)
  {
    hide Join;
    NoLines();
    assert ls[|ls|..] == [];
    var kept := Join(ls[..if n > 0 && ls[n - 1] == "" then n - 1 else n]);
    assert kept + "" == kept;
  }

  /** A blank last line is one newline of the joined text. */
  lemma BlankLastCut(ls: seq<string>)
    requires ls != [] && ls[|ls| - 1] == ""
    ensures Join(ls) != "" && Join(ls[..|ls| - 1]) == Join(ls)[..|Join(ls)| - 1]
  {
    hide Join;
    var front := ls[..|ls| - 1];
    assert front + [""] == ls;
    JoinAppend(front, "");
    assert Join(ls) == Join(front) + "\n";
  }
}
