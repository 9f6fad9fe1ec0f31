/**
 The orchestrator pointer of `AGENTS.md`: a permanent region found and replaced
 by text offset, next to the per-session block.
 */
module OrchestratorPointer {
  import opened Text

  const POINTER_START := "<!-- git-paw-orchestrator:start -->"
  const POINTER_END := "<!-- git-paw-orchestrator:end -->"

  function TrimEndNewlines(s: string): (t: string)
    ensures t <= s
    ensures !EndsWithNewline(t)
  {
    if EndsWithNewline(s) then TrimEndNewlines(s[..|s| - 1]) else s
  }

  /** The pointer section around the bundled prose, markers included. */
  function PointerSection(prose: string): string {
    POINTER_START + "\n" + TrimEndNewlines(prose) + "\n" + POINTER_END + "\n"
  }

  /** Where the section found in `content` starts and ends, its closing newline included. */
  function PointerRegion(content: string): (r: (int, int))
    ensures r.0 != -1 ==> 0 <= r.0 < r.1 <= |content|
  {
    var start := Find(content, POINTER_START);
    if start == -1 then (-1, -1)
    else
      var end := FindFrom(content, POINTER_END, start);
      if end == -1 then (-1, -1)
      else
        var stop := end + |POINTER_END|;
        (start, if stop < |content| && content[stop] == '\n' then stop + 1 else stop)
  }

  function InjectPointer(content: string, prose: string): string {
    var section := PointerSection(prose);
    var region := PointerRegion(content);
    if region.0 != -1 then content[..region.0] + section + content[region.1..]
    else if content == "" then section
    else Terminated(content) + "\n" + section
  }

  // ----- What the operation means ----------------------------------------

  /** The bundled prose names neither pointer marker. */
  ghost predicate PlainProse(prose: string) {
    && !Contains(TrimEndNewlines(prose), POINTER_START)
    && !Contains(TrimEndNewlines(prose), POINTER_END)
  }

  /** A start marker that no end marker follows. */
  ghost predicate Orphaned(content: string) {
    Contains(content, POINTER_START)
    && FindFrom(content, POINTER_END, Find(content, POINTER_START)) == -1
  }

  lemma MarkerFacts()
    ensures POINTER_START != "" && POINTER_END != ""
    ensures '\n' !in POINTER_START && '\n' !in POINTER_END
    ensures POINTER_START[0] == '<' && forall k :: 1 <= k < |POINTER_START| ==> POINTER_START[k] != '<'
  {
  }

  /** The section above its closing marker. */
  function SectionHead(prose: string): string {
    POINTER_START + "\n" + (TrimEndNewlines(prose) + "\n")
  }

  lemma SectionSplits(prose: string)
    ensures PointerSection(prose) == SectionHead(prose) + (POINTER_END + "\n")
    ensures PointerSection(prose) == POINTER_START + ("\n" + TrimEndNewlines(prose) + "\n" + POINTER_END + "\n")
  {
  }

  lemma HeadHoldsNoEnd(prose: string)
    requires PlainProse(prose)
    ensures LineAligned(SectionHead(prose)) && !Contains(SectionHead(prose), POINTER_END)
  {
    MarkerFacts();
    NoEndInStart();
    NoMarkerBeforeNewline(TrimEndNewlines(prose), POINTER_END);
    ContainsConcat(POINTER_START + "\n", TrimEndNewlines(prose) + "\n", POINTER_END);
  }

  lemma ClosingLine(pre: string, head: string, m: string, post: string)
    requires m != "" && '\n' !in m
    requires LineAligned(head) && !Contains(head, m)
    ensures var s := pre + (head + (m + "\n")) + post;
            && FindFrom(s, m, |pre|) == |pre| + |head|
            && s[|pre| + |head| + |m|] == '\n'
  {
    FirstAfterLines(pre, head, m, "\n" + post);
    Regroup5(pre, head, m, "\n", post);
  }

  lemma Regroup5(a: string, b: string, c: string, d: string, e: string)
    ensures a + (b + (c + (d + e))) == a + (b + (c + d)) + e
    ensures d != "" ==> (a + (b + (c + d)) + e)[|a| + |b| + |c|] == d[0]
  {
  }

  /** The first end marker after the start of a section is the section's own. */
  lemma FirstEndMarker(pre: string, prose: string, post: string)
    requires PlainProse(prose)
    ensures var s := pre + PointerSection(prose) + post;
            && FindFrom(s, POINTER_END, |pre|) == |pre| + |SectionHead(prose)|
            && |SectionHead(prose)| + |POINTER_END| + 1 == |PointerSection(prose)|
            && s[|pre| + |SectionHead(prose)| + |POINTER_END|] == '\n'
  {
    MarkerFacts();
    SectionSplits(prose);
    HeadHoldsNoEnd(prose);
    ClosingLine(pre, SectionHead(prose), POINTER_END, post);
  }

  lemma NoEndInStart()
    ensures !Contains(POINTER_START + "\n", POINTER_END)
  {
    MarkerFacts();
    forall i | OccursAt(POINTER_START + "\n", POINTER_END, i) ensures false {
      OccursAtIndex(POINTER_START + "\n", POINTER_END, i, 0);
      assert i == 0;
      OccursAtIndex(POINTER_START + "\n", POINTER_END, 0, 26);
    }
  }

  lemma RegionCut(pre: string, section: string, post: string)
    ensures (pre + section + post)[..|pre|] == pre && (pre + section + post)[|pre| + |section|..] == post
  {
  }

  lemma FirstStartMarker(pre: string, prose: string, post: string)
    requires forall j :: 0 <= j && j + |POINTER_START| <= |pre| ==> !OccursAt(pre, POINTER_START, j)
    ensures Find(pre + PointerSection(prose) + post, POINTER_START) == |pre|
  {
    MarkerFacts();
    SectionSplits(prose);
    var tail := "\n" + TrimEndNewlines(prose) + "\n" + POINTER_END + "\n";
    FirstCopy(pre, POINTER_START, tail + post);
    Regroup(pre, POINTER_START, tail, post);
  }

  lemma Regroup(a: string, b: string, c: string, d: string)
    ensures a + (b + c) + d == a + b + (c + d)
  {
  }

  /** The region found is the section, wherever the text before it holds no start marker. */
  lemma RegionIsSection(pre: string, prose: string, post: string)
    requires PlainProse(prose)
    requires forall j :: 0 <= j && j + |POINTER_START| <= |pre| ==> !OccursAt(pre, POINTER_START, j)
    ensures PointerRegion(pre + PointerSection(prose) + post) == (|pre|, |pre| + |PointerSection(prose)|)
  {
    hide PointerSection, SectionHead, Find, FindFrom, PlainProse, OccursAt;
    FirstStartMarker(pre, prose, post);
    FirstEndMarker(pre, prose, post);
  }

  /** A text that already carries the section is left byte for byte alone. */
  lemma InjectKeepsSection(pre: string, prose: string, post: string)
    requires PlainProse(prose)
    requires forall j :: 0 <= j && j + |POINTER_START| <= |pre| ==> !OccursAt(pre, POINTER_START, j)
    ensures InjectPointer(pre + PointerSection(prose) + post, prose) == pre + PointerSection(prose) + post
  {
    RegionIsSection(pre, prose, post);
    RegionCut(pre, PointerSection(prose), post);
  }

  /** A text without the start marker gains the section after a blank line and keeps all of itself in front. */
  lemma InjectAppends(content: string, prose: string)
    requires !Contains(content, POINTER_START)
    ensures InjectPointer(content, prose)
            == (if content == "" then "" else Terminated(content) + "\n") + PointerSection(prose)
  {
    if content == "" {
      assert "" + PointerSection(prose) == PointerSection(prose);
    }
  }

  /** What a first injection leaves, for every text. */
  lemma InjectShape(content: string, prose: string) returns (pre: string, post: string)
    requires PlainProse(prose)
    ensures InjectPointer(content, prose) == pre + PointerSection(prose) + post
    ensures !Orphaned(content) ==>
              forall j :: 0 <= j && j + |POINTER_START| <= |pre| ==> !OccursAt(pre, POINTER_START, j)
    ensures Orphaned(content) ==>
              && pre == Terminated(content) + "\n" && post == ""
  {
    hide PointerSection, Terminated, FindFrom, Find;
    MarkerFacts();
    var region := PointerRegion(content);
    if region.0 != -1 {
      pre, post := content[..region.0], content[region.1..];
      forall j | 0 <= j && j + |POINTER_START| <= |pre| ensures !OccursAt(pre, POINTER_START, j) {
        assert pre[j..j + |POINTER_START|] == content[j..j + |POINTER_START|];
        assert !OccursAt(content, POINTER_START, j);
      }
    } else if Orphaned(content) {
      pre, post := Terminated(content) + "\n", "";
      assert pre + PointerSection(prose) + "" == pre + PointerSection(prose);
    } else {
      InjectAppends(content, prose);
      pre, post := if content == "" then "" else Terminated(content) + "\n", "";
      assert pre + PointerSection(prose) + "" == pre + PointerSection(prose);
      if content != "" { StillAbsent(content, POINTER_START); }
      AbsentMeansNowhere(pre, POINTER_START);
    }
  }

  /** An orphaned start marker is still the first one after the section is appended behind it. */
  lemma OrphanFirst(content: string, rest: string, k: nat)
    requires k == Find(content, POINTER_START) && OccursAt(content, POINTER_START, k)
    ensures Find(content + rest, POINTER_START) == k
  {
    OccursAtPrefix(content, rest, POINTER_START, k);
    forall j | 0 <= j < k ensures !OccursAt(content + rest, POINTER_START, j) {
      OccursAtPrefix(content, rest, POINTER_START, j);
    }
    FindIs(content + rest, POINTER_START, k);
  }

  lemma NothingAfterOrphan(content: string, m: string, k: nat)
    requires k <= |content| && FindFrom(content, m, k) == -1
    requires m != "" && '\n' !in m
    ensures !Contains((Terminated(content) + "\n")[k..], m)
  {
    var tail := content[k..];
    assert content == content[..k] + tail;
    forall j | 0 <= j ensures !OccursAt(tail, m, j) {
      OccursAtSuffix(content[..k], tail, m, j);
    }
    NoMarkerBeforeNewline(tail, m);
    if LineAligned(content) {
      assert (Terminated(content) + "\n")[k..] == tail + "\n";
    } else {
      NoMarkerBeforeNewline(tail + "\n", m);
      assert (Terminated(content) + "\n")[k..] == tail + "\n" + "\n";
    }
  }

  /** Appending behind an orphan makes the next region run from the orphan to the end of the file. */
  lemma OrphanSwallows(content: string, prose: string)
    requires PlainProse(prose) && Orphaned(content)
    ensures var once := Terminated(content) + "\n" + PointerSection(prose);
            PointerRegion(once) == (Find(content, POINTER_START), |once|)
  {
    hide PointerSection, SectionHead, TrimEndNewlines, Terminated, FindFrom, Contains, PlainProse;
    var k := Find(content, POINTER_START);
    var pre := Terminated(content) + "\n";
    var once := pre + PointerSection(prose);
    var n := |pre| + |SectionHead(prose)|;
    assert OccursAt(once, POINTER_END, n) && n + |POINTER_END| + 1 == |once| && EndsWithNewline(once)
      && once[..n] == pre + SectionHead(prose) by {
      SectionSplits(prose);
    }
    assert once[k..n] == pre[k..] + SectionHead(prose) by {
      assert once[k..n] == once[..n][k..];
    }
    assert FindFrom(once, POINTER_END, k) == n by {
      MarkerFacts();
      HeadHoldsNoEnd(prose);
      NothingAfterOrphan(content, POINTER_END, k);
      ContainsConcat(pre[k..], SectionHead(prose), POINTER_END);
      ClosingLineFrom(once, k, n, POINTER_END);
    }
    OrphanStart(content, once, k);
  }

  lemma OrphanStart(content: string, once: string, k: nat)
    requires content <= once && k == Find(content, POINTER_START) && OccursAt(content, POINTER_START, k)
    ensures Find(once, POINTER_START) == k
  {
    assert once == content + once[|content|..];
    OrphanFirst(content, once[|content|..], k);
  }

  /** Re-running init changes nothing, on any text, unless a start marker lacks its end marker. */
  lemma InjectIdempotentIff(content: string, prose: string)
    requires PlainProse(prose)
    ensures InjectPointer(InjectPointer(content, prose), prose) == InjectPointer(content, prose)
            <==> !Orphaned(content)
  {
    var pre, post := InjectShape(content, prose);
    if Orphaned(content) {
      OrphanSwallows(content, prose);
      assert pre + PointerSection(prose) + "" == pre + PointerSection(prose);
    } else {
      InjectKeepsSection(pre, prose, post);
    }
  }

  /** An empty file becomes the prose between the two marker lines, its own final newlines cut. */
  lemma FreshPointer(prose: string)
    ensures InjectPointer("", prose) ==
            "<!-- git-paw-orchestrator:start -->" + "\n" + TrimEndNewlines(prose) + "\n" + "<!-- git-paw-orchestrator:end -->" + "\n"
  {
    hide TrimEndNewlines;
    assert |POINTER_START| > 0;
    assert Find("", POINTER_START) == -1;
  }
}
