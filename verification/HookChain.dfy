/**
 Git hooks shared with the user: git-paw's block is chained behind existing hook
 content and replaced in place on later installs.
 */
module HookChain {
  import opened Text

  const HOOK_START := "# >>> git-paw managed hook >>>"
  const HOOK_END := "# <<< git-paw managed hook <<<"
  const SHEBANG := "#!/bin/sh\n"

  function StripShebang(body: string): string {
    if StartsWith(body, SHEBANG) then body[|SHEBANG|..] else body
  }

  function Chain(existing: string, body: string): string {
    var start := Find(existing, HOOK_START);
    var end := if start == -1 then -1 else FindFrom(existing, HOOK_END, start);
    if end != -1 then
      existing[..start] + StripShebang(body) + existing[end + |HOOK_END|..]
    else
      var kept := TrimEnd(existing);
      if kept == "" then body else kept + "\n" + StripShebang(body)
  }

  method ChainHook(existing: string, newBody: string) returns (out: string)
    ensures out == Chain(existing, newBody)
  {
    var start := Find(existing, HOOK_START);
    if start != -1 {
      var endMarker := FindFrom(existing, HOOK_END, start);
      if endMarker != -1 {
        out := existing[..start];
        out := out + StripShebang(newBody);
        out := out + existing[endMarker + |HOOK_END|..];
        return;
      }
    }
    out := TrimEnd(existing);
    var first := out == "";
    if !first {
      out := out + "\n";
    }
    out := out + (if first then newBody else StripShebang(newBody));
  }

  // ----- Well-formed bodies ------------------------------------------------

  /** The lines of a block above its closing marker line. */
  function BlockBody(block: string): string {
    if |block| < |HOOK_END| + 1 then "" else block[..|block| - |HOOK_END| - 1]
  }

  /** A block that opens with the start marker and closes with its only end-marker line. */
  ghost predicate WellFormedBlock(block: string) {
    && StartsWith(block, HOOK_START)
    && block == BlockBody(block) + (HOOK_END + "\n")
    && EndsWithNewline(BlockBody(block))
    && !Contains(BlockBody(block), HOOK_END)
  }

  lemma MarkerFacts()
    ensures HOOK_START != "" && HOOK_END != "" && SHEBANG != ""
    ensures '\n' !in HOOK_START && '\n' !in HOOK_END
    ensures forall k :: 1 <= k < |HOOK_START| ==> HOOK_START[k] != HOOK_START[0]
    ensures |SHEBANG| < |HOOK_START|
    ensures !IsWhitespace(HOOK_START[|HOOK_START| - 1])
  {
  }

  lemma StripsShebang(block: string)
    ensures StripShebang(SHEBANG + block) == block
  {
  }

  /** What stands before the block after a first install: the user's text, or only the shebang. */
  function Front(hook: string): string {
    if TrimEnd(hook) == "" then SHEBANG else TrimEnd(hook) + "\n"
  }

  function Newlines(n: nat): string {
    if n == 0 then "" else "\n" + Newlines(n - 1)
  }

  ghost predicate NoStart(text: string) {
    forall j :: 0 <= j && j + |HOOK_START| <= |text| ==> !OccursAt(text, HOOK_START, j)
  }

  lemma FrontNoStart(hook: string)
    requires !Contains(hook, HOOK_START)
    ensures NoStart(Front(hook))
  {
    MarkerFacts();
    var kept := TrimEnd(hook);
    if kept != "" {
      SliceAbsent(hook, HOOK_START, 0, |kept|);
      assert kept == hook[0..|kept|];
      NoMarkerBeforeNewline(kept, HOOK_START);
    }
  }

  lemma BlockSplits(front: string, block: string, rest: string)
    requires WellFormedBlock(block)
    ensures var tail := block[|HOOK_START|..] + rest;
            front + block + rest == front + HOOK_START + tail
    ensures var inner := BlockBody(block);
            front + block + rest == front + (inner + (HOOK_END + ("\n" + rest)))
  {
    var inner := BlockBody(block);
    assert block == HOOK_START + block[|HOOK_START|..];
    assert block + rest == inner + (HOOK_END + ("\n" + rest));
    ConcatAssoc(front, block, rest);
  }

  /** The search finds the block's own markers. */
  lemma FindBlock(front: string, block: string, rest: string)
    requires NoStart(front) && WellFormedBlock(block)
    ensures Find(front + block + rest, HOOK_START) == |front|
    ensures FindFrom(front + block + rest, HOOK_END, |front|) == |front| + |BlockBody(block)|
  {
    MarkerFacts();
    BlockSplits(front, block, rest);
    FirstCopy(front, HOOK_START, block[|HOOK_START|..] + rest);
    FirstAfterLines(front, BlockBody(block), HOOK_END, "\n" + rest);
  }

  lemma BlockCut(front: string, block: string, rest: string)
    requires WellFormedBlock(block)
    ensures var s := front + block + rest;
            && s[..|front|] == front
            && |front| + |BlockBody(block)| + |HOOK_END| <= |s|
            && s[|front| + |BlockBody(block)| + |HOOK_END|..] == "\n" + rest
  {
    BlockSplits(front, block, rest);
  }

  /** Installing over an installed block keeps everything around it and leaves one more newline behind it. */
  lemma Reinstall(front: string, block: string, rest: string)
    requires NoStart(front) && WellFormedBlock(block)
    ensures Chain(front + block + rest, SHEBANG + block) == front + block + ("\n" + rest)
  {
    FindBlock(front, block, rest);
    BlockCut(front, block, rest);
    StripsShebang(block);
  }

  function Installs(hook: string, body: string, n: nat): string {
    if n == 0 then hook else Chain(Installs(hook, body, n - 1), body)
  }

  /**
   After any number of installs on a hook without markers: the user's text,
   the block once, and one newline for each install after the first.
   */
  lemma {:induction false} InstallsShape(hook: string, block: string, n: nat)
    requires !Contains(hook, HOOK_START) && WellFormedBlock(block) && n >= 1
    ensures Installs(hook, SHEBANG + block, n) == Front(hook) + block + Newlines(n - 1)
    decreases n
  {
    if n == 1 {
      assert Installs(hook, SHEBANG + block, 0) == hook;
      assert Front(hook) + block + "" == Front(hook) + block;
    } else {
      InstallsShape(hook, block, n - 1);
      FrontNoStart(hook);
      Reinstall(Front(hook), block, Newlines(n - 2));
    }
  }

  // ----- A start marker without its end -----------------------------------

  /** A block whose closing marker is missing: the first start marker has no end marker after it. */
  ghost predicate Orphaned(hook: string) {
    Contains(hook, HOOK_START) && FindFrom(hook, HOOK_END, Find(hook, HOOK_START)) == -1
  }

  lemma MarkerInsideTrimmed(hook: string, k: nat)
    requires OccursAt(hook, HOOK_START, k)
    ensures k + |HOOK_START| <= |TrimEnd(hook)|
  {
    MarkerFacts();
    OccursAtIndex(hook, HOOK_START, k, |HOOK_START| - 1);
  }

  lemma OrphanFirstInstall(hook: string, block: string)
    requires Orphaned(hook)
    ensures Chain(hook, SHEBANG + block) == TrimEnd(hook) + "\n" + block
    ensures TrimEnd(hook) != ""
  {
    MarkerInsideTrimmed(hook, Find(hook, HOOK_START));
    MarkerFacts();
    StripsShebang(block);
  }

  lemma StartStaysFirst(hook: string, once: string, k: nat)
    requires k == Find(hook, HOOK_START) && OccursAt(hook, HOOK_START, k)
    requires TrimEnd(hook) <= once
    ensures Find(once, HOOK_START) == k
  {
    MarkerFacts();
    MarkerInsideTrimmed(hook, k);
    var kept := TrimEnd(hook);
    forall j | 0 <= j <= k ensures OccursAt(once, HOOK_START, j) <==> OccursAt(hook, HOOK_START, j) {
      assert once[..|kept|] == kept && hook[..|kept|] == kept;
      SliceOfSlice(once, 0, |kept|, j, j + |HOOK_START|);
      SliceOfSlice(hook, 0, |kept|, j, j + |HOOK_START|);
    }
    FindIs(once, HOOK_START, k);
  }

  lemma NoEndAbove(hook: string, inner: string, k: nat)
    requires k <= |TrimEnd(hook)| && FindFrom(hook, HOOK_END, k) == -1
    requires EndsWithNewline(inner) && !Contains(inner, HOOK_END)
    ensures !Contains(TrimEnd(hook)[k..] + "\n" + inner, HOOK_END)
  {
    MarkerFacts();
    var kept := TrimEnd(hook);
    var tail := kept[k..];
    SliceAbsent(hook, HOOK_END, k, |kept|);
    assert tail == hook[k..|kept|] by {
      assert kept == hook[..|kept|];
    }
    NoMarkerBeforeNewline(tail, HOOK_END);
    ContainsConcat(tail + "\n", inner, HOOK_END);
  }

  lemma ChainAt(existing: string, block: string, k: nat, n: nat)
    requires Find(existing, HOOK_START) == k && FindFrom(existing, HOOK_END, k) == n
    ensures Chain(existing, SHEBANG + block) == existing[..k] + block + existing[n + |HOOK_END|..]
  {
    StripsShebang(block);
  }

  lemma OrphanOnceText(kept: string, block: string, k: nat)
    requires WellFormedBlock(block) && k <= |kept|
    ensures var once := kept + "\n" + block;
            var n := |kept| + 1 + |BlockBody(block)|;
            && OccursAt(once, HOOK_END, n)
            && once[n + |HOOK_END|..] == "\n"
            && once[k..n] == kept[k..] + "\n" + BlockBody(block)
            && once[..k] == kept[..k]
            && kept <= once
  {
    hide WellFormedBlock, BlockBody;
    var once := kept + "\n" + block;
    var n := |kept| + 1 + |BlockBody(block)|;
    OnceCut(kept + "\n", block);
    assert once[k..n] == once[..n][k..];
    TailOfFront(kept, BlockBody(block), k);
  }

  /** Where the markers stand after one install behind an orphan. */
  lemma OrphanOnce(hook: string, block: string)
    requires Orphaned(hook) && WellFormedBlock(block)
    ensures var k := Find(hook, HOOK_START);
            var once := TrimEnd(hook) + "\n" + block;
            var n := |TrimEnd(hook)| + 1 + |BlockBody(block)|;
            && Find(once, HOOK_START) == k
            && FindFrom(once, HOOK_END, k) == n
            && once[n + |HOOK_END|..] == "\n"
            && once[..k] == hook[..k]
  {
    hide Find, FindFrom, TrimEnd, Contains, OccursAt, WellFormedBlock, LineAligned;
    var k := OrphanFacts(hook, block);
    MarkerInsideTrimmed(hook, k);
    OrphanOnceText(TrimEnd(hook), block, k);
    NoEndAbove(hook, BlockBody(block), k);
    AlignedBehind(TrimEnd(hook)[k..] + "\n", BlockBody(block));
    OrphanMarkers(hook, TrimEnd(hook) + "\n" + block, k, |TrimEnd(hook)| + 1 + |BlockBody(block)|);
  }

  lemma OrphanFacts(hook: string, block: string) returns (k: nat)
    requires Orphaned(hook) && WellFormedBlock(block)
    ensures k == Find(hook, HOOK_START) && OccursAt(hook, HOOK_START, k) && FindFrom(hook, HOOK_END, k) == -1
    ensures EndsWithNewline(BlockBody(block)) && !Contains(BlockBody(block), HOOK_END)
  {
    k := Find(hook, HOOK_START);
  }

  lemma AlignedBehind(a: string, b: string)
    requires EndsWithNewline(b)
    ensures LineAligned(a + b)
  {
  }

  lemma OrphanMarkers(hook: string, once: string, k: nat, n: nat)
    requires k == Find(hook, HOOK_START) && OccursAt(hook, HOOK_START, k)
    requires TrimEnd(hook) <= once
    requires k <= n && OccursAt(once, HOOK_END, n)
    requires LineAligned(once[k..n]) && !Contains(once[k..n], HOOK_END)
    ensures Find(once, HOOK_START) == k && FindFrom(once, HOOK_END, k) == n
    ensures once[..k] == hook[..k]
  {
    StartStaysFirst(hook, once, k);
    EndMarkerFrom(once, k, n);
    MarkerInsideTrimmed(hook, k);
    assert once[..k] == TrimEnd(hook)[..k] == hook[..k];
  }

  lemma EndMarkerFrom(once: string, k: nat, n: nat)
    requires k <= n && OccursAt(once, HOOK_END, n)
    requires LineAligned(once[k..n]) && !Contains(once[k..n], HOOK_END)
    ensures FindFrom(once, HOOK_END, k) == n
  {
    MarkerFacts();
    ClosingLineFrom(once, k, n, HOOK_END);
  }

  /** The second install replaces everything from the orphan on. */
  lemma OrphanSecondInstall(hook: string, block: string)
    requires Orphaned(hook) && WellFormedBlock(block)
    ensures Installs(hook, SHEBANG + block, 2) == hook[..Find(hook, HOOK_START)] + block + "\n"
  {
    hide Chain, Installs, FindFrom, TrimEnd, BlockBody, WellFormedBlock;
    var once := TrimEnd(hook) + "\n" + block;
    OrphanFirstInstall(hook, block);
    TwoInstalls(hook, SHEBANG + block, once);
    OrphanOnce(hook, block);
    ChainAt(once, block, Find(hook, HOOK_START), |TrimEnd(hook)| + 1 + |BlockBody(block)|);
  }

  lemma TwoInstalls(hook: string, body: string, once: string)
    requires Chain(hook, body) == once
    ensures Installs(hook, body, 2) == Chain(once, body)
  {
    assert Installs(hook, body, 0) == hook;
    assert Installs(hook, body, 1) == once;
  }

  lemma OnceCut(front: string, block: string)
    requires WellFormedBlock(block)
    ensures var s := front + block;
            var n := |front| + |BlockBody(block)|;
            && OccursAt(s, HOOK_END, n)
            && s[n + |HOOK_END|..] == "\n"
            && s[..n] == front + BlockBody(block)
  {
    var s := front + block;
    var n := |front| + |BlockBody(block)|;
    assert s[n..n + |HOOK_END|] == HOOK_END;
  }

  lemma TailOfFront(kept: string, inner: string, k: nat)
    requires k <= |kept|
    ensures (kept + "\n" + inner)[k..] == kept[k..] + "\n" + inner
  {
  }

  /** The right-trimmed hook from its first start marker on. */
  ghost function FromMarker(hook: string): string {
    var k := Find(hook, HOOK_START);
    if 0 <= k <= |TrimEnd(hook)| then TrimEnd(hook)[k..] else ""
  }

  lemma {:induction false} InstallsAdd(hook: string, body: string, a: nat, b: nat)
    ensures Installs(hook, body, a + b) == Installs(Installs(hook, body, a), body, b)
    decreases b
  {
    hide Chain;
    if b > 0 { InstallsAdd(hook, body, a, b - 1); }
  }

  lemma {:induction false} NewlinesEnd(n: nat)
    ensures Newlines(n) + "\n" == Newlines(n + 1)
    decreases n
  {
    if n > 0 {
      NewlinesEnd(n - 1);
      ConcatAssoc("\n", Newlines(n - 1), "\n");
    }
  }

  /** Any number of installs over an installed block: one newline more behind it for each. */
  lemma {:induction false} ReinstallMany(front: string, block: string, rest: string, n: nat)
    requires NoStart(front) && WellFormedBlock(block)
    ensures Installs(front + block + rest, SHEBANG + block, n) == front + block + (Newlines(n) + rest)
    decreases n
  {
    hide Chain, WellFormedBlock, NoStart;
    if n == 0 {
      assert Newlines(0) + rest == rest;
    } else {
      ReinstallMany(front, block, rest, n - 1);
      Reinstall(front, block, Newlines(n - 1) + rest);
      ConcatAssoc("\n", Newlines(n - 1), rest);
    }
  }

  /** Once the block is in place, every further install adds a newline behind it. */
  lemma ThenReinstalled(hook: string, front: string, block: string, rest: string, first: nat, n: nat)
    requires NoStart(front) && WellFormedBlock(block) && n >= first
    requires Installs(hook, SHEBANG + block, first) == front + block + rest
    ensures Installs(hook, SHEBANG + block, n) == front + block + (Newlines(n - first) + rest)
  {
    hide Installs, WellFormedBlock, NoStart, Newlines;
    InstallsAdd(hook, SHEBANG + block, first, n - first);
    ReinstallMany(front, block, rest, n - first);
  }

  lemma FrontOfFirst(hook: string)
    requires Find(hook, HOOK_START) != -1
    ensures NoStart(hook[..Find(hook, HOOK_START)])
  {
    var k := Find(hook, HOOK_START);
    assert hook == hook[..k] + hook[k..];
    forall j | 0 <= j && j + |HOOK_START| <= k ensures !OccursAt(hook[..k], HOOK_START, j) {
      OccursAtPrefix(hook[..k], hook[k..], HOOK_START, j);
    }
  }

  /** From the second install on, an orphan leaves the text above it, one block, and the newlines. */
  lemma OrphanInstalls(hook: string, block: string, n: nat)
    requires Orphaned(hook) && WellFormedBlock(block) && n >= 2
    ensures Installs(hook, SHEBANG + block, n) == hook[..Find(hook, HOOK_START)] + block + Newlines(n - 1)
  {
    hide Installs, Orphaned, WellFormedBlock, NoStart, Newlines, FindFrom;
    assert Find(hook, HOOK_START) != -1 by { OrphanHasStart(hook); }
    FrontOfFirst(hook);
    OrphanSecondInstall(hook, block);
    ThenReinstalled(hook, hook[..Find(hook, HOOK_START)], block, "\n", 2, n);
    NewlinesEnd(n - 2);
  }

  lemma OrphanHasStart(hook: string)
    requires Orphaned(hook)
    ensures Find(hook, HOOK_START) != -1
  {
  }

  /**
   A hook without a complete block keeps all the user's text through n
   installs exactly when it has no start marker, is installed once, or has
   nothing from the marker on but the beginning of what replaces it.
   */
  lemma ReinstallKeepsTextIff(hook: string, block: string, n: nat)
    requires !Contains(hook, HOOK_START) || Orphaned(hook)
    requires WellFormedBlock(block) && n >= 1
    ensures TrimEnd(hook) <= Installs(hook, SHEBANG + block, n)
            <==> !Contains(hook, HOOK_START) || n == 1 || FromMarker(hook) <= block + Newlines(n - 1)
  {
    hide Installs, Orphaned, WellFormedBlock, Newlines, Contains;
    if !Contains(hook, HOOK_START) {
      InstallsShape(hook, block, n);
      PrefixChain(TrimEnd(hook), Front(hook), block + Newlines(n - 1));
      ConcatAssoc(Front(hook), block, Newlines(n - 1));
    } else if n == 1 {
      OneInstall(hook, SHEBANG + block);
      OrphanFirstInstall(hook, block);
      PrefixChain(TrimEnd(hook), TrimEnd(hook) + "\n", block);
    } else {
      OrphanKeepsTextIff(hook, block, n);
    }
  }

  lemma PrefixChain(x: string, y: string, z: string)
    requires x <= y
    ensures x <= y + z
  {
  }

  lemma OneInstall(hook: string, body: string)
    ensures Installs(hook, body, 1) == Chain(hook, body)
  {
    assert Installs(hook, body, 0) == hook;
  }

  lemma OrphanKeepsTextIff(hook: string, block: string, n: nat)
    requires Orphaned(hook) && WellFormedBlock(block) && n >= 2
    ensures TrimEnd(hook) <= Installs(hook, SHEBANG + block, n)
            <==> FromMarker(hook) <= block + Newlines(n - 1)
  {
    hide Installs, Orphaned, WellFormedBlock, Newlines, Find, FindFrom, TrimEnd, Contains;
    var k := Find(hook, HOOK_START);
    assert k != -1 by { OrphanHasStart(hook); }
    MarkerInsideTrimmed(hook, k);
    OrphanInstalls(hook, block, n);
    assert TrimEnd(hook)[..k] == hook[..k];
    PrefixFrom(TrimEnd(hook), hook[..k], block + Newlines(n - 1), k);
    ConcatAssoc(hook[..k], block, Newlines(n - 1));
  }

  // ----- A hook with an end marker behind its first start marker --------------

  /** The region from the first start marker to the first end marker behind it is what the block replaces, and only it. */
  lemma BlockInstalls(hook: string, block: string, k: nat, e: nat, n: nat)
    requires Find(hook, HOOK_START) == k && FindFrom(hook, HOOK_END, k) == e
    requires WellFormedBlock(block) && n >= 1
    ensures Installs(hook, SHEBANG + block, n) == hook[..k] + block + (Newlines(n - 1) + hook[e + |HOOK_END|..])
  {
    hide Installs, WellFormedBlock, NoStart, Newlines, Find, FindFrom, Chain, Contains;
    FrontOfFirst(hook);
    OneInstall(hook, SHEBANG + block);
    ChainAt(hook, block, k, e);
    ThenReinstalled(hook, hook[..k], block, hook[e + |HOOK_END|..], 1, n);
  }

  /**
   Where another start marker stands in that region, the last one at `s` is
   the complete block's own and the text in front of it is the user's: all of
   it is kept exactly when none of it lies in the region, or what does is the
   beginning of what replaces it.
   */
  lemma OverlaidKeepsTextIff(hook: string, block: string, k: nat, s: nat, e: nat, n: nat)
    requires Find(hook, HOOK_START) == k && FindFrom(hook, HOOK_END, k) == e
    requires k <= s <= e && OccursAt(hook, HOOK_START, s)
    requires WellFormedBlock(block) && n >= 1
    ensures hook[..s] <= Installs(hook, SHEBANG + block, n)
            <==> hook[k..s] <= block + (Newlines(n - 1) + hook[e + |HOOK_END|..])
  {
    hide Installs, WellFormedBlock, Newlines, Find, FindFrom;
    BlockInstalls(hook, block, k, e, n);
    var behind := Newlines(n - 1) + hook[e + |HOOK_END|..];
    PrefixFrom(hook[..s], hook[..k], block + behind, k);
    ConcatAssoc(hook[..k], block, behind);
    assert hook[..s][k..] == hook[k..s];
  }

  lemma PrefixFrom(s: string, front: string, rest: string, k: nat)
    requires k <= |s| && s[..k] == front
    ensures s <= front + rest <==> s[k..] <= rest
  {
    if s[k..] <= rest {
      assert s == front + s[k..];
    }
    if s <= front + rest {
      assert forall i :: k <= i < |s| ==> s[i] == rest[i - k];
    }
  }

  /** A hook whose end marker is gone, with the user's command behind it. */
  const ORPHAN_HOOK := HOOK_START + COMMAND
  const COMMAND := "\nexit 1"

  lemma OrphanHookOpen()
    ensures Orphaned(ORPHAN_HOOK) && Find(ORPHAN_HOOK, HOOK_START) == 0
  {
    var hook := ORPHAN_HOOK;
    assert hook[..|HOOK_START|] == HOOK_START;
    assert OccursAt(hook, HOOK_START, 0);
    FindIs(hook, HOOK_START, 0);
    assert forall k :: 0 <= k < |HOOK_START| ==> hook[k] == HOOK_START[k];
    assert forall k :: 0 <= k < |COMMAND| ==> hook[|HOOK_START| + k] == COMMAND[k] && COMMAND[k] != '#';
    forall j | OccursAt(hook, HOOK_END, j) ensures false {
      OccursAtIndex(hook, HOOK_END, j, 0);
      OccursAtIndex(hook, HOOK_END, j, 2);
      OnlyFirstHash(j);
    }
  }

  lemma OnlyFirstHash(j: nat)
    requires j < |HOOK_START| && HOOK_START[j] == '#'
    ensures j == 0 && HOOK_START[2] == '>' && HOOK_END[2] == '<' && HOOK_END[0] == '#'
  {
    assert forall k :: 1 <= k < |HOOK_START| ==> HOOK_START[k] != '#';
  }

  /** The second install drops the user's command. */
  lemma OrphanHookLost(block: string)
    requires WellFormedBlock(block)
    ensures Installs(ORPHAN_HOOK, SHEBANG + block, 2) == block + "\n"
  {
    OrphanHookOpen();
    hide Installs, WellFormedBlock, Orphaned, Find;
    OrphanSecondInstall(ORPHAN_HOOK, block);
    assert ORPHAN_HOOK[..0] + block == block;
  }

  // ----- In the words of the files -------------------------------------------------------------

  /** A hook without git-paw's marker keeps its text and gets the body behind it, without the body's `/bin/sh` line and with any other one; an empty hook becomes the body. */
  lemma ChainedBehind(hook: string, text: string)
    requires !Contains(hook, "# >>> git-paw managed hook >>>")
    ensures TrimEnd(hook) == "" ==> Chain(hook, text) == text
    ensures TrimEnd(hook) != "" ==> Chain(hook, "#!/bin/sh\n" + text) == TrimEnd(hook) + "\n" + text
    ensures TrimEnd(hook) != "" && !("#!/bin/sh\n" <= text) ==> Chain(hook, text) == TrimEnd(hook) + "\n" + text
  {
    hide TrimEnd, Contains, FindFrom;
    assert ("#!/bin/sh\n" + text)[|SHEBANG|..] == text;
  }

  /** From the first start marker to the next end marker the hook is the body, everything else stays. */
  lemma ReplacedBetween(hook: string, text: string, k: nat, e: nat)
    requires Find(hook, "# >>> git-paw managed hook >>>") == k && FindFrom(hook, "# <<< git-paw managed hook <<<", k) == e
    ensures Chain(hook, "#!/bin/sh\n" + text) == hook[..k] + text + hook[e + |"# <<< git-paw managed hook <<<"|..]
  {
    hide Find, FindFrom;
    assert ("#!/bin/sh\n" + text)[|SHEBANG|..] == text;
  }
}
