/**
 The tmux-safe slug of a project name, and the session name around it.
 */
module ProjectSlug {
  import opened Text

  const FALLBACK := "unknown"

  predicate IsSafe(c: char) {
    'A' <= c <= 'Z' || 'a' <= c <= 'z' || '0' <= c <= '9' || c == '_' || c == '-'
  }

  predicate AllSafe(s: string) {
    forall i :: 0 <= i < |s| ==> IsSafe(s[i])
  }

  // ----- The reference: runs of safe characters -------------------------------------

  function RunLength(s: string): (n: nat)
    ensures n <= |s| && AllSafe(s[..n]) && (n < |s| ==> !IsSafe(s[n]))
  {
    if s == "" || !IsSafe(s[0]) then 0
    else
      var n := RunLength(s[1..]);
      assert s[..n + 1] == [s[0]] + s[1..][..n];
      n + 1
  }

  /** The maximal runs of safe characters, in order. */
  function SafeRuns(s: string): (runs: seq<string>)
    ensures forall i :: 0 <= i < |runs| ==> runs[i] != "" && AllSafe(runs[i])
    decreases |s|
  {
    if s == "" then []
    else if !IsSafe(s[0]) then SafeRuns(s[1..])
    else [s[..RunLength(s)]] + SafeRuns(s[RunLength(s)..])
  }

  function Dashed(runs: seq<string>): string {
    if runs == [] then ""
    else if |runs| == 1 then runs[0]
    else runs[0] + "-" + Dashed(runs[1..])
  }

  function Slug(project: string): string {
    if SafeRuns(project) == [] then FALLBACK else Dashed(SafeRuns(project))
  }

  // ----- The scan ---------------------------------------------------------------------

  /** What the scan does with the rest of its input, given what it has emitted. */
  function Scan(slug: string, pending: bool, rest: string): string
    decreases |rest|
  {
    if rest == "" then slug
    else if IsSafe(rest[0]) then
      Scan((if pending && slug != "" then slug + "-" else slug) + [rest[0]], false, rest[1..])
    else Scan(slug, true, rest[1..])
  }

  lemma {:induction false} ScanRun(slug: string, pending: bool, run: string, rest: string)
    requires run != "" && AllSafe(run)
    ensures Scan(slug, pending, run + rest)
            == Scan((if pending && slug != "" then slug + "-" else slug) + run, false, rest)
    decreases |run|
  {
    var base := if pending && slug != "" then slug + "-" else slug;
    assert (run + rest)[0] == run[0] && (run + rest)[1..] == run[1..] + rest;
    assert run == [run[0]] + run[1..];
    ConcatAssoc(base, [run[0]], run[1..]);
    if |run| == 1 {
      assert run == [run[0]];
      assert run[1..] + rest == rest;
    } else {
      ScanRun(base + [run[0]], false, run[1..], rest);
    }
  }

  /** From a gap, the scan appends the remaining runs, dashed. */
  lemma {:induction false} ScanRuns(slug: string, rest: string)
    ensures Scan(slug, true, rest) ==
            if SafeRuns(rest) == [] then slug
            else if slug == "" then Dashed(SafeRuns(rest))
            else slug + "-" + Dashed(SafeRuns(rest))
    ensures (rest == "" || !IsSafe(rest[0])) ==> Scan(slug, false, rest) == Scan(slug, true, rest)
    decreases |rest|
  {
    if rest != "" {
      if !IsSafe(rest[0]) {
        ScanRuns(slug, rest[1..]);
      } else {
        var n := RunLength(rest);
        var run, tail := rest[..n], rest[n..];
        assert rest == run + tail;
        ScanRun(slug, true, run, tail);
        var base := (if slug != "" then slug + "-" else slug) + run;
        ScanRuns(base, tail);
        assert SafeRuns(rest) == [run] + SafeRuns(tail);
        if SafeRuns(tail) != [] {
          assert SafeRuns(rest)[1..] == SafeRuns(tail);
        }
      }
    }
  }

  method MakeSlug(project: string) returns (slug: string)
    ensures slug == Slug(project)
  {
    slug := "";
    var pendingSeparator := false;
    for i := 0 to |project|
      invariant Scan(slug, pendingSeparator, project[i..]) == Scan("", false, project)
    {
      var c := project[i];
      assert project[i..][0] == c && project[i..][1..] == project[i + 1..];
      if IsSafe(c) {
        if pendingSeparator && slug != "" {
          slug := slug + "-";
        }
        pendingSeparator := false;
        slug := slug + [c];
      } else {
        pendingSeparator := true;
      }
    }
    assert project[|project|..] == "";
    ScanFromStart(project);
    if slug == "" {
      slug := FALLBACK;
    }
  }

  /** With nothing emitted, a pending separator makes no difference. */
  lemma {:induction false} ScanFromStart(project: string)
    ensures Scan("", false, project) == Dashed(SafeRuns(project))
    ensures Scan("", false, project) == "" <==> SafeRuns(project) == []
  {
    ScanRuns("", project);
    assert project != "" ==> Scan("", false, project) == Scan("", true, project);
    if SafeRuns(project) != [] { DashedNonEmpty(SafeRuns(project)); }
  }

  lemma DashedNonEmpty(runs: seq<string>)
    requires runs != [] && forall i :: 0 <= i < |runs| ==> runs[i] != ""
    ensures Dashed(runs) != ""
  {
    assert runs[0] != "";
  }

  // ----- What a slug is ------------------------------------------------------------------

  lemma {:induction false} DashedSafe(runs: seq<string>)
    requires forall i :: 0 <= i < |runs| ==> AllSafe(runs[i])
    ensures AllSafe(Dashed(runs))
    decreases |runs|
  {
    if |runs| > 1 {
      DashedSafe(runs[1..]);
      var x, y := runs[0] + "-", Dashed(runs[1..]);
      assert AllSafe(runs[0]);
      assert forall i :: 0 <= i < |x + y| ==> IsSafe((x + y)[i]);
    } else if |runs| == 1 {
      assert AllSafe(runs[0]);
    }
  }

  lemma SafeIsOneRun(s: string)
    requires s != "" && AllSafe(s)
    ensures Slug(s) == s
  {
    var n := RunLength(s);
    assert n == |s|;
    assert s[..|s|] == s && s[|s|..] == "";
    assert SafeRuns(s) == [s] + SafeRuns("");
    assert SafeRuns(s) == [s];
  }

  /** Every slug is a non-empty tmux-safe name, and is its own slug; a name that is already one is kept. */
  lemma SlugIsSafe(project: string)
    ensures Slug(project) != "" && AllSafe(Slug(project))
    ensures Slug(Slug(project)) == Slug(project)
    ensures project != "" && AllSafe(project) ==> Slug(project) == project
  {
    var runs := SafeRuns(project);
    DashedSafe(runs);
    if runs != [] { DashedNonEmpty(runs); }
    assert AllSafe(FALLBACK);
    SafeIsOneRun(Slug(project));
    if project != "" && AllSafe(project) { SafeIsOneRun(project); }
  }

  function SessionName(project: string): string {
    "paw-" + Slug(project)
  }

  /** A session name never holds a character tmux reads as a target separator. */
  lemma SessionNameIsTarget(project: string)
    ensures AllSafe(SessionName(project))
    ensures '.' !in SessionName(project) && ':' !in SessionName(project)
  {
    SlugIsSafe(project);
  }

  // ----- Which characters stay ---------------------------------------------------------

  /** ASCII letters, digits, underscores and dashes. */
  predicate SlugCharacters(s: string) {
    forall i :: 0 <= i < |s| ==>
      'A' <= s[i] <= 'Z' || 'a' <= s[i] <= 'z' || '0' <= s[i] <= '9' || s[i] == '_' || s[i] == '-'
  }

  predicate NoSlugCharacter(s: string) {
    forall i :: 0 <= i < |s| ==> !SlugCharacters([s[i]])
  }

  lemma SlugCharactersAre(s: string)
    ensures SlugCharacters(s) <==> AllSafe(s)
    ensures NoSlugCharacter(s) <==> forall i :: 0 <= i < |s| ==> !IsSafe(s[i])
  {
    forall i | 0 <= i < |s| ensures SlugCharacters([s[i]]) <==> IsSafe(s[i]) {
      assert [s[i]][0] == s[i];
    }
  }

  lemma {:induction false} GapSkipped(gap: string, rest: string)
    requires forall i :: 0 <= i < |gap| ==> !IsSafe(gap[i])
    ensures SafeRuns(gap + rest) == SafeRuns(rest)
    decreases |gap|
  {
    if gap == "" {
      assert gap + rest == rest;
    } else {
      assert (gap + rest)[0] == gap[0] && (gap + rest)[1..] == gap[1..] + rest;
      GapSkipped(gap[1..], rest);
    }
  }

  lemma RunThenGap(run: string, gap: string, rest: string)
    requires run != "" && AllSafe(run)
    requires forall i :: 0 <= i < |gap| ==> !IsSafe(gap[i])
    requires gap != "" || rest == ""
    ensures SafeRuns(run + (gap + rest)) == [run] + SafeRuns(rest)
  {
    var s := run + (gap + rest);
    var n := RunLength(s);
    assert forall i :: 0 <= i < |run| ==> s[i] == run[i];
    assert gap != "" ==> s[|run|] == gap[0];
    assert forall i :: 0 <= i < n ==> s[..n][i] == s[i];
    assert n == |run|;
    assert s[..n] == run && s[n..] == gap + rest;
    GapSkipped(gap, rest);
  }

  /** Everything between two names becomes one dash, everything around them goes, and the names stay as they are. */
  lemma SlugOfNames(before: string, x: string, gap: string, y: string, behind: string)
    requires x != "" && y != "" && SlugCharacters(x) && SlugCharacters(y)
    requires gap != "" && NoSlugCharacter(before) && NoSlugCharacter(gap) && NoSlugCharacter(behind)
    ensures Slug(before + (x + (gap + (y + (behind + ""))))) == x + "-" + y
    ensures Slug(before + (x + (behind + ""))) == x
    ensures Slug(before) == "unknown"
  {
    hide SafeRuns, RunLength, SlugCharacters, NoSlugCharacter, IsSafe;
    SlugCharactersAre(x);
    SlugCharactersAre(y);
    SlugCharactersAre(before);
    SlugCharactersAre(gap);
    SlugCharactersAre(behind);
    NoRuns();
    RunThenGap(y, behind, "");
    RunThenGap(x, gap, y + (behind + ""));
    GapSkipped(before, x + (gap + (y + (behind + ""))));
    RunThenGap(x, behind, "");
    GapSkipped(before, x + (behind + ""));
    GapSkipped(before, "");
    assert before + "" == before && [x, y][1..] == [y];
    assert [x] + ([y] + []) == [x, y] && [x] + [] == [x];
    DashedTwo(x, y);
  }

  lemma DashedTwo(x: string, y: string)
    ensures Dashed([x, y]) == x + "-" + y && Dashed([x]) == x
  {
    assert [x, y][1..] == [y];
  }

  lemma NoRuns()
    ensures SafeRuns("") == []
  {
  }

  /** A session is named after its project's slug. */
  lemma SessionOf(project: string)
    requires project != "" && SlugCharacters(project)
    ensures SessionName(project) == "paw-" + project
  {
    SlugCharactersAre(project);
    SlugIsSafe(project);
  }
}
