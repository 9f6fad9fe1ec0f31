/**
 The managed entries of `.gitignore`: absent ones are appended, everything else
 is left alone.
 */
module GitIgnore {
  import opened Text

  /** Entries as git-paw lists them: non-empty single lines without surrounding whitespace, each once. */
  ghost predicate PlainEntries(entries: seq<string>) {
    && (forall i :: 0 <= i < |entries| ==> Trim(entries[i]) == entries[i] && CleanLine(entries[i]))
    && (forall i, j :: 0 <= i < j < |entries| ==> entries[i] != entries[j])
  }

  predicate HasEntry(content: string, entry: string) {
    exists i :: 0 <= i < |Lines(content)| && Trim(Lines(content)[i]) == entry
  }

  /** The entries no line of `content` equals once trimmed, in order. */
  function Missing(content: string, entries: seq<string>): seq<string> {
    if entries == [] then []
    else (if HasEntry(content, entries[0]) then [] else [entries[0]]) + Missing(content, entries[1..])
  }

  function Ensured(existing: string, entries: seq<string>): string {
    if Missing(existing, entries) == [] then existing else Terminated(existing) + Join(Missing(existing, entries))
  }

  /** Returns the new content, and whether the file is rewritten. */
  method EnsureGitignoreEntry(existing: string, entries: seq<string>) returns (content: string, modified: bool)
    ensures content == Ensured(existing, entries)
    ensures modified <==> Missing(existing, entries) != []
  {
    var missing := Missing(existing, entries);
    if missing == [] {
      return existing, false;
    }
    content := existing;
    if content != "" && !EndsWithNewline(content) {
      content := content + "\n";
    }
    ghost var base := content;
    for i := 0 to |missing|
      invariant content == base + Join(missing[..i])
    {
      JoinAppend(missing[..i], missing[i]);
      assert missing[..i] + [missing[i]] == missing[..i + 1];
      ConcatAssoc(base, Join(missing[..i]), missing[i]);
      ConcatAssoc(base, Join(missing[..i]) + missing[i], "\n");
      content := content + missing[i];
      content := content + "\n";
    }
    assert missing[..|missing|] == missing;
    modified := true;
  }

  lemma {:induction false} MissingAre(content: string, entries: seq<string>)
    ensures forall e :: e in Missing(content, entries) <==> e in entries && !HasEntry(content, e)
    decreases |entries|
  {
    hide HasEntry;
    if entries != [] {
      MissingAre(content, entries[1..]);
      assert forall e :: e in entries <==> e == entries[0] || e in entries[1..];
    }
  }

  lemma EntriesConcat(a: string, b: string, e: string)
    requires LineAligned(a)
    ensures HasEntry(a + b, e) <==> HasEntry(a, e) || HasEntry(b, e)
  {
    hide Trim;
    LinesConcat(a, b);
    var la, lb, l := Lines(a), Lines(b), Lines(a + b);
    assert forall i :: 0 <= i < |la| ==> l[i] == la[i];
    assert forall i :: 0 <= i < |lb| ==> l[|la| + i] == lb[i];
    if HasEntry(a, e) {
      var i :| 0 <= i < |la| && Trim(la[i]) == e;
      assert Trim(l[i]) == e;
    }
    if HasEntry(b, e) {
      var i :| 0 <= i < |lb| && Trim(lb[i]) == e;
      assert Trim(l[|la| + i]) == e;
    }
  }

  lemma {:induction false} ClosingKeepsEntries(content: string, e: string)
    ensures HasEntry(Terminated(content), e) <==> HasEntry(content, e)
    decreases |content|
  {
    hide HasEntry;
    if !LineAligned(content) {
      var p, rest := SplitPiece(content);
      if IsPiece(p) {
        assert !LineAligned(rest);
        ClosingKeepsEntries(rest, e);
        TerminatedConcat(p, rest);
        EntriesConcat(p, rest, e);
        EntriesConcat(p, Terminated(rest), e);
      } else {
        assert p + "" == p;
        ClosedLineEntry(content, e);
      }
    }
  }

  lemma ClosedLineEntry(l: string, e: string)
    requires l != "" && '\n' !in l
    ensures HasEntry(l + "\n", e) <==> HasEntry(l, e)
  {
    hide Trim;
    var p := l + "\n";
    assert IsPiece(p);
    FirstPiece(p, "");
    assert p + "" == p;
    PieceLenUnique(l, |l|);
    assert l[|l| - 1] in l;
    assert l[..|l|] == l && l[|l|..] == "";
    assert Lines(l) == [l] && Lines(p) == [LineText(p)];
    var tail := l[|LineText(p)|..];
    assert l == LineText(p) + tail;
    assert AllWhitespace(tail);
    TrimIgnoresTail(LineText(p), tail);
    assert Lines(l)[0] == l && Lines(p)[0] == LineText(p);
  }

  lemma BlockEntries(entries: seq<string>, e: string)
    requires forall i :: 0 <= i < |entries| ==> Trim(entries[i]) == entries[i] && CleanLine(entries[i])
    ensures HasEntry(Join(entries), e) <==> e in entries
  {
    hide Trim;
    LinesOfJoin(entries);
    if e in entries {
      var i :| 0 <= i < |entries| && entries[i] == e;
      assert Trim(Lines(Join(entries))[i]) == e;
    }
  }

  /** After a run every managed entry is there, every line that was there still is, and no other line is. */
  lemma EnsuredEntries(existing: string, entries: seq<string>, e: string)
    requires PlainEntries(entries)
    ensures HasEntry(Ensured(existing, entries), e) <==> HasEntry(existing, e) || e in entries
    ensures existing <= Ensured(existing, entries)
  {
    hide HasEntry, Trim;
    var missing := Missing(existing, entries);
    MissingAre(existing, entries);
    if missing != [] {
      forall i | 0 <= i < |missing| ensures Trim(missing[i]) == missing[i] && CleanLine(missing[i]) {
        assert missing[i] in missing;
        var j :| 0 <= j < |entries| && entries[j] == missing[i];
      }
      BlockEntries(missing, e);
      EntriesConcat(Terminated(existing), Join(missing), e);
      ClosingKeepsEntries(existing, e);
      assert existing <= Terminated(existing) <= Terminated(existing) + Join(missing);
    }
  }

  /** A second run rewrites nothing. */
  lemma EnsureIdempotent(existing: string, entries: seq<string>)
    requires PlainEntries(entries)
    ensures Missing(Ensured(existing, entries), entries) == []
    ensures Ensured(Ensured(existing, entries), entries) == Ensured(existing, entries)
  {
    hide HasEntry, Trim;
    var once := Ensured(existing, entries);
    MissingAre(once, entries);
    if Missing(once, entries) != [] {
      var e := Missing(once, entries)[0];
      EnsuredEntries(existing, entries, e);
    }
  }
}
