/**
 Injecting and removing the session block as inverses, the exact texts on which
 they are, and the comparison that tells a block-only change from user work.
 */
module SessionRoundTrip {
  import opened Text
  import opened SessionBlock

  // ----- Inject then remove ----------------------------------------------

  lemma InjectedLines(content: string, s: string)
    requires content != "" && StartFree(content) && WellFormedSection(s)
    ensures StartFree(Terminated(content) + "\n")
    ensures Lines(Terminated(content) + "\n") == Lines(Terminated(content)) + [""]
  {
    FirstPiece("\n", "");
    assert "\n" + "" == "\n";
    LinesConcat(Terminated(content), "\n");
    TerminatedStartFree(content);
    assert !IsStart("");
  }

  lemma {:induction false} TerminatedStartFree(t: string)
    requires StartFree(t)
    ensures StartFree(Terminated(t))
    decreases |t|
  {
    if t != "" {
      var p, rest := SplitPiece(t);
      if IsPiece(p) {
        StartFreeConcat(p, rest);
        TerminatedStartFree(rest);
        TerminatedConcat(p, rest);
        StartFreeConcat(p, Terminated(rest));
      } else {
        assert p + "" == p;
        assert !IsStart(Lines(t)[0]);
      }
    }
  }

  /** The lines of a document that ends with the section. */
  lemma ClosingSection(pre: string, s: string)
    requires LineAligned(pre) && StartFree(pre) && WellFormedSection(s)
    ensures var ls, body := Lines(pre + s), Lines(SectionBody(s));
            && ls == Lines(pre) + (body + [END_MARKER]) + []
            && body != [] && IsStart(body[0]) && IsEnd(END_MARKER)
            && (forall k :: 0 <= k < |body| ==> !IsEnd(body[k]))
            && (forall k :: 0 <= k < |Lines(pre)| ==> !IsStart(Lines(pre)[k]))
            && FirstStart(ls) == |Lines(pre)| < |ls| && EndsWithNewline(pre + s)
  {
    hide Lines, SectionBody, WellFormedSection, IsStart, IsEnd;
    NoLines();
    DocumentLines(pre, s, "");
    assert pre + s + "" == pre + s;
    SectionLines(s);
    Locate(Lines(pre), Lines(SectionBody(s)), END_MARKER, []);
  }

  lemma RemovedOf(pre: string, s: string)
    requires LineAligned(pre) && StartFree(pre) && WellFormedSection(s)
    ensures RemoveSection(pre + s) == Join(KeptLines(Lines(pre), []).0)
  {
    hide Lines, SectionBody, WellFormedSection, IsStart, IsEnd, RemoveFrom, Join, RemoveSection;
    ClosingSection(pre, s);
    RemoveFromIs(Lines(pre), Lines(SectionBody(s)), END_MARKER, [], true);
    RemoveIsRemoveFrom(pre + s, |Lines(pre)|);
    NoLines();
    var kept := KeptLines(Lines(pre), []);
    assert Join(kept.0) + "" == Join(kept.0);
  }

  /** What removal gives back after an injection, for every text: its lines, written back one by one. */
  lemma RemoveAfterInject(content: string, s: string)
    requires StartFree(content) && WellFormedSection(s)
    ensures RemoveSection(InjectSection(content, s)) == Join(Lines(Terminated(content)))
  {
    hide Lines, WellFormedSection, RemoveSection;
    if content == "" {
      NoLines();
      assert "" + s == s;
      RemovedOf("", s);
    } else {
      InjectedLines(content, s);
      RemovedOf(Terminated(content) + "\n", s);
    }
  }

  /** The round trip gives the text back, up to one final newline, exactly when no line of it ends in `\r`. */
  lemma RoundTripIff(content: string, s: string)
    requires StartFree(content) && WellFormedSection(s)
    ensures (RemoveSection(InjectSection(content, s)) == content
             || RemoveSection(InjectSection(content, s)) == content + "\n")
            <==> NoCrLf(content)
  {
    RemoveAfterInject(content, s);
    var back := Join(Lines(Terminated(content)));
    JoinOfLinesLength(Terminated(content));
    if NoCrLf(content) {
      JoinOfLines(content);
      SameLinesClosed(content);
    } else if back == content || back == content + "\n" {
      assert |back| == |Terminated(content)|;
      OpenNoCrLf(content);
    }
  }

  lemma OpenNoCrLf(t: string)
    requires NoCrLf(Terminated(t))
    ensures NoCrLf(t)
  {
    forall i | 0 <= i < |t| && t[i] == '\r' ensures i + 1 < |t| && t[i + 1] != '\n' {
      assert Terminated(t)[i] == '\r';
    }
  }

  lemma CloseNoCrLf(t: string)
    requires NoCrLf(t)
    ensures NoCrLf(Terminated(t))
  {
  }

  lemma SameLinesClosed(t: string)
    requires NoCrLf(t)
    ensures Join(Lines(Terminated(t))) == Terminated(t)
  {
    CloseNoCrLf(t);
    JoinOfLines(Terminated(t));
  }

  // ----- Inject twice ----------------------------------------------------

  /** Injecting again is injecting only the second section, exactly when no line of the text ends in `\r`. */
  lemma ReinjectIff(content: string, s1: string, s2: string)
    requires StartFree(content) && WellFormedSection(s1) && WellFormedSection(s2)
    ensures InjectSection(InjectSection(content, s1), s2) == InjectSection(content, s2) <==> NoCrLf(content)
  {
    var pre := if content == "" then "" else Terminated(content) + "\n";
    if content != "" { InjectedLines(content, s1); }
    assert "" + s1 == s1;
    assert pre + s1 == InjectSection(content, s1);
    assert pre + s2 == InjectSection(content, s2);
    ReinjectedText(pre, s1, s2);
    if NoCrLf(content) {
      CloseNoCrLf(content);
      if content != "" { NoCrLfConcat(Terminated(content), "\n"); }
      JoinOfLines(pre);
    } else if Join(Lines(pre)) + s2 == pre + s2 {
      assert |Join(Lines(pre))| == |pre|;
      JoinOfLinesLength(pre);
      NoCrLfSplit(Terminated(content), "\n");
      OpenNoCrLf(content);
    }
  }

  lemma ReinjectedText(pre: string, s1: string, s2: string)
    requires LineAligned(pre) && StartFree(pre) && WellFormedSection(s1)
    ensures InjectSection(pre + s1, s2) == Join(Lines(pre)) + s2
  {
    ReplacedText(pre, s1, s2);
    hide Lines, SectionBody, WellFormedSection, ReplaceSection;
    ClosingSection(pre, s1);
    var ls := Lines(pre + s1);
    assert ls[|Lines(pre)|] == Lines(SectionBody(s1))[0];
  }

  lemma ReplacedText(pre: string, s1: string, s2: string)
    requires LineAligned(pre) && StartFree(pre) && WellFormedSection(s1)
    ensures ReplaceSection(pre + s1, s2) == Join(Lines(pre)) + s2
  {
    hide Lines, SectionBody, WellFormedSection, Join;
    ClosingSection(pre, s1);
    Locate(Lines(pre), Lines(SectionBody(s1)), END_MARKER, []);
    NoLines();
    assert Join(Lines(pre)) + s2 + "" == Join(Lines(pre)) + s2;
  }
}
