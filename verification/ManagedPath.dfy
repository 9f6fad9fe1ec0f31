/**
 The check that tells git-paw's own bookkeeping from user work before a
 worktree is removed.
 */
module ManagedPath {
  import opened Wrappers
  import opened Text
  import opened SessionBlock
  import opened SessionRoundTrip

  const SIDECAR_REL_PATH := ".git-paw/AGENTS.local.md"

  /** The tracked file carries the block, and differs from its committed text in nothing else. */
  ghost predicate BlockOnlyChange(onDisk: string, head: string) {
    HasSection(onDisk) && TrimEnd(ReplaceSection(onDisk, "")) == TrimEnd(head)
  }

  /**
   `onDisk` is `None` when the file cannot be read, `head` when the path has no
   committed text. Nothing is git-paw's own but its directory, what is in it,
   and an `AGENTS.md` whose change is the block's alone.
   */
  method IsManaged(rel: string, onDisk: Option<string>, head: Option<string>) returns (managed: bool)
    ensures managed <==>
            || rel == ".git-paw" || ".git-paw/" <= rel
            || (rel == "AGENTS.md" && onDisk.Some? && head.Some? && BlockOnlyChange(onDisk.value, head.value))
    ensures forall more: string :: rel == ".git-paw" + more && more != "" && more[0] != '/' ==> !managed
  {
    NamesFacts();
    if rel == SIDECAR_REL_PATH {
      return true;
    }
    if rel == ".git-paw" || rel == ".git-paw/" || StartsWith(rel, ".git-paw/") {
      return true;
    }
    if rel != "AGENTS.md" {
      return false;
    }
    if onDisk.None? {
      return false;
    }
    var found := HasGitPawSection(onDisk.value);
    if !found {
      return false;
    }
    if head.None? {
      return false;
    }
    var stripped := ReplaceGitPawSection(onDisk.value, "");
    return TrimEnd(stripped) == TrimEnd(head.value);
  }

  lemma NamesFacts()
    ensures ".git-paw/" <= SIDECAR_REL_PATH && ".git-paw/" <= ".git-paw/"
    ensures forall more: string :: ".git-paw/" <= ".git-paw" + more ==> more != "" && more[0] == '/'
    ensures forall more: string :: ".git-paw" + more != "AGENTS.md"
  {
    assert SIDECAR_REL_PATH[..9] == ".git-paw/";
    forall more: string | ".git-paw/" <= ".git-paw" + more ensures more != "" && more[0] == '/' {
      assert (".git-paw" + more)[8] == '/';
    }
    assert ".git-paw"[0] == '.' && "AGENTS.md"[0] == 'A';
    forall more: string ensures (".git-paw" + more)[0] == '.' {}
  }

  /** A file without a block is never git-paw's own, even one that differs in trailing whitespace only. */
  lemma BlocklessIsUsers(onDisk: string, head: string)
    requires forall i :: 0 <= i < |Lines(onDisk)| ==> !("<!-- git-paw:start" <= Lines(onDisk)[i])
    ensures !BlockOnlyChange(onDisk, head)
  {
  }

  lemma TrimClosed(x: string)
    ensures TrimEnd(Terminated(x)) == TrimEnd(x)
    ensures TrimEnd(Terminated(x) + "\n") == TrimEnd(x)
  {
  }

  /** With the block at any place, the answer depends on the text around it and nothing else. */
  lemma AcceptsExactlyBlockChanges(pre: string, s: string, post: string, head: string)
    requires LineAligned(pre) && StartFree(pre) && NoCrLf(pre) && NoCrLf(post)
    requires WellFormedSection(s)
    ensures BlockOnlyChange(pre + s + post, head) <==> TrimEnd(pre + post) == TrimEnd(head)
  {
    ReplaceKeepsSurroundings(pre, s, post, "");
    assert pre + "" == pre;
    TerminatedConcat(pre, post);
    TrimClosed(pre + post);
  }

  // ----- Carriage returns ------------------------------------------------

  /** The text with every `\r\n` written as `\n`. */
  function Normal(s: string): (r: string)
    ensures |r| <= |s|
  {
    if s == "" then ""
    else if |s| >= 2 && s[0] == '\r' && s[1] == '\n' then "\n" + Normal(s[2..])
    else [s[0]] + Normal(s[1..])
  }

  /** `s` has a `\r` directly before a `\n`. */
  predicate HasCrLf(s: string) {
    exists i :: 0 <= i < |s| - 1 && s[i] == '\r' && s[i + 1] == '\n'
  }

  lemma {:induction false} NormalSplit(a: string, b: string)
    requires a == "" || a[|a| - 1] != '\r'
    ensures Normal(a + b) == Normal(a) + Normal(b)
    decreases |a|
  {
    if a == "" {
      assert a + b == b;
    } else if |a| >= 2 && a[0] == '\r' && a[1] == '\n' {
      assert (a + b)[2..] == a[2..] + b;
      NormalSplit(a[2..], b);
      ConcatAssoc("\n", Normal(a[2..]), Normal(b));
    } else {
      assert (a + b)[1..] == a[1..] + b;
      NormalSplit(a[1..], b);
      ConcatAssoc([a[0]], Normal(a[1..]), Normal(b));
    }
  }

  lemma {:induction false} NormalLength(s: string)
    ensures |Normal(s)| == |s| <==> !HasCrLf(s)
    ensures !HasCrLf(s) ==> Normal(s) == s
    decreases |s|
  {
    if |s| >= 2 && s[0] == '\r' && s[1] == '\n' {
      assert HasCrLf(s);
    } else if s != "" {
      NormalLength(s[1..]);
      assert s == [s[0]] + s[1..];
      if HasCrLf(s[1..]) {
        var i :| 0 <= i < |s[1..]| - 1 && s[1..][i] == '\r' && s[1..][i + 1] == '\n';
        assert s[i + 1] == '\r' && s[i + 2] == '\n';
      }
      if HasCrLf(s) {
        var i :| 0 <= i < |s| - 1 && s[i] == '\r' && s[i + 1] == '\n';
        assert s[1..][i - 1] == '\r' && s[1..][i - 1 + 1] == '\n';
      }
    }
  }

  lemma {:induction false} NormalPlain(l: string)
    requires '\n' !in l
    ensures Normal(l) == l
    ensures Normal(l + "\n") == LineText(l + "\n") + "\n"
    decreases |l|
  {
    NormalLength(l);
    if l != "" && l[|l| - 1] == '\r' {
      var x := l[..|l| - 1];
      assert l + "\n" == x + "\r\n";
      NormalCrRun(x);
    } else if l != "" {
      NormalSplit(l, "\n");
    }
  }

  lemma {:induction false} NormalCrRun(x: string)
    requires '\n' !in x
    ensures Normal(x + "\r\n") == x + "\n"
    decreases |x|
  {
    if x == "" {
      assert "" + "\r\n" == "\r\n";
      assert Normal("\r\n") == "\n" + Normal("");
    } else {
      var y := x + "\r\n";
      assert y[1] != '\n';
      assert y[1..] == x[1..] + "\r\n";
      NormalCrRun(x[1..]);
      assert x == [x[0]] + x[1..];
      ConcatAssoc([x[0]], x[1..], "\n");
    }
  }

  lemma PieceIsLine(p: string)
    requires IsPiece(p)
    ensures '\n' !in p[..|p| - 1] && p == p[..|p| - 1] + "\n"
  {
  }

  /** Writing the lines of a closed text back is normalising its line endings. */
  lemma {:induction false} JoinIsNormal(s: string)
    requires LineAligned(s)
    ensures Join(Lines(s)) == Normal(s)
    decreases |s|
  {
    if s != "" {
      var p, rest := SplitPiece(s);
      assert IsPiece(p);
      assert LineAligned(rest);
      JoinIsNormal(rest);
      PieceIsLine(p);
      NormalPlain(p[..|p| - 1]);
      NormalSplit(p, rest);
      JoinFirstPiece(p, rest);
    }
  }

  lemma {:induction false} NormalWhitespace(w: string)
    requires AllWhitespace(w)
    ensures AllWhitespace(Normal(w))
    decreases |w|
  {
    if w != "" {
      if |w| >= 2 && w[0] == '\r' && w[1] == '\n' {
        NormalWhitespace(w[2..]);
      } else {
        NormalWhitespace(w[1..]);
      }
    }
  }

  lemma NormalLast(t: string)
    requires t != "" && !IsWhitespace(t[|t| - 1])
    ensures Normal(t) != "" && Normal(t)[|Normal(t)| - 1] == t[|t| - 1]
  {
    var x, c := t[..|t| - 1], t[|t| - 1];
    assert t == x + [c];
    NormalKeepsLast(x, c);
  }

  lemma {:induction false} NormalKeepsLast(x: string, c: char)
    requires c != '\n'
    ensures Normal(x + [c]) == Normal(x) + [c]
    decreases |x|
  {
    var y := x + [c];
    if x == "" {
      assert y == [c];
      assert Normal([c]) == [c] + Normal("");
    } else if |x| >= 2 && x[0] == '\r' && x[1] == '\n' {
      assert y[2..] == x[2..] + [c];
      NormalKeepsLast(x[2..], c);
      ConcatAssoc("\n", Normal(x[2..]), [c]);
    } else {
      assert y[1..] == x[1..] + [c];
      NormalKeepsLast(x[1..], c);
      ConcatAssoc([x[0]], Normal(x[1..]), [c]);
    }
  }

  lemma TrimNormal(head: string)
    ensures TrimEnd(Normal(head)) == Normal(TrimEnd(head))
  {
    var t := TrimEnd(head);
    var w := head[|t|..];
    assert head == t + w;
    assert AllWhitespace(w);
    NormalSplit(t, w);
    NormalWhitespace(w);
    if t != "" { NormalLast(t); }
    TrimEndUnique(Normal(t), Normal(w));
  }

  /** What the comparison sees after an injection into `head`. */
  lemma StrippedInjection(head: string, s: string)
    requires StartFree(head) && WellFormedSection(s)
    ensures HasSection(InjectSection(head, s))
    ensures ReplaceSection(InjectSection(head, s), "") == Normal(if head == "" then "" else Terminated(head) + "\n")
  {
    hide Lines, Join, Normal, WellFormedSection, ReplaceSection;
    var pre := if head == "" then "" else Terminated(head) + "\n";
    if head != "" { InjectedLines(head, s); }
    assert pre + s + "" == InjectSection(head, s);
    StrippedText(pre, s);
    JoinIsNormal(pre);
  }

  lemma StrippedText(pre: string, s: string)
    requires LineAligned(pre) && StartFree(pre) && WellFormedSection(s)
    ensures HasSection(pre + s + "")
    ensures ReplaceSection(pre + s + "", "") == Join(Lines(pre))
  {
    DocumentLines(pre, s, "");
    SectionLines(s);
    Locate(Lines(pre), Lines(SectionBody(s)), END_MARKER, []);
    var ls := Lines(pre + s + "");
    assert IsStart(ls[|Lines(pre)|]);
    assert Join([]) == "";
    assert Join(Lines(pre)) + "" + "" == Join(Lines(pre));
  }

  /**
   A file whose only change is a fresh injection is recognised as git-paw's
   own, exactly when its committed text has no `\r\n` above its trailing
   whitespace.
   */
  lemma FreshInjectionManagedIff(head: string, s: string)
    requires StartFree(head) && WellFormedSection(s)
    ensures BlockOnlyChange(InjectSection(head, s), head) <==> !HasCrLf(TrimEnd(head))
  {
    StrippedInjection(head, s);
    if head != "" { TrimClosed(head); }
    TrimNormal(if head == "" then "" else Terminated(head) + "\n");
    NormalLength(TrimEnd(head));
  }
}
