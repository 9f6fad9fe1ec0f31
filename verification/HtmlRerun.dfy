/**
 Running the metadata injection again: exactly the pages on which it leaves
 the first run's output alone.
 */
module HtmlRerun {
  import opened Wrappers
  import opened Text
  import opened HtmlMetadata

  // ----- What one run writes --------------------------------------------------------------------

  /** The payload as the block's template writes it. */
  function WrittenPayload(json: string): string {
    var expanded := Expand(EscapeSlashes(json));
    if expanded.Some? then expanded.value else ""
  }

  /** Metadata that no replacement template rejects and whose payload, as it is written, does not end the block. */
  ghost predicate PlainMetadata(description: string, json: string) {
    && Expand(NewMeta(description)).Some? && Expand(EscapeSlashes(json)).Some?
    && !Contains(WrittenPayload(json), BLOCK_END)
  }

  /** Metadata without backslashes, but for escaped quotes and the like, is plain when it does not hold the end marker. */
  lemma PlainWhenLiteral(description: string, json: string)
    requires LiteralTemplate(NewMeta(description)) && LiteralTemplate(json) && !Contains(json, BLOCK_END)
    ensures PlainMetadata(description, json) && WrittenPayload(json) == EscapeSlashes(json)
  {
    ExpandKeepsIff(NewMeta(description));
    PayloadLiteral(json);
    ExpandKeepsIff(EscapeSlashes(json));
    Markers();
    ScriptQuiet();
    PayloadMarkerFree(json, BLOCK_END);
  }

  /** The page the block goes into. */
  function PreparedPage(page: string, description: string): string {
    var bare := RemoveBlocks(page);
    var swapped := SwapMeta(bare, WrittenMeta(description));
    if swapped.Some? then swapped.value else bare
  }

  /** The block's body: empty on a page with a description meta of its own. */
  function Body(page: string, description: string): string {
    if HasMeta(RemoveBlocks(page)) then "" else PAD + WrittenMeta(description) + "\n"
  }

  function InsideOf(page: string, description: string, json: string): string {
    Inside(Body(page, description), WrittenPayload(json))
  }

  ghost predicate Fitting(inside: string) {
    !Contains(inside, BLOCK_END) && inside != "" && inside[0] != '<'
  }

  lemma BodyQuiet(page: string, description: string)
    ensures Quiet(Body(page, description))
  {
    hide RemoveBlocks, HasMeta, WrittenMeta;
    var meta := WrittenMeta(description);
    WrittenQuiet(description);
    QuietConcat(PAD, meta);
    QuietConcat(PAD + meta, "\n");
  }

  /** The body's template writes the body. */
  lemma BodyExpands(description: string)
    requires Expand(NewMeta(description)).Some?
    ensures Expand(PAD + NewMeta(description) + "\n") == Some(PAD + WrittenMeta(description) + "\n")
  {
    hide Expand, NewMeta, WrittenMeta;
    WrittenIs(description);
    var meta := NewMeta(description);
    ConcatAssoc(PAD, meta, "\n");
    ExpandPlain(PAD, meta + "\n");
    ExpandConcat(meta, "\n");
    ExpandPlain("\n", "");
    EmptyTemplate();
    assert "\n" + "" == "\n";
    ConcatAssoc(PAD, WrittenMeta(description), "\n");
  }

  /** What a run writes: the fitting block in the prepared page. */
  lemma InjectedIs(page: string, description: string, json: string)
    requires PlainMetadata(description, json)
    ensures InjectMetadata(page, description, json) ==
            Some(InsertBeforeHead(PreparedPage(page, description), Wrap(InsideOf(page, description, json))))
    ensures Fitting(InsideOf(page, description, json))
  {
    hide RemoveBlocks, HasMeta, NewMeta, WrittenMeta, InsertBeforeHead, Inside, Wrap, Expand, SwapMeta, EscapeSlashes;
    WrittenIs(description);
    BodyQuiet(page, description);
    BodyExpands(description);
    EmptyTemplate();
    InsideFree(Body(page, description), WrittenPayload(json));
    var template := if HasMeta(RemoveBlocks(page)) then "" else PAD + NewMeta(description) + "\n";
    BlockExpands(template, EscapeSlashes(json));
  }

  // ----- Counting `<` -----------------------------------------------------------------------------

  function Opens(s: string): nat {
    multiset(s)['<']
  }

  lemma OpensConcat(a: string, b: string)
    ensures Opens(a + b) == Opens(a) + Opens(b)
  {
  }

  lemma OpensPrefix(a: string, s: string)
    requires a <= s
    ensures Opens(a) <= Opens(s)
  {
    assert s == a + s[|a|..];
    OpensConcat(a, s[|a|..]);
  }

  lemma OpensSuffix(a: string, s: string)
    requires IsSuffix(a, s)
    ensures Opens(a) <= Opens(s)
    ensures |a| < |s| && s[0] == '<' ==> Opens(a) < Opens(s)
  {
    var front := s[..|s| - |a|];
    assert s == front + a;
    OpensConcat(front, a);
    if |a| < |s| && s[0] == '<' { assert front[0] == '<' && '<' in front; }
  }

  /** One tag: `<` at its start only, `>` at its end. */
  predicate IsTag(m: string) {
    |m| >= 2 && m[0] == '<' && m[|m| - 1] == '>' && forall k :: 1 <= k < |m| ==> m[k] != '<'
  }

  lemma {:induction false} OpensNone(s: string)
    requires '<' !in s
    ensures Opens(s) == 0
  {
  }

  lemma OpensTag(m: string)
    requires IsTag(m)
    ensures Opens(m) == 1
  {
    assert m == [m[0]] + m[1..];
    OpensConcat([m[0]], m[1..]);
    OpensNone(m[1..]);
  }

  lemma WrittenTag(description: string)
    ensures IsTag(WrittenMeta(description)) && WrittenMeta(description)[1] == 'm'
  {
    var esc := ContentOf(Escape(description));
    hide Escape, ContentOf;
    assert forall k :: 0 <= k < |esc| ==> esc[k] in esc;
    var front := META_OPEN + " " + META_NAME + " " + META_CONTENT;
    assert front[0] == '<' && front[1] == 'm' && forall k :: 1 <= k < |front| ==> front[k] != '<';
    assert WrittenMeta(description) == front + esc + "\">";
  }

  // ----- Where a tag can be ------------------------------------------------------------------------

  lemma TagInConcat(a: string, b: string, m: string, i: nat)
    requires IsTag(m) && OccursAt(a + b, m, i)
    requires b == "" || b[0] == '<' || '>' !in b
    ensures i + |m| <= |a| || |a| <= i
  {
    OccursAtIndex(a + b, m, i, |m| - 1);
    assert forall k :: 0 <= k < |b| ==> (a + b)[|a| + k] == b[k] && b[k] in b;
    if i < |a| < i + |m| {
      OccursAtIndex(a + b, m, i, |a| - i);
    }
  }

  lemma TagSides(a: string, b: string, m: string)
    requires IsTag(m) && Contains(a + b, m)
    requires b == "" || b[0] == '<' || '>' !in b
    ensures Contains(a, m) || Contains(b, m)
  {
    var i: nat :| OccursAt(a + b, m, i);
    TagInConcat(a, b, m, i);
    if i + |m| <= |a| { OccursAtPrefix(a, b, m, i); } else { OccursAtSuffix(a, b, m, i - |a|); }
  }

  lemma ContainsLeft(a: string, b: string, m: string)
    requires Contains(a, m)
    ensures Contains(a + b, m)
  {
    var i: nat :| OccursAt(a, m, i);
    OccursAtPrefix(a, b, m, i);
  }

  lemma ContainsRight(a: string, b: string, m: string)
    requires Contains(b, m)
    ensures Contains(a + b, m)
  {
    var i: nat :| OccursAt(b, m, i);
    OccursAtSuffix(a, b, m, i);
  }

  lemma TagOutsideMarker(marker: string, b: string, m: string)
    requires IsMarker(marker) && IsTag(m) && m[1] != '!' && Contains(marker + b, m)
    ensures Contains(b, m)
  {
    var i: nat :| OccursAt(marker + b, m, i);
    OccursAtIndex(marker + b, m, i, 0);
    OccursAtIndex(marker + b, m, i, 1);
    assert forall k :: 0 <= k < |marker| ==> (marker + b)[k] == marker[k];
    OccursAtSuffix(marker, b, m, i - |marker|);
  }

  /** A tag that is no comment, around a block: in front, inside, or behind. */
  lemma TagAroundBlock(before: string, mid: string, after: string, m: string)
    requires IsTag(m) && m[1] != '!' && Contains(before + BLOCK_START + (mid + BLOCK_END + after), m)
    ensures Contains(before, m) || Contains(mid, m) || Contains(after, m)
  {
    Markers();
    ConcatAssoc(before, BLOCK_START, mid + BLOCK_END + after);
    ConcatAssoc(mid, BLOCK_END, after);
    TagSides(before, BLOCK_START + (mid + (BLOCK_END + after)), m);
    if !Contains(before, m) {
      TagOutsideMarker(BLOCK_START, mid + (BLOCK_END + after), m);
      TagSides(mid, BLOCK_END + after, m);
      if !Contains(mid, m) { TagOutsideMarker(BLOCK_END, after, m); }
    }
  }

  lemma TrimKeepsTag(s: string, m: string)
    requires IsTag(m) && Contains(s, m)
    ensures Contains(TrimBlanks(s), m)
  {
    var t := TrimBlanks(s);
    var blanks := s[|t|..];
    assert s == t + blanks;
    assert forall k :: 0 <= k < |blanks| ==> IsBlank(blanks[k]);
    TagSides(t, blanks, m);
    forall i | OccursAt(blanks, m, i) ensures false {
      OccursAtIndex(blanks, m, i, 0);
    }
  }

  lemma DropKeepsTag(s: string, m: string)
    requires IsTag(m) && Contains(s, m)
    ensures Contains(DropNewline(s), m)
  {
    if s != "" && s[0] == '\n' {
      var i: nat :| OccursAt(s, m, i);
      OccursAtIndex(s, m, i, 0);
      assert s == "\n" + s[1..];
      OccursAtSuffix("\n", s[1..], m, i - 1);
    }
  }

  // ----- One removal, and what the rest keeps -------------------------------------------------------

  /** The text around the first block, and the removal it goes through. */
  lemma FirstBlock(x: string) returns (before: string, mid: string, after: string)
    requires HoldsBlock(x)
    ensures x == before + BLOCK_START + (mid + BLOCK_END + after)
    ensures RemoveBlocks(x) == TrimBlanks(before) + RemoveBlocks(DropNewline(after))
    ensures |after| < |x|
  {
    assert |BLOCK_START| > 0;
    hide TrimBlanks, DropNewline, Find;
    var i := Find(x, BLOCK_START);
    var rest := x[i + |BLOCK_START|..];
    var j := Find(rest, BLOCK_END);
    before, mid, after := x[..i], rest[..j], rest[j + |BLOCK_END|..];
    CutAround(x, BLOCK_START, i);
    CutAround(rest, BLOCK_END, j);
  }

  lemma CutAround(x: string, m: string, i: nat)
    requires OccursAt(x, m, i)
    ensures x == x[..i] + m + x[i + |m|..]
  {
  }

  lemma OpensBlock(before: string, mid: string, after: string)
    ensures Opens(before + BLOCK_START + (mid + BLOCK_END + after)) == Opens(before) + 1 + Opens(mid) + 1 + Opens(after)
  {
    Markers();
    OpensTag(BLOCK_START);
    OpensTag(BLOCK_END);
    hide Opens;
    OpensConcat(before + BLOCK_START, mid + BLOCK_END + after);
    OpensConcat(before, BLOCK_START);
    OpensConcat(mid + BLOCK_END, after);
    OpensConcat(mid, BLOCK_END);
  }

  lemma OpensDropped(s: string)
    ensures Opens(DropNewline(s)) <= Opens(s)
  {
    assert IsSuffix(DropNewline(s), s);
    OpensSuffix(DropNewline(s), s);
  }

  lemma OpensAround(before: string, rest: string)
    ensures Opens(TrimBlanks(before) + rest) <= Opens(before) + Opens(rest)
  {
    OpensPrefix(TrimBlanks(before), before);
    OpensConcat(TrimBlanks(before), rest);
  }

  /** Removing a block removes two `<` or more; a tag elsewhere stays whole, one inside counts as well. */
  lemma {:induction false} RemovalCounts(x: string, m: string)
    requires IsTag(m) && m[1] != '!'
    ensures Opens(RemoveBlocks(x)) <= Opens(x)
    ensures HoldsBlock(x) ==> Opens(RemoveBlocks(x)) + 2 <= Opens(x)
    ensures Contains(x, m) ==> Contains(RemoveBlocks(x), m) || Opens(RemoveBlocks(x)) + 3 <= Opens(x)
    decreases |x|
  {
    hide RemoveBlocks, HoldsBlock, TrimBlanks, DropNewline, Opens, Contains;
    if !HoldsBlock(x) {
      RemovalStep(x);
    } else {
      var before, mid, after := FirstBlock(x);
      var rest := DropNewline(after);
      RemovalCounts(rest, m);
      OpensBlock(before, mid, after);
      OpensDropped(after);
      OpensAround(before, RemoveBlocks(rest));
      if Contains(x, m) {
        TagAroundBlock(before, mid, after, m);
        TagKept(before, mid, after, RemoveBlocks(rest), m);
      }
    }
  }

  /** What becomes of a tag around a removed block. */
  lemma TagKept(before: string, mid: string, after: string, rest: string, m: string)
    requires IsTag(m)
    ensures Contains(before, m) ==> Contains(TrimBlanks(before) + rest, m)
    ensures Contains(mid, m) ==> Opens(mid) >= 1
    ensures Contains(after, m) ==> Contains(DropNewline(after), m)
    ensures Contains(rest, m) ==> Contains(TrimBlanks(before) + rest, m)
  {
    if Contains(before, m) {
      TrimKeepsTag(before, m);
      ContainsLeft(TrimBlanks(before), rest, m);
    }
    if Contains(mid, m) { TagOpens(mid, m); }
    if Contains(after, m) { DropKeepsTag(after, m); }
    if Contains(rest, m) { ContainsRight(TrimBlanks(before), rest, m); }
  }

  lemma TagOpens(s: string, m: string)
    requires IsTag(m) && Contains(s, m)
    ensures Opens(s) >= 1
  {
    var i: nat :| OccursAt(s, m, i);
    OccursAtIndex(s, m, i, 0);
    assert s[i] in multiset(s);
  }

  // ----- Removing around the inserted block -----------------------------------------------------------

  lemma StartFreeRemoval(y: string, inside: string, v: string)
    requires !Contains(y, BLOCK_START) && Fitting(inside)
    ensures RemoveBlocks(y + Wrap(inside) + v) == TrimBlanks(y + PAD) + RemoveBlocks(v)
  {
    hide RemoveBlocks, TrimBlanks, Contains;
    PadKeepsFree(y);
    Regroup(y, PAD, BLOCK_START, inside, BLOCK_END, "\n", v);
    FirstRemoval(y + PAD, inside, "\n" + v);
    assert DropNewline("\n" + v) == v;
  }

  lemma RegroupOrphan<T>(u: seq<T>, w: seq<T>, pad: seq<T>, start: seq<T>, inside: seq<T>, end: seq<T>, nl: seq<T>, v: seq<T>)
    ensures (u + start + w) + (pad + start + inside + end + nl) + v ==
            u + start + (((w + pad) + (start + inside)) + end + (nl + v))
  {
    Regroup(u + start + w, pad, start, inside, end, nl, v);
    assert (u + start + w) + pad == u + start + (w + pad);
    assert (w + pad) + start + (inside + end + (nl + v)) == ((w + pad) + (start + inside)) + end + (nl + v);
    ConcatAssoc(u + start, w + pad, start + (inside + end + (nl + v)));
    ConcatAssoc(u + start + (w + pad), start, inside + end + (nl + v));
    ConcatAssoc(w + pad, start, inside + end + (nl + v));
  }

  /** A start marker in front without an end marker takes everything up to the end of the inserted block along. */
  lemma OrphanRemoval(u: string, w: string, inside: string, v: string)
    requires !Contains(u, BLOCK_START) && !Contains(w, BLOCK_END) && Fitting(inside)
    ensures RemoveBlocks(u + BLOCK_START + w + Wrap(inside) + v) == TrimBlanks(u) + RemoveBlocks(v)
  {
    Markers();
    QuietFree(PAD, BLOCK_END);
    MarkerFreeConcat(w, PAD, BLOCK_END);
    EndFreeAfterStart(inside);
    MarkerFreeConcat(w + PAD, BLOCK_START + inside, BLOCK_END);
    hide RemoveBlocks, TrimBlanks, Contains, Quiet;
    RegroupOrphan(u, w, PAD, BLOCK_START, inside, BLOCK_END, "\n", v);
    FirstRemoval(u, (w + PAD) + (BLOCK_START + inside), "\n" + v);
    assert DropNewline("\n" + v) == v;
  }

  lemma PairRemoval(u: string, mid: string, w: string, inside: string, v: string)
    requires !Contains(u, BLOCK_START) && !Contains(mid, BLOCK_END)
    ensures RemoveBlocks(u + BLOCK_START + (mid + BLOCK_END + w) + Wrap(inside) + v) ==
            TrimBlanks(u) + RemoveBlocks(DropNewline(w) + Wrap(inside) + v)
  {
    hide RemoveBlocks, TrimBlanks, Contains;
    var wrap := Wrap(inside);
    assert wrap[0] == ' ';
    RegroupPair(u, BLOCK_START, mid, BLOCK_END, w, wrap, v);
    FirstRemoval(u, mid, w + wrap + v);
    hide Wrap;
    if w != "" && w[0] == '\n' {
      assert (w + wrap + v)[1..] == w[1..] + wrap + v;
    }
  }

  lemma RegroupPair<T>(u: seq<T>, start: seq<T>, mid: seq<T>, end: seq<T>, w: seq<T>, wrap: seq<T>, v: seq<T>)
    ensures u + start + (mid + end + w) + wrap + v == u + start + (mid + end + (w + wrap + v))
  {
    ConcatAssoc(u + start, mid + end + w, wrap);
    ConcatAssoc(u + start, mid + end + w + wrap, v);
    ConcatAssoc(mid + end, w, wrap);
    ConcatAssoc(mid + end, w + wrap, v);
  }

  /** The text around the first start marker. */
  lemma FirstStart(y: string) returns (u: string, w: string)
    requires Contains(y, BLOCK_START)
    ensures y == u + BLOCK_START + w && !Contains(u, BLOCK_START)
  {
    assert |BLOCK_START| > 0;
    hide Find;
    var i := Find(y, BLOCK_START);
    u, w := y[..i], y[i + |BLOCK_START|..];
    assert y == u + BLOCK_START + w;
    assert y == y[..i] + y[i..];
    forall j | OccursAt(u, BLOCK_START, j) ensures false {
      OccursAtPrefix(y[..i], y[i..], BLOCK_START, j);
    }
  }

  lemma FirstEnd(w: string) returns (mid: string, z: string)
    requires Contains(w, BLOCK_END)
    ensures w == mid + BLOCK_END + z && !Contains(mid, BLOCK_END)
  {
    assert |BLOCK_END| > 0;
    hide Find;
    var i := Find(w, BLOCK_END);
    mid, z := w[..i], w[i + |BLOCK_END|..];
    assert w == mid + BLOCK_END + z;
    assert w == w[..i] + w[i..];
    forall j | OccursAt(mid, BLOCK_END, j) ensures false {
      OccursAtPrefix(w[..i], w[i..], BLOCK_END, j);
    }
  }

  /** What goes besides the inserted block, when the page around it is not as a rerun needs it. */
  ghost predicate Undisturbed(y: string, v: string) {
    !Contains(y, BLOCK_START) && !HoldsBlock(v)
  }

  ghost predicate Counted(y: string, v: string, result: string, m: string) {
    && Opens(result) <= Opens(y) + Opens(v)
    && (!Undisturbed(y, v) ==> Opens(result) + 1 <= Opens(y) + Opens(v))
    && (Contains(y, m) || Contains(v, m) ==> Contains(result, m) || Opens(result) + 2 <= Opens(y) + Opens(v))
  }

  /** Removing the inserted block, and all that goes with it. */
  lemma {:induction false} InsertedCounts(y: string, inside: string, v: string, m: string)
    requires Fitting(inside) && IsTag(m) && m[1] != '!'
    ensures Counted(y, v, RemoveBlocks(y + Wrap(inside) + v), m)
    decreases |y|
  {
    hide RemoveBlocks, HoldsBlock, TrimBlanks, DropNewline, Opens, Contains, Wrap;
    RemovalCounts(v, m);
    if !Contains(y, BLOCK_START) {
      StartFreeRemoval(y, inside, v);
      StartFreeCounts(y, v, m);
    } else {
      var u, w := FirstStart(y);
      if !Contains(w, BLOCK_END) {
        OrphanRemoval(u, w, inside, v);
        OrphanCounts(u, w, v, m);
      } else {
        var mid, z := FirstEnd(w);
        PairRemoval(u, mid, z, inside, v);
        InsertedCounts(DropNewline(z), inside, v, m);
        PairCounts(u, mid, z, v, RemoveBlocks(DropNewline(z) + Wrap(inside) + v), m);
      }
    }
  }

  lemma StartFreeCounts(y: string, v: string, m: string)
    requires IsTag(m) && m[1] != '!' && !Contains(y, BLOCK_START)
    ensures Counted(y, v, TrimBlanks(y + PAD) + RemoveBlocks(v), m)
  {
    hide RemoveBlocks, HoldsBlock, TrimBlanks, Opens, Contains;
    RemovalCounts(v, m);
    OpensConcat(y, PAD);
    OpensNone(PAD);
    OpensAround(y + PAD, RemoveBlocks(v));
    TagKept(y + PAD, "", "", RemoveBlocks(v), m);
    if Contains(y, m) { ContainsLeft(y, PAD, m); }
  }

  lemma OrphanCounts(u: string, w: string, v: string, m: string)
    requires IsTag(m) && m[1] != '!'
    ensures Counted(u + BLOCK_START + w, v, TrimBlanks(u) + RemoveBlocks(v), m)
  {
    hide RemoveBlocks, HoldsBlock, TrimBlanks, Opens, Contains;
    RemovalCounts(v, m);
    OpensStart(u, w);
    OpensAround(u, RemoveBlocks(v));
    TagKept(u, w, "", RemoveBlocks(v), m);
    if Contains(u + BLOCK_START + w, m) { TagAroundStart(u, w, m); }
  }

  lemma OpensStart(u: string, w: string)
    ensures Opens(u + BLOCK_START + w) == Opens(u) + 1 + Opens(w)
  {
    Markers();
    OpensTag(BLOCK_START);
    hide Opens;
    OpensConcat(u + BLOCK_START, w);
    OpensConcat(u, BLOCK_START);
  }

  lemma TagAroundStart(u: string, w: string, m: string)
    requires IsTag(m) && m[1] != '!' && Contains(u + BLOCK_START + w, m)
    ensures Contains(u, m) || Contains(w, m)
  {
    Markers();
    hide Contains;
    ConcatAssoc(u, BLOCK_START, w);
    TagSides(u, BLOCK_START + w, m);
    if !Contains(u, m) { TagOutsideMarker(BLOCK_START, w, m); }
  }

  lemma PairCounts(u: string, mid: string, z: string, v: string, result: string, m: string)
    requires IsTag(m) && m[1] != '!'
    requires Counted(DropNewline(z), v, result, m)
    ensures Counted(u + BLOCK_START + (mid + BLOCK_END + z), v, TrimBlanks(u) + result, m)
  {
    hide TrimBlanks, DropNewline, Opens, Contains, HoldsBlock;
    OpensBlock(u, mid, z);
    OpensDropped(z);
    OpensAround(u, result);
    TagKept(u, mid, z, result, m);
    if Contains(u + BLOCK_START + (mid + BLOCK_END + z), m) {
      TagAroundBlock(u, mid, z, m);
    }
  }

  // ----- Exactly when the block comes out again ---------------------------------------------------------

  /** Nothing before the insertion point reads as a start marker. */
  ghost predicate StartFreeHead(page: string) {
    Contains(page, HEAD_CLOSE) ==> !Contains(page[..InsertionPoint(page)], BLOCK_START)
  }

  /** No block, and no start marker that the inserted block's end marker would close. */
  ghost predicate Rerunnable(page: string) {
    BlockFree(page) && StartFreeHead(page)
  }

  /** The page in front of and behind the inserted block. */
  lemma HeadSplits(page: string) returns (a: string, v: string, blanks: string, close: string)
    requires Contains(page, HEAD_CLOSE)
    ensures page == a + v && a == page[..InsertionPoint(page)] && TrimBlanks(a) == a
    ensures v == blanks + close && HEAD_CLOSE <= close && forall k :: 0 <= k < |blanks| ==> IsBlank(blanks[k])
    ensures forall block :: InsertBeforeHead(page, block) == a + block + v
  {
    var h := Find(page, HEAD_CLOSE);
    var q := InsertionPoint(page);
    assert page[..h] == page[..q] + page[q..h];
    a, v, blanks, close := page[..q], page[q..], page[q..h], page[h..];
    assert page[h..h + |HEAD_CLOSE|] == HEAD_CLOSE;
    assert page == a + v;
    assert v == blanks + close;
  }

  /** A tag of the page lies on one side of the insertion point. */
  lemma TagBesideBlock(a: string, blanks: string, close: string, m: string)
    requires IsTag(m) && HEAD_CLOSE <= close && forall k :: 0 <= k < |blanks| ==> IsBlank(blanks[k])
    requires Contains(a + (blanks + close), m)
    ensures Contains(a, m) || Contains(blanks + close, m)
  {
    ConcatAssoc(a, blanks, close);
    assert close[0] == HEAD_CLOSE[0] == '<';
    hide Contains;
    TagSides(a + blanks, close, m);
    if Contains(close, m) {
      ContainsRight(blanks, close, m);
    } else {
      TagSides(a, blanks, m);
      if Contains(blanks, m) { ContainsLeft(blanks, close, m); }
    }
  }

  lemma BlockFreeParts(a: string, v: string)
    requires BlockFree(a + v)
    ensures BlockFree(v)
  {
    FreeSuffix(a + v, |a|);
    assert (a + v)[|a|..] == v;
  }

  lemma BlockFreeJoined(a: string, blanks: string, close: string)
    requires HEAD_CLOSE <= close && forall k :: 0 <= k < |blanks| ==> IsBlank(blanks[k])
    requires !Contains(a, BLOCK_START) && BlockFree(blanks + close)
    ensures BlockFree(a + (blanks + close))
  {
    Markers();
    var v := blanks + close;
    forall i, j | OccursAt(a + v, BLOCK_START, i) && OccursAt(a + v, BLOCK_END, j) ensures j < i + |BLOCK_START| {
      BesideBlock(a, blanks, close, i);
      if |a| <= j {
        OccursAtSuffix(a, v, BLOCK_START, i - |a|);
        OccursAtSuffix(a, v, BLOCK_END, j - |a|);
      }
    }
  }

  lemma BesideBlock(a: string, blanks: string, close: string, i: nat)
    requires HEAD_CLOSE <= close && forall k :: 0 <= k < |blanks| ==> IsBlank(blanks[k])
    requires !Contains(a, BLOCK_START) && OccursAt(a + (blanks + close), BLOCK_START, i)
    ensures |a| <= i
  {
    Markers();
    ConcatAssoc(a, blanks, close);
    assert close[0] == HEAD_CLOSE[0] == '<';
    TagInConcat(a + blanks, close, BLOCK_START, i);
    if i + |BLOCK_START| <= |a + blanks| {
      OccursAtPrefix(a + blanks, close, BLOCK_START, i);
      TagInConcat(a, blanks, BLOCK_START, i);
    }
    if i + |BLOCK_START| <= |a| { OccursAtPrefix(a, blanks + close, BLOCK_START, i); }
  }

  /** A rerunnable page around its insertion point. */
  lemma RerunnableIff(page: string, a: string, v: string, blanks: string, close: string)
    requires Contains(page, HEAD_CLOSE) && page == a + v && a == page[..InsertionPoint(page)]
    requires v == blanks + close && HEAD_CLOSE <= close && forall k :: 0 <= k < |blanks| ==> IsBlank(blanks[k])
    ensures Rerunnable(page) <==> Undisturbed(a, v)
  {
    HoldsBlockIff(v);
    hide BlockFree, HoldsBlock, Contains;
    if Rerunnable(page) { BlockFreeParts(a, v); }
    if Undisturbed(a, v) { BlockFreeJoined(a, blanks, close); }
  }

  /**
   For every page, with a `</head>` or without: deleting the managed block
   undoes inserting it exactly when the page holds no block and no start
   marker stands before its insertion point.
   */
  lemma DeleteUndoesInsertIff(page: string, inside: string)
    requires Fitting(inside)
    ensures RemoveBlocks(InsertBeforeHead(page, Wrap(inside))) == page <==> Rerunnable(page)
  {
    hide RemoveBlocks, TrimBlanks, Wrap, BlockFree, HoldsBlock, Opens;
    if !Contains(page, HEAD_CLOSE) {
      RemovalKeepsIff(page);
    } else {
      var a, v, blanks, close := HeadSplits(page);
      RerunnableIff(page, a, v, blanks, close);
      hide Rerunnable, InsertionPoint, InsertBeforeHead, Contains;
      if Undisturbed(a, v) {
        HoldsBlockIff(v);
        BlockRemoved(a, inside, v);
      } else {
        WrittenTag("");
        InsertedCounts(a, inside, v, WrittenMeta(""));
        OpensConcat(a, v);
      }
    }
  }

  /** A rerun sees the very page the block went into, exactly when that page is rerunnable. */
  lemma RerunSeesSamePageIff(page: string, description: string, json: string)
    requires PlainMetadata(description, json)
    ensures InjectMetadata(page, description, json).Some?
    ensures RemoveBlocks(InjectMetadata(page, description, json).value) == PreparedPage(page, description)
            <==> Rerunnable(PreparedPage(page, description))
  {
    hide RemoveBlocks, InjectMetadata, PreparedPage, InsideOf, Wrap, Rerunnable, Fitting;
    InjectedIs(page, description, json);
    DeleteUndoesInsertIff(PreparedPage(page, description), InsideOf(page, description, json));
  }

  // ----- Injecting twice ----------------------------------------------------------------------------

  /** The second run finds the same page, the same description and so the same block. */
  lemma PreparedAgain(page: string, description: string, out: string)
    requires RemoveBlocks(out) == PreparedPage(page, description)
    ensures PreparedPage(out, description) == PreparedPage(page, description)
    ensures Body(out, description) == Body(page, description)
  {
    hide RemoveBlocks, WrittenMeta;
    if HasMeta(RemoveBlocks(page)) {
      SwapTwice(RemoveBlocks(page), description);
      hide SwapMeta, HasMeta;
      var once := SwapMeta(RemoveBlocks(page), WrittenMeta(description)).value;
      assert SwapMeta(once, WrittenMeta(description)).Some?;
    }
  }

  lemma RerunSame(page: string, description: string, json: string)
    requires PlainMetadata(description, json) && Rerunnable(PreparedPage(page, description))
    ensures var once := InjectMetadata(page, description, json);
            once.Some? && InjectMetadata(once.value, description, json) == once
  {
    hide RemoveBlocks, InjectMetadata, PreparedPage, Body, Inside, Wrap, Rerunnable, InsertBeforeHead, Fitting;
    RerunSeesSamePageIff(page, description, json);
    InjectedIs(page, description, json);
    var once := InjectMetadata(page, description, json).value;
    PreparedAgain(page, description, once);
    InjectedIs(once, description, json);
  }

  // ----- The weight of the parts ----------------------------------------------------------------------

  /** Replacing a description meta adds no `<`, and the new one is there. */
  lemma SwapOpens(x: string, description: string)
    requires HasMeta(x)
    ensures var swapped := SwapMeta(x, WrittenMeta(description)).value;
            Opens(swapped) <= Opens(x) && Contains(swapped, WrittenMeta(description))
  {
    hide AfterMeta, SwapMeta, WrittenMeta, HasMeta, Opens;
    var meta := WrittenMeta(description);
    WrittenTag(description);
    OpensTag(meta);
    var u, found := FirstMeta(x);
    SwapAtFirst(u, found, meta);
    var rest := AfterMeta(found).value;
    FoundMetaLike(found);
    MetaSuffix(found);
    MetaShorter(found);
    OpensSuffix(rest, found);
    OpensConcat(u, found);
    OpensConcat(u, meta + rest);
    OpensConcat(meta, rest);
    assert OccursAt(meta + rest, meta, 0);
    ContainsRight(u, meta + rest, meta);
  }

  lemma MetaShorter(s: string)
    requires AfterMeta(s).Some?
    ensures |AfterMeta(s).value| < |s|
  {
    OpenSuffix(AfterLiteral(s, META_OPEN).value);
  }

  lemma {:induction false} HasMetaFrom(s: string, i: nat)
    requires i <= |s| && AfterMeta(s[i..]).Some?
    ensures HasMeta(s)
    decreases i
  {
    if i == 0 {
      assert s[0..] == s;
    } else {
      assert s[1..][i - 1..] == s[i..];
      HasMetaFrom(s[1..], i - 1);
    }
  }

  lemma MetaFound(s: string, description: string)
    requires Contains(s, WrittenMeta(description))
    ensures HasMeta(s)
  {
    hide WrittenMeta, AfterMeta;
    var meta := WrittenMeta(description);
    var i: nat :| OccursAt(s, meta, i);
    assert s[i..] == meta + s[i..][|meta|..];
    WrittenRead(description, s[i..][|meta|..]);
    HasMetaFrom(s, i);
  }

  lemma PreparedOpens(page: string, description: string)
    ensures Opens(PreparedPage(page, description)) <= Opens(RemoveBlocks(page))
    ensures HasMeta(RemoveBlocks(page)) ==> Contains(PreparedPage(page, description), WrittenMeta(description))
  {
    if HasMeta(RemoveBlocks(page)) { SwapOpens(RemoveBlocks(page), description); }
  }

  lemma OpensWrapped(body: string, payload: string)
    ensures Opens(Wrap(Inside(body, payload))) == Opens(Wrap(Inside("", payload))) + Opens(body)
  {
    hide Opens;
    WrappedParts(PAD + BLOCK_START, "\n", body, PAD + SCRIPT_TYPE + SCRIPT_ID, payload, "</script>\n" + PAD, BLOCK_END, "\n");
    WrappedParts(PAD + BLOCK_START, "\n", "", PAD + SCRIPT_TYPE + SCRIPT_ID, payload, "</script>\n" + PAD, BLOCK_END, "\n");
    OpensNone("");
  }

  lemma WrappedParts(a: string, b: string, body: string, c: string, d: string, e: string, f: string, g: string)
    ensures Opens(a + (b + body + c + d + e) + f + g) ==
            Opens(a) + Opens(b) + Opens(body) + Opens(c) + Opens(d) + Opens(e) + Opens(f) + Opens(g)
  {
    hide Opens;
    OpensConcat(b, body);
    OpensConcat(b + body, c);
    OpensConcat(b + body + c, d);
    OpensConcat(b + body + c + d, e);
    OpensConcat(a, b + body + c + d + e);
    OpensConcat(a + (b + body + c + d + e), f);
    OpensConcat(a + (b + body + c + d + e) + f, g);
  }

  lemma OpensBody(page: string, description: string)
    ensures Opens(Body(page, description)) == if HasMeta(RemoveBlocks(page)) then 0 else 1
  {
    hide RemoveBlocks, HasMeta, WrittenMeta;
    OpensNone("");
    OpensNone(PAD);
    OpensNone("\n");
    WrittenTag(description);
    OpensTag(WrittenMeta(description));
    OpensConcat(PAD + WrittenMeta(description), "\n");
    OpensConcat(PAD, WrittenMeta(description));
  }

  // ----- A page that is not rerunnable changes -----------------------------------------------------------

  /** What the first run wrote, and what its blocks leave when they are removed. */
  lemma RemovedOpens(page: string, inside: string, description: string)
    requires Fitting(inside) && !Rerunnable(page)
    ensures var out := InsertBeforeHead(page, Wrap(inside));
            var bare := RemoveBlocks(out);
            var added := if Contains(page, HEAD_CLOSE) then Opens(Wrap(inside)) else 0;
            && Opens(out) == Opens(page) + added
            && Opens(bare) + 1 <= Opens(page)
            && (Contains(page, WrittenMeta(description)) ==> HasMeta(bare) || Opens(bare) + 2 <= Opens(page))
  {
    hide RemoveBlocks, Wrap, BlockFree, HoldsBlock, Opens, WrittenMeta, HasMeta;
    var meta := WrittenMeta(description);
    WrittenTag(description);
    if !Contains(page, HEAD_CLOSE) {
      HoldsBlockIff(page);
      RemovalCounts(page, meta);
      if Contains(RemoveBlocks(page), meta) { MetaFound(RemoveBlocks(page), description); }
    } else {
      var a, v, blanks, close := HeadSplits(page);
      RerunnableIff(page, a, v, blanks, close);
      hide Rerunnable, InsertionPoint, InsertBeforeHead, Contains;
      var bare := RemoveBlocks(a + Wrap(inside) + v);
      InsertedCounts(a, inside, v, meta);
      OpensConcat(a, v);
      OpensConcat(a + Wrap(inside), v);
      OpensConcat(a, Wrap(inside));
      if Contains(page, meta) { TagBesideBlock(a, blanks, close, meta); }
      if Contains(bare, meta) { MetaFound(bare, description); }
    }
  }

  lemma RerunDiffers(page: string, description: string, json: string)
    requires PlainMetadata(description, json) && !Rerunnable(PreparedPage(page, description))
    ensures var once := InjectMetadata(page, description, json);
            once.Some? && InjectMetadata(once.value, description, json) != once
  {
    hide RemoveBlocks, InjectMetadata, PreparedPage, Body, Inside, Wrap, Rerunnable, InsertBeforeHead, Fitting, HasMeta, WrittenMeta, Opens;
    InjectedIs(page, description, json);
    var prepared := PreparedPage(page, description);
    var once := InjectMetadata(page, description, json).value;
    var inside := InsideOf(page, description, json);
    RemovedOpens(prepared, inside, description);
    PreparedOpens(page, description);
    InjectedIs(once, description, json);
    var again := PreparedPage(once, description);
    PreparedOpens(once, description);
    var payload := WrittenPayload(json);
    OpensWrapped(Body(page, description), payload);
    OpensWrapped(Body(once, description), payload);
    OpensBody(page, description);
    OpensBody(once, description);
    InsertedOpens(again, Wrap(InsideOf(once, description, json)));
    InsertedOpens(prepared, Wrap(inside));
  }

  lemma InsertedOpens(page: string, block: string)
    ensures Contains(page, HEAD_CLOSE) ==> Contains(InsertBeforeHead(page, block), HEAD_CLOSE)
    ensures !Contains(page, HEAD_CLOSE) ==> InsertBeforeHead(page, block) == page
    ensures Opens(InsertBeforeHead(page, block)) == Opens(page) + if Contains(page, HEAD_CLOSE) then Opens(block) else 0
  {
    if Contains(page, HEAD_CLOSE) {
      var a, v, blanks, close := HeadSplits(page);
      assert OccursAt(close, HEAD_CLOSE, 0);
      hide Opens, Contains, InsertBeforeHead;
      ContainsRight(blanks, close, HEAD_CLOSE);
      ContainsRight(a + block, v, HEAD_CLOSE);
      OpensConcat(a, v);
      OpensConcat(a + block, v);
      OpensConcat(a, block);
    }
  }

  /**
   For every page, and metadata whose templates are accepted and whose written
   payload holds no end marker: injecting twice gives what injecting once gave
   exactly when the page the first block went into holds no block and no start
   marker in front of it.
   */
  lemma InjectTwiceIff(page: string, description: string, json: string)
    requires PlainMetadata(description, json)
    ensures var once := InjectMetadata(page, description, json);
            && once.Some?
            && (InjectMetadata(once.value, description, json) == once <==> Rerunnable(PreparedPage(page, description)))
  {
    hide InjectMetadata, PreparedPage, Rerunnable;
    if Rerunnable(PreparedPage(page, description)) {
      RerunSame(page, description, json);
    } else {
      RerunDiffers(page, description, json);
    }
  }

  /** A page whose removal leaves no block needs only its head to be free of start markers. */
  lemma RemovalEnough(page: string, description: string)
    requires BlockFree(RemoveBlocks(page))
    ensures Rerunnable(PreparedPage(page, description)) <==> StartFreeHead(PreparedPage(page, description))
  {
    hide RemoveBlocks, SwapMeta, WrittenMeta, BlockFree, StartFreeHead;
    if HasMeta(RemoveBlocks(page)) { SwapKeepsBlockFree(RemoveBlocks(page), description); }
  }

  // ----- A page on which it happens ---------------------------------------------------------------------

  lemma {:induction false} NoMeta(s: string)
    requires forall k :: 0 <= k < |s| - 1 && s[k] == '<' ==> Fold(s[k + 1]) != 'm'
    ensures !HasMeta(s)
    decreases |s|
  {
    if s != "" {
      assert AfterMeta(s).None? by { NoMetaHere(s); }
      assert forall k :: 0 <= k < |s| - 1 ==> s[1..][k] == s[k + 1];
      NoMeta(s[1..]);
    }
  }

  lemma NoMetaHere(s: string)
    requires |s| > 1 && s[0] == '<' ==> Fold(s[1]) != 'm'
    ensures AfterMeta(s).None?
  {
    assert META_OPEN[0] == '<' && META_OPEN[1..][0] == 'm';
    if s != "" && s[0] == '<' {
      assert AfterLiteral(s[1..], META_OPEN[1..]).None?;
    }
  }

  /** Only a start marker in front of the close of the head. */
  const ORPHAN_PAGE := BLOCK_START + HEAD_CLOSE

  lemma OrphanPageFree()
    ensures BlockFree(ORPHAN_PAGE)
  {
    Markers();
    assert Quiet(HEAD_CLOSE);
    QuietFree(HEAD_CLOSE, BLOCK_END);
    EndFreeAfterStart("\n" + HEAD_CLOSE) by { QuietFree("\n" + HEAD_CLOSE, BLOCK_END); }
    if Contains(BLOCK_START, BLOCK_END) { ContainsLeft(BLOCK_START, "\n" + HEAD_CLOSE, BLOCK_END); }
    MarkerFreeConcat(BLOCK_START, HEAD_CLOSE, BLOCK_END);
  }

  lemma OrphanPageHead()
    ensures Contains(ORPHAN_PAGE, HEAD_CLOSE) && ORPHAN_PAGE[..InsertionPoint(ORPHAN_PAGE)] == BLOCK_START
  {
    Markers();
    forall j | 0 <= j && j + |HEAD_CLOSE| <= |BLOCK_START| ensures !OccursAt(BLOCK_START, HEAD_CLOSE, j) {
      if OccursAt(BLOCK_START, HEAD_CLOSE, j) {
        OccursAtIndex(BLOCK_START, HEAD_CLOSE, j, 0);
        OccursAtIndex(BLOCK_START, HEAD_CLOSE, j, 1);
      }
    }
    FirstCopy(BLOCK_START, HEAD_CLOSE, "");
    assert ORPHAN_PAGE + "" == ORPHAN_PAGE;
    assert ORPHAN_PAGE[..|BLOCK_START|] == BLOCK_START;
    assert TrimBlanks(BLOCK_START) == BLOCK_START;
  }

  lemma OrphanPageTags()
    ensures forall k :: 0 <= k < |ORPHAN_PAGE| - 1 && ORPHAN_PAGE[k] == '<' ==> Fold(ORPHAN_PAGE[k + 1]) != 'm'
  {
    Markers();
    assert IsTag(HEAD_CLOSE) && HEAD_CLOSE[1] == '/';
    hide Fold, IsMarker;
    assert Fold('!') != 'm' && Fold('/') != 'm' by { FoldedSigns(); }
    TwoTags(BLOCK_START, HEAD_CLOSE);
  }

  lemma FoldedSigns()
    ensures Fold('!') == '!' && Fold('/') == '/'
  {
  }

  lemma TwoTags(a: string, b: string)
    requires IsTag(a) && IsTag(b) && Fold(a[1]) != 'm' && Fold(b[1]) != 'm'
    ensures forall k :: 0 <= k < |a + b| - 1 && (a + b)[k] == '<' ==> Fold((a + b)[k + 1]) != 'm'
  {
    hide Fold;
  }

  /** An unpaired start marker in the head: the second run changes the page, whatever the metadata. */
  lemma OrphanPageChanges(description: string, json: string)
    requires PlainMetadata(description, json)
    ensures var once := InjectMetadata(ORPHAN_PAGE, description, json);
            once.Some? && InjectMetadata(once.value, description, json) != once
  {
    OrphanPageTags();
    assert OccursAt(BLOCK_START, BLOCK_START, 0);
    hide RemoveBlocks, HasMeta, InjectMetadata, InsertionPoint, WrittenMeta, BlockFree, SwapMeta, OccursAt;
    NoMeta(ORPHAN_PAGE);
    OrphanPageFree();
    RemovalKeepsIff(ORPHAN_PAGE);
    OrphanPageHead();
    InjectTwiceIff(ORPHAN_PAGE, description, json);
  }
}
