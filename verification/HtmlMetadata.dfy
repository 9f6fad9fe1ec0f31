/**
 The managed metadata block in a page's `<head>`: removing it, replacing the
 page's description, and inserting a fresh block.
 */
module HtmlMetadata {
  import opened Wrappers
  import opened Text

  const MARK := "<!-- git-paw:agent-metadata:"
  const BLOCK_START := MARK + "start -->"
  const BLOCK_END := MARK + "end -->"
  const PAD := "        "
  const HEAD_CLOSE := "</head>"

  // ----- Removing blocks -----------------------------------------------------------------

  predicate IsBlank(c: char) {
    c == ' ' || c == '\t'
  }

  /** `s` without the run of blanks at its end. */
  function TrimBlanks(s: string): (t: string)
    ensures t <= s && (t == "" || !IsBlank(t[|t| - 1]))
    ensures forall k :: |t| <= k < |s| ==> IsBlank(s[k])
  {
    if s == "" || !IsBlank(s[|s| - 1]) then s else TrimBlanks(s[..|s| - 1])
  }

  function DropNewline(s: string): (t: string)
    ensures |t| <= |s|
  {
    if s != "" && s[0] == '\n' then s[1..] else s
  }

  /** `BLOCK_RE.sub("", page)`. */
  function RemoveBlocks(page: string): (r: string)
    ensures |r| <= |page|
    decreases |page|
  {
    var i := Find(page, BLOCK_START);
    if i == -1 then page
    else
      var rest := page[i + |BLOCK_START|..];
      var j := Find(rest, BLOCK_END);
      if j == -1 then page
      else TrimBlanks(page[..i]) + RemoveBlocks(DropNewline(rest[j + |BLOCK_END|..]))
  }

  // ----- The page's own description meta ----------------------------------------------------

  /** Python's `\s`. */
  predicate IsSpace(c: char) {
    || '\t' <= c <= '\r' || '\U{1C}' <= c <= ' ' || c == '\U{85}' || c == '\U{A0}' || c == '\U{1680}'
    || '\U{2000}' <= c <= '\U{200A}' || c == '\U{2028}' || c == '\U{2029}' || c == '\U{202F}'
    || c == '\U{205F}' || c == '\U{3000}'
  }

  /** Case folding on the letters the pattern names. */
  function Fold(c: char): char {
    if 'A' <= c <= 'Z' then c - 'A' + 'a'
    else if c == '\U{17F}' then 's'
    else if c == '\U{130}' || c == '\U{131}' then 'i'
    else c
  }

  /** What follows the literal `m`, case ignored. */
  function AfterLiteral(s: string, m: string): (r: Option<string>)
    ensures r.Some? ==> |r.value| + |m| == |s|
  {
    if m == "" then Some(s)
    else if s == "" || Fold(s[0]) != m[0] then None
    else AfterLiteral(s[1..], m[1..])
  }

  function AfterSpaces(s: string): (r: string)
    ensures |r| <= |s|
  {
    if s != "" && IsSpace(s[0]) then AfterSpaces(s[1..]) else s
  }

  function AfterSomeSpaces(s: string): Option<string> {
    if s != "" && IsSpace(s[0]) then Some(AfterSpaces(s)) else None
  }

  function AfterQuote(s: string): (r: Option<string>)
    ensures r.Some? ==> |r.value| < |s|
  {
    if s == "" then None else if s[0] == '"' then Some(s[1..]) else AfterQuote(s[1..])
  }

  const META_OPEN := "<meta"
  const META_NAME := "name=\"description\""
  const META_CONTENT := "content=\""

  /** Spaces, perhaps a slash, and the closing bracket. */
  function AfterTagEnd(s: string): Option<string> {
    var t := AfterSpaces(s);
    var u := if t != "" && t[0] == '/' then t[1..] else t;
    if u != "" && u[0] == '>' then Some(u[1..]) else None
  }

  /** What follows the description meta that starts here, if one does. */
  function AfterMeta(s: string): Option<string> {
    var s1 := AfterLiteral(s, META_OPEN);
    if s1.None? then None else AfterMetaOpen(s1.value)
  }

  function AfterMetaOpen(s: string): Option<string> {
    var s1 := AfterSomeSpaces(s);
    if s1.None? then None
    else
      var s2 := AfterLiteral(s1.value, META_NAME);
      if s2.None? then None else AfterMetaName(s2.value)
  }

  function AfterMetaName(s: string): Option<string> {
    var s1 := AfterSomeSpaces(s);
    if s1.None? then None
    else
      var s2 := AfterLiteral(s1.value, META_CONTENT);
      if s2.None? then None else AfterContent(s2.value)
  }

  function AfterContent(s: string): Option<string> {
    var s1 := AfterQuote(s);
    if s1.None? then None else AfterTagEnd(s1.value)
  }

  /** `META_DESC_RE.search(page)` */
  predicate HasMeta(page: string) {
    AfterMeta(page).Some? || (page != "" && HasMeta(page[1..]))
  }

  /** The page with its first description meta replaced; none when it has none. */
  function SwapMeta(page: string, meta: string): (r: Option<string>)
    ensures r.Some? <==> HasMeta(page)
  {
    var rest := AfterMeta(page);
    if rest.Some? then Some(meta + rest.value)
    else if page == "" then None
    else
      var swapped := SwapMeta(page[1..], meta);
      if swapped.None? then None else Some([page[0]] + swapped.value)
  }

  // ----- Escaping -------------------------------------------------------------------------------

  function EscapedChar(c: char): string {
    if c == '&' then "&amp;"
    else if c == '<' then "&lt;"
    else if c == '>' then "&gt;"
    else if c == '"' then "&quot;"
    else if c == '\'' then "&#x27;"
    else [c]
  }

  /** `html.escape(s, quote=True)`. */
  function Escape(s: string): (r: string)
    ensures '<' !in r && '>' !in r && '"' !in r
  {
    if s == "" then "" else EscapedChar(s[0]) + Escape(s[1..])
  }

  /** `payload.replace("</", "<\\/")`. */
  function EscapeSlashes(s: string): (r: string)
    ensures s != "" ==> r != "" && r[0] == s[0]
    ensures s == "" ==> r == ""
  {
    if s == "" then ""
    else if |s| >= 2 && s[0] == '<' && s[1] == '/' then "<\\/" + EscapeSlashes(s[2..])
    else [s[0]] + EscapeSlashes(s[1..])
  }

  predicate IsLetter(c: char) {
    'a' <= c <= 'z' || 'A' <= c <= 'Z'
  }

  /** Control characters a replacement template may name. */
  function NamedControl(c: char): Option<char> {
    match c
    case 'a' => Some('\U{07}')
    case 'b' => Some('\U{08}')
    case 'f' => Some('\U{0C}')
    case 'n' => Some('\n')
    case 'r' => Some('\r')
    case 't' => Some('\t')
    case 'v' => Some('\U{0B}')
    case _ => None
  }

  /** A `re.sub` replacement template without group references; none where Python rejects it. */
  function Expand(template: string): Option<string> {
    if template == "" then Some("")
    else if template[0] != '\\' then Prefixed([template[0]], Expand(template[1..]))
    else if |template| == 1 then None
    else
      var c := template[1];
      if c == '\\' then Prefixed("\\", Expand(template[2..]))
      else if NamedControl(c).Some? then Prefixed([NamedControl(c).value], Expand(template[2..]))
      else if IsLetter(c) || '0' <= c <= '9' then None
      else Prefixed(['\\', c], Expand(template[2..]))
  }

  function Prefixed(s: string, rest: Option<string>): Option<string> {
    if rest.None? then None else Some(s + rest.value)
  }

  // ----- Injection --------------------------------------------------------------------------------

  function Meta(content: string): string {
    META_OPEN + " " + META_NAME + " " + META_CONTENT + content + "\">"
  }

  /** The new description meta, as the replacement template it is used as. */
  function NewMeta(description: string): string {
    Meta(Escape(description))
  }

  const SCRIPT_TYPE := "<script type=\"application/json\" "
  const SCRIPT_ID := "id=\"git-paw-page-metadata\">"

  /** The block's text between its two markers. */
  function Inside(body: string, payload: string): string {
    "\n" + body + (PAD + SCRIPT_TYPE + SCRIPT_ID) + payload + ("</script>\n" + PAD)
  }

  function Wrap(inside: string): string {
    PAD + BLOCK_START + inside + BLOCK_END + "\n"
  }

  /** The length of the text before the first `</head>` and the blanks in front of it. */
  function InsertionPoint(page: string): (q: nat)
    requires Contains(page, HEAD_CLOSE)
    ensures q <= |page| && TrimBlanks(page[..q]) == page[..q]
  {
    var before := page[..Find(page, HEAD_CLOSE)];
    var q := |TrimBlanks(before)|;
    assert page[..q] == TrimBlanks(before);
    q
  }

  function InsertBeforeHead(page: string, block: string): string {
    if Find(page, HEAD_CLOSE) == -1 then page
    else page[..InsertionPoint(page)] + block + page[InsertionPoint(page)..]
  }

  /** The page once its old blocks are gone and its own description is replaced, and the new block's body. */
  function Prepared(page: string, description: string): Option<(string, string)> {
    var bare := RemoveBlocks(page);
    var meta := NewMeta(description);
    if HasMeta(bare) then
      var expanded := Expand(meta);
      if expanded.None? then None else Some((SwapMeta(bare, expanded.value).value, ""))
    else Some((bare, PAD + meta + "\n"))
  }

  /** `json` is the page's metadata as `json.dumps` prints it; none where `re.sub` rejects a template. */
  function InjectMetadata(page: string, description: string, json: string): Option<string> {
    var prepared := Prepared(page, description);
    if prepared.None? then None
    else
      var block := Expand(Wrap(Inside(prepared.value.1, EscapeSlashes(json))));
      if block.None? then None else Some(InsertBeforeHead(prepared.value.0, block.value))
  }

  // ----- Where a marker can occur -------------------------------------------------------------

  predicate IsMarker(m: string) {
    && |m| >= 2 && m[0] == '<' && m[1] == '!' && m[|m| - 1] == '>'
    && forall k :: 1 <= k < |m| ==> m[k] != '<'
  }

  lemma Markers()
    ensures IsMarker(BLOCK_START) && IsMarker(BLOCK_END)
    ensures |BLOCK_START| > |MARK| && |BLOCK_END| > |MARK| && BLOCK_START[|MARK|] != BLOCK_END[|MARK|]
  {
    assert forall k :: 1 <= k < |MARK| ==> MARK[k] != '<';
    MarkerFrom("start -->");
    MarkerFrom("end -->");
    assert BLOCK_START[|MARK|] == "start -->"[0] && BLOCK_END[|MARK|] == "end -->"[0];
  }

  lemma MarkerFrom(tail: string)
    requires tail != "" && tail[|tail| - 1] == '>' && '<' !in tail
    ensures IsMarker(MARK + tail)
  {
    assert forall k :: 1 <= k < |MARK| ==> MARK[k] != '<';
    assert forall k :: 0 <= k < |tail| ==> tail[k] in tail;
  }

  /** No `<` that could open a marker, not even one started at its end. */
  predicate Quiet(s: string) {
    forall k :: 0 <= k < |s| && s[k] == '<' ==> k + 1 < |s| && s[k + 1] != '!'
  }

  lemma QuietConcat(a: string, b: string)
    requires Quiet(a) && Quiet(b)
    ensures Quiet(a + b)
  {
  }

  lemma QuietFree(s: string, m: string)
    requires Quiet(s) && IsMarker(m)
    ensures !Contains(s, m)
  {
    forall i | OccursAt(s, m, i) ensures false {
      OccursAtIndex(s, m, i, 0);
      OccursAtIndex(s, m, i, 1);
    }
  }

  lemma MarkerFreeConcat(a: string, b: string, m: string)
    requires IsMarker(m) && !Contains(a, m) && !Contains(b, m)
    requires Quiet(a) || b == "" || b[0] == '<' || '>' !in b
    ensures !Contains(a + b, m)
  {
    forall i | OccursAt(a + b, m, i) ensures false {
      MarkerInConcat(a, b, m, i);
      if i + |m| <= |a| { OccursAtPrefix(a, b, m, i); } else { OccursAtSuffix(a, b, m, i - |a|); }
    }
  }

  /** A marker in a concatenation lies on one side. */
  lemma MarkerInConcat(a: string, b: string, m: string, i: nat)
    requires IsMarker(m) && OccursAt(a + b, m, i)
    requires Quiet(a) || b == "" || b[0] == '<' || '>' !in b
    ensures i + |m| <= |a| || |a| <= i
  {
    OccursAtIndex(a + b, m, i, 0);
    OccursAtIndex(a + b, m, i, 1);
    OccursAtIndex(a + b, m, i, |m| - 1);
    assert forall k :: 0 <= k < |b| ==> (a + b)[|a| + k] == b[k] && b[k] in b;
    if i < |a| < i + |m| {
      OccursAtIndex(a + b, m, i, |a| - i);
    }
  }

  /** Between one marker and the other. */
  lemma EndFreeAfterStart(inside: string)
    requires !Contains(inside, BLOCK_END) && inside != "" && inside[0] != '<'
    ensures !Contains(BLOCK_START + inside, BLOCK_END)
  {
    Markers();
    forall i | OccursAt(BLOCK_START + inside, BLOCK_END, i) ensures false {
      OccursAtIndex(BLOCK_START + inside, BLOCK_END, i, 0);
      if i == 0 { OccursAtIndex(BLOCK_START + inside, BLOCK_END, 0, |MARK|); }
      if i >= |BLOCK_START| { OccursAtSuffix(BLOCK_START, inside, BLOCK_END, i - |BLOCK_START|); }
    }
  }

  // ----- Deleting undoes inserting ---------------------------------------------------------------

  /** No block anywhere: no end marker follows a start marker. */
  ghost predicate BlockFree(page: string) {
    forall i, j :: OccursAt(page, BLOCK_START, i) && OccursAt(page, BLOCK_END, j) ==> j < i + |BLOCK_START|
  }

  lemma TrimBlanksUnique(s: string, pad: string)
    requires TrimBlanks(s) == s && forall k :: 0 <= k < |pad| ==> IsBlank(pad[k])
    ensures TrimBlanks(s + pad) == s
  {
    var t := TrimBlanks(s + pad);
    assert forall k :: 0 <= k < |pad| ==> (s + pad)[|s| + k] == pad[k];
    assert s != "" ==> (s + pad)[|s| - 1] == s[|s| - 1];
    assert (s + pad)[..|s|] == s;
  }

  /** The first removal: `pre` ends before the blanks in front of the first start marker. */
  lemma FirstRemoval(before: string, inside: string, after: string)
    requires !Contains(before, BLOCK_START) && !Contains(inside, BLOCK_END)
    ensures RemoveBlocks(before + BLOCK_START + (inside + BLOCK_END + after)) ==
            TrimBlanks(before) + RemoveBlocks(DropNewline(after))
  {
    Markers();
    var tail := inside + BLOCK_END + after;
    var page := before + BLOCK_START + tail;
    FirstCopy(before, BLOCK_START, tail);
    FirstCopy(inside, BLOCK_END, after);
    assert page[..|before|] == before;
    assert page[|before| + |BLOCK_START|..] == tail;
    assert tail[|inside| + |BLOCK_END|..] == after;
  }

  lemma OccursInSuffix(s: string, n: nat, m: string, j: int)
    requires n <= |s| && n <= j
    ensures OccursAt(s, m, j) <==> OccursAt(s[n..], m, j - n)
  {
    assert s == s[..n] + s[n..];
    OccursAtSuffix(s[..n], s[n..], m, j - n);
  }

  /** Where the first block would be cut: an end marker after the first start marker. */
  predicate HoldsBlock(page: string) {
    var i := Find(page, BLOCK_START);
    i != -1 && Find(page[i + |BLOCK_START|..], BLOCK_END) != -1
  }

  lemma RemovalStep(page: string)
    ensures !HoldsBlock(page) ==> RemoveBlocks(page) == page
    ensures HoldsBlock(page) ==> |RemoveBlocks(page)| < |page|
  {
    assert |BLOCK_START| > 0 by { Markers(); }
  }

  lemma HoldsBlockIff(page: string)
    ensures HoldsBlock(page) <==> !BlockFree(page)
  {
    var i := Find(page, BLOCK_START);
    if i != -1 {
      var n := i + |BLOCK_START|;
      var j := Find(page[n..], BLOCK_END);
      hide Find;
      if j == -1 {
        forall k, l | OccursAt(page, BLOCK_START, k) && OccursAt(page, BLOCK_END, l) ensures l < k + |BLOCK_START| {
          if l >= n { OccursInSuffix(page, n, BLOCK_END, l); }
        }
      } else {
        OccursInSuffix(page, n, BLOCK_END, n + j);
      }
    }
  }

  /** Removal leaves a page alone exactly when it holds no block, and otherwise shortens it. */
  lemma RemovalKeepsIff(page: string)
    ensures RemoveBlocks(page) == page <==> BlockFree(page)
  {
    hide RemoveBlocks, HoldsBlock, BlockFree;
    RemovalStep(page);
    HoldsBlockIff(page);
  }

  lemma FreeSuffix(page: string, n: nat)
    requires BlockFree(page) && n <= |page|
    ensures BlockFree(page[n..])
  {
    forall i, j | OccursAt(page[n..], BLOCK_START, i) && OccursAt(page[n..], BLOCK_END, j)
      ensures j < i + |BLOCK_START|
    {
      OccursInSuffix(page, n, BLOCK_START, n + i);
      OccursInSuffix(page, n, BLOCK_END, n + j);
    }
  }

  lemma Regroup<T>(a: seq<T>, pad: seq<T>, start: seq<T>, inside: seq<T>, end: seq<T>, nl: seq<T>, v: seq<T>)
    ensures a + (pad + start + inside + end + nl) + v == (a + pad) + start + (inside + end + (nl + v))
  {
  }

  lemma PadKeepsFree(a: string)
    requires !Contains(a, BLOCK_START)
    ensures !Contains(a + PAD, BLOCK_START)
  {
    Markers();
    QuietFree(PAD, BLOCK_START);
    MarkerFreeConcat(a, PAD, BLOCK_START);
  }

  /** With no start marker in front, the inserted block is what goes. */
  lemma BlockRemoved(a: string, inside: string, v: string)
    requires TrimBlanks(a) == a && !Contains(a, BLOCK_START)
    requires !Contains(inside, BLOCK_END) && BlockFree(v)
    ensures RemoveBlocks(a + Wrap(inside) + v) == a + v
  {
    hide RemoveBlocks, TrimBlanks, Contains, BlockFree;
    PadKeepsFree(a);
    Regroup(a, PAD, BLOCK_START, inside, BLOCK_END, "\n", v);
    FirstRemoval(a + PAD, inside, "\n" + v);
    TrimBlanksUnique(a, PAD);
    RemovalKeepsIff(v);
    assert DropNewline("\n" + v) == v;
  }

  // ----- Replacing the description again ------------------------------------------------------

  function Extend(r: Option<string>, x: string): Option<string> {
    if r.None? then None else Some(r.value + x)
  }

  lemma {:induction false} LiteralLocal(u: string, x: string, m: string)
    requires x != "" && x[0] == '<'
    requires forall k :: 0 <= k < |m| && m[k] == '<' ==> k == 0 && u != ""
    ensures AfterLiteral(u + x, m) == Extend(AfterLiteral(u, m), x)
    decreases |m|
  {
    if m != "" && u != "" && Fold(u[0]) == m[0] {
      assert (u + x)[1..] == u[1..] + x;
      LiteralLocal(u[1..], x, m[1..]);
    }
  }

  lemma {:induction false} SpacesLocal(u: string, x: string)
    requires x != "" && x[0] == '<'
    ensures AfterSpaces(u + x) == AfterSpaces(u) + x
    decreases |u|
  {
    if u != "" && IsSpace(u[0]) {
      assert (u + x)[1..] == u[1..] + x;
      SpacesLocal(u[1..], x);
    }
  }

  lemma {:induction false} QuoteLocal(u: string, x: string)
    ensures AfterQuote(u + x) == if AfterQuote(u).Some? then Some(AfterQuote(u).value + x) else AfterQuote(x)
    decreases |u|
  {
    if u == "" {
      assert u + x == x;
    } else {
      assert (u + x)[1..] == u[1..] + x;
      if u[0] != '"' { QuoteLocal(u[1..], x); }
    }
  }

  lemma TagEndLocal(u: string, x: string)
    requires x != "" && x[0] == '<'
    ensures AfterTagEnd(u + x) == Extend(AfterTagEnd(u), x)
  {
    SpacesLocal(u, x);
    var t := AfterSpaces(u);
    if t != "" {
      assert (t + x)[1..] == t[1..] + x;
      if t[0] == '/' && t[1..] != "" { assert (t[1..] + x)[1..] == t[1..][1..] + x; }
    }
  }

  /** How a description meta reads from the left: `<`, and a `d` after its first quote. */
  predicate MetaLike(x: string) {
    && x != "" && x[0] == '<'
    && AfterQuote(x).Some? && AfterQuote(x).value != "" && Fold(AfterQuote(x).value[0]) == 'd'
  }

  lemma ContentLocal(u: string, x: string)
    requires MetaLike(x)
    ensures AfterContent(u + x) == Extend(AfterContent(u), x)
  {
    QuoteLocal(u, x);
    if AfterQuote(u).Some? {
      TagEndLocal(AfterQuote(u).value, x);
    } else {
      assert AfterTagEnd(AfterQuote(x).value).None?;
    }
  }

  lemma NameLocal(u: string, x: string)
    requires MetaLike(x)
    ensures AfterMetaName(u + x) == Extend(AfterMetaName(u), x)
  {
    if u != "" && IsSpace(u[0]) {
      SpacesLocal(u, x);
      LiteralLocal(AfterSpaces(u), x, META_CONTENT);
      var rest := AfterLiteral(AfterSpaces(u), META_CONTENT);
      if rest.Some? { ContentLocal(rest.value, x); }
    }
  }

  lemma OpenLocal(u: string, x: string)
    requires MetaLike(x)
    ensures AfterMetaOpen(u + x) == Extend(AfterMetaOpen(u), x)
  {
    if u != "" && IsSpace(u[0]) {
      SpacesLocal(u, x);
      LiteralLocal(AfterSpaces(u), x, META_NAME);
      var rest := AfterLiteral(AfterSpaces(u), META_NAME);
      if rest.Some? { NameLocal(rest.value, x); }
    }
  }

  /** Whether a description meta starts in the text before another one does not depend on that other one. */
  lemma MetaLocal(u: string, x: string)
    requires u != "" && MetaLike(x)
    ensures AfterMeta(u + x) == Extend(AfterMeta(u), x)
  {
    LiteralLocal(u, x, META_OPEN);
    var rest := AfterLiteral(u, META_OPEN);
    if rest.Some? { OpenLocal(rest.value, x); }
  }

  lemma {:induction false} LiteralKeepsQuote(s: string, m: string)
    requires '"' !in m && AfterLiteral(s, m).Some?
    ensures AfterQuote(AfterLiteral(s, m).value) == AfterQuote(s)
    decreases |m|
  {
    if m != "" {
      assert m[0] != '"';
      LiteralKeepsQuote(s[1..], m[1..]);
    }
  }

  lemma {:induction false} SpacesKeepQuote(s: string)
    ensures AfterQuote(AfterSpaces(s)) == AfterQuote(s)
    decreases |s|
  {
    if s != "" && IsSpace(s[0]) { SpacesKeepQuote(s[1..]); }
  }

  lemma {:induction false} LiteralSplit(s: string, m1: string, m2: string)
    requires AfterLiteral(s, m1 + m2).Some?
    ensures AfterLiteral(s, m1).Some? && AfterLiteral(AfterLiteral(s, m1).value, m2).Some?
    decreases |m1|
  {
    if m1 == "" {
      assert m1 + m2 == m2;
    } else {
      assert (m1 + m2)[1..] == m1[1..] + m2;
      LiteralSplit(s[1..], m1[1..], m2);
    }
  }

  lemma FoundMetaLike(x: string)
    requires AfterMeta(x).Some?
    ensures MetaLike(x)
  {
    assert x != "" && x[0] == '<';
    var s1 := AfterLiteral(x, META_OPEN).value;
    assert AfterMetaOpen(s1).Some?;
    OpenLeadsToQuote(s1);
    hide AfterLiteral, AfterQuote, Fold;
    LiteralKeepsQuote(x, META_OPEN);
  }

  lemma OpenLeadsToQuote(s: string)
    requires AfterMetaOpen(s).Some?
    ensures AfterQuote(s).Some? && AfterQuote(s).value != "" && Fold(AfterQuote(s).value[0]) == 'd'
  {
    hide AfterLiteral, AfterQuote, AfterSpaces, Fold;
    var s1 := AfterSpaces(s);
    SpacesKeepQuote(s);
    var name, quoted := "name=", "\"description\"";
    assert META_NAME == name + quoted;
    LiteralSplit(s1, name, quoted);
    LiteralKeepsQuote(s1, name);
    QuotedD(AfterLiteral(s1, name).value, quoted);
  }

  lemma QuotedD(s: string, m: string)
    requires |m| >= 2 && m[0] == '"' && m[1] == 'd' && AfterLiteral(s, m).Some?
    ensures AfterQuote(s).Some? && AfterQuote(s).value != "" && Fold(AfterQuote(s).value[0]) == 'd'
  {
    assert AfterLiteral(s[1..], m[1..]).Some? && m[1..][0] == 'd';
  }

  // ----- The new meta is found where it is ------------------------------------------------------

  lemma {:induction false} LiteralRead(m: string, s: string)
    requires forall k :: 0 <= k < |m| ==> Fold(m[k]) == m[k]
    ensures AfterLiteral(m + s, m) == Some(s)
    decreases |m|
  {
    if m == "" {
      assert m + s == s;
    } else {
      assert (m + s)[1..] == m[1..] + s;
      LiteralRead(m[1..], s);
    }
  }

  lemma {:induction false} ContentRead(c: string, s: string)
    requires '"' !in c
    ensures AfterQuote(c + ("\"" + s)) == Some(s)
    decreases |c|
  {
    if c == "" {
      assert c + ("\"" + s) == "\"" + s;
    } else {
      assert (c + ("\"" + s))[1..] == c[1..] + ("\"" + s);
      ContentRead(c[1..], s);
    }
  }

  lemma SpaceRead(s: string)
    requires s != "" && !IsSpace(s[0])
    ensures AfterSomeSpaces(" " + s) == Some(s)
  {
    assert (" " + s)[1..] == s;
    assert AfterSpaces(s) == s;
  }

  lemma MetaParts(content: string, s: string)
    ensures Meta(content) + s ==
            META_OPEN + (" " + (META_NAME + (" " + (META_CONTENT + (content + ("\"" + (">" + s)))))))
  {
    Flatten(META_OPEN, " ", META_NAME, META_CONTENT, content, s);
  }

  lemma Flatten(a: string, b: string, c: string, d: string, e: string, s: string)
    ensures (a + b + c + b + d + e + "\">") + s == a + (b + (c + (b + (d + (e + ("\"" + (">" + s)))))))
  {
    assert "\">" + s == "\"" + (">" + s);
    ConcatAssoc(a + b + c + b + d + e, "\">", s);
    var t := "\"" + (">" + s);
    ConcatAssoc(a + b + c + b + d, e, t);
    ConcatAssoc(a + b + c + b, d, e + t);
    ConcatAssoc(a + b + c, b, d + (e + t));
    ConcatAssoc(a + b, c, b + (d + (e + t)));
    ConcatAssoc(a, b, c + (b + (d + (e + t))));
  }

  lemma MetaRead(content: string, s: string)
    requires '"' !in content
    ensures AfterMeta(Meta(content) + s) == Some(s)
  {
    hide AfterLiteral, AfterSomeSpaces, AfterQuote, Meta;
    MetaParts(content, s);
    var r4 := content + ("\"" + (">" + s));
    var r3 := META_CONTENT + r4;
    var r2 := META_NAME + (" " + r3);
    LiteralRead(META_OPEN, " " + r2);
    SpaceRead(r2);
    LiteralRead(META_NAME, " " + r3);
    SpaceRead(r3);
    LiteralRead(META_CONTENT, r4);
    ContentRead(content, ">" + s);
    TagEndRead(s);
  }

  lemma TagEndRead(s: string)
    ensures AfterTagEnd(">" + s) == Some(s)
  {
    assert (">" + s)[1..] == s;
  }

  // ----- The meta as it is written ----------------------------------------------------------------

  /** What a template writes for an attribute value when a quote follows it. */
  function ContentOf(value: string): (r: string)
    ensures '<' !in value ==> '<' !in r
    ensures '"' !in value ==> '"' !in r
  {
    if value == "" then ""
    else if value[0] != '\\' then [value[0]] + ContentOf(value[1..])
    else if |value| == 1 then "\\"
    else if value[1] == '\\' then "\\" + ContentOf(value[2..])
    else if NamedControl(value[1]).Some? then [NamedControl(value[1]).value] + ContentOf(value[2..])
    else ['\\', value[1]] + ContentOf(value[2..])
  }

  function WrittenMeta(description: string): string {
    Meta(ContentOf(Escape(description)))
  }

  /** A template that ends outside an escape is expanded on its own. */
  lemma {:induction false} ExpandConcat(x: string, y: string)
    requires Expand(x).Some?
    ensures Expand(x + y) == Prefixed(Expand(x).value, Expand(y))
    decreases |x|
  {
    if x == "" {
      assert x + y == y;
      if Expand(y).Some? { assert "" + Expand(y).value == Expand(y).value; }
    } else {
      var n := if x[0] != '\\' then 1 else 2;
      assert (x + y)[n..] == x[n..] + y;
      ExpandConcat(x[n..], y);
      var front := Expand(x).value[..|Expand(x).value| - |Expand(x[n..]).value|];
      assert Expand(x).value == front + Expand(x[n..]).value;
      assert Expand(x + y) == Prefixed(front, Expand(x[n..] + y));
      if Expand(y).Some? { ConcatAssoc(front, Expand(x[n..]).value, Expand(y).value); }
    }
  }

  lemma ExpandPlain(x: string, y: string)
    requires '\\' !in x
    ensures Expand(x + y) == Prefixed(x, Expand(y))
  {
    LiteralPlain(x);
    ExpandKeepsIff(x);
    ExpandConcat(x, y);
  }

  lemma {:induction false} ExpandContent(value: string, y: string)
    requires Expand(value + ("\"" + y)).Some?
    ensures Expand(y).Some? && Expand(value + ("\"" + y)).value == ContentOf(value) + ("\"" + Expand(y).value)
    decreases |value|
  {
    var s := value + ("\"" + y);
    if value == "" {
      assert s == "\"" + y && s[1..] == y;
    } else if |value| == 1 && value[0] == '\\' {
      assert s[1] == '"' && s[2..] == y;
      assert "\\" + ("\"" + Expand(y).value) == ['\\', '"'] + Expand(y).value;
    } else {
      var n := if value[0] != '\\' then 1 else 2;
      assert s[n..] == value[n..] + ("\"" + y);
      assert s[0] == value[0] && (n == 2 ==> s[1] == value[1]);
      ExpandContent(value[n..], y);
      var front := ContentOf(value)[..|ContentOf(value)| - |ContentOf(value[n..])|];
      ConcatAssoc(front, ContentOf(value[n..]), "\"" + Expand(y).value);
    }
  }

  /** Where the meta's template is not rejected, this is what it writes. */
  lemma WrittenIs(description: string)
    requires Expand(NewMeta(description)).Some?
    ensures Expand(NewMeta(description)) == Some(WrittenMeta(description))
  {
    hide Expand, Escape, ContentOf;
    var front := META_OPEN + " " + META_NAME + " " + META_CONTENT;
    var value := Escape(description);
    assert NewMeta(description) == front + (value + ("\"" + ">"));
    assert '\\' !in front;
    ExpandPlain(front, value + ("\"" + ">"));
    ExpandContent(value, ">");
    ExpandPlain(">", "");
    EmptyTemplate();
    assert ">" + "" == ">";
    assert WrittenMeta(description) == front + (ContentOf(value) + ("\"" + ">"));
  }

  lemma EmptyTemplate()
    ensures Expand("") == Some("")
  {
  }

  /** The pattern matches the meta as it is written, in full and nothing beyond it. */
  lemma WrittenRead(description: string, s: string)
    ensures AfterMeta(WrittenMeta(description) + s) == Some(s)
  {
    MetaRead(ContentOf(Escape(description)), s);
  }

  // ----- Swapping twice ---------------------------------------------------------------------------

  /** No description meta starts inside `u` when `x` follows. */
  ghost predicate NoMetaIn(u: string, x: string) {
    forall k :: 0 <= k < |u| ==> AfterMeta(u[k..] + x).None?
  }

  lemma {:induction false} FirstMeta(page: string) returns (u: string, x: string)
    requires HasMeta(page)
    ensures page == u + x && AfterMeta(x).Some? && NoMetaIn(u, x)
    decreases |page|
  {
    hide AfterMeta;
    if AfterMeta(page).Some? {
      u, x := "", page;
    } else {
      var v;
      v, x := FirstMeta(page[1..]);
      u := [page[0]] + v;
      assert page == u + x;
      forall k | 0 <= k < |u| ensures AfterMeta(u[k..] + x).None? {
        if k == 0 { assert u[k..] + x == page; } else { assert u[k..] == v[k - 1..]; }
      }
    }
  }

  lemma {:induction false} SwapAtFirst(u: string, x: string, meta: string)
    requires AfterMeta(x).Some? && NoMetaIn(u, x)
    ensures SwapMeta(u + x, meta) == Some(u + (meta + AfterMeta(x).value))
    decreases |u|
  {
    if u == "" {
      assert u + x == x;
      assert u + (meta + AfterMeta(x).value) == meta + AfterMeta(x).value;
    } else {
      hide AfterMeta;
      assert u[0..] + x == u + x;
      assert AfterMeta(u[0..] + x).None?;
      assert (u + x)[1..] == u[1..] + x;
      forall k | 0 <= k < |u| - 1 ensures AfterMeta(u[1..][k..] + x).None? {
        assert u[1..][k..] == u[k + 1..];
      }
      SwapAtFirst(u[1..], x, meta);
      ConcatAssoc([u[0]], u[1..], meta + AfterMeta(x).value);
      assert u == [u[0]] + u[1..];
    }
  }

  /** The page's description replaced is a page whose description is already the new one. */
  lemma SwapTwice(page: string, description: string)
    requires HasMeta(page)
    ensures var once := SwapMeta(page, WrittenMeta(description)).value;
            SwapMeta(once, WrittenMeta(description)) == Some(once)
  {
    hide AfterMeta, SwapMeta, WrittenMeta;
    var meta := WrittenMeta(description);
    var u, x := FirstMeta(page);
    SwapAtFirst(u, x, meta);
    var rest := AfterMeta(x).value;
    WrittenRead(description, rest);
    FoundMetaLike(x);
    FoundMetaLike(meta + rest);
    forall k | 0 <= k < |u| ensures AfterMeta(u[k..] + (meta + rest)).None? {
      MetaLocal(u[k..], x);
      MetaLocal(u[k..], meta + rest);
    }
    SwapAtFirst(u, meta + rest, meta);
  }

  // ----- Markers survive the swap --------------------------------------------------------------

  lemma {:induction false} LiteralSuffix(s: string, m: string)
    requires AfterLiteral(s, m).Some?
    ensures IsSuffix(AfterLiteral(s, m).value, s)
    decreases |m|
  {
    if m != "" { LiteralSuffix(s[1..], m[1..]); }
  }

  predicate IsSuffix(t: string, s: string) {
    |t| <= |s| && s[|s| - |t|..] == t
  }

  lemma {:induction false} SpacesSuffix(s: string)
    ensures IsSuffix(AfterSpaces(s), s)
    decreases |s|
  {
    if s != "" && IsSpace(s[0]) { SpacesSuffix(s[1..]); }
  }

  lemma {:induction false} QuoteSuffix(s: string)
    requires AfterQuote(s).Some?
    ensures IsSuffix(AfterQuote(s).value, s)
    decreases |s|
  {
    if s[0] != '"' { QuoteSuffix(s[1..]); }
  }

  lemma ContentSuffix(s: string)
    requires AfterContent(s).Some?
    ensures IsSuffix(AfterContent(s).value, s)
  {
    QuoteSuffix(s);
    SpacesSuffix(AfterQuote(s).value);
  }

  lemma NameSuffix(s: string)
    requires AfterMetaName(s).Some?
    ensures IsSuffix(AfterMetaName(s).value, s)
  {
    SpacesSuffix(s);
    LiteralSuffix(AfterSpaces(s), META_CONTENT);
    ContentSuffix(AfterLiteral(AfterSpaces(s), META_CONTENT).value);
  }

  lemma OpenSuffix(s: string)
    requires AfterMetaOpen(s).Some?
    ensures IsSuffix(AfterMetaOpen(s).value, s)
  {
    SpacesSuffix(s);
    LiteralSuffix(AfterSpaces(s), META_NAME);
    NameSuffix(AfterLiteral(AfterSpaces(s), META_NAME).value);
  }

  lemma MetaSuffix(s: string)
    requires AfterMeta(s).Some?
    ensures IsSuffix(AfterMeta(s).value, s)
  {
    LiteralSuffix(s, META_OPEN);
    OpenSuffix(AfterLiteral(s, META_OPEN).value);
  }

  lemma WrittenQuiet(description: string)
    ensures Quiet(WrittenMeta(description)) && WrittenMeta(description) != "" && WrittenMeta(description)[0] == '<'
  {
    var esc := ContentOf(Escape(description));
    hide Escape, ContentOf;
    assert forall k :: 0 <= k < |esc| ==> esc[k] in esc;
    var front := META_OPEN + " " + META_NAME + " " + META_CONTENT;
    assert front[0] == '<' && front[1] == 'm';
    assert Quiet(front) && Quiet(esc) && Quiet("\">");
    QuietConcat(front, esc);
    QuietConcat(front + esc, "\">");
  }

  /** A marker of the swapped page, as an occurrence in the page. */
  lemma SwappedMarker(u: string, x: string, meta: string, rest: string, m: string, i: nat)
    requires IsMarker(m) && Quiet(meta) && meta != "" && meta[0] == '<'
    requires IsSuffix(rest, x) && OccursAt(u + (meta + rest), m, i)
    ensures (i + |m| <= |u| && OccursAt(u + x, m, i))
            || (|u| + |meta| <= i && OccursAt(u + x, m, i - |meta| + (|x| - |rest|)))
  {
    MarkerInConcat(u, meta + rest, m, i);
    if i < |u| {
      OccursAtPrefix(u, meta + rest, m, i);
      OccursAtPrefix(u, x, m, i);
    } else {
      OccursAtSuffix(u, meta + rest, m, i - |u|);
      MarkerInConcat(meta, rest, m, i - |u|);
      QuietFree(meta, m);
      if i - |u| < |meta| { OccursAtPrefix(meta, rest, m, i - |u|); }
      OccursAtSuffix(meta, rest, m, i - |u| - |meta|);
      var matched := x[..|x| - |rest|];
      assert x == matched + rest;
      OccursAtSuffix(matched, rest, m, i - |u| - |meta|);
      OccursAtSuffix(u, x, m, |matched| + (i - |u| - |meta|));
    }
  }

  lemma SwapKeepsBlockFree(page: string, description: string)
    requires HasMeta(page) && BlockFree(page)
    ensures BlockFree(SwapMeta(page, WrittenMeta(description)).value)
  {
    hide AfterMeta, SwapMeta, WrittenMeta, HasMeta;
    Markers();
    var meta := WrittenMeta(description);
    WrittenQuiet(description);
    var u, x := FirstMeta(page);
    SwapAtFirst(u, x, meta);
    MetaSuffix(x);
    var rest := AfterMeta(x).value;
    var swapped := u + (meta + rest);
    forall i, j | OccursAt(swapped, BLOCK_START, i) && OccursAt(swapped, BLOCK_END, j)
      ensures j < i + |BLOCK_START|
    {
      SwappedMarker(u, x, meta, rest, BLOCK_START, i);
      SwappedMarker(u, x, meta, rest, BLOCK_END, j);
    }
  }

  // ----- Templates that stand for themselves ------------------------------------------------------

  predicate EscapesNothing(c: char) {
    !IsLetter(c) && !('0' <= c <= '9') && c != '\\'
  }

  /** Every backslash is followed by something that is neither letter, digit nor backslash. */
  predicate LiteralTemplate(s: string) {
    forall k :: 0 <= k < |s| && s[k] == '\\' ==> k + 1 < |s| && EscapesNothing(s[k + 1])
  }

  lemma {:induction false} ExpandNeverGrows(s: string)
    ensures Expand(s).Some? ==> |Expand(s).value| <= |s|
    decreases |s|
  {
    if s != "" {
      if s[0] != '\\' { ExpandNeverGrows(s[1..]); } else if |s| > 1 { ExpandNeverGrows(s[2..]); }
    }
  }

  lemma LiteralTail(s: string, n: nat)
    requires n <= |s| && LiteralTemplate(s)
    ensures LiteralTemplate(s[n..])
  {
  }

  lemma LiteralFront(s: string)
    requires s != "" && s[0] != '\\' && LiteralTemplate(s[1..])
    ensures LiteralTemplate(s)
  {
    assert forall k :: 1 <= k < |s| ==> s[k] == s[1..][k - 1];
  }

  lemma LiteralFrontPair(s: string)
    requires |s| > 1 && s[0] == '\\' && EscapesNothing(s[1])
    requires LiteralTemplate(s[2..])
    ensures LiteralTemplate(s)
  {
    assert forall k :: 2 <= k < |s| ==> s[k] == s[2..][k - 2];
  }

  /** A replacement template stands for itself exactly when none of its backslashes starts an escape. */
  lemma {:induction false} ExpandKeepsIff(s: string)
    ensures Expand(s) == Some(s) <==> LiteralTemplate(s)
    decreases |s|
  {
    if s != "" {
      if s[0] != '\\' {
        ExpandKeepsIff(s[1..]);
        assert s == [s[0]] + s[1..];
        if LiteralTemplate(s) { LiteralTail(s, 1); } else if LiteralTemplate(s[1..]) { LiteralFront(s); }
      } else if |s| > 1 {
        ExpandKeepsIff(s[2..]);
        ExpandNeverGrows(s[2..]);
        assert s == ['\\', s[1]] + s[2..];
        if LiteralTemplate(s) { LiteralTail(s, 2); } else if EscapesNothing(s[1]) && LiteralTemplate(s[2..]) { LiteralFrontPair(s); }
      }
    }
  }

  lemma LiteralConcat(a: string, b: string)
    requires LiteralTemplate(a) && LiteralTemplate(b)
    ensures LiteralTemplate(a + b)
  {
  }

  lemma LiteralPlain(s: string)
    requires '\\' !in s
    ensures LiteralTemplate(s)
  {
    assert forall k :: 0 <= k < |s| ==> s[k] in s;
  }

  // ----- The payload ---------------------------------------------------------------------------------

  predicate OpensEndTag(s: string) {
    |s| >= 2 && s[0] == '<' && s[1] == '/'
  }

  /** Nothing in the text could close the script element around it. */
  predicate StaysInScript(s: string) {
    forall k :: 0 <= k < |s| - 1 && s[k] == '<' ==> s[k + 1] != '/'
  }

  lemma StaysBehind(front: string, rest: string)
    requires StaysInScript(front) && StaysInScript(rest)
    requires front == "" || rest == "" || front[|front| - 1] != '<' || rest[0] != '/'
    ensures StaysInScript(front + rest)
  {
  }

  lemma {:induction false} EscapedStays(json: string)
    ensures StaysInScript(EscapeSlashes(json))
    decreases |json|
  {
    if json != "" {
      var n := if OpensEndTag(json) then 2 else 1;
      EscapedStays(json[n..]);
      StaysBehind(if OpensEndTag(json) then "<\\/" else [json[0]], EscapeSlashes(json[n..]));
    }
  }

  lemma FirstExpanded(s: string)
    requires s != "" && Expand(s).Some?
    ensures Expand(s).value != "" && (Expand(s).value[0] == '/' ==> s[0] == '/')
  {
  }

  lemma {:induction false} ExpandedStays(s: string)
    requires StaysInScript(s) && Expand(s).Some?
    ensures StaysInScript(Expand(s).value)
    decreases |s|
  {
    if s != "" {
      var n := if s[0] != '\\' then 1 else 2;
      var rest := s[n..];
      assert forall k :: 0 <= k < |rest| ==> rest[k] == s[n + k];
      ExpandedStays(rest);
      var out := Expand(s).value;
      var front := out[..|out| - |Expand(rest).value|];
      assert out == front + Expand(rest).value;
      if rest != "" { FirstExpanded(rest); }
      StaysBehind(front, Expand(rest).value);
    }
  }

  /** Whatever the metadata, the payload as it is written never closes the script element around it. */
  lemma PayloadStaysInScript(json: string)
    ensures Expand(EscapeSlashes(json)).Some? ==> StaysInScript(Expand(EscapeSlashes(json)).value)
  {
    EscapedStays(json);
    if Expand(EscapeSlashes(json)).Some? { ExpandedStays(EscapeSlashes(json)); }
  }

  lemma {:induction false} PayloadLiteral(json: string)
    requires LiteralTemplate(json)
    ensures LiteralTemplate(EscapeSlashes(json))
    decreases |json|
  {
    if json != "" {
      if OpensEndTag(json) {
        LiteralTail(json, 2);
        PayloadLiteral(json[2..]);
        assert LiteralTemplate("<\\/");
        LiteralConcat("<\\/", EscapeSlashes(json[2..]));
      } else {
        LiteralTail(json, 1);
        PayloadLiteral(json[1..]);
        var rest := EscapeSlashes(json[1..]);
        assert json[0] == '\\' ==> rest != "" && rest[0] == json[1];
      }
    }
  }

  lemma {:induction false} PayloadPrefix(json: string, m: string)
    requires m <= EscapeSlashes(json) && '\\' !in m
    ensures m <= json
    decreases |m|
  {
    if m != "" {
      assert forall k :: 0 <= k < |m| ==> m[k] == EscapeSlashes(json)[k] && m[k] in m;
      assert json != "" && m[0] == json[0];
      assert OpensEndTag(json) ==> EscapeSlashes(json)[1] == '\\';
      if OpensEndTag(json) {
        assert |m| == 1;
      } else {
        PayloadPrefix(json[1..], m[1..]);
        assert m == [m[0]] + m[1..] && json == [json[0]] + json[1..];
      }
    }
  }

  /** Escaping the payload makes no marker. */
  lemma {:induction false} PayloadMarkerFree(json: string, m: string)
    requires !Contains(json, m) && IsMarker(m) && '\\' !in m
    ensures !Contains(EscapeSlashes(json), m)
    decreases |json|
  {
    if json != "" {
      var r := EscapeSlashes(json);
      var n := if OpensEndTag(json) then 2 else 1;
      forall i | OccursAt(json[n..], m, i) ensures false {
        OccursInSuffix(json, n, m, n + i);
      }
      PayloadMarkerFree(json[n..], m);
      var head := r[..|r| - |EscapeSlashes(json[n..])|];
      assert r == head + EscapeSlashes(json[n..]);
      assert m <= json ==> OccursAt(json, m, 0);
      forall i | OccursAt(r, m, i) ensures false {
        OccursAtIndex(r, m, i, 0);
        if i >= |head| {
          OccursAtSuffix(head, EscapeSlashes(json[n..]), m, i - |head|);
        } else {
          PayloadPrefix(json, m);
        }
      }
    } else {
      assert forall i :: OccursAt(EscapeSlashes(json), m, i) ==> OccursAt(json, m, i);
    }
  }

  lemma InsideFree(body: string, payload: string)
    requires Quiet(body) && !Contains(payload, BLOCK_END)
    ensures var inside := Inside(body, payload);
            !Contains(inside, BLOCK_END) && inside != "" && inside[0] != '<'
  {
    Markers();
    var script := PAD + SCRIPT_TYPE + SCRIPT_ID;
    var close := "</script>\n" + PAD;
    ScriptQuiet();
    var front := "\n" + body + script;
    QuietConcat("\n", body);
    QuietConcat("\n" + body, script);
    QuietFree(front, BLOCK_END);
    MarkerFreeConcat(front, payload, BLOCK_END);
    QuietFree(close, BLOCK_END);
    MarkerFreeConcat(front + payload, close, BLOCK_END);
  }

  lemma ScriptQuiet()
    ensures Quiet(PAD + SCRIPT_TYPE + SCRIPT_ID) && Quiet("</script>\n" + PAD)
    ensures '\\' !in BLOCK_END && '\\' !in BLOCK_START
    ensures LiteralTemplate(PAD + SCRIPT_TYPE + SCRIPT_ID) && LiteralTemplate("</script>\n" + PAD)
  {
    ScriptParts();
    QuietConcat(PAD, SCRIPT_TYPE);
    QuietConcat(PAD + SCRIPT_TYPE, SCRIPT_ID);
    LiteralPlain(PAD + SCRIPT_TYPE + SCRIPT_ID);
    LiteralPlain("</script>\n" + PAD);
  }

  lemma ScriptParts()
    ensures Quiet(PAD) && Quiet(SCRIPT_TYPE) && Quiet(SCRIPT_ID)
    ensures '\\' !in PAD && '\\' !in SCRIPT_TYPE && '\\' !in SCRIPT_ID && '\\' !in MARK
  {
    ScriptTypePlain();
    ScriptIdPlain();
  }

  lemma ScriptTypePlain()
    ensures Quiet(SCRIPT_TYPE) && '\\' !in SCRIPT_TYPE
  {
  }

  lemma ScriptIdPlain()
    ensures Quiet(SCRIPT_ID) && '\\' !in SCRIPT_ID
  {
  }

  /** The block's template writes the block of what its two variable parts write. */
  lemma BlockExpands(body: string, payload: string)
    requires Expand(body).Some? && Expand(payload).Some?
    ensures Expand(Wrap(Inside(body, payload))) == Some(Wrap(Inside(Expand(body).value, Expand(payload).value)))
  {
    hide Expand;
    ScriptQuiet();
    var a, b := PAD + BLOCK_START + "\n", PAD + SCRIPT_TYPE + SCRIPT_ID;
    var c := "</script>\n" + PAD + BLOCK_END + "\n";
    assert '\\' !in a && '\\' !in b && '\\' !in c;
    RegroupWrap(PAD + BLOCK_START, "\n", body, b, payload, "</script>\n", PAD, BLOCK_END);
    RegroupWrap(PAD + BLOCK_START, "\n", Expand(body).value, b, Expand(payload).value, "</script>\n", PAD, BLOCK_END);
    ExpandPlain(c, "");
    EmptyTemplate();
    assert c + "" == c;
    ExpandConcat(payload, c);
    ExpandPlain(b, payload + c);
    ExpandConcat(body, b + (payload + c));
    ExpandPlain(a, body + (b + (payload + c)));
  }

  lemma RegroupWrap(a: string, nl: string, body: string, b: string, payload: string, c: string, pad: string, end: string)
    ensures a + (nl + body + b + payload + (c + pad)) + end + nl == a + nl + (body + (b + (payload + (c + pad + end + nl))))
  {
    ConcatAssoc(payload, c + pad, end);
    ConcatAssoc(payload, c + pad + end, nl);
  }
}
