/**
 What the readers of an injected page make of it: an HTML reader of the
 description, a JSON reader of the payload, and the generator's own patterns on
 every spelling they are meant for.
 */
module HtmlReading {
  import opened Wrappers
  import opened Text
  import opened HtmlMetadata
  import opened HtmlRerun

  // ----- The description --------------------------------------------------------------------

  /** The character reference in front, and its length (section 13.5 of the HTML standard). */
  function Reference(s: string): (r: Option<(char, nat)>)
    ensures r.Some? ==> 0 < r.value.1 <= |s|
  {
    if StartsWith(s, "&amp;") then Some(('&', 5))
    else if StartsWith(s, "&lt;") then Some(('<', 4))
    else if StartsWith(s, "&gt;") then Some(('>', 4))
    else if StartsWith(s, "&quot;") then Some(('"', 6))
    else if StartsWith(s, "&#x27;") then Some(('\'', 6))
    else None
  }

  /** The value of an attribute, its references replaced. */
  function Decoded(s: string): string
    decreases |s|
  {
    if s == "" then ""
    else if Reference(s).Some? then [Reference(s).value.0] + Decoded(s[Reference(s).value.1..])
    else [s[0]] + Decoded(s[1..])
  }

  lemma ReferenceRead(c: char, rest: string)
    ensures var s := HtmlMetadata.EscapedChar(c) + rest;
            if c in "&<>\"'" then Reference(s) == Some((c, |HtmlMetadata.EscapedChar(c)|)) else s[0] == c && Reference(s) == None
  {
    var front := HtmlMetadata.EscapedChar(c);
    var s := front + rest;
    assert s[0] == front[0];
    if c in "&<>\"'" {
      assert front <= s && s[1] == front[1] && s[2] == front[2];
    }
  }

  /** The escaped description reads back as the description, whatever characters it has. */
  lemma {:induction false} DescriptionReadsBack(description: string)
    ensures Decoded(Escape(description)) == description
    decreases |description|
  {
    if description != "" {
      hide Decoded, HtmlMetadata.EscapedChar;
      DescriptionReadsBack(description[1..]);
      DecodedStep(description[0], Escape(description[1..]));
      assert [description[0]] + description[1..] == description;
    } else {
      NothingDecoded();
    }
  }

  lemma NothingDecoded()
    ensures Decoded("") == ""
  {
  }

  lemma DecodedStep(c: char, rest: string)
    ensures Decoded(HtmlMetadata.EscapedChar(c) + rest) == [c] + Decoded(rest)
  {
    hide Reference, HtmlMetadata.EscapedChar;
    var front := HtmlMetadata.EscapedChar(c);
    ReferenceRead(c, rest);
    PlainFront(c);
    assert (front + rest)[|front|..] == rest;
  }

  lemma PlainFront(c: char)
    ensures HtmlMetadata.EscapedChar(c) != "" && (c !in "&<>\"'" ==> HtmlMetadata.EscapedChar(c) == [c])
  {
  }

  // ----- The payload --------------------------------------------------------------------------

  /** A character of a JSON text, or an escape (section 7 of RFC 8259). */
  datatype Unit = Itself(c: char) | Escaping(c: char)

  /** An escaped solidus is a solidus. */
  function JsonUnits(s: string): seq<Unit>
    decreases |s|
  {
    if s == "" then []
    else if s[0] == '\\' && |s| >= 2 then [if s[1] == '/' then Itself('/') else Escaping(s[1])] + JsonUnits(s[2..])
    else [Itself(s[0])] + JsonUnits(s[1..])
  }

  /** Escaping the end tags changes no value a JSON reader finds. */
  lemma {:induction false} SlashesSameJson(json: string)
    ensures JsonUnits(EscapeSlashes(json)) == JsonUnits(json)
    decreases |json|
  {
    if OpensEndTag(json) {
      SlashesSameJson(json[2..]);
      EndTagUnits(EscapeSlashes(json[2..]));
      assert json[1..][0] == '/' && json[1..][1..] == json[2..];
    } else if |json| >= 2 && json[0] == '\\' {
      EscapedFront(json);
      if OpensEndTag(json[1..]) {
        SlashesSameJson(json[3..]);
        EscapedEndTagUnits(json, EscapeSlashes(json[3..]));
      } else {
        SlashesSameJson(json[2..]);
        PairUnits(json[1], EscapeSlashes(json[2..]));
      }
    } else if json != "" {
      SlashesSameJson(json[1..]);
      var rest := EscapeSlashes(json[1..]);
      assert EscapeSlashes(json) == [json[0]] + rest;
      assert ([json[0]] + rest)[1..] == rest;
    }
  }

  lemma EndTagUnits(rest: string)
    ensures JsonUnits("<\\/" + rest) == [Itself('<'), Itself('/')] + JsonUnits(rest)
  {
    var s := "<\\/" + rest;
    assert s[0] == '<' && s[1..] == "\\/" + rest;
    PairUnits('/', rest);
    assert "\\/" + rest == ['\\', '/'] + rest;
  }

  lemma PairUnits(c: char, rest: string)
    ensures JsonUnits(['\\', c] + rest) == [if c == '/' then Itself('/') else Escaping(c)] + JsonUnits(rest)
  {
    var s := ['\\', c] + rest;
    assert s[0] == '\\' && s[1] == c && s[2..] == rest;
  }

  lemma EscapedFront(json: string)
    requires |json| >= 2 && json[0] == '\\'
    ensures OpensEndTag(json[1..]) ==> EscapeSlashes(json) == ['\\', '<'] + ("\\/" + EscapeSlashes(json[3..]))
    ensures !OpensEndTag(json[1..]) ==> EscapeSlashes(json) == ['\\', json[1]] + EscapeSlashes(json[2..])
  {
    var rest := json[1..];
    SlashesStep(json);
    SlashesStep(rest);
    hide EscapeSlashes;
    assert rest[1..] == json[2..];
    if OpensEndTag(rest) {
      assert rest[2..] == json[3..];
      Bracketed(EscapeSlashes(json[3..]));
    }
  }

  lemma Bracketed(rest: string)
    ensures ['\\'] + ("<\\/" + rest) == ['\\', '<'] + ("\\/" + rest)
  {
  }

  lemma SlashesStep(s: string)
    requires s != ""
    ensures EscapeSlashes(s) == if OpensEndTag(s) then "<\\/" + EscapeSlashes(s[2..]) else [s[0]] + EscapeSlashes(s[1..])
  {
  }

  lemma EscapedEndTagUnits(json: string, rest: string)
    requires |json| >= 3 && json[0] == '\\' && json[1] == '<' && json[2] == '/'
    requires JsonUnits(rest) == JsonUnits(json[3..])
    ensures JsonUnits(['\\', '<'] + ("\\/" + rest)) == JsonUnits(json)
  {
    PairUnits('<', "\\/" + rest);
    assert "\\/" + rest == ['\\', '/'] + rest;
    PairUnits('/', rest);
    assert json[2..][0] == '/' && json[2..][1..] == json[3..];
  }

  /** Metadata whose backslashes the substitution leaves alone is read from the page as it was. */
  lemma PayloadReadsBack(json: string)
    requires LiteralTemplate(json)
    ensures JsonUnits(WrittenPayload(json)) == JsonUnits(json)
  {
    hide Expand, JsonUnits, EscapeSlashes, LiteralTemplate;
    SlashesSameJson(json);
    PayloadLiteral(json);
    ExpandKeepsIff(EscapeSlashes(json));
  }

  /** A JSON string with an escaped newline: the page gets the newline itself, which JSON allows in no string. */
  lemma EscapedNewlineExpanded()
    ensures WrittenPayload("\"\\n\"") == "\"\n\""
    ensures JsonUnits("\"\\n\"") == [Itself('"'), Escaping('n'), Itself('"')]
    ensures JsonUnits("\"\n\"") == [Itself('"'), Itself('\n'), Itself('"')]
  {
    var json, page := ['"', '\\', 'n', '"'], ['"', '\n', '"'];
    assert json == "\"\\n\"" && page == "\"\n\"";
    assert json[1..] == ['\\', 'n', '"'] && json[1..][2..] == ['"'] && ['"'][1..] == "";
    assert json[1..][1..] == ['n', '"'] && ['n', '"'][1..] == ['"'];
    assert EscapeSlashes(['"']) == ['"'] && EscapeSlashes(['n', '"']) == ['n', '"'];
    assert EscapeSlashes(json[1..]) == json[1..] && EscapeSlashes(json) == json;
    assert ['\n'] + ['"'] == ['\n', '"'] && NamedControl('n') == Some('\n');
    assert Expand(['"']) == Some(['"']) && Expand(json[1..]) == Some(['\n', '"']);
    assert Expand(json) == Some(['"'] + ['\n', '"']) && ['"'] + ['\n', '"'] == page;
    assert page[1..] == ['\n', '"'] && page[1..][1..] == ['"'];
    assert JsonUnits(['"']) == [Itself('"')];
  }

  /** Behind a backslash the substitution writes seven letters as control characters, whatever follows. */
  lemma NamedEscapes(k: nat, rest: string)
    requires k < 7 && Expand(rest).Some?
    ensures Expand(['\\', "abfnrtv"[k]] + rest) == Some([[7, 8, 12, 10, 13, 9, 11][k] as char] + Expand(rest).value)
  {
    var s := ['\\', "abfnrtv"[k]] + rest;
    assert s[0] == '\\' && s[1] == "abfnrtv"[k] && s[2..] == rest;
  }

  /** The substitution takes any other backslash but one before an ASCII letter or a digit. */
  lemma RejectedIff(c: char, rest: string)
    requires Expand(rest).Some?
    ensures Expand(['\\', c] + rest).None?
            <==> ('a' <= c <= 'z' || 'A' <= c <= 'Z' || '0' <= c <= '9') && c !in "abfnrtv"
  {
    var s := ['\\', c] + rest;
    assert s[0] == '\\' && s[1] == c && s[2..] == rest;
  }

  // ----- The generator's own patterns ------------------------------------------------------------

  /** The text spells `m`, its letters in either case. */
  predicate Spells(x: string, m: string) {
    |x| == |m| && forall k :: 0 <= k < |m| ==> x[k] == m[k] || ('a' <= m[k] <= 'z' && x[k] == m[k] - 'a' + 'A')
  }

  /** ASCII white space. */
  predicate AllBlank(s: string) {
    forall k :: 0 <= k < |s| ==> s[k] in " \t\n\r\U{B}\U{C}"
  }

  lemma {:induction false} SpelledRead(x: string, m: string, rest: string)
    requires Spells(x, m) && forall k :: 0 <= k < |m| ==> Fold(m[k]) == m[k] && !('A' <= m[k] <= 'Z')
    ensures AfterLiteral(x + rest, m) == Some(rest)
    decreases |m|
  {
    var s := x + rest;
    if m == "" {
      assert s == rest;
    } else {
      assert s[0] == x[0] && s[1..] == x[1..] + rest;
      SpelledRead(x[1..], m[1..], rest);
    }
  }

  lemma {:induction false} BlanksRead(gap: string, rest: string)
    requires AllBlank(gap) && (rest == "" || !IsSpace(rest[0]))
    ensures AfterSpaces(gap + rest) == rest
    ensures gap != "" ==> AfterSomeSpaces(gap + rest) == Some(rest)
    decreases |gap|
  {
    if gap == "" {
      assert gap + rest == rest;
    } else {
      assert (gap + rest)[0] == gap[0] && (gap + rest)[1..] == gap[1..] + rest;
      BlanksRead(gap[1..], rest);
    }
  }

  lemma TagEndSpelled(gap: string, slash: bool, rest: string)
    requires AllBlank(gap)
    ensures AfterTagEnd(gap + ((if slash then "/>" else ">") + rest)) == Some(rest)
  {
    var end := (if slash then "/>" else ">") + rest;
    BlanksRead(gap, end);
    assert slash ==> end[1..] == ">" + rest;
    assert (">" + rest)[1..] == rest;
  }

  /** A description meta is matched in full in either letter case, with any white space between its parts and before its end, closed by `>` or `/>`. */
  lemma MetaSpelled(open: string, g1: string, name: string, g2: string, opener: string, content: string, g3: string, slash: bool, rest: string)
    requires Spells(open, "<meta") && Spells(name, "name=\"description\"") && Spells(opener, "content=\"")
    requires AllBlank(g1) && AllBlank(g2) && AllBlank(g3) && g1 != "" && g2 != "" && '"' !in content
    ensures AfterMeta(open + (g1 + (name + (g2 + (opener + (content + ("\"" + (g3 + ((if slash then "/>" else ">") + rest))))))))) == Some(rest)
  {
    hide AfterLiteral, AfterSpaces, AfterSomeSpaces, AfterQuote, AfterTagEnd, Spells, AllBlank;
    var r5 := g3 + ((if slash then "/>" else ">") + rest);
    var r4 := content + ("\"" + r5);
    var r3 := opener + r4;
    var r2 := name + (g2 + r3);
    MetaLetters();
    FirstLetters(name, opener);
    SpelledRead(open, META_OPEN, g1 + r2);
    BlanksRead(g1, r2);
    SpelledRead(name, META_NAME, g2 + r3);
    BlanksRead(g2, r3);
    SpelledRead(opener, META_CONTENT, r4);
    ContentRead(content, r5);
    TagEndSpelled(g3, slash, rest);
  }

  lemma MetaLetters()
    ensures forall k :: 0 <= k < |META_OPEN| ==> Fold(META_OPEN[k]) == META_OPEN[k] && !('A' <= META_OPEN[k] <= 'Z')
    ensures forall k :: 0 <= k < |META_NAME| ==> Fold(META_NAME[k]) == META_NAME[k] && !('A' <= META_NAME[k] <= 'Z')
    ensures forall k :: 0 <= k < |META_CONTENT| ==> Fold(META_CONTENT[k]) == META_CONTENT[k] && !('A' <= META_CONTENT[k] <= 'Z')
  {
  }

  lemma FirstLetters(name: string, opener: string)
    requires Spells(name, "name=\"description\"") && Spells(opener, "content=\"")
    ensures name != "" && !IsSpace(name[0]) && opener != "" && !IsSpace(opener[0])
  {
  }

  /** The managed block goes with the blanks and tabs in front of it and the newline behind it, and nothing else does. */
  lemma BlockGone(before: string, blanks: string, inside: string, behind: string)
    requires before == "" || before[|before| - 1] !in " \t"
    requires forall k :: 0 <= k < |blanks| ==> blanks[k] in " \t"
    requires !Contains(before + blanks, BLOCK_START) && !Contains(inside, BLOCK_END) && !Contains(behind, BLOCK_START)
    ensures RemoveBlocks(before + blanks + BLOCK_START + (inside + BLOCK_END + ("\n" + behind))) == before + behind
  {
    hide RemoveBlocks, Contains;
    FirstRemoval(before + blanks, inside, "\n" + behind);
    TrimBlanksUnique(before, blanks);
    assert DropNewline("\n" + behind) == behind;
    NoStartStays(behind);
  }

  lemma NoStartStays(page: string)
    requires !Contains(page, BLOCK_START)
    ensures RemoveBlocks(page) == page
  {
  }

  /** The page with a head gets the payload in a script element of its own type and id, in a block right before the end of the head. */
  lemma PayloadOnPage(page: string, description: string, json: string)
    requires PlainMetadata(description, json) && Contains(PreparedPage(page, description), "</head>")
    ensures InjectMetadata(page, description, json).Some?
    ensures var prepared := PreparedPage(page, description);
            var q := InsertionPoint(prepared);
            exists body :: InjectMetadata(page, description, json).value == prepared[..q] + WrittenBlock(body, WrittenPayload(json)) + prepared[q..]
  {
    hide InjectMetadata, PreparedPage, WrittenPayload, Body, Contains;
    InjectedIs(page, description, json);
    WrittenBlockIs(Body(page, description), WrittenPayload(json));
  }

  function WrittenBlock(body: string, payload: string): string {
    "        " + ("<!-- git-paw:agent-metadata:" + "start -->") + "\n"
    + (body + ("        " + "<script type=\"application/json\" " + "id=\"git-paw-page-metadata\">"
    + (payload + ("</script>\n" + ("        " + ("<!-- git-paw:agent-metadata:" + "end -->") + "\n")))))
  }

  lemma WrittenBlockIs(body: string, payload: string)
    ensures Wrap(Inside(body, payload)) == WrittenBlock(body, payload)
  {
    RegroupWrap(PAD + BLOCK_START, "\n", body, PAD + SCRIPT_TYPE + SCRIPT_ID, payload, "</script>\n", PAD, BLOCK_END);
    var c := "</script>\n";
    ConcatAssoc(c + PAD, BLOCK_END, "\n");
    ConcatAssoc(c, PAD, BLOCK_END + "\n");
    ConcatAssoc(PAD, BLOCK_END, "\n");
  }
}
