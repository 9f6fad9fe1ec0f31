/**
 The two git outputs git-paw parses by hand, against printers of the formats
 git documents.
 */
module GitOutput {
  import opened Wrappers
  import opened Text

  const NUL := '\0'

  // ----- git status --porcelain -z -----------------------------------------------------

  function FieldLen(s: string): (n: nat)
    ensures n <= |s| && NUL !in s[..n] && (n < |s| ==> s[n] == NUL)
  {
    if s == "" || s[0] == NUL then 0
    else
      var n := FieldLen(s[1..]);
      assert s[..n + 1] == [s[0]] + s[1..][..n];
      n + 1
  }

  /** `str::split('\0')`. */
  function Fields(s: string): seq<string>
    decreases |s|
  {
    var n := FieldLen(s);
    if n == |s| then [s] else [s[..n]] + Fields(s[n + 1..])
  }

  predicate IsRenameOrCopy(c: char) {
    c == 'R' || c == 'C'
  }

  /** How many bytes UTF-8 takes for a character. */
  function Width(c: char): nat {
    if c < '\U{80}' then 1 else if c < '\U{800}' then 2 else if c < '\U{10000}' then 3 else 4
  }

  function Bytes(s: string): (n: nat)
    ensures n >= |s| && (s == "" ==> n == 0)
  {
    if s == "" then 0 else Width(s[0]) + Bytes(s[1..])
  }

  /** `&s[n..]` in bytes; none where it panics, past the end or inside a character. */
  function FromByte(s: string, n: nat): Option<string> {
    if n == 0 then Some(s)
    else if s == "" || Width(s[0]) > n then None
    else FromByte(s[1..], n - Width(s[0]))
  }

  /** A character in UTF-8 (section 3 of RFC 3629). */
  function Utf8(c: char): (bytes: seq<int>)
    ensures 1 <= |bytes| && !IsContinuation(bytes[0])
    ensures forall i :: 1 <= i < |bytes| ==> IsContinuation(bytes[i])
  {
    var n := c as int;
    if n < 0x80 then [n]
    else if n < 0x800 then [0xC0 + n / 64, Continuation(n)]
    else if n < 0x1_0000 then [0xE0 + n / 4096, Continuation(n / 64), Continuation(n)]
    else [0xF0 + n / 262144, Continuation(n / 4096), Continuation(n / 64), Continuation(n)]
  }

  function Continuation(n: nat): int {
    0x80 + n % 64
  }

  predicate IsContinuation(b: int) {
    0x80 <= b < 0xC0
  }

  function Encoded(s: string): seq<int> {
    if s == "" then [] else Utf8(s[0]) + Encoded(s[1..])
  }

  /** The lengths are those of the encoding. */
  lemma {:induction false} BytesAreEncoded(s: string)
    ensures Bytes(s) == |Encoded(s)|
    decreases |s|
  {
    if s != "" { BytesAreEncoded(s[1..]); }
  }

  /** Cutting at a byte leaves the text encoded behind it, and panics if and only if the byte there goes on a character. */
  lemma {:induction false} CutIff(s: string, n: nat)
    requires n < |Encoded(s)|
    ensures FromByte(s, n).None? <==> IsContinuation(Encoded(s)[n])
    ensures FromByte(s, n).Some? ==> Encoded(FromByte(s, n).value) == Encoded(s)[n..]
    decreases |s|
  {
    hide Utf8, IsContinuation;
    var first, rest := Utf8(s[0]), Encoded(s[1..]);
    WidthIs(s[0]);
    if n > 0 {
      if n < |first| {
        assert Encoded(s)[n] == first[n];
      } else {
        assert Encoded(s)[n..] == rest[n - |first|..];
        if n - |first| < |rest| {
          CutIff(s[1..], n - |first|);
          assert Encoded(s)[n] == rest[n - |first|];
        }
      }
    } else {
      assert Encoded(s)[0] == first[0];
    }
  }

  lemma WidthIs(c: char)
    ensures Width(c) == |Utf8(c)|
  {
  }

  function Behind(paths: seq<string>, more: Option<seq<string>>): Option<seq<string>> {
    if more.None? then None else Some(paths + more.value)
  }

  /** The paths read; none where the scan panics. */
  function PathsOf(records: seq<string>): Option<seq<string>>
    decreases |records|
  {
    if records == [] then Some([])
    else
      var rec := records[0];
      if Bytes(rec) <= 3 then PathsOf(records[1..])
      else
        var path := FromByte(rec, 3);
        if path.None? then None
        else if IsRenameOrCopy(rec[0]) && |records| > 1 then Behind([path.value], PathsOf(records[2..]))
        else Behind([path.value], PathsOf(records[1..]))
  }

  lemma BehindConcat(a: seq<string>, b: seq<string>, more: Option<seq<string>>)
    ensures Behind(a, Behind(b, more)) == Behind(a + b, more)
  {
    if more.Some? { ConcatAssoc(a, b, more.value); }
  }

  lemma BehindNothing(more: Option<seq<string>>)
    ensures Behind([], more) == more
  {
    if more.Some? { assert [] + more.value == more.value; }
  }

  method UncommittedFiles(stdout: string) returns (files: Option<seq<string>>)
    ensures files == PathsOf(Fields(stdout))
  {
    hide Bytes, FromByte;
    var records := Fields(stdout);
    var found: seq<string> := [];
    var i := 0;
    BehindNothing(PathsOf(records));
    assert records[0..] == records;
    while i < |records|
      invariant 0 <= i <= |records|
      invariant Behind(found, PathsOf(records[i..])) == PathsOf(records)
    {
      var rec := records[i];
      assert records[i..][0] == rec && records[i..][1..] == records[i + 1..];
      i := i + 1;
      if Bytes(rec) <= 3 {
        continue;
      }
      var path := FromByte(rec, 3);
      if path.None? {
        return None;
      }
      assert i < |records| ==> records[i - 1..][2..] == records[i + 1..];
      if IsRenameOrCopy(rec[0]) && i < |records| {
        BehindConcat(found, [path.value], PathsOf(records[i + 1..]));
        i := i + 1;
      } else {
        BehindConcat(found, [path.value], PathsOf(records[i..]));
      }
      found := found + [path.value];
    }
    assert found + [] == found;
    return Some(found);
  }

  /** A status entry: the index and worktree columns, the path, and the origin a rename or copy carries. */
  datatype Entry = Entry(x: char, y: char, path: string, origin: string)

  predicate HasOrigin(e: Entry) {
    e.x in "RC" || e.y in "RC"
  }

  /** A status letter or a space: some ASCII character that is not NUL. */
  predicate IsColumn(c: char) {
    NUL < c < '\U{80}'
  }

  predicate ValidEntry(e: Entry) {
    && IsColumn(e.x) && IsColumn(e.y)
    && e.path != "" && NUL !in e.path
    && NUL !in e.origin
  }

  predicate ValidEntries(es: seq<Entry>) {
    forall i :: 0 <= i < |es| ==> ValidEntry(es[i])
  }

  function RecordsOf(e: Entry): seq<string> {
    [[e.x, e.y, ' '] + e.path] + (if HasOrigin(e) then [e.origin] else [])
  }

  function AllRecords(es: seq<Entry>): seq<string> {
    if es == [] then [] else RecordsOf(es[0]) + AllRecords(es[1..])
  }

  /** Each record closed by a NUL. */
  function PrintRecords(records: seq<string>): string {
    if records == [] then "" else records[0] + (['\0'] + PrintRecords(records[1..]))
  }

  function PrintStatus(es: seq<Entry>): string {
    PrintRecords(AllRecords(es))
  }

  function NewPaths(es: seq<Entry>): (r: seq<string>)
    ensures |r| == |es| && forall i :: 0 <= i < |es| ==> r[i] == es[i].path
  {
    seq(|es|, i requires 0 <= i < |es| => es[i].path)
  }

  lemma FirstField(first: string, rest: string)
    requires NUL !in first
    ensures Fields(first + ([NUL] + rest)) == [first] + Fields(rest)
  {
    var s := first + ([NUL] + rest);
    FirstFieldLen(first, rest);
    assert s[..|first|] == first && s[|first| + 1..] == rest;
  }

  lemma {:induction false} FirstFieldLen(first: string, rest: string)
    requires NUL !in first
    ensures FieldLen(first + ([NUL] + rest)) == |first|
    decreases |first|
  {
    var s := first + ([NUL] + rest);
    if first != "" {
      assert s[1..] == first[1..] + ([NUL] + rest);
      FirstFieldLen(first[1..], rest);
    }
  }

  predicate NulFree(records: seq<string>) {
    forall i :: 0 <= i < |records| ==> NUL !in records[i]
  }

  lemma {:induction false} FieldsOfPrinted(records: seq<string>)
    requires NulFree(records)
    ensures Fields(PrintRecords(records)) == records + [""]
    decreases |records|
  {
    hide Fields;
    if records == [] {
      NoFields();
    } else {
      FieldsOfPrinted(records[1..]);
      FirstField(records[0], PrintRecords(records[1..]));
    }
  }

  lemma NoFields()
    ensures Fields("") == [""] && PrintRecords([]) == ""
  {
    assert FieldLen("") == 0;
  }

  lemma {:induction false} RecordsAreNulFree(es: seq<Entry>)
    requires ValidEntries(es)
    ensures NulFree(AllRecords(es))
    decreases |es|
  {
    if es != [] {
      assert ValidEntry(es[0]);
      RecordsAreNulFree(es[1..]);
    }
  }

  /** Every rename and copy shows in the index column. */
  predicate IndexRenames(es: seq<Entry>) {
    forall i :: 0 <= i < |es| ==> IsRenameOrCopy(es[i].y) ==> IsRenameOrCopy(es[i].x)
  }

  /** Three one-byte characters and the text behind them. */
  lemma ThreeBytes(a: char, b: char, c: char, path: string)
    requires IsColumn(a) && IsColumn(b) && IsColumn(c)
    ensures Bytes([a, b, c] + path) == 3 + Bytes(path) && FromByte([a, b, c] + path, 3) == Some(path)
  {
    OneByte(a, [b, c] + path, 3);
    OneByte(b, [c] + path, 2);
    OneByte(c, path, 1);
    assert [a, b, c] + path == [a] + ([b, c] + path) && [b, c] + path == [b] + ([c] + path);
  }

  lemma OneByte(a: char, s: string, n: nat)
    requires IsColumn(a) && n > 0
    ensures Bytes([a] + s) == 1 + Bytes(s) && FromByte([a] + s, n) == FromByte(s, n - 1)
  {
    assert ([a] + s)[1..] == s;
  }

  lemma EntryPath(e: Entry, more: seq<string>)
    requires ValidEntry(e) && (IsRenameOrCopy(e.y) ==> IsRenameOrCopy(e.x))
    ensures PathsOf(RecordsOf(e) + more) == Behind([e.path], PathsOf(more))
  {
    ThreeBytes(e.x, e.y, ' ', e.path);
    assert Bytes(e.path) > 0;
    hide Bytes, FromByte;
    var rec := [e.x, e.y, ' '] + e.path;
    var all := RecordsOf(e) + more;
    assert rec[0] == e.x;
    if HasOrigin(e) {
      assert all == [rec, e.origin] + more;
      assert all[2..] == more;
    } else {
      assert all == [rec] + more;
      assert all[1..] == more;
    }
  }

  lemma {:induction false} PathsOfEntries(es: seq<Entry>, rest: seq<string>)
    requires ValidEntries(es) && IndexRenames(es)
    ensures PathsOf(AllRecords(es) + rest) == Behind(NewPaths(es), PathsOf(rest))
    decreases |es|
  {
    hide PathsOf;
    if es == [] {
      assert AllRecords(es) + rest == rest;
      assert PathsOf(rest).Some? ==> NewPaths(es) + PathsOf(rest).value == PathsOf(rest).value;
    } else {
      var more := AllRecords(es[1..]) + rest;
      PathsOfEntries(es[1..], rest);
      ConcatAssoc(RecordsOf(es[0]), AllRecords(es[1..]), rest);
      EntryPath(es[0], more);
      BehindConcat([es[0].path], NewPaths(es[1..]), PathsOf(rest));
      assert [es[0].path] + NewPaths(es[1..]) == NewPaths(es);
    }
  }

  /** Whatever the paths and origins are, newlines included, the new paths come back in order. */
  lemma StatusReadsBack(es: seq<Entry>)
    requires ValidEntries(es) && IndexRenames(es)
    ensures PathsOf(Fields(PrintStatus(es))) == Some(NewPaths(es))
  {
    RecordsAreNulFree(es);
    FieldsOfPrinted(AllRecords(es));
    PathsOfEntries(es, [""]);
    assert PathsOf([""]) == PathsOf([""][1..]) == Some([]);
    assert NewPaths(es) + [] == NewPaths(es);
  }

  // ----- Exactly the column patterns it can be trusted on ----------------------------------

  datatype Columns = Columns(x: char, y: char)

  ghost predicate Fills(es: seq<Entry>, columns: seq<Columns>) {
    && ValidEntries(es) && |es| == |columns|
    && forall i :: 0 <= i < |es| ==> es[i].x == columns[i].x && es[i].y == columns[i].y
  }

  predicate Readable(columns: seq<Columns>) {
    forall i :: 0 <= i < |columns| ==> IsRenameOrCopy(columns[i].y) ==> IsRenameOrCopy(columns[i].x)
  }

  function Sample(columns: seq<Columns>): (es: seq<Entry>)
    ensures |es| == |columns|
    ensures forall i :: 0 <= i < |es| ==> es[i] == Entry(columns[i].x, columns[i].y, "a", "origin")
  {
    seq(|columns|, i requires 0 <= i < |columns| => Entry(columns[i].x, columns[i].y, "a", "origin"))
  }

  lemma {:induction false} AllRecordsConcat(a: seq<Entry>, b: seq<Entry>)
    ensures AllRecords(a + b) == AllRecords(a) + AllRecords(b)
    decreases |a|
  {
    if a == [] {
      assert a + b == b;
    } else {
      assert (a + b)[1..] == a[1..] + b;
      AllRecordsConcat(a[1..], b);
      ConcatAssoc(RecordsOf(a[0]), AllRecords(a[1..]), AllRecords(b));
    }
  }

  /** The origin of a rename shown only in the worktree column is read as a file of its own. */
  lemma PhantomFile(e: Entry, rest: seq<string>)
    requires ValidEntry(e) && IsRenameOrCopy(e.y) && !IsRenameOrCopy(e.x)
    requires e.path == "a" && e.origin == "origin"
    ensures PathsOf(RecordsOf(e) + rest) == Behind(["a", "gin"], PathsOf(rest))
  {
    ThreeBytes(e.x, e.y, ' ', "a");
    ThreeBytes('o', 'r', 'i', "gin");
    assert ['o', 'r', 'i'] + "gin" == "origin";
    assert Bytes("a") == 1;
    hide Bytes, FromByte;
    var all := RecordsOf(e) + rest;
    assert all == [[e.x, e.y, ' '] + "a", "origin"] + rest;
    assert all[1..] == ["origin"] + rest;
    assert all[1..][1..] == rest;
    assert PathsOf(all[1..]) == Behind(["gin"], PathsOf(rest));
    BehindConcat(["a"], ["gin"], PathsOf(rest));
    assert ["a"] + ["gin"] == ["a", "gin"];
  }

  /** An origin read as a record and cut inside a character: the scan panics. */
  lemma PhantomPanics(e: Entry, rest: seq<string>)
    requires ValidEntry(e) && IsRenameOrCopy(e.y) && !IsRenameOrCopy(e.x)
    requires e.origin == ['a', 'b', '\U{E9}']
    ensures PathsOf(RecordsOf(e) + rest) == None
  {
    ThreeBytes(e.x, e.y, ' ', e.path);
    assert Bytes(e.path) > 0;
    var o := e.origin;
    OneByte('a', ['b', '\U{E9}'], 3);
    OneByte('b', ['\U{E9}'], 2);
    assert o == ['a'] + ['b', '\U{E9}'] && ['b', '\U{E9}'] == ['b'] + ['\U{E9}'];
    assert ['\U{E9}'][1..] == "";
    hide Bytes, FromByte;
    var all := RecordsOf(e) + rest;
    assert all == [[e.x, e.y, ' '] + e.path, o] + rest;
    assert all[1..] == [o] + rest && all[1..][0] == o;
  }

  lemma FirstUnreadable(columns: seq<Columns>) returns (k: nat)
    requires !Readable(columns)
    ensures k < |columns| && IsRenameOrCopy(columns[k].y) && !IsRenameOrCopy(columns[k].x)
    ensures Readable(columns[..k])
  {
    k := 0;
    while !(IsRenameOrCopy(columns[k].y) && !IsRenameOrCopy(columns[k].x))
      invariant k < |columns| && Readable(columns[..k])
      invariant exists i :: k <= i < |columns| && IsRenameOrCopy(columns[i].y) && !IsRenameOrCopy(columns[i].x)
      decreases |columns| - k
    {
      k := k + 1;
    }
  }

  /** After readable entries, a phantom file shifts what follows. */
  lemma MisreadAfter(before: seq<Entry>, e: Entry, after: seq<Entry>)
    requires ValidEntries(before + [e] + after) && IndexRenames(before)
    requires forall i :: 0 <= i < |after| ==> after[i].path == "a"
    requires e.path == "a" && e.origin == "origin" && IsRenameOrCopy(e.y) && !IsRenameOrCopy(e.x)
    ensures PathsOf(AllRecords(before + [e] + after) + [""]) != Some(NewPaths(before + [e] + after))
  {
    var es := before + [e] + after;
    var rest := AllRecords(after) + [""];
    RecordsAround(before, e, after);
    assert ValidEntries(before) by {
      assert forall i :: 0 <= i < |before| ==> es[i] == before[i];
    }
    PathsOfEntries(before, RecordsOf(e) + rest);
    assert es[|before|] == e;
    PhantomFile(e, rest);
    hide PathsOf, AllRecords, RecordsOf;
    var k := |before|;
    BehindConcat(NewPaths(before), ["a", "gin"], PathsOf(rest));
    assert PathsOf(rest).Some? ==> (NewPaths(before) + ["a", "gin"] + PathsOf(rest).value)[k + 1] == "gin";
    assert k + 1 < |es| ==> es[k + 1] == after[0];
  }

  lemma RecordsAround(before: seq<Entry>, e: Entry, after: seq<Entry>)
    ensures AllRecords(before + [e] + after) + [""] == AllRecords(before) + (RecordsOf(e) + (AllRecords(after) + [""]))
  {
    ConcatAssoc(before, [e], after);
    AllRecordsConcat(before, [e] + after);
    assert ([e] + after)[1..] == after;
    assert AllRecords([e] + after) == RecordsOf(e) + AllRecords(after);
    hide AllRecords, RecordsOf;
    ConcatAssoc(AllRecords(before), RecordsOf(e) + AllRecords(after), [""]);
    ConcatAssoc(RecordsOf(e), AllRecords(after), [""]);
  }

  lemma SampleMisread(columns: seq<Columns>)
    requires !Readable(columns) && forall i :: 0 <= i < |columns| ==> IsColumn(columns[i].x) && IsColumn(columns[i].y)
    ensures PathsOf(Fields(PrintStatus(Sample(columns)))) != Some(NewPaths(Sample(columns)))
  {
    hide PathsOf, Fields, AllRecords, PrintRecords, NewPaths;
    var es := Sample(columns);
    var k := FirstUnreadable(columns);
    RecordsAreNulFree(es);
    FieldsOfPrinted(AllRecords(es));
    assert es == es[..k] + [es[k]] + es[k + 1..];
    MisreadAfter(es[..k], es[k], es[k + 1..]);
  }

  /** The parser is right for every choice of paths and origins exactly when no entry shows a rename or copy in the worktree column only. */
  lemma StatusReadsBackIff(columns: seq<Columns>)
    requires forall i :: 0 <= i < |columns| ==> IsColumn(columns[i].x) && IsColumn(columns[i].y)
    ensures (forall es :: Fills(es, columns) ==> PathsOf(Fields(PrintStatus(es))) == Some(NewPaths(es)))
            <==> Readable(columns)
  {
    if Readable(columns) {
      forall es | Fills(es, columns) ensures PathsOf(Fields(PrintStatus(es))) == Some(NewPaths(es)) {
        StatusReadsBack(es);
      }
    } else {
      SampleMisread(columns);
      assert Fills(Sample(columns), columns);
    }
  }

  // ----- git worktree list --porcelain --------------------------------------------------------

  const WORKTREE := "worktree "
  const BRANCH := "branch "
  const HEADS := "refs/heads/"

  /** The scan over the listing's lines, with the path of the block it is in. */
  function FindIn(ls: seq<string>, ref: string, current: Option<string>): Option<string> {
    if ls == [] then None
    else if StartsWith(ls[0], WORKTREE) then FindIn(ls[1..], ref, Some(ls[0][|WORKTREE|..]))
    else if StartsWith(ls[0], BRANCH) && ls[0][|BRANCH|..] == ref && current.Some? then current
    else FindIn(ls[1..], ref, current)
  }

  method FindWorktreeForBranch(listing: string, branch: string) returns (path: Option<string>)
    ensures path == FindIn(Lines(listing), HEADS + branch, None)
  {
    var expected := HEADS + branch;
    var ls := Lines(listing);
    var currentPath: Option<string> := None;
    for i := 0 to |ls|
      invariant FindIn(ls[i..], expected, currentPath) == FindIn(ls, expected, None)
    {
      var line := ls[i];
      assert ls[i..][0] == line && ls[i..][1..] == ls[i + 1..];
      if StartsWith(line, WORKTREE) {
        currentPath := Some(line[|WORKTREE|..]);
      } else if StartsWith(line, BRANCH) && line[|BRANCH|..] == expected && currentPath.Some? {
        return currentPath;
      }
    }
    return None;
  }

  /** What a worktree's block says of its HEAD: a branch, detached, or a bare repository. */
  datatype HeadLine = OnBranch(branch: string) | DetachedHead | Bare

  /** One block of the listing; `others` are its remaining lines, the commit id among them. */
  datatype Block = Block(path: string, head: HeadLine, others: seq<string>)

  predicate OtherLine(l: string) {
    CleanLine(l) && !StartsWith(l, WORKTREE) && !StartsWith(l, BRANCH)
  }

  predicate ValidBlock(b: Block) {
    && '\n' !in b.path
    && (b.head.OnBranch? ==> CleanLine(HEADS + b.head.branch))
    && forall i :: 0 <= i < |b.others| ==> OtherLine(b.others[i])
  }

  function HeadText(h: HeadLine): string {
    match h
    case OnBranch(b) => "branch " + ("refs/heads/" + b)
    case DetachedHead => "detached"
    case Bare => "bare"
  }

  function BlockLines(b: Block): seq<string> {
    ["worktree " + b.path] + b.others + [HeadText(b.head), ""]
  }

  function ListingLines(bs: seq<Block>): seq<string> {
    if bs == [] then [] else BlockLines(bs[0]) + ListingLines(bs[1..])
  }

  function PrintListing(bs: seq<Block>): string {
    Join(ListingLines(bs))
  }

  /** A line as `lines()` gives it back: without one carriage return at its end. */
  function Uncarried(l: string): string {
    if l != "" && l[|l| - 1] == '\r' then l[..|l| - 1] else l
  }

  function AllUncarried(ls: seq<string>): (r: seq<string>)
    ensures |r| == |ls| && forall i :: 0 <= i < |ls| ==> r[i] == Uncarried(ls[i])
  {
    seq(|ls|, i requires 0 <= i < |ls| => Uncarried(ls[i]))
  }

  lemma UncarriedPiece(l: string)
    requires '\n' !in l
    ensures IsPiece(l + "\n") && LineText(l + "\n") == Uncarried(l)
  {
    var p := l + "\n";
    assert p[..|p| - 1] == l;
    assert forall k :: 0 <= k < |l| ==> p[k] == l[k] && l[k] in l;
    if l != "" {
      assert p[|p| - 2] == l[|l| - 1];
      assert p[..|p| - 2] == l[..|l| - 1];
    }
  }

  lemma {:induction false} LinesBack(ls: seq<string>)
    requires forall i :: 0 <= i < |ls| ==> '\n' !in ls[i]
    ensures Lines(Join(ls)) == AllUncarried(ls)
    decreases |ls|
  {
    hide Lines, LineText, Uncarried, IsPiece;
    EmptyLines();
    if ls != [] {
      LinesBack(ls[1..]);
      UncarriedPiece(ls[0]);
      FirstPiece(ls[0] + "\n", Join(ls[1..]));
      assert AllUncarried(ls) == [Uncarried(ls[0])] + AllUncarried(ls[1..]);
    }
  }

  /** The first block on the branch. */
  function FirstOn(bs: seq<Block>, branch: string): Option<string> {
    if bs == [] then None
    else if bs[0].head == OnBranch(branch) then Some(bs[0].path)
    else FirstOn(bs[1..], branch)
  }

  lemma {:induction false} SkipOthers(others: seq<string>, rest: seq<string>, ref: string, current: Option<string>)
    requires forall i :: 0 <= i < |others| ==> OtherLine(others[i])
    ensures FindIn(AllUncarried(others) + rest, ref, current) == FindIn(rest, ref, current)
    decreases |others|
  {
    var ls := AllUncarried(others) + rest;
    if others == [] {
      assert ls == rest;
    } else {
      assert OtherLine(others[0]) && ls[0] == others[0];
      assert ls[1..] == AllUncarried(others[1..]) + rest;
      SkipOthers(others[1..], rest, ref, current);
    }
  }

  lemma HeadTextLine(h: HeadLine, branch: string)
    requires h.OnBranch? ==> CleanLine(HEADS + h.branch)
    ensures Uncarried(HeadText(h)) == HeadText(h) && !StartsWith(HeadText(h), WORKTREE)
    ensures StartsWith(HeadText(h), BRANCH) <==> h.OnBranch?
    ensures h.OnBranch? ==> (HeadText(h)[|BRANCH|..] == HEADS + branch <==> h.branch == branch)
  {
    match h {
      case OnBranch(b) =>
        assert HeadText(h)[0] == 'b' && WORKTREE[0] == 'w';
        assert HeadText(h)[|BRANCH|..] == HEADS + b;
        assert (HEADS + b)[|HEADS|..] == b && (HEADS + branch)[|HEADS|..] == branch;
      case DetachedHead => assert HeadText(h)[0] == 'd';
      case Bare => assert HeadText(h)[1] == 'a' && BRANCH[1] == 'r';
    }
  }

  lemma BlockFound(b: Block, rest: seq<string>, branch: string, current: Option<string>)
    requires ValidBlock(b)
    ensures FindIn(AllUncarried(BlockLines(b)) + rest, HEADS + branch, current) ==
            if b.head == OnBranch(branch) then Some(Uncarried(WORKTREE + b.path)[|WORKTREE|..])
            else FindIn(rest, HEADS + branch, Some(Uncarried(WORKTREE + b.path)[|WORKTREE|..]))
  {
    var path := Uncarried(WORKTREE + b.path);
    WorktreeLine(b.path);
    var tail := [HeadText(b.head), ""] + rest;
    HeadTextLine(b.head, branch);
    var ls := AllUncarried(BlockLines(b)) + rest;
    assert ls == [path] + (AllUncarried(b.others) + tail);
    assert ls[1..] == AllUncarried(b.others) + tail;
    SkipOthers(b.others, tail, HEADS + branch, Some(path[|WORKTREE|..]));
    assert tail[0] == HeadText(b.head) && tail[1..] == [""] + rest;
    assert ([""] + rest)[1..] == rest && ([""] + rest)[0] == "";
  }

  lemma WorktreeLine(path: string)
    ensures var l := Uncarried(WORKTREE + path); StartsWith(l, WORKTREE) && l[|WORKTREE|..] == Uncarried(path)
  {
    var l := WORKTREE + path;
    assert WORKTREE[|WORKTREE| - 1] == ' ';
    if path != "" {
      assert l[|l| - 1] == path[|path| - 1];
      assert l[..|l| - 1] == WORKTREE + path[..|path| - 1];
    }
  }

  lemma UncarriedConcat(a: seq<string>, b: seq<string>)
    ensures AllUncarried(a + b) == AllUncarried(a) + AllUncarried(b)
  {
  }

  lemma {:induction false} ListingFound(bs: seq<Block>, branch: string, current: Option<string>)
    requires forall i :: 0 <= i < |bs| ==> ValidBlock(bs[i])
    ensures FindIn(AllUncarried(ListingLines(bs)), HEADS + branch, current) ==
            (match FirstOn(bs, branch) case None => None case Some(p) => Some(Uncarried(p)))
    decreases |bs|
  {
    if bs != [] {
      var rest := ListingLines(bs[1..]);
      UncarriedConcat(BlockLines(bs[0]), rest);
      BlockFound(bs[0], AllUncarried(rest), branch, current);
      WorktreeLine(bs[0].path);
      ListingFound(bs[1..], branch, Some(Uncarried(WORKTREE + bs[0].path)[|WORKTREE|..]));
    }
  }

  lemma {:induction false} ListingLinesPlain(bs: seq<Block>)
    requires forall i :: 0 <= i < |bs| ==> ValidBlock(bs[i])
    ensures forall i :: 0 <= i < |ListingLines(bs)| ==> '\n' !in ListingLines(bs)[i]
    decreases |bs|
  {
    if bs != [] {
      var b := bs[0];
      ListingLinesPlain(bs[1..]);
      assert ValidBlock(b);
      assert '\n' !in WORKTREE + b.path;
      assert '\n' !in HeadText(b.head) by { HeadTextPlain(b.head); }
      assert forall i :: 0 <= i < |b.others| ==> OtherLine(b.others[i]);
      assert forall i :: 0 <= i < |BlockLines(b)| ==> '\n' !in BlockLines(b)[i];
    }
  }

  lemma HeadTextPlain(h: HeadLine)
    requires h.OnBranch? ==> CleanLine(HEADS + h.branch)
    ensures '\n' !in HeadText(h)
  {
    if h.OnBranch? {
      assert '\n' !in BRANCH && '\n' !in HEADS + h.branch;
    }
  }

  /**
   On every listing, detached and bare blocks included, the scan finds the
   first worktree on the branch, and none when there is none; the path comes
   back less one carriage return at its end.
   */
  lemma ListingReadsBack(bs: seq<Block>, branch: string)
    requires forall i :: 0 <= i < |bs| ==> ValidBlock(bs[i])
    ensures FindIn(Lines(PrintListing(bs)), HEADS + branch, None) ==
            (match FirstOn(bs, branch) case None => None case Some(p) => Some(Uncarried(p)))
  {
    ListingLinesPlain(bs);
    LinesBack(ListingLines(bs));
    ListingFound(bs, branch, None);
  }
}
