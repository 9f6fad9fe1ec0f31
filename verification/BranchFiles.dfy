/**
 Branch names as log file names and back, and which file a replay query finds.
 */
module BranchFiles {
  import opened Wrappers
  import opened Text

  const LOG := ".log"

  function Sanitized(branch: string): string {
    ReplaceChar(branch, '/', "--")
  }

  /** `str::replace("--", "/")`: left to right, without overlaps. */
  function DashesToSlash(s: string): string
    decreases |s|
  {
    if s == "" then ""
    else if |s| >= 2 && s[0] == '-' && s[1] == '-' then "/" + DashesToSlash(s[2..])
    else [s[0]] + DashesToSlash(s[1..])
  }

  function StripLog(filename: string): string {
    if EndsWith(filename, LOG) then filename[..|filename| - |LOG|] else filename
  }

  function Unsanitized(filename: string): string {
    DashesToSlash(StripLog(filename))
  }

  function LogFileName(branch: string): string {
    Sanitized(branch) + LOG
  }

  // ----- The round trip ------------------------------------------------------------

  /** The branch has `--` or `-/` in it. */
  predicate Ambiguous(branch: string) {
    exists i :: 0 <= i < |branch| - 1 && branch[i] == '-' && (branch[i + 1] == '-' || branch[i + 1] == '/')
  }

  lemma {:induction false} DecodeIff(b: string)
    ensures DashesToSlash(Sanitized(b)) == b <==> !Ambiguous(b)
    decreases |b|
  {
    if b != "" {
      var s := Sanitized(b);
      DecodeIff(b[1..]);
      assert b == [b[0]] + b[1..];
      if b[0] == '/' {
        assert s[2..] == Sanitized(b[1..]);
      } else if b[0] == '-' && |b| >= 2 && (b[1] == '-' || b[1] == '/') {
        assert s[0] == '-' && s[1] == '-';
        assert DashesToSlash(s)[0] == '/';
      } else {
        assert s[1..] == Sanitized(b[1..]);
        assert |s| >= 2 ==> s[1] == Sanitized(b[1..])[0];
      }
    }
  }

  /** A branch comes back from its log file's name exactly when it holds neither `--` nor `-/`. */
  lemma RoundTripIff(branch: string)
    ensures Unsanitized(LogFileName(branch)) == branch <==> !Ambiguous(branch)
  {
    DecodeIff(branch);
  }

  lemma {:induction false} EncodeDecoded(f: string)
    requires '/' !in f
    ensures Sanitized(DashesToSlash(f)) == f
    decreases |f|
  {
    if f != "" {
      assert f[0] in f;
      if |f| >= 2 && f[0] == '-' && f[1] == '-' {
        EncodeDecoded(f[2..]);
        assert ("/" + DashesToSlash(f[2..]))[1..] == DashesToSlash(f[2..]);
        assert f == "--" + f[2..];
      } else {
        EncodeDecoded(f[1..]);
        assert ([f[0]] + DashesToSlash(f[1..]))[1..] == DashesToSlash(f[1..]);
        assert f == [f[0]] + f[1..];
      }
    }
  }

  /** Every file stem without a slash comes back from the branch it is listed under. */
  lemma StemRoundTrip(stem: string)
    requires '/' !in stem
    ensures Sanitized(Unsanitized(stem + LOG)) == stem
  {
    EncodeDecoded(stem);
  }

  lemma {:induction false} SanitizedSlashFree(b: string)
    ensures '/' !in Sanitized(b)
    decreases |b|
  {
    if b != "" {
      SanitizedSlashFree(b[1..]);
    }
  }

  /** A decoded name is never ambiguous. */
  lemma DecodedNotAmbiguous(stem: string)
    requires '/' !in stem
    ensures !Ambiguous(DashesToSlash(stem))
  {
    EncodeDecoded(stem);
    DecodeIff(DashesToSlash(stem));
  }

  // ----- Finding a log -----------------------------------------------------------------

  /** A listed log: the branch recovered from the file name, and the file name. */
  datatype LogEntry = LogEntry(branch: string, filename: string)

  /** `str::trim_end_matches(".log")`. */
  function TrimLogs(s: string): (t: string)
    ensures t <= s && !EndsWith(t, LOG)
  {
    if EndsWith(s, LOG) then TrimLogs(s[..|s| - |LOG|]) else s
  }

  predicate Matches(entry: LogEntry, query: string) {
    entry.branch == query || TrimLogs(entry.filename) == query || entry.filename == query
  }

  method FindLog(entries: seq<LogEntry>, query: string) returns (found: Option<string>)
    ensures found == FirstMatch(entries, query)
  {
    for i := 0 to |entries|
      invariant FirstMatch(entries, query) == FirstMatch(entries[i..], query)
    {
      assert entries[i..][1..] == entries[i + 1..];
      if Matches(entries[i], query) {
        return Some(entries[i].filename);
      }
    }
    return None;
  }

  function FirstMatch(entries: seq<LogEntry>, query: string): Option<string> {
    if entries == [] then None
    else if Matches(entries[0], query) then Some(entries[0].filename)
    else FirstMatch(entries[1..], query)
  }

  /** Byte order on strings, as `str::cmp` has it. */
  predicate Below(x: string, y: string) {
    if y == "" then false
    else if x == "" then true
    else x[0] < y[0] || (x[0] == y[0] && Below(x[1..], y[1..]))
  }

  /** The one log file of a session directory that the listing leaves out. */
  const ESCALATION_STEM := "orchestrator-escalations"
  const ESCALATION_LOG := ESCALATION_STEM + LOG

  /** An entry for the log file of one of the branches, listed under the branch its name decodes to. */
  ghost predicate IsLogOf(entry: LogEntry, branches: set<string>) {
    && entry.filename != ESCALATION_LOG
    && exists b :: b in branches && entry == LogEntry(Unsanitized(LogFileName(b)), LogFileName(b))
  }

  ghost predicate IsListed(entries: seq<LogEntry>, branch: string) {
    exists i :: 0 <= i < |entries| && entries[i].filename == LogFileName(branch)
  }

  ghost predicate SortedByBranch(entries: seq<LogEntry>) {
    forall i, j :: 0 <= i < j < |entries| ==> !Below(entries[j].branch, entries[i].branch)
  }

  /** The entries of a session directory that holds the log files of `branches`, sorted by branch. */
  ghost predicate Listing(entries: seq<LogEntry>, branches: set<string>) {
    && (forall e :: e in entries ==> IsLogOf(e, branches))
    && (forall b :: b in branches && LogFileName(b) != ESCALATION_LOG ==> IsListed(entries, b))
    && SortedByBranch(entries)
  }

  lemma Owner(entries: seq<LogEntry>, branches: set<string>, i: nat) returns (stem: string)
    requires Listing(entries, branches) && i < |entries|
    ensures '/' !in stem && entries[i] == LogEntry(DashesToSlash(stem), stem + LOG)
  {
    hide Sanitized, DashesToSlash, IsListed, SortedByBranch;
    assert IsLogOf(entries[i], branches);
    var b :| b in branches && entries[i] == LogEntry(Unsanitized(LogFileName(b)), LogFileName(b));
    stem := Sanitized(b);
    SanitizedSlashFree(b);
  }

  lemma OwnEntry(entries: seq<LogEntry>, branches: set<string>, query: string) returns (i: nat)
    requires Listing(entries, branches) && query in branches && LogFileName(query) != ESCALATION_LOG
    ensures i < |entries| && entries[i].filename == LogFileName(query)
  {
    hide IsLogOf, SortedByBranch, LogFileName;
    assert IsListed(entries, query);
    i :| 0 <= i < |entries| && entries[i].filename == LogFileName(query);
  }

  lemma InOrder(entries: seq<LogEntry>, branches: set<string>, i: nat, j: nat)
    requires Listing(entries, branches) && i < |entries| && j < |entries|
    requires Below(entries[i].branch, entries[j].branch)
    ensures i < j
  {
    hide IsLogOf, IsListed, Below;
    BelowIrreflexive(entries[i].branch);
  }

  lemma {:induction false} FirstMatchIs(entries: seq<LogEntry>, query: string, i: nat)
    requires i < |entries| && Matches(entries[i], query)
    requires forall k :: 0 <= k < i ==> Matches(entries[k], query) ==> entries[k].filename == entries[i].filename
    ensures FirstMatch(entries, query) == Some(entries[i].filename)
    decreases |entries|
  {
    if !Matches(entries[0], query) {
      assert forall k :: 0 <= k < |entries| - 1 ==> entries[1..][k] == entries[k + 1];
      FirstMatchIs(entries[1..], query, i - 1);
    }
  }

  lemma {:induction false} NoMatch(entries: seq<LogEntry>, query: string)
    requires forall k :: 0 <= k < |entries| ==> !Matches(entries[k], query)
    ensures FirstMatch(entries, query) == None
    decreases |entries|
  {
    if entries != [] {
      NoMatch(entries[1..], query);
    }
  }

  /** A file listed under a name is that name's own file. */
  lemma BranchNamesItsFile(entries: seq<LogEntry>, branches: set<string>, i: nat)
    requires Listing(entries, branches) && i < |entries|
    ensures entries[i].filename == LogFileName(entries[i].branch)
    ensures '/' !in entries[i].filename && !Ambiguous(entries[i].branch)
  {
    hide Listing, Sanitized, DashesToSlash;
    var stem := Owner(entries, branches, i);
    EncodeDecoded(stem);
    DecodedNotAmbiguous(stem);
  }

  /** With a slash in the query only the branch name can match. */
  lemma SlashMatch(entries: seq<LogEntry>, branches: set<string>, query: string, k: nat)
    requires Listing(entries, branches) && k < |entries| && '/' in query
    ensures Matches(entries[k], query) <==> entries[k].branch == query
    ensures Matches(entries[k], query) ==> entries[k].filename == LogFileName(query) && !Ambiguous(query)
  {
    hide Listing, LogFileName, TrimLogs;
    BranchNamesItsFile(entries, branches, k);
    var t := TrimLogs(entries[k].filename);
    assert forall c :: c in t ==> c in entries[k].filename;
  }

  /**
   A query with a slash is answered with that branch's own file, when the file
   is listed and the branch round-trips; one that does not round-trip is
   never found.
   */
  lemma SlashQuery(entries: seq<LogEntry>, branches: set<string>, query: string)
    requires Listing(entries, branches) && query in branches && '/' in query
    ensures FirstMatch(entries, query) == if Ambiguous(query) then None else Some(LogFileName(query))
  {
    hide Listing, LogFileName, Matches;
    forall k | 0 <= k < |entries|
      ensures Matches(entries[k], query) <==> entries[k].branch == query
      ensures Matches(entries[k], query) ==> entries[k].filename == LogFileName(query) && !Ambiguous(query)
    {
      SlashMatch(entries, branches, query, k);
    }
    if Ambiguous(query) {
      NoMatch(entries, query);
    } else {
      NotEscalation(query);
      var i := OwnEntry(entries, branches, query);
      OwnEntryBranch(entries, branches, query, i);
      FirstMatchIs(entries, query, i);
    }
  }

  lemma EscalationPlain()
    ensures '/' !in ESCALATION_STEM && !Ambiguous(ESCALATION_STEM)
  {
    assert forall i :: 0 <= i < |ESCALATION_STEM| && ESCALATION_STEM[i] == '-' ==> i == 12;
  }

  /** No round-tripping branch with a slash is logged in the file the listing leaves out. */
  lemma NotEscalation(query: string)
    requires '/' in query && !Ambiguous(query)
    ensures LogFileName(query) != ESCALATION_LOG
  {
    EscalationPlain();
    PlainSanitized(ESCALATION_STEM);
    RoundTripIff(query);
    RoundTripIff(ESCALATION_STEM);
    hide Sanitized, DashesToSlash, Ambiguous, Unsanitized;
  }

  /** The entry of a branch's own file carries the branch, when the branch round-trips. */
  lemma OwnEntryBranch(entries: seq<LogEntry>, branches: set<string>, query: string, i: nat)
    requires Listing(entries, branches) && i < |entries| && entries[i].filename == LogFileName(query)
    requires !Ambiguous(query)
    ensures entries[i].branch == query && Matches(entries[i], query)
  {
    hide Listing, Sanitized, DashesToSlash;
    var stem := Owner(entries, branches, i);
    RoundTripIff(query);
  }

  // ----- Queries without a slash ----------------------------------------------------------

  lemma {:induction false} BelowIrreflexive(x: string)
    ensures !Below(x, x)
    decreases |x|
  {
    if x != "" { BelowIrreflexive(x[1..]); }
  }

  lemma {:induction false} PrefixBelow(x: string, y: string)
    requires x <= y && x != y
    ensures Below(x, y) && !Below(y, x)
    decreases |x|
  {
    if x != "" {
      PrefixBelow(x[1..], y[1..]);
    }
  }

  lemma PlainSanitized(query: string)
    requires '/' !in query && !Ambiguous(query)
    ensures Sanitized(query) == query && DashesToSlash(query) == query
  {
    SanitizedPlain(query);
    DecodeIff(query);
  }

  lemma {:induction false} SanitizedPlain(b: string)
    requires '/' !in b
    ensures Sanitized(b) == b
    decreases |b|
  {
    if b != "" {
      assert b[0] in b;
      SanitizedPlain(b[1..]);
      assert b == [b[0]] + b[1..];
    }
  }

  /** Another file can answer for `query` only under a branch name that continues it, or when it is itself named `query`. */
  lemma OtherMatch(entry: LogEntry, query: string, stem: string)
    requires '/' !in query && !Ambiguous(query) && '/' !in stem
    requires entry.filename == stem + LOG && entry.branch == Unsanitized(entry.filename)
    requires Matches(entry, query) && entry.filename != LogFileName(query)
    ensures entry.filename == query || (query <= stem && stem != query)
  {
    PlainSanitized(query);
    EncodeDecoded(stem);
  }

  lemma {:induction false} DecodedBelow(query: string, stem: string)
    requires '/' !in query && !Ambiguous(query) && '/' !in stem
    requires query <= stem && stem != query && TrimLogs(stem + LOG) == query
    ensures Below(query, DashesToSlash(stem)) && !Below(DashesToSlash(stem), query)
  {
    var rest := stem[|query|..];
    assert stem == query + rest;
    StartsWithDot(query, stem);
    DecodePlainPrefix(query, rest);
    PlainSanitized(query);
    PrefixBelow(query, DashesToSlash(stem));
  }

  /** What the stem has beyond the query is a run of `.log`, so it starts with a dot. */
  lemma StartsWithDot(query: string, stem: string)
    requires TrimLogs(stem + LOG) == query && query <= stem && stem != query
    ensures stem[|query|] == '.'
  {
    assert EndsWith(stem + LOG, LOG) by { assert (stem + LOG)[|stem|..] == LOG; }
    TrimmedRun(stem, query);
  }

  lemma {:induction false} TrimmedRun(s: string, t: string)
    requires TrimLogs(s) == t && s != t
    ensures t <= s && |t| < |s| && s[|t|] == '.'
    decreases |s|
  {
    var u := s[..|s| - |LOG|];
    if u == t {
      assert s[|s| - |LOG|..][0] == '.';
    } else {
      TrimmedRun(u, t);
    }
  }

  lemma {:induction false} DecodePlainPrefix(x: string, rest: string)
    requires rest != "" && rest[0] != '-'
    ensures DashesToSlash(x + rest) == DashesToSlash(x) + DashesToSlash(rest)
    decreases |x|
  {
    if x == "" {
      assert x + rest == rest;
    } else {
      var s := x + rest;
      var n := if |x| >= 2 && x[0] == '-' && x[1] == '-' then 2 else 1;
      assert s[0] == x[0] && s[n..] == x[n..] + rest;
      assert s[1] == if |x| >= 2 then x[1] else rest[0];
      DecodePlainPrefix(x[n..], rest);
      ConcatAssoc(if n == 2 then "/" else [x[0]], DashesToSlash(x[n..]), DashesToSlash(rest));
    }
  }

  /** Any other match, but a file named like the query, is listed after the query's own file. */
  lemma LaterThanOwn(entries: seq<LogEntry>, branches: set<string>, query: string, k: nat)
    requires Listing(entries, branches) && k < |entries|
    requires '/' !in query && !Ambiguous(query)
    requires Matches(entries[k], query) && entries[k].filename != LogFileName(query) && entries[k].filename != query
    ensures Below(query, entries[k].branch)
  {
    hide Listing, Sanitized, DashesToSlash, TrimLogs;
    var stem := Owner(entries, branches, k);
    EncodeDecoded(stem);
    PlainSanitized(query);
    OtherMatch(entries[k], query, stem);
    DecodedBelow(query, stem);
  }

  /** A file named like the query is listed before the query's own file. */
  lemma NamedAfterQueryFirst(entries: seq<LogEntry>, branches: set<string>, query: string, i: nat, own: nat)
    requires Listing(entries, branches) && i < |entries| && entries[i].filename == query
    requires own < |entries| && entries[own].filename == LogFileName(query)
    requires '/' !in query && !Ambiguous(query)
    ensures i < own
  {
    hide Listing, Sanitized, DashesToSlash, Below;
    var stem := Owner(entries, branches, i);
    assert query == stem + LOG;
    AmbiguousPrefix(stem, query);
    PlainSanitized(stem);
    PrefixBelow(stem, query);
    OwnEntryBranch(entries, branches, query, own);
    InOrder(entries, branches, i, own);
  }

  lemma AmbiguousPrefix(x: string, y: string)
    requires x <= y
    ensures Ambiguous(x) ==> Ambiguous(y)
  {
    if Ambiguous(x) {
      var j :| 0 <= j < |x| - 1 && x[j] == '-' && (x[j + 1] == '-' || x[j + 1] == '/');
      assert y[j] == x[j] && y[j + 1] == x[j + 1];
    }
  }

  /**
   A query without a slash that round-trips is answered with its own file
   exactly when the listing does not leave that file out, and no other listed
   file carries the query as its whole name, which takes a query that itself
   ends in `.log`.
   */
  lemma PlainQueryIff(entries: seq<LogEntry>, branches: set<string>, query: string)
    requires Listing(entries, branches) && query in branches
    requires '/' !in query && !Ambiguous(query)
    ensures FirstMatch(entries, query) == Some(LogFileName(query))
            <==> LogFileName(query) != ESCALATION_LOG && forall i :: 0 <= i < |entries| ==> entries[i].filename != query
  {
    hide Listing, LogFileName, Below;
    NeverEscalation(entries, branches, query);
    if LogFileName(query) != ESCALATION_LOG {
      ListedQueryIff(entries, branches, query);
    }
  }

  lemma ListedQueryIff(entries: seq<LogEntry>, branches: set<string>, query: string)
    requires Listing(entries, branches) && query in branches && LogFileName(query) != ESCALATION_LOG
    requires '/' !in query && !Ambiguous(query)
    ensures FirstMatch(entries, query) == Some(LogFileName(query))
            <==> forall i :: 0 <= i < |entries| ==> entries[i].filename != query
  {
    hide Listing, LogFileName, Below;
    var own := OwnEntry(entries, branches, query);
    OwnEntryBranch(entries, branches, query, own);
    if forall i :: 0 <= i < |entries| ==> entries[i].filename != query {
      forall k | 0 <= k < own && Matches(entries[k], query)
        ensures entries[k].filename == entries[own].filename
      {
        if entries[k].filename != entries[own].filename {
          LaterThanOwn(entries, branches, query, k);
          InOrder(entries, branches, own, k);
        }
      }
      FirstMatchIs(entries, query, own);
    } else {
      var i :| 0 <= i < |entries| && entries[i].filename == query;
      forall k | 0 <= k <= i ensures entries[k].filename != LogFileName(query) {
        if entries[k].filename == LogFileName(query) {
          NamedAfterQueryFirst(entries, branches, query, i, k);
        }
      }
      MatchBefore(entries, query, i);
    }
  }

  // ----- Queries with `--` and without a slash -----------------------------------------------

  lemma {:induction false} FirstMatchMatches(entries: seq<LogEntry>, query: string) returns (i: nat)
    requires FirstMatch(entries, query).Some?
    ensures i < |entries| && Matches(entries[i], query) && FirstMatch(entries, query) == Some(entries[i].filename)
    decreases |entries|
  {
    i := 0;
    if !Matches(entries[0], query) {
      i := FirstMatchMatches(entries[1..], query);
      i := i + 1;
    }
  }

  lemma OwnStem(entries: seq<LogEntry>, branches: set<string>, query: string, own: nat)
    requires Listing(entries, branches) && '/' !in query
    requires own < |entries| && entries[own].filename == query + LOG
    ensures entries[own].branch == DashesToSlash(query)
  {
    hide Listing, DashesToSlash;
    var stem := Owner(entries, branches, own);
    assert stem == (stem + LOG)[..|stem|] && query == (query + LOG)[..|query|];
  }

  /** No listed entry carries such a branch; its file is matched by its stem alone, and by the stems with more `.log` behind. */
  lemma StemMatch(entries: seq<LogEntry>, branches: set<string>, query: string, own: nat, k: nat)
    requires Listing(entries, branches) && '/' !in query && Ambiguous(query) && !EndsWith(query, LOG)
    requires own < |entries| && entries[own].filename == query + LOG
    requires k < |entries| && Matches(entries[k], query)
    ensures entries[k].filename == query + LOG || own < k
  {
    hide Listing, DashesToSlash, LogFileName, Below;
    BranchNamesItsFile(entries, branches, k);
    var stem := Owner(entries, branches, k);
    StripAppended(stem);
    if stem != query {
      var rest := stem[|query|..];
      assert stem == query + rest;
      StartsWithDot(query, stem);
      DecodePlainPrefix(query, rest);
      DecodedNonEmpty(rest);
      PrefixBelow(DashesToSlash(query), DashesToSlash(stem));
      OwnStem(entries, branches, query, own);
      InOrder(entries, branches, own, k);
    }
  }

  lemma StripAppended(stem: string)
    ensures EndsWith(stem + LOG, LOG) && (stem + LOG)[..|stem|] == stem && TrimLogs(stem + LOG) == TrimLogs(stem)
    ensures TrimLogs(stem) <= stem
  {
    assert (stem + LOG)[|stem|..] == LOG;
  }

  lemma DecodedNonEmpty(s: string)
    requires s != ""
    ensures DashesToSlash(s) != ""
  {
  }

  /**
   A query without a slash that does not round-trip is answered with the file
   it is logged in, which it shares with the branch that file is listed under,
   exactly when it does not itself end in `.log`.
   */
  lemma AmbiguousQueryIff(entries: seq<LogEntry>, branches: set<string>, query: string)
    requires Listing(entries, branches) && query in branches
    requires '/' !in query && Ambiguous(query)
    ensures LogFileName(DashesToSlash(query)) == LogFileName(query)
    ensures FirstMatch(entries, query) == Some(LogFileName(query)) <==> !EndsWith(query, LOG)
  {
    SanitizedPlain(query);
    EncodeDecoded(query);
    EscalationPlain();
    assert LogFileName(query) == query + LOG;
    assert query == (query + LOG)[..|query|] && ESCALATION_STEM == ESCALATION_LOG[..|ESCALATION_STEM|];
    hide Listing, Sanitized, DashesToSlash, LogFileName, Ambiguous;
    var own := OwnEntry(entries, branches, query);
    StripAppended(query);
    if EndsWith(query, LOG) {
      if FirstMatch(entries, query).Some? {
        var k := FirstMatchMatches(entries, query);
        BranchNamesItsFile(entries, branches, k);
        assert |entries[k].filename| == |query|;
      }
    } else {
      assert TrimLogs(query) == query;
      forall k | 0 <= k < own && Matches(entries[k], query)
        ensures entries[k].filename == entries[own].filename
      {
        StemMatch(entries, branches, query, own, k);
      }
      FirstMatchIs(entries, query, own);
    }
  }

  /** The file the listing leaves out is no query's answer. */
  lemma NeverEscalation(entries: seq<LogEntry>, branches: set<string>, query: string)
    requires Listing(entries, branches)
    ensures FirstMatch(entries, query) != Some(ESCALATION_LOG)
  {
    hide IsListed, SortedByBranch, LogFileName, Unsanitized;
    assert forall i :: 0 <= i < |entries| ==> IsLogOf(entries[i], branches);
    OnlyListed(entries, query, ESCALATION_LOG);
  }

  /** The escalation log is no answer to any query, its own name included. */
  lemma EscalationNeverFound(entries: seq<LogEntry>, branches: set<string>, query: string)
    requires Listing(entries, branches)
    ensures FirstMatch(entries, query) != Some("orchestrator-escalations.log")
  {
    hide Listing;
    NeverEscalation(entries, branches, query);
    EscalationName();
  }

  lemma EscalationName()
    ensures ESCALATION_LOG == "orchestrator-escalations.log"
  {
    assert ESCALATION_STEM + LOG == "orchestrator-escalations.log";
  }

  /** `feat/x` is logged in `feat--x.log`. */
  lemma LogFileNameOf(a: string, b: string)
    requires '/' !in a && '/' !in b
    ensures LogFileName(a + "/" + b) == a + "--" + b + ".log"
  {
    ReplacedConcat(a + "/", b);
    ReplacedConcat(a, "/");
    SanitizedPlain(a);
    SanitizedPlain(b);
    assert "/"[1..] == "" && ReplaceChar("", '/', "--") == "";
    assert ReplaceChar("/", '/', "--") == "--" + "" == "--";
  }

  lemma {:induction false} ReplacedConcat(a: string, b: string)
    ensures Sanitized(a + b) == Sanitized(a) + Sanitized(b)
    decreases |a|
  {
    if a == "" {
      assert a + b == b;
    } else {
      assert (a + b)[0] == a[0] && (a + b)[1..] == a[1..] + b;
      ReplacedConcat(a[1..], b);
      ConcatAssoc(if a[0] == '/' then "--" else [a[0]], Sanitized(a[1..]), Sanitized(b));
    }
  }

  /** The listing's order is that of Rust strings: the first difference decides, and a prefix comes first. */
  lemma {:induction false} BelowIff(x: string, y: string)
    ensures Below(x, y) <==> exists k :: 0 <= k <= |x| && k < |y| && x[..k] == y[..k] && (k < |x| ==> x[k] < y[k])
    decreases |x|
  {
    if y != "" && x != "" {
      BelowIff(x[1..], y[1..]);
      if x[0] == y[0] && Below(x[1..], y[1..]) {
        var u, v := x[1..], y[1..];
        var k :| 0 <= k <= |u| && k < |v| && u[..k] == v[..k] && (k < |u| ==> u[k] < v[k]);
        assert x[..k + 1] == [x[0]] + u[..k] && y[..k + 1] == [y[0]] + v[..k];
      }
      if x[0] < y[0] { assert x[..0] == y[..0]; }
      if k :| 0 <= k <= |x| && k < |y| && x[..k] == y[..k] && (k < |x| ==> x[k] < y[k]) {
        if k > 0 {
          assert x[..k][0] == y[..k][0];
          assert x[1..][..k - 1] == x[..k][1..] && y[1..][..k - 1] == y[..k][1..];
        }
      }
    } else if y != "" {
      assert x[..0] == y[..0];
    }
  }

  lemma {:induction false} OnlyListed(entries: seq<LogEntry>, query: string, filename: string)
    requires forall i :: 0 <= i < |entries| ==> entries[i].filename != filename
    ensures FirstMatch(entries, query) != Some(filename)
    decreases |entries|
  {
    if entries != [] { OnlyListed(entries[1..], query, filename); }
  }

  /** Branches `a` and `a.log`: the query for the second is answered with the first one's file. */
  lemma ClashingNames()
    ensures var entries := [LogEntry("a", "a.log"), LogEntry("a.log", "a.log.log")];
            && Listing(entries, {"a", "a.log"})
            && FirstMatch(entries, "a.log") == Some("a.log") && LogFileName("a.log") == "a.log.log"
  {
    ClashingFiles();
    hide LogFileName, Unsanitized, TrimLogs, Below, Listing;
    TwoListed("a", "a.log");
  }

  lemma ClashingFiles()
    ensures LogFileName("a") == "a.log" && LogFileName("a.log") == "a.log.log"
    ensures Unsanitized("a.log") == "a" && Unsanitized("a.log.log") == "a.log"
    ensures !Below("a.log", "a") && "a.log" != ESCALATION_LOG && "a.log.log" != ESCALATION_LOG
  {
    assert '/' !in "a" && !Ambiguous("a") && '/' !in "a.log" && !Ambiguous("a.log");
    assert "a" + LOG == "a.log" && "a.log" + LOG == "a.log.log";
    hide Sanitized, Unsanitized, LogFileName, Ambiguous;
    NameOf("a");
    NameOf("a.log");
    PrefixBelow("a", "a.log");
  }

  lemma TwoListed(x: string, y: string)
    requires LogFileName(x) != ESCALATION_LOG && LogFileName(y) != ESCALATION_LOG && !Below(y, x)
    requires Unsanitized(LogFileName(x)) == x && Unsanitized(LogFileName(y)) == y
    ensures Listing([LogEntry(x, LogFileName(x)), LogEntry(y, LogFileName(y))], {x, y})
  {
    hide LogFileName, Unsanitized, Below;
    var entries := [LogEntry(x, LogFileName(x)), LogEntry(y, LogFileName(y))];
    assert IsLogOf(entries[0], {x, y}) && IsLogOf(entries[1], {x, y});
    assert entries[0].filename == LogFileName(x) && entries[1].filename == LogFileName(y);
  }

  lemma NameOf(branch: string)
    requires '/' !in branch && !Ambiguous(branch)
    ensures LogFileName(branch) == branch + LOG && Unsanitized(LogFileName(branch)) == branch
  {
    PlainSanitized(branch);
    RoundTripIff(branch);
  }

  lemma {:induction false} MatchBefore(entries: seq<LogEntry>, query: string, i: nat)
    requires i < |entries| && Matches(entries[i], query)
    requires forall k :: 0 <= k <= i ==> entries[k].filename != LogFileName(query)
    ensures FirstMatch(entries, query).Some? && FirstMatch(entries, query).value != LogFileName(query)
    decreases |entries|
  {
    if !Matches(entries[0], query) {
      assert forall k :: 0 <= k < |entries| - 1 ==> entries[1..][k] == entries[k + 1];
      MatchBefore(entries[1..], query, i - 1);
    }
  }
}
