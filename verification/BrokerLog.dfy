/**
 The dashboard's bounded history of broker messages, and what ingesting a
 broker's log does to it.
 */
module BrokerLog {
  import Text

  /** A logged message: its number in the broker's log, its publish time in seconds, its text. */
  datatype Entry = Entry(number: nat, time: nat, message: string)

  /** The history's notion of one message: numbers repeat across restarts, so the time counts too. */
  predicate Same(x: Entry, y: Entry) {
    x.number == y.number && x.time == y.time
  }

  predicate Held(buffer: seq<Entry>, e: Entry) {
    exists i :: 0 <= i < |buffer| && Same(buffer[i], e)
  }

  function Take(max: nat, s: seq<Entry>): (r: seq<Entry>)
    ensures r <= s && |r| <= max
  {
    if |s| <= max then s else s[..max]
  }

  /** Newest first. */
  function Rev(s: seq<Entry>): (r: seq<Entry>)
    ensures |r| == |s|
    ensures forall i :: 0 <= i < |s| ==> r[i] == s[|s| - 1 - i]
  {
    seq(|s|, i requires 0 <= i < |s| => s[|s| - 1 - i])
  }

  // ----- The specification of the buffer ---------------------------------

  /** The retained messages, newest first, and the poll cursor. */
  datatype LogState = LogState(buffer: seq<Entry>, cursor: nat)

  function IngestOne(st: LogState, e: Entry, max: nat): LogState {
    if e.number <= st.cursor then st
    else if Held(st.buffer, e) then LogState(st.buffer, e.number)
    else LogState(Take(max, [e] + st.buffer), e.number)
  }

  function IngestAll(st: LogState, entries: seq<Entry>, max: nat): LogState
    decreases |entries|
  {
    if entries == [] then st else IngestAll(IngestOne(st, entries[0], max), entries[1..], max)
  }

  class RingLog {
    var buffer: seq<Entry>
    const max: nat
    var lastSeq: nat
    var visible: bool

    constructor (maxMessages: nat, visible: bool)
      ensures max == if maxMessages == 0 then 1 else maxMessages
      ensures State() == LogState([], 0) && this.visible == visible
    {
      this.buffer := [];
      this.max := if maxMessages == 0 then 1 else maxMessages;
      this.lastSeq := 0;
      this.visible := visible;
    }

    function State(): LogState
      reads this
    {
      LogState(buffer, lastSeq)
    }

    method Push(entry: Entry)
      modifies this`buffer
      ensures buffer == Take(max, [entry] + old(buffer))
    {
      buffer := [entry] + buffer;
      if |buffer| > max {
        buffer := buffer[..max];
      }
    }

    method Ingest(entries: seq<Entry>)
      modifies this`buffer, this`lastSeq
      ensures State() == IngestAll(old(State()), entries, max)
    {
      for i := 0 to |entries|
        invariant IngestAll(State(), entries[i..], max) == IngestAll(old(State()), entries, max)
      {
        assert entries[i..][1..] == entries[i + 1..];
        var entry := entries[i];
        if entry.number <= lastSeq {
          continue;
        }
        lastSeq := entry.number;
        if Held(buffer, entry) {
          continue;
        }
        Push(entry);
      }
    }

    /** Forgets the cursor and keeps the history. */
    method RewindCursor()
      modifies this`lastSeq
      ensures State() == LogState(old(buffer), 0)
    {
      lastSeq := 0;
    }
  }

  // ----- No message twice -------------------------------------------------

  ghost predicate Distinct(s: seq<Entry>) {
    forall i, j :: 0 <= i < j < |s| ==> !Same(s[i], s[j])
  }

  /** Whatever is ingested, in whatever state, the history never holds a message twice. */
  lemma {:induction false} IngestKeepsDistinct(st: LogState, entries: seq<Entry>, max: nat)
    requires Distinct(st.buffer) && |st.buffer| <= max
    ensures Distinct(IngestAll(st, entries, max).buffer)
    ensures |IngestAll(st, entries, max).buffer| <= max
    decreases |entries|
  {
    if entries != [] {
      var next := IngestOne(st, entries[0], max);
      assert Distinct(next.buffer);
      IngestKeepsDistinct(next, entries[1..], max);
    }
  }

  // ----- What a page shows: its rising entries -------------------------------

  /** The numbers rise strictly, from above `c` on. */
  predicate Rising(c: nat, s: seq<Entry>) {
    && (forall i :: 0 <= i < |s| ==> c < s[i].number)
    && (forall i, j :: 0 <= i < j < |s| ==> s[i].number < s[j].number)
  }

  /** The entries numbered above `c` and above everything in front of them. */
  function Records(c: nat, s: seq<Entry>): (r: seq<Entry>)
    ensures Rising(c, r) && |r| <= |s|
    ensures forall i :: 0 <= i < |r| ==> r[i] in s
    decreases |s|
  {
    if s == [] then []
    else if s[0].number <= c then Records(c, s[1..])
    else [s[0]] + Records(s[0].number, s[1..])
  }

  function Last(c: nat, s: seq<Entry>): nat {
    if s == [] then c else s[|s| - 1].number
  }

  /** Ingesting takes the records of a page and nothing else, whatever the page's order. */
  lemma {:induction false} IngestRecords(st: LogState, page: seq<Entry>, max: nat)
    ensures IngestAll(st, page, max) == IngestAll(st, Records(st.cursor, page), max)
    ensures IngestAll(st, page, max).cursor == Last(st.cursor, Records(st.cursor, page))
    decreases |page|
  {
    if page != [] {
      IngestRecords(IngestOne(st, page[0], max), page[1..], max);
      if st.cursor < page[0].number {
        assert Records(st.cursor, page)[1..] == Records(page[0].number, page[1..]);
      }
    }
  }

  lemma {:induction false} RecordsConcat(c: nat, a: seq<Entry>, b: seq<Entry>)
    ensures Records(c, a + b) == Records(c, a) + Records(Last(c, Records(c, a)), b)
    decreases |a|
  {
    if a == [] {
      assert a + b == b;
    } else {
      assert (a + b)[1..] == a[1..] + b;
      if a[0].number <= c {
        RecordsConcat(c, a[1..], b);
      } else {
        var d, tail := a[0].number, Records(a[0].number, a[1..]);
        RecordsConcat(d, a[1..], b);
        assert Last(c, [a[0]] + tail) == Last(d, tail);
        Text.ConcatAssoc([a[0]], tail, Records(Last(d, tail), b));
      }
    }
  }

  /** The last record is the largest number, or `c` when nothing is numbered above it. */
  lemma {:induction false} LastIsLargest(c: nat, s: seq<Entry>)
    ensures var top := Last(c, Records(c, s));
            && c <= top
            && (forall i :: 0 <= i < |s| ==> s[i].number <= top)
            && (top == c || exists i :: 0 <= i < |s| && s[i].number == top)
    decreases |s|
  {
    if s != [] {
      LastIsLargest(if s[0].number <= c then c else s[0].number, s[1..]);
      assert forall i :: 1 <= i < |s| ==> s[i] == s[1..][i - 1];
      assert forall i :: 0 <= i < |s| - 1 ==> s[1..][i] == s[i + 1];
    }
  }

  /** Numbers tell the entries of a log apart. */
  ghost predicate Unique(s: seq<Entry>) {
    forall i, j :: 0 <= i < j < |s| ==> s[i].number != s[j].number
  }

  /** No entry appended before `s[i]` carries a larger number. */
  predicate IsRecord(s: seq<Entry>, i: nat)
    requires i < |s|
  {
    forall j :: 0 <= j < i ==> s[j].number < s[i].number
  }

  lemma {:induction false} RecordIff(c: nat, s: seq<Entry>, i: nat)
    requires Unique(s) && i < |s|
    ensures s[i] in Records(c, s) <==> c < s[i].number && IsRecord(s, i)
    decreases |s|
  {
    var next := if s[0].number <= c then c else s[0].number;
    assert forall j :: 0 <= j < |s| - 1 ==> s[1..][j] == s[j + 1];
    assert s[0] !in Records(next, s[1..]);
    if i > 0 {
      RecordIff(next, s[1..], i - 1);
      assert s[0].number != s[i].number;
      assert IsRecord(s, i) <==> s[0].number < s[i].number && IsRecord(s[1..], i - 1);
    }
  }

  lemma RisingSplits(c: nat, s: seq<Entry>)
    requires s != []
    ensures Rising(c, s) <==> c < s[0].number && Rising(s[0].number, s[1..])
  {
    assert forall j :: 0 <= j < |s| - 1 ==> s[1..][j] == s[j + 1];
  }

  /** Everything in a log is a record exactly when the log is in number order. */
  lemma {:induction false} RecordsAllIff(c: nat, s: seq<Entry>)
    ensures Records(c, s) == s <==> Rising(c, s)
    decreases |s|
  {
    if s != [] {
      assert s == [s[0]] + s[1..];
      assert forall j :: 0 <= j < |s| - 1 ==> s[1..][j] == s[j + 1];
      if c < s[0].number {
        RecordsAllIff(s[0].number, s[1..]);
        RisingSplits(c, s);
      } else {
        assert |Records(c, s[1..])| < |s|;
      }
    }
  }

  // ----- A bounded buffer is the front of an unbounded history ----------------

  /** No entry of `older` would be taken for an entry of `log`. */
  ghost predicate Apart(older: seq<Entry>, log: seq<Entry>) {
    forall i, j :: 0 <= i < |older| && 0 <= j < |log| ==> !Same(older[i], log[j])
  }

  /** The bounded view of a history that has taken the first `n` entries of `log`, on top of older messages. */
  function View(log: seq<Entry>, n: nat, older: seq<Entry>, max: nat): seq<Entry>
    requires n <= |log|
  {
    Take(max, Rev(log[..n]) + older)
  }

  /** Reading one new entry extends the view by it. */
  lemma ViewStep(log: seq<Entry>, n: nat, older: seq<Entry>, max: nat, c: nat)
    requires n < |log| && Rising(0, log) && Apart(older, log) && max >= 1 && c < log[n].number
    ensures IngestOne(LogState(View(log, n, older, max), c), log[n], max)
            == LogState(View(log, n + 1, older, max), log[n].number)
  {
    var all := Rev(log[..n]) + older;
    forall i | 0 <= i < |Take(max, all)| ensures !Same(Take(max, all)[i], log[n]) {
      if i < n {
        assert Take(max, all)[i] == log[n - 1 - i];
      } else {
        assert Take(max, all)[i] == older[i - n];
      }
    }
    assert [log[n]] + all == Rev(log[..n + 1]) + older;
  }

  lemma {:induction false} IngestForward(log: seq<Entry>, n: nat, older: seq<Entry>, max: nat)
    requires n <= |log| && Rising(0, log) && Apart(older, log) && max >= 1
    ensures IngestAll(LogState(View(log, n, older, max), Last(0, log[..n])), log[n..], max)
            == LogState(View(log, |log|, older, max), Last(0, log))
    decreases |log| - n
  {
    if n < |log| {
      ViewStep(log, n, older, max, Last(0, log[..n]));
      assert log[n..][0] == log[n] && log[n..][1..] == log[n + 1..];
      IngestForward(log, n + 1, older, max);
    } else {
      assert log[..n] == log;
    }
  }

  // ----- Reading a log again from its start ----------------------------------

  lemma ViewHeld(log: seq<Entry>, j: nat, n: nat, older: seq<Entry>, max: nat)
    requires j < n <= |log| && n <= max
    ensures Held(View(log, n, older, max), log[j])
  {
    assert View(log, n, older, max)[n - 1 - j] == (Rev(log[..n]) + older)[n - 1 - j] == log[j];
  }

  /** When all of the log read so far still fits, re-reading it skips every entry. */
  lemma {:induction false} SkipHeld(log: seq<Entry>, j: nat, n: nat, older: seq<Entry>, max: nat)
    requires j <= n <= |log| && n <= max && Rising(0, log)
    ensures IngestAll(LogState(View(log, n, older, max), Last(0, log[..j])), log[j..], max)
            == IngestAll(LogState(View(log, n, older, max), Last(0, log[..n])), log[n..], max)
    decreases n - j
  {
    if j < n {
      var buffer := View(log, n, older, max);
      assert Held(buffer, log[j]) by { ViewHeld(log, j, n, older, max); }
      hide View, Held, Rev, Rising, Last, IngestAll;
      SkipHeld(log, j + 1, n, older, max);
      HeldIsSkipped(buffer, log, j, max);
    }
  }

  lemma HeldIsSkipped(buffer: seq<Entry>, log: seq<Entry>, j: nat, max: nat)
    requires j < |log| && Rising(0, log) && Held(buffer, log[j])
    ensures IngestAll(LogState(buffer, Last(0, log[..j])), log[j..], max)
            == IngestAll(LogState(buffer, Last(0, log[..j + 1])), log[j + 1..], max)
  {
    hide Held;
    assert log[j..][0] == log[j] && log[j..][1..] == log[j + 1..];
  }

  /** The buffer in the middle of a re-read that has to push everything again. */
  function Overwrite(log: seq<Entry>, j: nat, n: nat, max: nat): seq<Entry>
    requires j <= |log| && n <= |log|
  {
    Take(max, Rev(log[..j]) + Rev(log[..n]))
  }

  /** When the log no longer fits, re-reading evicts its entries just ahead of reaching them. */
  lemma OverwriteStep(log: seq<Entry>, j: nat, n: nat, max: nat, c: nat)
    requires j < |log| && n <= |log| && 1 <= max < n && Rising(0, log) && c < log[j].number
    ensures IngestOne(LogState(Overwrite(log, j, n, max), c), log[j], max)
            == LogState(Overwrite(log, j + 1, n, max), log[j].number)
  {
    var all := Rev(log[..j]) + Rev(log[..n]);
    var buffer := Take(max, all);
    forall i | 0 <= i < |buffer| ensures !Same(buffer[i], log[j]) {
      if i < j {
        assert buffer[i] == log[j - 1 - i];
      } else {
        assert buffer[i] == log[n - 1 - (i - j)];
      }
    }
    assert [log[j]] + all == Rev(log[..j + 1]) + Rev(log[..n]);
  }

  lemma {:induction false} OverwriteAll(log: seq<Entry>, j: nat, n: nat, max: nat)
    requires j <= |log| && n <= |log| && 1 <= max < n && Rising(0, log)
    ensures IngestAll(LogState(Overwrite(log, j, n, max), Last(0, log[..j])), log[j..], max)
            == LogState(Overwrite(log, |log|, n, max), Last(0, log))
    decreases |log| - j
  {
    if j < |log| {
      OverwriteStep(log, j, n, max, Last(0, log[..j]));
      assert log[j..][0] == log[j] && log[j..][1..] == log[j + 1..];
      OverwriteAll(log, j + 1, n, max);
    } else {
      assert log[..j] == log;
    }
  }

  /**
   Re-reading a rising log from its start, although the buffer may have
   dropped part of it, ends where reading only the new entries would have ended.
   */
  lemma RereadIsForward(log: seq<Entry>, n: nat, older: seq<Entry>, max: nat)
    requires n <= |log| && Rising(0, log) && Apart(older, log) && max >= 1
    ensures IngestAll(LogState(View(log, n, older, max), 0), log, max)
            == LogState(View(log, |log|, older, max), Last(0, log))
  {
    assert log[0..] == log;
    if n <= max {
      SkipHeld(log, 0, n, older, max);
      IngestForward(log, n, older, max);
    } else {
      assert View(log, n, older, max) == Overwrite(log, 0, n, max);
      OverwriteAll(log, 0, n, max);
      assert Overwrite(log, |log|, n, max) == View(log, |log|, older, max);
    }
  }

  /** Reading on a rising log, from where the cursor stands or from its start, leads to one and the same view. */
  lemma ReadOn(before: seq<Entry>, after: seq<Entry>, older: seq<Entry>, max: nat, c: nat)
    requires before <= after && Rising(0, after) && Apart(older, after) && max >= 1
    requires c == 0 || c == Last(0, before)
    ensures IngestAll(LogState(View(before, |before|, older, max), c), if c == 0 then after else after[|before|..], max)
            == LogState(View(after, |after|, older, max), Last(0, after))
  {
    assert after[..|before|] == before == before[..|before|];
    hide IngestAll, Apart, Rising, Rev;
    if c == 0 {
      RereadIsForward(after, |before|, older, max);
    } else {
      IngestForward(after, |before|, older, max);
    }
  }

  /** The newest entries of what was read are in the view, unaltered. */
  lemma ViewHolds(log: seq<Entry>, n: nat, older: seq<Entry>, max: nat, k: nat)
    requires n <= |log| && k < n && n - k <= max
    ensures log[k] in View(log, n, older, max)
  {
    var all := Rev(log[..n]) + older;
    assert all[n - 1 - k] == log[k];
    assert View(log, n, older, max)[n - 1 - k] == log[k];
  }

  // ----- Exactly which pages are shown in full -------------------------------

  /**
   With room for it and nothing of it held, a whole page goes on top of the
   history, exactly when its numbers rise strictly from the cursor.
   */
  lemma PageShownIff(st: LogState, page: seq<Entry>, max: nat)
    requires Apart(st.buffer, page) && |st.buffer| + |page| <= max
    ensures IngestAll(st, page, max).buffer == Rev(page) + st.buffer <==> Rising(st.cursor, page)
  {
    var taken := Records(st.cursor, page);
    IngestRecords(st, page, max);
    RecordsAllIff(st.cursor, page);
    assert Apart(st.buffer, taken) by {
      forall i, j | 0 <= i < |st.buffer| && 0 <= j < |taken| ensures !Same(st.buffer[i], taken[j]) {
        var k :| 0 <= k < |page| && page[k] == taken[j];
      }
    }
    TakenOnTop(st, taken, max);
    if Rev(page) + st.buffer == Rev(taken) + st.buffer {
      assert |taken| == |page|;
      RevOnTop(page, taken, st.buffer);
    }
  }

  lemma RevOnTop(x: seq<Entry>, y: seq<Entry>, rest: seq<Entry>)
    requires |x| == |y| && Rev(x) + rest == Rev(y) + rest
    ensures x == y
  {
    forall i | 0 <= i < |x| ensures x[i] == y[i] {
      assert (Rev(x) + rest)[|x| - 1 - i] == x[i] && (Rev(y) + rest)[|x| - 1 - i] == y[i];
    }
  }

  lemma {:induction false} TakenOnTop(st: LogState, s: seq<Entry>, max: nat)
    requires Rising(st.cursor, s) && Apart(st.buffer, s) && |st.buffer| + |s| <= max
    ensures IngestAll(st, s, max).buffer == Rev(s) + st.buffer
    decreases |s|
  {
    if s != [] {
      var next := IngestOne(st, s[0], max);
      assert next == LogState([s[0]] + st.buffer, s[0].number);
      assert Rising(next.cursor, s[1..]);
      assert Apart(next.buffer, s[1..]);
      TakenOnTop(next, s[1..], max);
      assert Rev(s[1..]) + [s[0]] == Rev(s);
      assert Rev(s[1..]) + ([s[0]] + st.buffer) == Rev(s) + st.buffer;
    } else {
      assert Rev(s) + st.buffer == st.buffer;
    }
  }

  /** Two messages appended against their numbers: the cursor passes the second one and it is never shown. */
  lemma OutOfOrderHides()
    ensures var b, a := Entry(2, 7, "b"), Entry(1, 7, "a");
            IngestAll(LogState([], 0), [b, a], 500) == LogState([b], 2)
  {
    var b, a := Entry(2, 7, "b"), Entry(1, 7, "a");
    assert [b] + [] == [b];
    assert IngestOne(LogState([], 0), b, 500) == LogState([b], 2);
    assert [b, a][1..] == [a] && [a][1..] == [];
    assert IngestOne(LogState([b], 2), a, 500) == LogState([b], 2);
    assert IngestAll(LogState([b], 2), [a], 500) == IngestAll(LogState([b], 2), [], 500);
  }

  // ----- What a shared second costs ----------------------------------------

  lemma {:induction false} IngestFits(st: LogState, log: seq<Entry>, max: nat)
    requires Rising(st.cursor, log) && |st.buffer| + |log| <= max
    ensures var r := IngestAll(st, log, max);
            && (forall e :: e in st.buffer ==> e in r.buffer)
            && (forall e :: e in log ==> e in r.buffer || exists h :: h in st.buffer && Same(h, e))
    decreases |log|
  {
    if log != [] {
      var next := IngestOne(st, log[0], max);
      IngestFits(next, log[1..], max);
      var r := IngestAll(next, log[1..], max);
      if Held(st.buffer, log[0]) {
        var i :| 0 <= i < |st.buffer| && Same(st.buffer[i], log[0]);
        assert st.buffer[i] in st.buffer;
      } else {
        assert next.buffer == [log[0]] + st.buffer;
        assert log[0] in next.buffer;
      }
      assert forall e :: e in log ==> e == log[0] || e in log[1..];
      forall e | e in log[1..] && e !in r.buffer ensures exists h :: h in st.buffer && Same(h, e) {
        var h :| h in next.buffer && Same(h, e);
        assert h == log[0] || h in st.buffer;
      }
    }
  }

  /** Every message of the log that is not held already comes in number order. */
  ghost predicate NewInOrder(buffer: seq<Entry>, log: seq<Entry>) {
    forall i :: 0 <= i < |log| && log[i] !in buffer ==> 0 < log[i].number && IsRecord(log, i)
  }

  ghost predicate NoLookAlike(buffer: seq<Entry>, log: seq<Entry>) {
    forall h, e :: h in buffer && e in log && Same(h, e) ==> h == e
  }

  /**
   With room for everything, reading a broker's log from its start, whatever
   its order, retains all of it exactly when every message not held already
   comes in number order, and no held message shares a number and a second
   with a different message of the log.
   */
  lemma FreshLogRetainedIff(buffer: seq<Entry>, log: seq<Entry>, max: nat)
    requires Unique(log) && Distinct(buffer) && |buffer| + |log| <= max
    ensures (forall e :: e in log ==> e in IngestAll(LogState(buffer, 0), log, max).buffer)
            <==> NewInOrder(buffer, log) && NoLookAlike(buffer, log)
  {
    var st := LogState(buffer, 0);
    hide IngestAll, Records, IsRecord, Distinct, Unique;
    IngestRecords(st, log, max);
    IngestKeepsDistinct(st, log, max);
    OnlyFromPage(st, Records(0, log), max);
    IngestFits(st, Records(0, log), max);
    var r := IngestAll(st, log, max).buffer;
    if forall e :: e in log ==> e in r { RetainedInOrder(buffer, log, r); }
    if NewInOrder(buffer, log) && NoLookAlike(buffer, log) {
      forall e | e in log ensures e in r {
        var i :| 0 <= i < |log| && log[i] == e;
        RecordIff(0, log, i);
      }
    }
  }

  lemma RetainedInOrder(buffer: seq<Entry>, log: seq<Entry>, r: seq<Entry>)
    requires Unique(log) && Distinct(r) && forall e :: e in log ==> e in r
    requires forall e :: e in buffer ==> e in r
    requires forall e :: e in r ==> e in buffer || e in Records(0, log)
    ensures NewInOrder(buffer, log) && NoLookAlike(buffer, log)
  {
    hide Records, IsRecord, Unique;
    forall h, e | h in buffer && e in log && Same(h, e) ensures h == e {
      var i :| 0 <= i < |r| && r[i] == h;
      var j :| 0 <= j < |r| && r[j] == e;
    }
    forall i | 0 <= i < |log| && log[i] !in buffer ensures 0 < log[i].number && IsRecord(log, i) {
      assert log[i] in log;
      RecordIff(0, log, i);
    }
  }

  /** A held message that is still in the buffer when its look-alike at `log[k]` is read. */
  ghost predicate Clash(buffer: seq<Entry>, log: seq<Entry>, max: nat, p: nat, k: nat) {
    p < |buffer| && k < |log| && Same(buffer[p], log[k]) && p + k < max
  }

  ghost predicate Clashes(buffer: seq<Entry>, log: seq<Entry>, max: nat) {
    exists p: nat, k: nat :: Clash(buffer, log, max, p, k)
  }

  lemma {:induction false} StaysHeld(st: LogState, page: seq<Entry>, max: nat, i: nat)
    requires i < |st.buffer| && i + |page| < max
    ensures st.buffer[i] in IngestAll(st, page, max).buffer
    decreases |page|
  {
    if page != [] {
      var next := IngestOne(st, page[0], max);
      StaysHeld(next, page[1..], max, if next.buffer == st.buffer then i else i + 1);
    }
  }

  lemma {:induction false} OnlyFromPage(st: LogState, page: seq<Entry>, max: nat)
    ensures forall e :: e in IngestAll(st, page, max).buffer ==> e in st.buffer || e in page
    decreases |page|
  {
    if page != [] { OnlyFromPage(IngestOne(st, page[0], max), page[1..], max); }
  }

  /** Pushing the first message moves every clash with a later one along. */
  lemma ClashesMove(buffer: seq<Entry>, log: seq<Entry>, max: nat)
    requires log != [] && Rising(0, log) && |buffer| <= max && |log| <= max && !Held(buffer, log[0])
    ensures Clashes(buffer, log, max) <==> Clashes(Take(max, [log[0]] + buffer), log[1..], max)
  {
    var next := Take(max, [log[0]] + buffer);
    if Clashes(buffer, log, max) {
      var p: nat, k: nat :| Clash(buffer, log, max, p, k);
      assert k > 0;
      assert Clash(next, log[1..], max, p + 1, k - 1);
    }
    if Clashes(next, log[1..], max) {
      var p: nat, k: nat :| Clash(next, log[1..], max, p, k);
      assert log[1..][k] == log[k + 1];
      assert p > 0;
      assert Clash(buffer, log, max, p - 1, k + 1);
    }
  }

  lemma {:induction false} RisingRetainedIff(st: LogState, log: seq<Entry>, max: nat)
    requires Rising(st.cursor, log) && |st.buffer| <= max && |log| <= max
    requires forall e :: e in log ==> e !in st.buffer
    ensures (forall e :: e in log ==> e in IngestAll(st, log, max).buffer) <==> !Clashes(st.buffer, log, max)
    decreases |log|
  {
    if log != [] {
      var next := IngestOne(st, log[0], max);
      RisingSplits(st.cursor, log);
      assert log[0] in log && log[0] !in log[1..];
      if Held(st.buffer, log[0]) {
        var p :| 0 <= p < |st.buffer| && Same(st.buffer[p], log[0]);
        assert Clash(st.buffer, log, max, p, 0);
        OnlyFromPage(next, log[1..], max);
      } else {
        assert forall e :: e in log[1..] ==> e in log;
        RisingRetainedIff(next, log[1..], max);
        ClashesMove(st.buffer, log, max);
        StaysHeld(next, log[1..], max, 0);
        assert forall e :: e in log ==> e == log[0] || e in log[1..];
      }
    }
  }

  /**
   Also with a history at its cap, and whatever the order: a log of new
   messages that fits the cap is retained in full exactly when its numbers
   rise from the cursor and no look-alike of one of its messages is still held
   when that one is read; each message read before has pushed it one place down.
   */
  lemma FullHistoryRetainedIff(st: LogState, log: seq<Entry>, max: nat)
    requires Unique(log) && |st.buffer| <= max && |log| <= max
    requires forall e :: e in log ==> e !in st.buffer
    ensures (forall e :: e in log ==> e in IngestAll(st, log, max).buffer)
            <==> Rising(st.cursor, log) && !Clashes(st.buffer, log, max)
  {
    if Rising(st.cursor, log) {
      RisingRetainedIff(st, log, max);
    } else {
      IngestRecords(st, log, max);
      OnlyFromPage(st, Records(st.cursor, log), max);
      var i := FirstFall(st.cursor, log);
      RecordIff(st.cursor, log, i);
      assert log[i] in log;
    }
  }

  /** A log that does not rise from `c` has an entry that is no record. */
  lemma FirstFall(c: nat, log: seq<Entry>) returns (i: nat)
    requires !Rising(c, log) && Unique(log)
    ensures i < |log| && !(c < log[i].number && IsRecord(log, i))
  {
    if low :| 0 <= low < |log| && log[low].number <= c {
      i := low;
    } else {
      var a, b :| 0 <= a < b < |log| && log[b].number <= log[a].number;
      i := b;
    }
  }

  /** Two brokers in one second: the second one's first message is never shown. */
  lemma SharedSecondHides()
    ensures var st := IngestAll(LogState([Entry(1, 7, "old")], 0), [Entry(1, 7, "new")], 500);
            st == LogState([Entry(1, 7, "old")], 1) && Entry(1, 7, "new") !in st.buffer
  {
    var st := LogState([Entry(1, 7, "old")], 0);
    assert Same(st.buffer[0], Entry(1, 7, "new"));
    assert IngestAll(IngestOne(st, Entry(1, 7, "new"), 500), [], 500) == LogState(st.buffer, 1);
  }

  // ----- Which messages are one ------------------------------------------------

  /**
   A new broker's log goes on top of the history in full when its numbers rise
   and every held message differs from every new one in number or in time.
   */
  lemma DifferentAreKept(buffer: seq<Entry>, log: seq<Entry>, max: nat)
    requires |buffer| + |log| <= max
    requires forall i :: 0 <= i < |log| ==> log[i].number > 0
    requires forall i, j :: 0 <= i < j < |log| ==> log[i].number < log[j].number
    requires forall i, j :: 0 <= i < |buffer| && 0 <= j < |log| ==>
               buffer[i].number != log[j].number || buffer[i].time != log[j].time
    ensures IngestAll(LogState(buffer, 0), log, max).buffer == Rev(log) + buffer
  {
    PageShownIff(LogState(buffer, 0), log, max);
  }

  /** A message past the cursor goes on top, with room, if and only if no held one has both its number and its time. */
  lemma PushedIff(buffer: seq<Entry>, e: Entry, cursor: nat, max: nat)
    requires cursor < e.number && |buffer| < max
    ensures IngestAll(LogState(buffer, cursor), [e], max).buffer == [e] + buffer
            <==> forall i :: 0 <= i < |buffer| ==> buffer[i].number != e.number || buffer[i].time != e.time
    ensures (exists i :: 0 <= i < |buffer| && buffer[i].number == e.number && buffer[i].time == e.time)
            ==> IngestAll(LogState(buffer, cursor), [e], max).buffer == buffer
  {
    var next := IngestOne(LogState(buffer, cursor), e, max);
    assert [e][1..] == [] && IngestAll(next, [], max) == next;
    assert |[e] + buffer| == |buffer| + 1;
  }

  /** After a restart an entry of a held number shows beside it unless the seconds agree as well. */
  lemma SameNumberIff(n: nat, t: nat, u: nat, x: string, y: string, max: nat)
    requires n > 0 && max >= 2
    ensures IngestAll(LogState([Entry(n, t, x)], 0), [Entry(n, u, y)], max).buffer ==
            if t == u then [Entry(n, t, x)] else [Entry(n, u, y), Entry(n, t, x)]
  {
    var held := [Entry(n, t, x)];
    PushedIff(held, Entry(n, u, y), 0, max);
    assert held[0].number == n && held[0].time == t;
    assert [Entry(n, u, y)] + held == [Entry(n, u, y), Entry(n, t, x)];
  }
}
