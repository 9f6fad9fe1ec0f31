/**
 One dashboard polling a broker that may be replaced at any moment, also
 between the two reads of a poll: every reachable state of the pair.
 */
module Polling {
  import opened BrokerLog
  import opened Dashboard
  import opened Wrappers

  /**
   One life of the broker: the epoch it reports, its log, the last number it
   has handed out, and the numbers handed out whose messages are not in the
   log yet. Concurrent publishers take a number first and append later.
   */
  datatype Incarnation = Incarnation(epoch: nat, log: seq<Entry>, handed: nat, pending: set<nat>)

  /** How far the dashboard is into a poll. */
  datatype Reading =
    | Idle
    | StatusRead(cursor: nat, uptime: nat)
    | PageRead(cursor: nat, poll: Poll)

  /** `brokers` holds every incarnation so far, the live one last; `uptime` is the live one's. */
  datatype System = System(brokers: seq<Incarnation>, uptime: nat, model: ModelState, reading: Reading)

  datatype Event =
    | Reserve
    | Append(entry: Entry)
    | Restart(epoch: nat)
    | Tick(seconds: nat)
    | ReadStatus
    | ReadLog
    | ApplyPoll
    | PollFails

  /** `GET /log?since=n`: the entries with a larger number, in the order they were appended. */
  function Since(log: seq<Entry>, n: nat): (page: seq<Entry>)
    ensures |page| <= |log|
  {
    if log == [] then []
    else (if log[0].number > n then [log[0]] else []) + Since(log[1..], n)
  }

  /** The page is the entries numbered past `n`. */
  lemma {:induction false} SinceIsNewer(log: seq<Entry>, n: nat, e: Entry)
    ensures e in Since(log, n) <==> e in log && e.number > n
    decreases |log|
  {
    if log != [] { SinceIsNewer(log[1..], n, e); }
  }

  /** A log that has grown only adds to the end of the page. */
  lemma {:induction false} SinceGrows(log: seq<Entry>, more: seq<Entry>, n: nat)
    ensures Since(log + more, n) == Since(log, n) + Since(more, n)
    decreases |log|
  {
    if log == [] {
      assert log + more == more;
    } else {
      assert (log + more)[1..] == log[1..] + more;
      SinceGrows(log[1..], more, n);
      if log[0].number > n { Text.ConcatAssoc([log[0]], Since(log[1..], n), Since(more, n)); }
    }
  }

  ghost predicate FreshId(brokers: seq<Incarnation>, e: Entry) {
    forall i, j :: 0 <= i < |brokers| && 0 <= j < |brokers[i].log| ==> !Same(brokers[i].log[j], e)
  }

  /** No message shares its number and its second with one an earlier event published. */
  ghost predicate Enabled(s: System, event: Event) {
    match event
    case Reserve => s.brokers != []
    case Append(e) => s.brokers != [] && e.number in s.brokers[|s.brokers| - 1].pending && FreshId(s.brokers, e)
    case Restart(epoch) => epoch != 0 && forall i :: 0 <= i < |s.brokers| ==> s.brokers[i].epoch != epoch
    case Tick(_) => true
    case ReadStatus => s.reading.Idle? && s.brokers != []
    case ReadLog => s.reading.StatusRead? && s.brokers != []
    case ApplyPoll => s.reading.PageRead?
    case PollFails => !s.reading.PageRead?
  }

  function Next(s: System, event: Event, max: nat): System
    requires event.Reserve? || event.Append? || event.ReadLog? ==> s.brokers != []
    requires event.ReadLog? ==> s.reading.StatusRead?
    requires event.ApplyPoll? ==> s.reading.PageRead?
  {
    match event
    case Reserve =>
      var n := |s.brokers| - 1;
      var live := s.brokers[n];
      s.(brokers := s.brokers[n := live.(handed := live.handed + 1, pending := live.pending + {live.handed + 1})])
    case Append(e) =>
      var n := |s.brokers| - 1;
      var live := s.brokers[n];
      s.(brokers := s.brokers[n := live.(log := live.log + [e], pending := live.pending - {e.number})])
    case Restart(epoch) => s.(brokers := s.brokers + [Incarnation(epoch, [], 0, {})], uptime := 0)
    case Tick(d) => s.(uptime := s.uptime + d)
    case ReadStatus => s.(reading := StatusRead(s.model.log.cursor, s.uptime))
    case ReadLog =>
      var live := s.brokers[|s.brokers| - 1];
      var poll := Poll(s.reading.uptime, live.epoch, Since(live.log, s.reading.cursor));
      s.(reading := PageRead(s.reading.cursor, poll))
    case ApplyPoll =>
      s.(model := Polled(s.model, s.reading.cursor, s.reading.poll, max), reading := Idle)
    case PollFails =>
      s.(model := Updated(s.model, BrokerUnreachable, max), reading := Idle)
  }

  const START := System([], 0, INITIAL, Idle)

  // ----- The invariant -----------------------------------------------------

  /** Numbers are handed out once, from 1 on; a log can hold them in any order and with gaps. */
  ghost predicate HandedOut(b: Incarnation) {
    && Unique(b.log)
    && (forall i :: 0 <= i < |b.log| ==> 0 < b.log[i].number <= b.handed && b.log[i].number !in b.pending)
    && (forall p :: p in b.pending ==> 0 < p <= b.handed)
  }

  /** Epochs tell incarnations apart, and no two messages of different ones look the same. */
  ghost predicate WellFormed(brokers: seq<Incarnation>) {
    && (forall i :: 0 <= i < |brokers| ==> brokers[i].epoch != 0 && HandedOut(brokers[i]))
    && (forall i, j :: 0 <= i < j < |brokers| ==> brokers[i].epoch != brokers[j].epoch)
    && (forall i, j :: 0 <= i < j < |brokers| ==> Apart(brokers[i].log, brokers[j].log))
  }

  /** Every message of `older` was published before incarnation `k`. */
  ghost predicate Earlier(older: seq<Entry>, brokers: seq<Incarnation>, k: int) {
    forall e :: e in older ==> exists i :: 0 <= i < k && i < |brokers| && e in brokers[i].log
  }

  /** What reading the first `n` entries of a log shows. */
  function Shown(log: seq<Entry>, n: nat): seq<Entry>
    requires n <= |log|
  {
    Records(0, log[..n])
  }

  /** The bounded history of showing those on top of older messages. */
  function History(log: seq<Entry>, n: nat, older: seq<Entry>, max: nat): seq<Entry>
    requires n <= |log|
  {
    View(Shown(log, n), |Shown(log, n)|, older, max)
  }

  /**
   Why the history is what it is: it has read `read` entries of incarnation
   `k` on top of older messages; a page in flight came from incarnation
   `from`, when its log had `upto` entries.
   */
  datatype Witness = Witness(k: int, read: nat, older: seq<Entry>, from: nat, upto: nat)

  ghost predicate Observed(s: System, w: Witness, max: nat) {
    if s.model.lastEpoch.None? then
      w.k == -1 && w.read == 0 && w.older == [] && s.model.log == LogState([], 0)
    else
      && 0 <= w.k < |s.brokers|
      && s.model.lastEpoch.value == s.brokers[w.k].epoch
      && w.read <= |s.brokers[w.k].log|
      && s.model.log.buffer == History(s.brokers[w.k].log, w.read, w.older, max)
      && (s.model.log.cursor == 0 || s.model.log.cursor == Last(0, Shown(s.brokers[w.k].log, w.read)))
      && Earlier(w.older, s.brokers, w.k)
  }

  ghost predicate InFlight(s: System, w: Witness) {
    match s.reading
    case Idle => true
    case StatusRead(c, _) => c == s.model.log.cursor
    case PageRead(c, poll) =>
      && c == s.model.log.cursor
      && w.k <= w.from < |s.brokers|
      && poll.epoch == s.brokers[w.from].epoch
      && w.upto <= |s.brokers[w.from].log|
      && poll.entries == Since(s.brokers[w.from].log[..w.upto], c)
      && (w.from == w.k ==> w.read <= w.upto)
  }

  ghost predicate Inv(s: System, w: Witness, max: nat) {
    WellFormed(s.brokers) && Observed(s, w, max) && InFlight(s, w)
  }

  lemma EarlierApart(s: System, w: Witness, k: int)
    requires WellFormed(s.brokers) && Earlier(w.older, s.brokers, k) && 0 <= k < |s.brokers|
    ensures Apart(w.older, s.brokers[k].log)
  {
    var log := s.brokers[k].log;
    forall i, j | 0 <= i < |w.older| && 0 <= j < |log| ensures !Same(w.older[i], log[j]) {
      assert w.older[i] in w.older;
      var n :| 0 <= n < k && n < |s.brokers| && w.older[i] in s.brokers[n].log;
      var a :| 0 <= a < |s.brokers[n].log| && s.brokers[n].log[a] == w.older[i];
      assert Apart(s.brokers[n].log, log);
    }
  }

  lemma InHistory(log: seq<Entry>, n: nat, older: seq<Entry>, max: nat, e: Entry)
    requires n <= |log| && e in History(log, n, older, max)
    ensures e in Shown(log, n) || e in older
  {
    hide Records;
    var shown := Shown(log, n);
    var view := History(log, n, older, max);
    var a :| 0 <= a < |view| && view[a] == e;
    assert (Rev(shown[..|shown|]) + older)[a] == e;
    assert a < |shown| ==> shown[|shown| - 1 - a] == e;
    assert a >= |shown| ==> older[a - |shown|] == e;
  }

  /** Everything the history can hold after reading incarnation `k` was published before any later one. */
  lemma ViewEarlier(s: System, w: Witness, max: nat, later: int)
    requires Observed(s, w, max) && s.model.lastEpoch.Some? && w.k < later
    ensures Earlier(s.model.log.buffer, s.brokers, later)
  {
    var log := s.brokers[w.k].log;
    forall e | e in s.model.log.buffer
      ensures exists i :: 0 <= i < later && i < |s.brokers| && e in s.brokers[i].log
    {
      InHistory(log, w.read, w.older, max, e);
      if e in Shown(log, w.read) {
        assert e in log[..w.read];
        assert e in log;
      } else {
        var i :| 0 <= i < w.k && i < |s.brokers| && e in s.brokers[i].log;
      }
    }
  }

  // ----- Broker steps --------------------------------------------------------

  lemma AppendWellFormed(s: System, e: Entry, max: nat)
    requires WellFormed(s.brokers) && Enabled(s, Append(e))
    ensures WellFormed(Next(s, Append(e), max).brokers)
  {
    var t := Next(s, Append(e), max);
    var n := |s.brokers| - 1;
    assert HandedOut(s.brokers[n]);
    assert HandedOut(t.brokers[n]);
    forall i, j | 0 <= i < j < |t.brokers| ensures Apart(t.brokers[i].log, t.brokers[j].log) {
      assert Apart(s.brokers[i].log, s.brokers[j].log);
      assert t.brokers[i] == s.brokers[i];
    }
  }

  lemma ReserveWellFormed(s: System, max: nat)
    requires WellFormed(s.brokers) && Enabled(s, Reserve)
    ensures WellFormed(Next(s, Reserve, max).brokers)
  {
    var t := Next(s, Reserve, max);
    var n := |s.brokers| - 1;
    assert HandedOut(s.brokers[n]);
    assert HandedOut(t.brokers[n]);
    assert forall i :: 0 <= i < |s.brokers| ==> t.brokers[i].log == s.brokers[i].log && t.brokers[i].epoch == s.brokers[i].epoch;
  }

  lemma PrefixOfPrefix(x: seq<Entry>, y: seq<Entry>, n: nat)
    requires x <= y && n <= |x|
    ensures x[..n] == y[..n]
  {
  }

  /** Logs that only grow at their ends keep the invariant. */
  lemma GrowthKeeps(s: System, t: System, w: Witness, max: nat)
    requires Inv(s, w, max) && WellFormed(t.brokers) && |t.brokers| == |s.brokers|
    requires t == s.(brokers := t.brokers)
    requires forall i :: 0 <= i < |s.brokers| ==>
               s.brokers[i].log <= t.brokers[i].log && s.brokers[i].epoch == t.brokers[i].epoch
    ensures Inv(t, w, max)
  {
    hide HandedOut, WellFormed, View, Records, Since;
    if s.model.lastEpoch.Some? {
      PrefixOfPrefix(s.brokers[w.k].log, t.brokers[w.k].log, w.read);
    }
    if s.reading.PageRead? {
      PrefixOfPrefix(s.brokers[w.from].log, t.brokers[w.from].log, w.upto);
    }
  }

  lemma AppendKeeps(s: System, w: Witness, e: Entry, max: nat)
    requires Inv(s, w, max) && Enabled(s, Append(e))
    ensures Inv(Next(s, Append(e), max), w, max)
  {
    AppendWellFormed(s, e, max);
    GrowthKeeps(s, Next(s, Append(e), max), w, max);
  }

  lemma ReserveKeeps(s: System, w: Witness, max: nat)
    requires Inv(s, w, max) && Enabled(s, Reserve)
    ensures Inv(Next(s, Reserve, max), w, max)
  {
    ReserveWellFormed(s, max);
    GrowthKeeps(s, Next(s, Reserve, max), w, max);
  }

  lemma RestartKeeps(s: System, w: Witness, epoch: nat, max: nat)
    requires Inv(s, w, max) && Enabled(s, Restart(epoch))
    ensures Inv(Next(s, Restart(epoch), max), w, max)
  {
    hide View, Records, Since, IngestAll, Distinct;
    var t := Next(s, Restart(epoch), max);
    assert HandedOut(t.brokers[|s.brokers|]);
    assert forall i :: 0 <= i < |s.brokers| ==> t.brokers[i] == s.brokers[i];
  }

  // ----- Dashboard steps -----------------------------------------------------

  lemma ReadLogKeeps(s: System, w: Witness, max: nat) returns (w': Witness)
    requires Inv(s, w, max) && Enabled(s, ReadLog)
    ensures Inv(Next(s, ReadLog, max), w', max)
  {
    var n := |s.brokers| - 1;
    w' := w.(from := n, upto := |s.brokers[n].log|);
    assert s.brokers[n].log[..|s.brokers[n].log|] == s.brokers[n].log;
  }

  ghost predicate Rewinds(m: ModelState, poll: Poll) {
    || (m.lastUptime.Some? && poll.uptime < m.lastUptime.value)
    || (poll.epoch != 0 && m.lastEpoch.Some? && m.lastEpoch.value != poll.epoch)
  }

  /** An answered poll either rewinds and drops its page, or ingests the page. */
  lemma PolledModel(m: ModelState, poll: Poll, max: nat)
    ensures var t := Polled(m, m.log.cursor, poll, max);
            && t.lastEpoch == Some(poll.epoch) && t.lastUptime == Some(poll.uptime)
            && t.log == if Rewinds(m, poll) && m.log.cursor != 0 then LogState(m.log.buffer, 0)
                        else IngestAll(m.log, poll.entries, max)
  {
    hide IngestAll;
  }

  lemma {:induction false} RecordsSince(d: nat, c: nat, s: seq<Entry>)
    requires c <= d
    ensures Records(d, Since(s, c)) == Records(d, s)
    decreases |s|
  {
    if s != [] {
      var rest := Since(s[1..], c);
      if s[0].number <= c {
        assert Since(s, c) == rest;
        RecordsSince(d, c, s[1..]);
      } else {
        assert Since(s, c) == [s[0]] + rest && ([s[0]] + rest)[1..] == rest;
        RecordsSince(if s[0].number > d then s[0].number else d, c, s[1..]);
      }
    }
  }

  /** What is shown only grows; past the cursor it grows by the page's records. */
  lemma PageRecords(log: seq<Entry>, r: nat, m: nat)
    requires r <= m <= |log|
    ensures var c := Last(0, Shown(log, r));
            && Shown(log, r) <= Shown(log, m)
            && Records(0, Since(log[..m], 0)) == Shown(log, m)
            && Records(c, Since(log[..m], c)) == Shown(log, m)[|Shown(log, r)|..]
  {
    var c := Last(0, Shown(log, r));
    assert log[..m] == log[..r] + log[r..m];
    RecordsConcat(0, log[..r], log[r..m]);
    RecordsConcat(c, log[..r], log[r..m]);
    RecordsSince(0, 0, log[..m]);
    RecordsSince(c, c, log[..m]);
    LastIsLargest(0, log[..r]);
    NoneAbove(c, log[..r]);
  }

  lemma {:induction false} NoneAbove(c: nat, s: seq<Entry>)
    requires forall i :: 0 <= i < |s| ==> s[i].number <= c
    ensures Records(c, s) == [] && Since(s, c) == []
    decreases |s|
  {
    if s != [] { NoneAbove(c, s[1..]); }
  }

  lemma ShownApart(older: seq<Entry>, log: seq<Entry>, n: nat)
    requires n <= |log| && Apart(older, log)
    ensures Apart(older, Shown(log, n))
  {
    var shown := Shown(log, n);
    forall i, j | 0 <= i < |older| && 0 <= j < |shown| ensures !Same(older[i], shown[j]) {
      assert shown[j] in log[..n];
      var k :| 0 <= k < n && log[k] == shown[j];
    }
  }

  /** Reading a log on, from where the cursor stands or from its start, leads to one and the same history. */
  lemma PageExtends(log: seq<Entry>, r: nat, m: nat, older: seq<Entry>, max: nat, c: nat)
    requires r <= m <= |log| && Apart(older, log) && max >= 1
    requires c == 0 || c == Last(0, Shown(log, r))
    ensures IngestAll(LogState(History(log, r, older, max), c), Since(log[..m], c), max)
            == LogState(History(log, m, older, max), Last(0, Shown(log, m)))
  {
    PageRecords(log, r, m);
    ShownApart(older, log, m);
    assert Rising(0, Shown(log, m));
    hide Records, IngestAll, Since, Apart, Rising, View, Shown;
    IngestRecords(LogState(History(log, r, older, max), c), Since(log[..m], c), max);
    ReadOn(Shown(log, r), Shown(log, m), older, max, c);
  }

  lemma NothingRead(log: seq<Entry>, older: seq<Entry>, max: nat)
    requires |older| <= max
    ensures History(log, 0, older, max) == older
  {
    assert Shown(log, 0) == [];
    assert Rev(Shown(log, 0)[..0]) + older == older;
  }

  lemma HistoryFits(log: seq<Entry>, n: nat, older: seq<Entry>, max: nat)
    requires n <= |log|
    ensures |History(log, n, older, max)| <= max
  {
  }

  /** A page of the incarnation the cursor belongs to. */
  lemma ApplySameKeeps(s: System, w: Witness, max: nat) returns (w': Witness)
    requires Inv(s, w, max) && s.reading.PageRead? && max >= 1
    requires s.model.lastEpoch.Some? && w.from == w.k
    ensures Inv(Next(s, ApplyPoll, max), w', max)
  {
    hide Polled, Updated, History, Since, IngestAll, Apart, Distinct, Earlier, WellFormed, Records, Rewinds;
    var log := s.brokers[w.k].log;
    var c := s.reading.cursor;
    EarlierApart(s, w, w.k);
    PolledModel(s.model, s.reading.poll, max);
    if c != 0 && Rewinds(s.model, s.reading.poll) {
      w' := w;
    } else {
      PageExtends(log, w.read, w.upto, w.older, max, c);
      w' := w.(read := w.upto);
    }
  }

  lemma NewerRewinds(s: System, w: Witness, max: nat)
    requires Inv(s, w, max) && s.reading.PageRead?
    requires s.model.lastEpoch.Some? && w.k < w.from
    ensures Rewinds(s.model, s.reading.poll)
  {
    hide HandedOut, History, Earlier, Since, Apart;
  }

  /** A page of a newer incarnation. */
  lemma ApplyNewKeeps(s: System, w: Witness, max: nat) returns (w': Witness)
    requires Inv(s, w, max) && s.reading.PageRead? && max >= 1
    requires s.model.lastEpoch.Some? && w.k < w.from
    ensures Inv(Next(s, ApplyPoll, max), w', max)
  {
    hide Polled, Updated, History, Since, IngestAll, Apart, Distinct, Earlier, WellFormed, Records, Rewinds;
    var log := s.brokers[w.from].log;
    var older := s.model.log.buffer;
    ViewEarlier(s, w, max, w.from);
    EarlierApart(s, w.(older := older), w.from);
    NewerRewinds(s, w, max);
    HistoryFits(s.brokers[w.k].log, w.read, w.older, max);
    NothingRead(log, older, max);
    PolledModel(s.model, s.reading.poll, max);
    if s.reading.cursor == 0 {
      PageExtends(log, 0, w.upto, older, max, 0);
      w' := Witness(w.from, w.upto, older, 0, 0);
    } else {
      w' := Witness(w.from, 0, older, 0, 0);
    }
  }

  /** The first page ever read. */
  lemma ApplyFirstKeeps(s: System, w: Witness, max: nat) returns (w': Witness)
    requires Inv(s, w, max) && s.reading.PageRead? && max >= 1
    requires s.model.lastEpoch.None?
    ensures Inv(Next(s, ApplyPoll, max), w', max)
  {
    hide Polled, Updated, History, Since, IngestAll, Apart, Distinct, Earlier, WellFormed, Records, Rewinds, Shown, Last;
    var log := s.brokers[w.from].log;
    FirstEarlier([], s, w.from);
    NothingRead(log, [], max);
    PolledModel(s.model, s.reading.poll, max);
    PageExtends(log, 0, w.upto, [], max, 0);
    w' := Witness(w.from, w.upto, [], 0, 0);
  }

  lemma FirstEarlier(older: seq<Entry>, s: System, k: int)
    requires older == [] && 0 <= k < |s.brokers|
    ensures Earlier(older, s.brokers, k) && Apart(older, s.brokers[k].log)
  {
  }

  lemma StepKeeps(s: System, w: Witness, event: Event, max: nat) returns (w': Witness)
    requires Inv(s, w, max) && Enabled(s, event) && max >= 1
    ensures Inv(Next(s, event, max), w', max)
  {
    w' := w;
    match event {
      case Reserve => ReserveKeeps(s, w, max);
      case Append(e) => AppendKeeps(s, w, e, max);
      case Restart(epoch) => RestartKeeps(s, w, epoch, max);
      case Tick(d) =>
      case ReadStatus =>
      case ReadLog => w' := ReadLogKeeps(s, w, max);
      case ApplyPoll =>
        if s.model.lastEpoch.None? {
          w' := ApplyFirstKeeps(s, w, max);
        } else if w.from == w.k {
          w' := ApplySameKeeps(s, w, max);
        } else {
          w' := ApplyNewKeeps(s, w, max);
        }
      case PollFails =>
    }
  }

  // ----- Runs ----------------------------------------------------------------

  ghost predicate IsRun(s: System, events: seq<Event>, t: System, max: nat)
    decreases |events|
  {
    if events == [] then s == t
    else Enabled(s, events[0]) && IsRun(Next(s, events[0], max), events[1..], t, max)
  }

  ghost predicate Reachable(s: System, max: nat) {
    exists events :: IsRun(START, events, s, max)
  }

  lemma {:induction false} RunKeeps(s: System, w: Witness, events: seq<Event>, t: System, max: nat) returns (w': Witness)
    requires Inv(s, w, max) && IsRun(s, events, t, max) && max >= 1
    ensures Inv(t, w', max)
    decreases |events|
  {
    if events == [] {
      w' := w;
    } else {
      var mid := StepKeeps(s, w, events[0], max);
      w' := RunKeeps(Next(s, events[0], max), mid, events[1..], t, max);
    }
  }

  lemma ReachableInv(s: System, max: nat) returns (w: Witness)
    requires Reachable(s, max) && max >= 1
    ensures Inv(s, w, max)
  {
    var events :| IsRun(START, events, s, max);
    w := RunKeeps(START, Witness(-1, 0, [], 0, 0), events, s, max);
  }

  /** Of a rising sequence, what is numbered up to `c`. */
  function UpTo(c: nat, s: seq<Entry>): (r: seq<Entry>)
    ensures r <= s
  {
    if s == [] || s[0].number > c then [] else [s[0]] + UpTo(c, s[1..])
  }

  /** What has been shown behind `log[i]`: the records appended after it, up to the cursor. */
  function Behind(log: seq<Entry>, i: nat, cursor: nat): seq<Entry>
    requires i < |log|
  {
    UpTo(cursor, Records(log[i].number, log[i + 1..]))
  }

  lemma {:induction false} UpToAll(c: nat, a: seq<Entry>, b: seq<Entry>)
    requires Rising(c, a) && Rising(Last(c, a), b)
    ensures UpTo(Last(c, a), a + b) == a
    decreases |a|
  {
    if a == [] {
      assert a + b == b;
    } else {
      assert (a + b)[1..] == a[1..] + b;
      RisingSplits(c, a);
      assert Last(c, a) == Last(a[0].number, a[1..]) && a[0].number <= a[|a| - 1].number;
      UpToAll(a[0].number, a[1..], b);
    }
  }

  lemma RecordsAround(a: seq<Entry>, e: Entry, near: seq<Entry>)
    requires 0 < e.number && forall k :: 0 <= k < |a| ==> a[k].number < e.number
    ensures Records(0, a + ([e] + near)) == Records(0, a) + ([e] + Records(e.number, near))
  {
    var before := Records(0, a);
    LastIsLargest(0, a);
    OneRecord(Last(0, before), e);
    hide Records;
    RecordsConcat(0, a, [e] + near);
    RecordsConcat(Last(0, before), [e], near);
  }

  /** Of the records behind `e` in all of a log, those up to the cursor are the ones read. */
  lemma RecordsRead(e: Entry, near: seq<Entry>, far: seq<Entry>)
    ensures var tail := Records(e.number, near);
            UpTo(Last(e.number, tail), Records(e.number, near + far)) == tail
  {
    var tail := Records(e.number, near);
    var top := Last(e.number, tail);
    RecordsConcat(e.number, near, far);
    hide Records, UpTo, Rising, Last;
    UpToAll(e.number, tail, Records(top, far));
  }

  /** A record that has been shown, and what has been shown before and behind it. */
  lemma RecordInside(log: seq<Entry>, n: nat, i: nat)
    requires i < n <= |log| && 0 < log[i].number && IsRecord(log, i)
    ensures Shown(log, n) == Records(0, log[..i]) + ([log[i]] + Behind(log, i, Last(0, Shown(log, n))))
  {
    var before, e, near := log[..i], log[i], log[i + 1..n];
    assert log[..n] == before + ([e] + near) && log[i + 1..] == near + log[n..];
    assert forall k :: 0 <= k < i ==> before[k] == log[k];
    hide Records, UpTo;
    RecordsAround(before, e, near);
    RecordsRead(e, near, log[n..]);
    LastBehind(Records(0, before), e, Records(e.number, near));
  }

  lemma OneRecord(c: nat, e: Entry)
    requires c < e.number
    ensures Records(c, [e]) == [e]
  {
    assert [e][1..] == [];
  }

  lemma LastBehind(before: seq<Entry>, e: Entry, tail: seq<Entry>)
    ensures Last(0, before + ([e] + tail)) == Last(e.number, tail)
  {
  }

  /** The bounded history still shows a shown record exactly when the cap has room for what was shown behind it. */
  lemma ViewHoldsIff(shown: seq<Entry>, older: seq<Entry>, max: nat, t: nat)
    requires Rising(0, shown) && t < |shown| && shown[t] !in older
    ensures shown[t] in View(shown, |shown|, older, max) <==> |shown| - t <= max
  {
    var all := Rev(shown[..|shown|]) + older;
    var view := View(shown, |shown|, older, max);
    if |shown| - t <= max {
      ViewHolds(shown, |shown|, older, max, t);
    } else {
      forall a | 0 <= a < |view| ensures view[a] != shown[t] {
        assert view[a] == all[a] == shown[|shown| - 1 - a];
      }
    }
  }

  /** What the newest broker has published that the bounded history still shows. */
  lemma HistoryHoldsIff(log: seq<Entry>, n: nat, older: seq<Entry>, max: nat, i: nat)
    requires n <= |log| && Unique(log) && Apart(older, log) && i < |log|
    requires 0 < log[i].number <= Last(0, Shown(log, n))
    ensures log[i] in History(log, n, older, max)
            <==> IsRecord(log, i) && |Behind(log, i, Last(0, Shown(log, n)))| < max
  {
    ShownIff(log, n, i);
    ApartMember(older, log, i);
    hide Records, IsRecord, Apart, Unique, Rising, View;
    var shown := Shown(log, n);
    if IsRecord(log, i) {
      PassedRead(log, n, i);
      RecordInside(log, n, i);
      ViewHoldsIff(shown, older, max, |Records(0, log[..i])|);
    } else if log[i] in History(log, n, older, max) {
      InHistory(log, n, older, max, log[i]);
    }
  }

  lemma PassedRead(log: seq<Entry>, n: nat, i: nat)
    requires n <= |log| && i < |log| && IsRecord(log, i)
    requires 0 < log[i].number <= Last(0, Shown(log, n))
    ensures i < n
  {
    LastIsLargest(0, log[..n]);
    hide Records;
    var top :| 0 <= top < n && log[..n][top].number == Last(0, Shown(log, n));
    assert log[top].number >= log[i].number;
  }

  /** Among the entries the cursor can have passed, the shown ones are those appended in number order. */
  lemma ShownIff(log: seq<Entry>, n: nat, i: nat)
    requires n <= |log| && Unique(log) && i < |log|
    requires 0 < log[i].number <= Last(0, Shown(log, n))
    ensures log[i] in Shown(log, n) <==> IsRecord(log, i)
    ensures Rising(0, Shown(log, n))
  {
    hide Records;
    LastIsLargest(0, log[..n]);
    if i < n {
      assert IsRecord(log[..n], i) <==> IsRecord(log, i);
      RecordIff(0, log[..n], i);
    } else {
      var top :| 0 <= top < n && log[..n][top].number == Last(0, Shown(log, n));
      assert log[top].number > log[i].number;
      assert forall k :: 0 <= k < n ==> log[..n][k] == log[k] && log[k] != log[i];
    }
  }

  lemma ApartMember(older: seq<Entry>, log: seq<Entry>, i: nat)
    requires Apart(older, log) && i < |log|
    ensures log[i] !in older
  {
    assert Same(log[i], log[i]);
  }

  /**
   Which messages polling shows. In every reachable state, wherever restarts
   fell and in whatever order publishers appended, an entry of the incarnation
   named by the last epoch that the cursor has passed is held exactly when
   every entry appended before it has a smaller number, and the cap has room
   for what has been shown behind it.
   */
  lemma LosslessIff(s: System, max: nat, k: nat, i: nat)
    requires Reachable(s, max) && max >= 1
    requires k < |s.brokers| && s.model.lastEpoch == Some(s.brokers[k].epoch)
    requires i < |s.brokers[k].log| && s.brokers[k].log[i].number <= s.model.log.cursor
    ensures s.brokers[k].log[i] in s.model.log.buffer
            <==> IsRecord(s.brokers[k].log, i) && |Behind(s.brokers[k].log, i, s.model.log.cursor)| < max
  {
    var w := ReachableInv(s, max);
    assert w.k == k;
    EarlierApart(s, w, k);
    assert HandedOut(s.brokers[k]);
    hide History, Shown, IsRecord, Apart, Records, Behind;
    HistoryHoldsIff(s.brokers[k].log, w.read, w.older, max, i);
  }

  lemma {:induction false} RunSnoc(s: System, events: seq<Event>, t: System, e: Event, max: nat)
    requires IsRun(s, events, t, max) && Enabled(t, e)
    ensures IsRun(s, events + [e], Next(t, e, max), max)
    decreases |events|
  {
    var longer := events + [e];
    if events == [] {
      assert longer[1..] == [];
    } else {
      assert longer[1..] == events[1..] + [e];
      RunSnoc(Next(s, events[0], max), events[1..], t, e, max);
    }
  }

  lemma ReachableStep(s: System, e: Event, max: nat) returns (t: System)
    requires Reachable(s, max) && Enabled(s, e)
    ensures t == Next(s, e, max) && Reachable(t, max)
  {
    var events :| IsRun(START, events, s, max);
    RunSnoc(START, events, s, e, max);
    t := Next(s, e, max);
  }

  /** A broker with two publishers that have their numbers. */
  lemma TwoPublishers(max: nat) returns (s: System)
    ensures Reachable(s, max) && s == System([Incarnation(5, [], 2, {1, 2})], 0, INITIAL, Idle)
  {
    assert IsRun(START, [], START, max);
    hide IsRun, Reachable;
    assert {} + {1} == {1} && {1} + {2} == {1, 2};
    s := ReachableStep(START, Restart(5), max);
    assert s.brokers == [Incarnation(5, [], 0, {})];
    s := ReachableStep(s, Reserve, max);
    assert s.brokers == [Incarnation(5, [], 1, {1})];
    s := ReachableStep(s, Reserve, max);
    assert s.brokers == [Incarnation(5, [], 2, {1, 2})];
  }

  /** The second publisher appends first, and a poll comes. */
  lemma SecondRead(b: Entry, max: nat) returns (s: System)
    requires max >= 1 && b.number == 2
    ensures Reachable(s, max) && s.brokers == [Incarnation(5, [b], 2, {1})] && s.reading.Idle?
    ensures s.model.lastEpoch == Some(5) && s.model.log == LogState([b], 2)
  {
    s := TwoPublishers(max);
    hide Reachable, Polled, IngestAll, Since;
    assert {1, 2} - {2} == {1} && [] + [b] == [b];
    s := ReachableStep(s, Append(b), max);
    assert s.brokers == [Incarnation(5, [b], 2, {1})];
    s := ReachableStep(s, ReadStatus, max);
    s := ReachableStep(s, ReadLog, max);
    PageOfOne(b);
    PolledModel(s.model, s.reading.poll, max);
    IngestedOne(b, max);
    s := ReachableStep(s, ApplyPoll, max);
  }

  /** Entry 1 appended behind entry 2, after a poll has read 2: reachable, passed by the cursor, and not held. */
  lemma LateAppendLost(max: nat) returns (s: System)
    requires max >= 1
    ensures Reachable(s, max)
    ensures s.brokers == [Incarnation(5, [Entry(2, 7, "b"), Entry(1, 7, "a")], 2, {})]
    ensures s.model.lastEpoch == Some(5) && s.model.log == LogState([Entry(2, 7, "b")], 2)
  {
    var b, a := Entry(2, 7, "b"), Entry(1, 7, "a");
    s := SecondRead(b, max);
    hide Reachable;
    assert {1} - {1} == {} && [b] + [a] == [b, a];
    s := ReachableStep(s, Append(a), max);
    assert s.brokers == [Incarnation(5, [b, a], 2, {})];
  }

  lemma PageOfOne(e: Entry)
    requires e.number > 0
    ensures Since([e], 0) == [e]
  {
    assert Since([e][1..], 0) == [];
  }

  lemma IngestedOne(e: Entry, max: nat)
    requires e.number > 0 && max >= 1
    ensures IngestAll(LogState([], 0), [e], max) == LogState([e], e.number)
  {
    assert [e] + [] == [e];
    assert IngestOne(LogState([], 0), e, max) == LogState([e], e.number);
    assert IngestAll(LogState([e], e.number), [], max) == LogState([e], e.number);
  }

  /** With messages appended in number order, polling loses nothing but what newer messages push out of the cap. */
  lemma Lossless(s: System, max: nat, k: nat, i: nat)
    requires Reachable(s, max) && max >= 1
    requires k < |s.brokers| && s.model.lastEpoch == Some(s.brokers[k].epoch)
    requires Rising(0, s.brokers[k].log) && i < |s.brokers[k].log|
    requires s.brokers[k].log[i].number <= s.model.log.cursor
    ensures s.brokers[k].log[i] in s.model.log.buffer
            <==> |UpTo(s.model.log.cursor, s.brokers[k].log[i + 1..])| < max
  {
    var log := s.brokers[k].log;
    LosslessIff(s, max, k, i);
    RecordsAllIff(log[i].number, log[i + 1..]);
  }

  /** The cursor is 0 or the number of a published message of the broker it belongs to. */
  lemma CursorInsideLog(s: System, max: nat, k: nat)
    requires Reachable(s, max) && max >= 1
    requires k < |s.brokers| && s.model.lastEpoch == Some(s.brokers[k].epoch)
    ensures s.model.log.cursor <= s.brokers[k].handed
    ensures s.model.log.cursor == 0
            || exists i :: 0 <= i < |s.brokers[k].log| && s.brokers[k].log[i].number == s.model.log.cursor
  {
    var w := ReachableInv(s, max);
    assert w.k == k;
    var log := s.brokers[k].log;
    LastIsLargest(0, log[..w.read]);
    assert HandedOut(s.brokers[k]);
    if s.model.log.cursor != 0 {
      var i :| 0 <= i < w.read && log[..w.read][i].number == s.model.log.cursor;
      assert log[i].number == s.model.log.cursor;
    }
  }

  lemma StepKeepsDistinct(s: System, event: Event, max: nat)
    requires Enabled(s, event) && Distinct(s.model.log.buffer) && |s.model.log.buffer| <= max
    ensures Distinct(Next(s, event, max).model.log.buffer) && |Next(s, event, max).model.log.buffer| <= max
  {
    hide IngestAll, Distinct, Since;
    if event.ApplyPoll? {
      IngestKeepsDistinct(LogState(s.model.log.buffer, 0), s.reading.poll.entries, max);
      IngestKeepsDistinct(s.model.log, s.reading.poll.entries, max);
    }
  }

  lemma {:induction false} RunKeepsDistinct(s: System, events: seq<Event>, t: System, max: nat)
    requires IsRun(s, events, t, max)
    requires Distinct(s.model.log.buffer) && |s.model.log.buffer| <= max
    ensures Distinct(t.model.log.buffer) && |t.model.log.buffer| <= max
    decreases |events|
  {
    hide Distinct, IngestAll, Held;
    if events != [] {
      StepKeepsDistinct(s, events[0], max);
      RunKeepsDistinct(Next(s, events[0], max), events[1..], t, max);
    }
  }

  /** No message is ever shown twice. */
  lemma HeldOnce(s: System, max: nat)
    requires Reachable(s, max)
    ensures Distinct(s.model.log.buffer)
  {
    var events :| IsRun(START, events, s, max);
    RunKeepsDistinct(START, events, s, max);
  }

  // ----- Convergence ---------------------------------------------------------

  /** A whole poll of a broker that publishes nothing meanwhile and reports `uptime`. */
  function PollOnce(s: System, uptime: nat, max: nat): System
    requires s.brokers != [] && s.reading.Idle? && s.uptime <= uptime
  {
    var ticked := Next(s, Tick(uptime - s.uptime), max);
    Next(Next(Next(ticked, ReadStatus, max), ReadLog, max), ApplyPoll, max)
  }

  /** The largest number in a log, 0 when it is empty. */
  function Top(log: seq<Entry>): nat {
    Last(0, Records(0, log))
  }

  /** Held are exactly the messages appended in number order that the cap has room for. */
  ghost predicate HoldsNewest(log: seq<Entry>, buffer: seq<Entry>, max: nat) {
    forall i :: 0 <= i < |log| ==>
      (log[i] in buffer <==> IsRecord(log, i) && |Behind(log, i, Top(log))| < max)
  }

  /** The dashboard shows all of the live log it ever will and the cap allows, and its cursor is at the end. */
  ghost predicate CaughtUp(s: System, max: nat) {
    s.brokers != [] &&
    var log := s.brokers[|s.brokers| - 1].log;
    && s.model.log.cursor == Top(log)
    && HoldsNewest(log, s.model.log.buffer, max)
    && Distinct(s.model.log.buffer)
  }

  predicate RisesFrom(u: nat, us: seq<nat>)
    decreases |us|
  {
    us == [] || (u <= us[0] && RisesFrom(us[0], us[1..]))
  }

  /** Whole polls of one broker, one after the other, at these uptimes. */
  function PollAll(s: System, us: seq<nat>, max: nat): System
    requires s.brokers != [] && s.reading.Idle? && RisesFrom(s.uptime, us)
    decreases |us|
  {
    if us == [] then s else
      PollOnceIs(s, us[0], max);
      PollAll(PollOnce(s, us[0], max), us[1..], max)
  }

  /** However often and whenever the broker is polled on, neither the history nor the cursor changes. */
  ghost predicate Steady(s: System, max: nat) {
    && s.brokers != [] && s.reading.Idle?
    && forall us :: RisesFrom(s.uptime, us) ==> PollAll(s, us, max).model.log == s.model.log
  }

  /** The state of a whole poll just before its page is applied. */
  function PollRead(s: System, uptime: nat): System
    requires s.brokers != []
  {
    var live := s.brokers[|s.brokers| - 1];
    var c := s.model.log.cursor;
    s.(uptime := uptime, reading := PageRead(c, Poll(uptime, live.epoch, Since(live.log, c))))
  }

  lemma PollOnceIs(s: System, uptime: nat, max: nat)
    requires s.brokers != [] && s.reading.Idle? && s.uptime <= uptime
    ensures var live, c := s.brokers[|s.brokers| - 1], s.model.log.cursor;
            PollOnce(s, uptime, max) ==
            s.(uptime := uptime, model := Polled(s.model, c, Poll(uptime, live.epoch, Since(live.log, c)), max))
  {
    hide Polled, Updated, Since;
  }

  lemma PollReads(s: System, w: Witness, uptime: nat, max: nat) returns (w': Witness)
    requires Inv(s, w, max) && s.brokers != [] && s.reading.Idle? && s.uptime <= uptime
    ensures Inv(PollRead(s, uptime), w', max) && w'.from == |s.brokers| - 1
    ensures PollOnce(s, uptime, max) == Next(PollRead(s, uptime), ApplyPoll, max)
  {
    var n := |s.brokers| - 1;
    w' := w.(from := n, upto := |s.brokers[n].log|);
    assert s.brokers[n].log[..|s.brokers[n].log|] == s.brokers[n].log;
  }

  lemma CursorWithin(s: System, w: Witness, max: nat)
    requires Inv(s, w, max) && s.brokers != []
    ensures s.model.lastEpoch.None? ==> s.model.log.cursor == 0
    ensures s.model.lastEpoch == Some(s.brokers[|s.brokers| - 1].epoch) ==>
              s.model.log.cursor <= Top(s.brokers[|s.brokers| - 1].log)
    ensures s.brokers[|s.brokers| - 1].epoch != 0
  {
    var n := |s.brokers| - 1;
    hide Records, Top, HandedOut, History, Earlier;
    if s.model.lastEpoch == Some(s.brokers[n].epoch) {
      assert w.k == n;
      TopGrows(s.brokers[n].log, w.read);
    }
  }

  lemma TopGrows(log: seq<Entry>, n: nat)
    requires n <= |log|
    ensures Last(0, Shown(log, n)) <= Top(log)
  {
    LastIsLargest(0, log);
    LastIsLargest(0, log[..n]);
    hide Records;
    if Last(0, Shown(log, n)) > 0 {
      var i :| 0 <= i < n && log[..n][i].number == Last(0, Shown(log, n));
      assert log[i].number <= Top(log);
    }
  }

  /** After a poll the dashboard knows the live epoch, and its cursor is at 0 or at the end. */
  lemma AfterPoll(s: System, w: Witness, uptime: nat, max: nat) returns (w': Witness)
    requires Inv(s, w, max) && max >= 1 && s.brokers != [] && s.reading.Idle? && s.uptime <= uptime
    ensures var t := PollOnce(s, uptime, max);
            var n := |s.brokers| - 1;
            && Inv(t, w', max) && t.brokers == s.brokers && t.reading.Idle? && t.uptime == uptime
            && t.model.lastEpoch == Some(s.brokers[n].epoch) && t.model.lastUptime == Some(uptime)
            && (t.model.log.cursor == 0 || t.model.log.cursor == Top(s.brokers[n].log))
            && (s.model.log.cursor == 0 ==> t.model.log.cursor == Top(s.brokers[n].log))
  {
    var n := |s.brokers| - 1;
    var log := s.brokers[n].log;
    var w1 := PollReads(s, w, uptime, max);
    w' := StepKeeps(PollRead(s, uptime), w1, ApplyPoll, max);
    PollOnceIs(s, uptime, max);
    CursorWithin(s, w, max);
    hide PollOnce, Next, Polled, Updated, Inv, IngestAll, Since, Top;
    PolledCursor(s.model, Poll(uptime, s.brokers[n].epoch, Since(log, s.model.log.cursor)), log, max);
  }

  lemma PolledCursor(m: ModelState, poll: Poll, log: seq<Entry>, max: nat)
    requires poll.entries == Since(log, m.log.cursor) && poll.epoch != 0
    requires m.lastEpoch.None? ==> m.log.cursor == 0
    requires m.lastEpoch == Some(poll.epoch) ==> m.log.cursor <= Top(log)
    ensures var t := Polled(m, m.log.cursor, poll, max);
            && t.lastEpoch == Some(poll.epoch) && t.lastUptime == Some(poll.uptime)
            && (t.log.cursor == 0 || t.log.cursor == Top(log))
            && (m.log.cursor == 0 ==> t.log.cursor == Top(log))
  {
    var c := m.log.cursor;
    PolledModel(m, poll, max);
    IngestRecords(m.log, poll.entries, max);
    RecordsSince(c, c, log);
    LastIsLargest(c, log);
    LastIsLargest(0, log);
    hide Polled, IngestAll, Records, Since;
  }

  /**
   Convergence. Two whole polls after the last restart, whatever the uptime
   did, leave the cursor at the largest number of the live log and, of its
   entries, exactly those appended in number order that the cap has room for
   in the history, once each; and further polls, however many, change nothing.
   */
  lemma Converges(s: System, u1: nat, u2: nat, max: nat)
    requires Reachable(s, max) && max >= 1 && s.brokers != [] && s.reading.Idle?
    requires s.uptime <= u1 <= u2
    ensures CaughtUp(PollOnce(PollOnce(s, u1, max), u2, max), max)
    ensures Steady(PollOnce(PollOnce(s, u1, max), u2, max), max)
  {
    var w0 := ReachableInv(s, max);
    HeldOnce(s, max);
    hide Inv, PollOnce, Reachable, Distinct, Top, CaughtUp, Steady;
    var w1 := AfterPoll(s, w0, u1, max);
    PollKeepsDistinct(s, u1, max);
    SecondPoll(PollOnce(s, u1, max), w1, u2, max);
  }

  lemma SecondPoll(t: System, w: Witness, uptime: nat, max: nat)
    requires Inv(t, w, max) && max >= 1 && t.brokers != [] && t.reading.Idle? && t.uptime <= uptime
    requires Distinct(t.model.log.buffer) && |t.model.log.buffer| <= max
    requires t.model.lastEpoch == Some(t.brokers[|t.brokers| - 1].epoch) && t.model.lastUptime == Some(t.uptime)
    requires t.model.log.cursor == 0 || t.model.log.cursor == Top(t.brokers[|t.brokers| - 1].log)
    ensures CaughtUp(PollOnce(t, uptime, max), max) && Steady(PollOnce(t, uptime, max), max)
  {
    hide Inv, PollOnce, Distinct, Top, HoldsNewest, PollAll;
    var w' := AfterPoll(t, w, uptime, max);
    var r := PollOnce(t, uptime, max);
    PollKeepsDistinct(t, uptime, max);
    if t.model.log.cursor != 0 {
      SettledPoll(t, w, uptime, max);
    }
    ShownAtEnd(r, w', max);
    forall us | RisesFrom(r.uptime, us) ensures PollAll(r, us, max).model.log == r.model.log {
      SteadyPolls(r, w', us, max);
    }
  }

  lemma {:induction false} SteadyPolls(s: System, w: Witness, us: seq<nat>, max: nat)
    requires Inv(s, w, max) && max >= 1 && s.brokers != [] && s.reading.Idle? && RisesFrom(s.uptime, us)
    requires s.model.lastEpoch == Some(s.brokers[|s.brokers| - 1].epoch)
    requires s.model.lastUptime == Some(s.uptime)
    requires s.model.log.cursor == Top(s.brokers[|s.brokers| - 1].log)
    ensures PollAll(s, us, max).model.log == s.model.log
    decreases |us|
  {
    hide Inv, PollOnce, Top;
    if us != [] {
      SettledPoll(s, w, us[0], max);
      var w' := AfterPoll(s, w, us[0], max);
      SteadyPolls(PollOnce(s, us[0], max), w', us[1..], max);
    }
  }

  /** With the cursor at the end of the live log, all that is ever shown of it and the cap allows is held. */
  lemma ShownAtEnd(s: System, w: Witness, max: nat)
    requires Inv(s, w, max) && s.brokers != []
    requires s.model.lastEpoch == Some(s.brokers[|s.brokers| - 1].epoch)
    requires s.model.log.cursor == Top(s.brokers[|s.brokers| - 1].log)
    ensures HoldsNewest(s.brokers[|s.brokers| - 1].log, s.model.log.buffer, max)
  {
    var n := |s.brokers| - 1;
    var log := s.brokers[n].log;
    assert w.k == n;
    EarlierApart(s, w, n);
    assert HandedOut(s.brokers[n]);
    LastIsLargest(0, log);
    hide History, Shown, IsRecord, Apart, Records, Behind;
    forall i | 0 <= i < |log|
      ensures log[i] in s.model.log.buffer <==> IsRecord(log, i) && |Behind(log, i, Top(log))| < max
    {
      HistoryHoldsIff(log, w.read, w.older, max, i);
    }
  }

  lemma PollKeepsDistinct(s: System, uptime: nat, max: nat)
    requires s.brokers != [] && s.reading.Idle? && s.uptime <= uptime
    requires Distinct(s.model.log.buffer) && |s.model.log.buffer| <= max
    ensures Distinct(PollOnce(s, uptime, max).model.log.buffer)
    ensures |PollOnce(s, uptime, max).model.log.buffer| <= max
  {
    hide IngestAll, Distinct, Since;
    var log := s.brokers[|s.brokers| - 1].log;
    IngestKeepsDistinct(LogState(s.model.log.buffer, 0), Since(log, s.model.log.cursor), max);
    IngestKeepsDistinct(s.model.log, Since(log, s.model.log.cursor), max);
  }

  /** Once the live epoch is known and the uptime only grows, a poll rewinds nothing. */
  lemma SettledPoll(s: System, w: Witness, uptime: nat, max: nat)
    requires Inv(s, w, max) && s.brokers != [] && s.reading.Idle? && s.uptime <= uptime
    requires s.model.lastEpoch == Some(s.brokers[|s.brokers| - 1].epoch)
    requires s.model.lastUptime == Some(s.uptime)
    requires s.model.log.cursor == Top(s.brokers[|s.brokers| - 1].log)
    ensures PollOnce(s, uptime, max).model.log == s.model.log
  {
    var live := s.brokers[|s.brokers| - 1];
    LastIsLargest(0, live.log);
    NoneAbove(s.model.log.cursor, live.log);
    PollOnceIs(s, uptime, max);
    hide Records, Since, Polled, Updated, WellFormed, Observed, PollOnce, Next;
    PolledModel(s.model, Poll(uptime, live.epoch, []), max);
  }
}
