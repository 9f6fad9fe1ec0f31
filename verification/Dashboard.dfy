/**
 The dashboard's model and update, and its wake-up: one poll of the broker
 turned into messages.
 */
module Dashboard {
  import opened Wrappers
  import opened BrokerLog

  datatype Msg =
    | Key(claimedByPanel: bool, code: char)
    | Snapshot(uptime: Option<nat>)
    | BrokerUnreachable
    | LogEpoch(epoch: nat)
    | BrokerDisabled
    | BrokerIngest(entries: seq<Entry>)

  /** One answered poll: the status read's uptime, then the log read's epoch and entries. */
  datatype Poll = Poll(uptime: nat, epoch: nat, entries: seq<Entry>)

  // ----- The specification of update -------------------------------------

  datatype ModelState = ModelState(
    log: LogState,
    quit: bool,
    unreachable: bool,
    lastUptime: Option<nat>,
    lastEpoch: Option<nat>,
    disabled: bool)

  const INITIAL := ModelState(LogState([], 0), false, false, None, None, false)

  function Rewound(m: ModelState): ModelState {
    m.(log := LogState(m.log.buffer, 0))
  }

  function Updated(m: ModelState, msg: Msg, max: nat): ModelState {
    match msg
    case Key(claimed, code) => if !claimed && code == 'q' then m.(quit := true) else m
    case Snapshot(uptime) =>
      var seen := m.(unreachable := false);
      if uptime.None? then seen
      else
        var rewound := if m.lastUptime.Some? && uptime.value < m.lastUptime.value then Rewound(seen) else seen;
        rewound.(lastUptime := uptime)
    case BrokerUnreachable => m.(unreachable := true)
    case LogEpoch(epoch) =>
      var rewound := if epoch != 0 && m.lastEpoch.Some? && m.lastEpoch.value != epoch then Rewound(m) else m;
      rewound.(lastEpoch := Some(epoch))
    case BrokerDisabled => m.(disabled := true)
    case BrokerIngest(entries) => m.(log := IngestAll(m.log, entries, max))
  }

  /** What an answered poll, asked past `cursor`, does to the model. */
  function Polled(m: ModelState, cursor: nat, poll: Poll, max: nat): ModelState {
    var seen := Updated(Updated(m, Snapshot(Some(poll.uptime)), max), LogEpoch(poll.epoch), max);
    if cursor == 0 || seen.log.cursor == cursor then Updated(seen, BrokerIngest(poll.entries), max) else seen
  }

  class Model {
    const brokerLog: RingLog
    var quit: bool
    var brokerUnreachable: bool
    var lastUptime: Option<nat>
    var lastEpoch: Option<nat>
    var brokerDisabled: bool

    constructor (maxMessages: nat, defaultVisible: bool)
      ensures fresh(brokerLog) && State() == INITIAL
      ensures brokerLog.max == if maxMessages == 0 then 1 else maxMessages
    {
      brokerLog := new RingLog(maxMessages, defaultVisible);
      quit, brokerUnreachable, brokerDisabled := false, false, false;
      lastUptime, lastEpoch := None, None;
    }

    function State(): ModelState
      reads this, brokerLog
    {
      ModelState(brokerLog.State(), quit, brokerUnreachable, lastUptime, lastEpoch, brokerDisabled)
    }

    method Update(msg: Msg)
      modifies this, brokerLog
      ensures State() == Updated(old(State()), msg, brokerLog.max)
    {
      match msg {
        case Key(claimed, code) =>
          if !claimed && code == 'q' {
            quit := true;
          }
        case Snapshot(uptime) =>
          brokerUnreachable := false;
          if uptime.Some? {
            if lastUptime.Some? && uptime.value < lastUptime.value {
              brokerLog.RewindCursor();
            }
            lastUptime := uptime;
          }
        case BrokerIngest(entries) =>
          brokerLog.Ingest(entries);
        case BrokerUnreachable =>
          brokerUnreachable := true;
        case LogEpoch(epoch) =>
          if epoch != 0 && lastEpoch.Some? && lastEpoch.value != epoch {
            brokerLog.RewindCursor();
          }
          lastEpoch := Some(epoch);
        case BrokerDisabled =>
          brokerDisabled := true;
      }
    }

    /** The poll part of one wake-up; `answer` is what the broker said to a poll past the current cursor. */
    method WakeUp(answer: Option<Poll>)
      modifies this, brokerLog
      ensures answer.Some? ==> State() == Polled(old(State()), old(State()).log.cursor, answer.value, brokerLog.max)
      ensures answer.None? && old(brokerDisabled) ==> State() == old(State())
      ensures answer.None? && !old(brokerDisabled) ==> State() == old(State()).(unreachable := true)
    {
      var cursor := brokerLog.lastSeq;
      if answer.Some? {
        var poll := answer.value;
        Update(Snapshot(Some(poll.uptime)));
        Update(LogEpoch(poll.epoch));
        if cursor == 0 || brokerLog.lastSeq == cursor {
          Update(BrokerIngest(poll.entries));
        }
      } else if !brokerDisabled {
        Update(BrokerUnreachable);
      }
    }
  }

  // ----- Over a whole run of messages ----------------------------------------------------

  function After(m: ModelState, msgs: seq<Msg>, max: nat): ModelState
    decreases |msgs|
  {
    if msgs == [] then m else After(Updated(m, msgs[0], max), msgs[1..], max)
  }

  lemma {:induction false} AfterConcat(m: ModelState, a: seq<Msg>, b: seq<Msg>, max: nat)
    ensures After(m, a + b, max) == After(After(m, a, max), b, max)
    decreases |a|
  {
    if a == [] {
      assert a + b == b;
    } else {
      assert (a + b)[0] == a[0] && (a + b)[1..] == a[1..] + b;
      AfterConcat(Updated(m, a[0], max), a[1..], b, max);
    }
  }

  /** The dashboard has quit if and only if the panel left it a `q`, and shows no broker if and only if it was told there is none. */
  lemma {:induction false} QuitIff(m: ModelState, msgs: seq<Msg>, max: nat)
    ensures After(m, msgs, max).quit <==> m.quit || Key(false, 'q') in msgs
    ensures After(m, msgs, max).disabled <==> m.disabled || BrokerDisabled in msgs
    decreases |msgs|
  {
    if msgs != [] {
      QuitIff(Updated(m, msgs[0], max), msgs[1..], max);
      assert forall x :: x in msgs <==> x == msgs[0] || x in msgs[1..];
    }
  }

  /** What no later message of its kind overwrites stays: the indicator, the uptime and the epoch last seen. */
  lemma {:induction false} StaysSeen(m: ModelState, msgs: seq<Msg>, max: nat)
    ensures (forall x :: x in msgs ==> !x.Snapshot? && !x.BrokerUnreachable?) ==> After(m, msgs, max).unreachable == m.unreachable
    ensures (forall x :: x in msgs ==> x.Snapshot? ==> x.uptime == None) ==> After(m, msgs, max).lastUptime == m.lastUptime
    ensures (forall x :: x in msgs ==> !x.LogEpoch?) ==> After(m, msgs, max).lastEpoch == m.lastEpoch
    decreases |msgs|
  {
    if msgs != [] {
      StaysSeen(Updated(m, msgs[0], max), msgs[1..], max);
      assert forall x :: x in msgs[1..] ==> x in msgs;
      assert msgs[0] in msgs;
    }
  }

  /**
   The indicator shows the last word on the broker: it is on if and only if
   the last snapshot or failure was a failure. The uptime and the epoch are the
   last ones reported.
   */
  lemma LastWord(m: ModelState, before: seq<Msg>, last: Msg, behind: seq<Msg>, max: nat)
    ensures var end := After(m, before + [last] + behind, max);
            && ((last.Snapshot? || last.BrokerUnreachable?) && (forall x :: x in behind ==> !x.Snapshot? && !x.BrokerUnreachable?)
                ==> (end.unreachable <==> last.BrokerUnreachable?))
            && (last.Snapshot? && last.uptime.Some? && (forall x :: x in behind ==> x.Snapshot? ==> x.uptime == None)
                ==> end.lastUptime == last.uptime)
            && (last.LogEpoch? && (forall x :: x in behind ==> !x.LogEpoch?) ==> end.lastEpoch == Some(last.epoch))
  {
    AfterConcat(m, before + [last], behind, max);
    AfterConcat(m, before, [last], max);
    assert [last][1..] == [];
    StaysSeen(After(m, before + [last], max), behind, max);
  }

  /** Nothing but a page changes the history, and nothing but a page or a restart signal the cursor. */
  lemma {:induction false} CursorKept(m: ModelState, msgs: seq<Msg>, max: nat)
    requires forall x :: x in msgs ==> !x.BrokerIngest?
    ensures After(m, msgs, max).log.buffer == m.log.buffer
    ensures After(m, msgs, max).log.cursor == m.log.cursor || After(m, msgs, max).log.cursor == 0
    ensures (forall x :: x in msgs ==> !(x.Snapshot? && x.uptime.Some?) && !(x.LogEpoch? && x.epoch != 0))
            ==> After(m, msgs, max).log == m.log
    decreases |msgs|
  {
    if msgs != [] {
      assert msgs[0] in msgs && forall x :: x in msgs[1..] ==> x in msgs;
      CursorKept(Updated(m, msgs[0], max), msgs[1..], max);
    }
  }

  /**
   A status or an epoch report rewinds the cursor if and only if it gives away
   a restart: an uptime below the last one seen, or an epoch that is not 0 and
   not the last one seen.
   */
  lemma RewindsIff(m: ModelState, msg: Msg, max: nat)
    requires m.log.cursor != 0 && !msg.BrokerIngest?
    ensures Updated(m, msg, max).log.cursor == 0
            <==> || (exists u, v :: msg == Snapshot(Some(u)) && m.lastUptime == Some(v) && u < v)
                 || (exists e, f :: msg == LogEpoch(e) && e != 0 && m.lastEpoch == Some(f) && e != f)
  {
    if msg.Snapshot? && msg.uptime.Some? { assert msg == Snapshot(Some(msg.uptime.value)); }
    if msg.LogEpoch? { assert msg == LogEpoch(msg.epoch); }
    if m.lastUptime.Some? { assert m.lastUptime == Some(m.lastUptime.value); }
    if m.lastEpoch.Some? { assert m.lastEpoch == Some(m.lastEpoch.value); }
  }
}
