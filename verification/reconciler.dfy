/**
 * One polling cycle: fetch the lab state, compare it with the newest log row,
 * and either do nothing, seed the log, or record the change and notify every
 * subscriber. The pure function CycleSpec is the specification; the method
 * Reconcile performs the cycle on a Database and is proved to agree with it.
 */
module Reconciler {
  import opened Wrappers
  import opened LabState
  import opened Attribution
  import opened Messages
  import opened Store
  import opened Notifier

  /** The clock readings a cycle uses: the instant, its two display forms and the stored timestamp. */
  datatype Clock = Clock(now: int, timeOfDay: string, date: string, stamp: string)

  /** Configuration: the attribution window in seconds and the offset appended to history times. */
  datatype Config = Config(window: int, offset: string)

  /** Everything from outside the process that one cycle depends on. */
  datatype Inputs = Inputs(
    fetched: StateFetch,
    history: HistoryFetch,
    faults: Faults,
    clock: Clock,
    config: Config,
    parse: string -> Option<int>,   // parsing of a timestamp with offset into ticks
    sendOk: int -> bool)            // whether a send to a chat id succeeds

  /** Why a cycle stopped early (each is a panic of the polling task). */
  datatype Abort = MalformedState | InsertFailed | MalformedHistory | SelectFailed

  /** How a cycle ended. */
  datatype Step =
    | Unchanged
    | Seeded
    | Notified(message: string, attempts: seq<Delivery>)
    | Aborted(reason: Abort)

  /** The three ways a cycle can go once the state is known. */
  datatype Decision = Seed | Keep | Change

  /** No last status: seed; the same status: keep; a different one: change. */
  function Decide(last: Option<bool>, current: bool): (d: Decision)
    ensures d == Seed <==> last.None?
    ensures d == Keep <==> last == Some(current)
    ensures d == Change <==> last.Some? && last.value != current
  {
    match last
    case None => Seed
    case Some(status) => if status == current then Keep else Change
  }

  /** The status of the newest row, if there is one. */
  function LastOf(logs: seq<Log>): (last: Option<bool>)
    ensures last.Some? <==> logs != []
  {
    if logs == [] then None else Some(logs[|logs| - 1].status)
  }

  /** The attributed actor, for a history that deserialised. */
  function ActorOf(history: HistoryFetch, config: Config, parse: string -> Option<int>, now: int): (actor: Option<string>)
    requires !history.HistoryMalformed?
    ensures history.HistoryUnreachable? ==> actor == None
    ensures actor.Some? ==> history.HistoryBody? && history.entries != [] && actor.value == history.entries[0].user
  {
    match history
    case HistoryUnreachable => None
    case HistoryBody(entries) => Attribute(entries, config.offset, parse, now, config.window)
  }

  /** The outcome of a cycle together with the log table and its sequence afterwards. */
  datatype Cycle = Cycle(outcome: Step, logs: seq<Log>, logSeq: int)

  /** One cycle over the log table `logs` (with sequence `logSeq`) and the subscribers `users`. */
  function CycleSpec(logs: seq<Log>, logSeq: int, users: seq<User>, input: Inputs): (c: Cycle)
    ensures |logs| <= |c.logs| <= |logs| + 1 && c.logs[..|logs|] == logs
    ensures c.logSeq == logSeq + (|c.logs| - |logs|)
    ensures |c.logs| == |logs| + 1 ==>
              !input.fetched.MalformedPayload? && c.logs[|logs|] == Log(logSeq + 1, CurrentStatus(input.fetched), input.clock.stamp)
    ensures c.outcome.Notified? || c.outcome == Seeded ==> |c.logs| == |logs| + 1
    ensures c.outcome == Unchanged ==> c.logs == logs
  {
    if input.fetched.MalformedPayload? then Cycle(Aborted(MalformedState), logs, logSeq)
    else
      var current := CurrentStatus(input.fetched);
      var last := if input.faults.lastReadFails then None else LastOf(logs);
      var appended := logs + [Log(logSeq + 1, current, input.clock.stamp)];
      match Decide(last, current)
      case Keep => Cycle(Unchanged, logs, logSeq)
      case Seed =>
        if input.faults.insertFails then Cycle(Aborted(InsertFailed), logs, logSeq)
        else Cycle(Seeded, appended, logSeq + 1)
      case Change =>
        if input.faults.insertFails then Cycle(Aborted(InsertFailed), logs, logSeq)
        else if input.history.HistoryMalformed? then Cycle(Aborted(MalformedHistory), appended, logSeq + 1)
        else
          var actor := ActorOf(input.history, input.config, input.parse, input.clock.now);
          var message := Render(current, actor, input.clock.timeOfDay, input.clock.date);
          if input.faults.selectFails then Cycle(Aborted(SelectFailed), appended, logSeq + 1)
          else Cycle(Notified(message, FanOut(users, message, input.sendOk)), appended, logSeq + 1)
  }

  /** Performs one cycle on `db`; the log table changes as CycleSpec says and the users do not. */
  method Reconcile(db: Database, input: Inputs) returns (outcome: Step)
    requires db.Valid()
    modifies db
    ensures db.Valid()
    ensures db.users == old(db.users) && db.userSeq == old(db.userSeq)
    ensures var c := CycleSpec(old(db.logs), old(db.logSeq), old(db.users), input);
            outcome == c.outcome && db.logs == c.logs && db.logSeq == c.logSeq
  {
    if input.fetched.MalformedPayload? {
      return Aborted(MalformedState);
    }
    var current := false;
    if input.fetched.Payload? {
      current := input.fetched.id == 1;
    }
    var last := db.LastStatus(input.faults.lastReadFails);
    match last {
      case Some(row) =>
        if row.status == current {
          return Unchanged;
        }
        var inserted := db.InsertStatus(current, input.clock.stamp, input.faults.insertFails);
        if !inserted {
          return Aborted(InsertFailed);
        }
        if input.history.HistoryMalformed? {
          return Aborted(MalformedHistory);
        }
        var actor := ActorOf(input.history, input.config, input.parse, input.clock.now);
        var message := Render(current, actor, input.clock.timeOfDay, input.clock.date);
        var users := db.SelectAllUsers(input.faults.selectFails);
        if users.None? {
          return Aborted(SelectFailed);
        }
        var attempts := Notify(users.value, message, input.sendOk);
        outcome := Notified(message, attempts);
      case None =>
        var inserted := db.InsertStatus(current, input.clock.stamp, input.faults.insertFails);
        if !inserted {
          return Aborted(InsertFailed);
        }
        outcome := Seeded;
    }
  }

  // ---------------------------------------------------------------------
  // Properties of one cycle

  /** A cycle where the newest row already has the fetched status writes nothing and sends nothing. */
  lemma NoWriteWhenEqual(logs: seq<Log>, logSeq: int, users: seq<User>, input: Inputs)
    requires !input.fetched.MalformedPayload? && !input.faults.lastReadFails
    requires logs != [] && logs[|logs| - 1].status == CurrentStatus(input.fetched)
    ensures CycleSpec(logs, logSeq, users, input) == Cycle(Unchanged, logs, logSeq)
  {
  }

  /**
   * A cycle that sees a different status and can write appends exactly one
   * row, with the new status and the next id, and leaves earlier rows alone.
   */
  lemma OneAppendOnChange(logs: seq<Log>, logSeq: int, users: seq<User>, input: Inputs)
    requires !input.fetched.MalformedPayload? && !input.faults.lastReadFails && !input.faults.insertFails
    requires logs != [] && logs[|logs| - 1].status != CurrentStatus(input.fetched)
    ensures var c := CycleSpec(logs, logSeq, users, input);
            && |c.logs| == |logs| + 1
            && c.logs[..|logs|] == logs
            && c.logs[|logs|] == Log(logSeq + 1, CurrentStatus(input.fetched), input.clock.stamp)
            && c.logSeq == logSeq + 1
  {
    var c := CycleSpec(logs, logSeq, users, input);
    assert c.logs == logs + [Log(logSeq + 1, CurrentStatus(input.fetched), input.clock.stamp)];
  }

  /**
   * When the lookup of the last status fails (an empty table or a read
   * error), the cycle never notifies; if the write succeeds it leaves exactly
   * one new row, carrying the fetched status.
   */
  lemma GenesisIsSilent(logs: seq<Log>, logSeq: int, users: seq<User>, input: Inputs)
    requires !input.fetched.MalformedPayload?
    requires logs == [] || input.faults.lastReadFails
    ensures var c := CycleSpec(logs, logSeq, users, input);
            && !c.outcome.Notified?
            && (!input.faults.insertFails ==>
                  c.outcome == Seeded && c.logs == logs + [Log(logSeq + 1, CurrentStatus(input.fetched), input.clock.stamp)])
            && (input.faults.insertFails ==> c.logs == logs)
  {
  }

  /**
   * A notification goes out only after a change was recorded, and then to
   * every subscriber, in list order, with one message naming the new status;
   * the successful sends are the subscribers minus those whose send fails.
   */
  lemma NotifiedOnlyOnChange(logs: seq<Log>, logSeq: int, users: seq<User>, input: Inputs)
    requires CycleSpec(logs, logSeq, users, input).outcome.Notified?
    ensures var c := CycleSpec(logs, logSeq, users, input);
            && !input.fetched.MalformedPayload?
            && !input.faults.lastReadFails && logs != []
            && logs[|logs| - 1].status != CurrentStatus(input.fetched)
            && c.logs == logs + [Log(logSeq + 1, CurrentStatus(input.fetched), input.clock.stamp)]
            && StatusOfMessage(c.outcome.message) == Some(CurrentStatus(input.fetched))
            && |c.outcome.attempts| == |users|
            && (forall i :: 0 <= i < |users| ==>
                  c.outcome.attempts[i] == Delivery(users[i].telegramId, c.outcome.message, input.sendOk(users[i].telegramId)))
            && Delivered(c.outcome.attempts) == |users| - Failures(users, input.sendOk)
  {
    var c := CycleSpec(logs, logSeq, users, input);
    var current := CurrentStatus(input.fetched);
    var actor := ActorOf(input.history, input.config, input.parse, input.clock.now);
    RenderStatusRoundTrip(current, actor, input.clock.timeOfDay, input.clock.date);
    FanOutDelivered(users, c.outcome.message, input.sendOk);
  }

  /** A fetch that fails outright is read as closed: with an open log it notifies a closing, with no actor. */
  lemma TransportFailureClosesLab(logs: seq<Log>, logSeq: int, users: seq<User>, input: Inputs)
    requires input.fetched.TransportFailed? && input.faults == NoFaults && !input.history.HistoryMalformed?
    requires logs != [] && logs[|logs| - 1].status
    ensures var c := CycleSpec(logs, logSeq, users, input);
            && c.outcome.Notified?
            && c.outcome.message == Render(false, None, input.clock.timeOfDay, input.clock.date)
            && LastOf(c.logs) == Some(false)
  {
    ClosedIgnoresActor(ActorOf(input.history, input.config, input.parse, input.clock.now), None,
                       input.clock.timeOfDay, input.clock.date);
  }

  // ---------------------------------------------------------------------
  // Several cycles in a row

  /** The outcomes of consecutive cycles and the log table after the last one. */
  datatype Trace = Trace(outcomes: seq<Step>, logs: seq<Log>, logSeq: int)

  /**
   * Cycles run one after another on the inputs in order. An aborted cycle is a
   * panic of the polling task, which ends it: no later cycle runs.
   */
  function Run(logs: seq<Log>, logSeq: int, users: seq<User>, inputs: seq<Inputs>): (t: Trace)
    ensures |t.outcomes| <= |inputs|
    ensures forall k :: 0 <= k < |t.outcomes| - 1 ==> !t.outcomes[k].Aborted?
    ensures AllFaultFree(inputs) ==> |t.outcomes| == |inputs|
    ensures |t.outcomes| < |inputs| ==> t.outcomes != [] && t.outcomes[|t.outcomes| - 1].Aborted?
    decreases |inputs|
  {
    if inputs == [] then Trace([], logs, logSeq)
    else
      var c := CycleSpec(logs, logSeq, users, inputs[0]);
      if c.outcome.Aborted? then Trace([c.outcome], c.logs, c.logSeq)
      else
        var rest := Run(c.logs, c.logSeq, users, inputs[1..]);
        Trace([c.outcome] + rest.outcomes, rest.logs, rest.logSeq)
  }

  /** A cycle in which every fetch deserialises and every storage call succeeds. */
  predicate FaultFree(input: Inputs)
  {
    !input.fetched.MalformedPayload? && !input.history.HistoryMalformed? && input.faults == NoFaults
  }

  /** Every cycle of the run is fault-free. */
  predicate AllFaultFree(inputs: seq<Inputs>)
    decreases |inputs|
  {
    inputs == [] || (FaultFree(inputs[0]) && AllFaultFree(inputs[1..]))
  }

  /** The statuses the fault-free cycles read, in order. */
  function Readings(inputs: seq<Inputs>): (rs: seq<bool>)
    requires AllFaultFree(inputs)
    ensures |rs| == |inputs|
    decreases |inputs|
  {
    if inputs == [] then [] else [CurrentStatus(inputs[0].fetched)] + Readings(inputs[1..])
  }

  /** The status column of the log table. */
  function Statuses(logs: seq<Log>): (ss: seq<bool>)
    ensures |ss| == |logs|
    ensures forall i :: 0 <= i < |logs| ==> ss[i] == logs[i].status
  {
    seq(|logs|, i requires 0 <= i < |logs| => logs[i].status)
  }

  /** The statuses written by cycles reading `rs`, starting from the last status `last`. */
  function Persisted(last: Option<bool>, rs: seq<bool>): (written: seq<bool>)
    decreases |rs|
  {
    if rs == [] then []
    else (if last == Some(rs[0]) then [] else [rs[0]]) + Persisted(Some(rs[0]), rs[1..])
  }

  /** The number of cycles reading `rs` that see a change of status, starting from `last`. */
  function Changes(last: Option<bool>, rs: seq<bool>): (n: nat)
    decreases |rs|
  {
    if rs == [] then 0
    else (if last.Some? && last.value != rs[0] then 1 else 0) + Changes(Some(rs[0]), rs[1..])
  }

  /** The number of adjacent pairs of `rs` that differ. */
  function Flips(rs: seq<bool>): (n: nat)
  {
    if |rs| < 2 then 0 else (if rs[0] != rs[1] then 1 else 0) + Flips(rs[1..])
  }

  /**
   * Whether the k-th of the readings `rs` is a change: the status before it
   * (`last` for the first reading, the previous reading otherwise) is known
   * and differs.
   */
  predicate ChangedAt(last: Option<bool>, rs: seq<bool>, k: nat)
    requires k < |rs|
  {
    var prev := if k == 0 then last else Some(rs[k - 1]);
    prev.Some? && prev.value != rs[k]
  }

  /** The number of cycles that notified. */
  function NotifiedCount(outcomes: seq<Step>): (n: nat)
  {
    if outcomes == [] then 0 else (if outcomes[0].Notified? then 1 else 0) + NotifiedCount(outcomes[1..])
  }

  /** One fault-free cycle appends the reading unless it equals the last status, and leaves it as the last status. */
  lemma FaultFreeCycle(logs: seq<Log>, logSeq: int, users: seq<User>, input: Inputs)
    requires FaultFree(input)
    ensures var c := CycleSpec(logs, logSeq, users, input);
            var r := CurrentStatus(input.fetched);
            && Statuses(c.logs) == Statuses(logs) + (if LastOf(logs) == Some(r) then [] else [r])
            && LastOf(c.logs) == Some(r)
            && !c.outcome.Aborted?
            && (c.outcome.Notified? <==> LastOf(logs).Some? && LastOf(logs).value != r)
  {
    var c := CycleSpec(logs, logSeq, users, input);
    var r := CurrentStatus(input.fetched);
    if LastOf(logs) != Some(r) {
      assert Statuses(c.logs) == Statuses(logs) + [r];
    }
  }

  /**
   * Over fault-free cycles the log grows by exactly the statuses Persisted
   * says, and exactly the cycles that see a change notify.
   */
  lemma {:induction false} RunLog(logs: seq<Log>, logSeq: int, users: seq<User>, inputs: seq<Inputs>)
    requires AllFaultFree(inputs)
    ensures var t := Run(logs, logSeq, users, inputs);
            && Statuses(t.logs) == Statuses(logs) + Persisted(LastOf(logs), Readings(inputs))
            && NotifiedCount(t.outcomes) == Changes(LastOf(logs), Readings(inputs))
    decreases |inputs|
  {
    if inputs != [] {
      var c := CycleSpec(logs, logSeq, users, inputs[0]);
      FaultFreeCycle(logs, logSeq, users, inputs[0]);
      RunLog(c.logs, c.logSeq, users, inputs[1..]);
    }
  }

  /** Over fault-free cycles, cycle k notifies exactly when its reading is a change. */
  lemma {:induction false} RunNotifiesAtChanges(logs: seq<Log>, logSeq: int, users: seq<User>, inputs: seq<Inputs>)
    requires AllFaultFree(inputs)
    ensures var t := Run(logs, logSeq, users, inputs);
            forall k :: 0 <= k < |inputs| ==>
              (t.outcomes[k].Notified? <==> ChangedAt(LastOf(logs), Readings(inputs), k))
    decreases |inputs|
  {
    if inputs != [] {
      var c := CycleSpec(logs, logSeq, users, inputs[0]);
      FaultFreeCycle(logs, logSeq, users, inputs[0]);
      var tail := inputs[1..];
      RunNotifiesAtChanges(c.logs, c.logSeq, users, tail);
      var t := Run(logs, logSeq, users, inputs);
      var rest := Run(c.logs, c.logSeq, users, tail);
      var rs := Readings(inputs);
      assert t.outcomes == [c.outcome] + rest.outcomes;
      assert Readings(tail) == rs[1..];
      forall k | 0 < k < |inputs|
        ensures t.outcomes[k].Notified? <==> ChangedAt(LastOf(logs), rs, k)
      {
        assert t.outcomes[k] == rest.outcomes[k - 1];
        assert ChangedAt(Some(rs[0]), rs[1..], k - 1) == ChangedAt(LastOf(logs), rs, k);
      }
    }
  }

  /** From a known last status, the changes are the flips of the readings prefixed by that status. */
  lemma {:induction false} ChangesFromStatus(b: bool, rs: seq<bool>)
    ensures Changes(Some(b), rs) == Flips([b] + rs)
    decreases |rs|
  {
    if rs != [] {
      ChangesFromStatus(rs[0], rs[1..]);
      assert ([b] + rs)[1..] == [rs[0]] + rs[1..];
    }
  }

  /** The rows a run writes: one seeding row if the log was empty, then one per change. */
  lemma {:induction false} PersistedLength(last: Option<bool>, rs: seq<bool>)
    ensures |Persisted(last, rs)| == Changes(last, rs) + (if last.None? && rs != [] then 1 else 0)
    decreases |rs|
  {
    if rs != [] {
      PersistedLength(Some(rs[0]), rs[1..]);
    }
  }

  /** No two consecutive written rows carry the same status, nor does the first repeat the last status. */
  lemma {:induction false} PersistedAlternates(last: Option<bool>, rs: seq<bool>)
    ensures var p := Persisted(last, rs);
            && (forall i :: 0 <= i < |p| - 1 ==> p[i] != p[i + 1])
            && (last.Some? && p != [] ==> p[0] != last.value)
    decreases |rs|
  {
    if rs != [] {
      var tail := Persisted(Some(rs[0]), rs[1..]);
      PersistedAlternates(Some(rs[0]), rs[1..]);
      var p := Persisted(last, rs);
      if last != Some(rs[0]) {
        assert p == [rs[0]] + tail;
        forall i | 0 <= i < |p| - 1 ensures p[i] != p[i + 1] {
          if i > 0 { assert p[i] == tail[i - 1] && p[i + 1] == tail[i]; }
        }
      }
    }
  }

  /**
   * Without the fault-free assumption alternation fails: from an empty log,
   * two cycles that both read open, the second with a failed lookup, seed
   * twice and leave two adjacent open rows.
   */
  lemma ReadFaultBreaksAlternation(clock: Clock, config: Config, parse: string -> Option<int>, sendOk: int -> bool)
    ensures var first := Inputs(Payload(1), HistoryUnreachable, NoFaults, clock, config, parse, sendOk);
            var second := Inputs(Payload(1), HistoryUnreachable, Faults(true, false, false), clock, config, parse, sendOk);
            var t := Run([], 0, [], [first, second]);
            t.outcomes == [Seeded, Seeded]
            && t.logs == [Log(1, true, clock.stamp), Log(2, true, clock.stamp)]
  {
    var first := Inputs(Payload(1), HistoryUnreachable, NoFaults, clock, config, parse, sendOk);
    var second := Inputs(Payload(1), HistoryUnreachable, Faults(true, false, false), clock, config, parse, sendOk);
    var c1 := CycleSpec([], 0, [], first);
    assert c1 == Cycle(Seeded, [Log(1, true, clock.stamp)], 1);
    var c2 := CycleSpec(c1.logs, c1.logSeq, [], second);
    assert c2 == Cycle(Seeded, [Log(1, true, clock.stamp), Log(2, true, clock.stamp)], 2);
    assert [first, second][1..] == [second];
    assert Run(c2.logs, c2.logSeq, [], []) == Trace([], c2.logs, c2.logSeq);
  }

  /** Adjacent rows differ in status when adjacent entries of the status column do. */
  lemma AdjacentStatusesDiffer(logs: seq<Log>)
    requires forall i :: 0 <= i < |logs| - 1 ==> Statuses(logs)[i] != Statuses(logs)[i + 1]
    ensures forall i :: 0 <= i < |logs| - 1 ==> logs[i].status != logs[i + 1].status
  {
    forall i | 0 <= i < |logs| - 1 ensures logs[i].status != logs[i + 1].status {
      assert Statuses(logs)[i] != Statuses(logs)[i + 1];
    }
  }

  /** From no last status, the changes are the flips of the readings. */
  lemma ChangesFromNothing(rs: seq<bool>)
    requires rs != []
    ensures Changes(None, rs) == Flips(rs)
  {
    ChangesFromStatus(rs[0], rs[1..]);
    assert [rs[0]] + rs[1..] == rs;
  }

  /**
   * Starting from an empty log, fault-free cycles leave one seeding row plus
   * one row per flip of the readings, send as many notifications as there are
   * flips, and notify in cycle k exactly when reading k differs from reading k - 1.
   */
  lemma RunFromEmpty(logSeq: int, users: seq<User>, inputs: seq<Inputs>)
    requires inputs != []
    requires AllFaultFree(inputs)
    ensures var t := Run([], logSeq, users, inputs);
            && |t.logs| == 1 + Flips(Readings(inputs))
            && NotifiedCount(t.outcomes) == Flips(Readings(inputs))
            && (forall k :: 0 <= k < |inputs| ==>
                  (t.outcomes[k].Notified? <==> k > 0 && Readings(inputs)[k - 1] != Readings(inputs)[k]))
  {
    RunNotifiesAtChanges([], logSeq, users, inputs);
    var rs := Readings(inputs);
    var t := Run([], logSeq, users, inputs);
    RunLog([], logSeq, users, inputs);
    assert Statuses([]) == [];
    var p := Persisted(None, rs);
    assert Statuses(t.logs) == p;
    PersistedLength(None, rs);
    ChangesFromNothing(rs);
  }

  /** Starting from an empty log, fault-free cycles never leave two adjacent rows with the same status. */
  lemma RunFromEmptyAlternates(logSeq: int, users: seq<User>, inputs: seq<Inputs>)
    requires AllFaultFree(inputs)
    ensures var logs := Run([], logSeq, users, inputs).logs;
            forall i :: 0 <= i < |logs| - 1 ==> logs[i].status != logs[i + 1].status
  {
    var logs := Run([], logSeq, users, inputs).logs;
    RunLog([], logSeq, users, inputs);
    assert Statuses([]) == [];
    PersistedAlternates(None, Readings(inputs));
    AdjacentStatusesDiffer(logs);
  }
}
