/** The coalescing write scheduler of `Write` in main.go, as a state machine over
    the passes of its `for`/`select` loop.

    Each pass of the loop handles exactly one event: a tick of the
    `MaxWriteWait` ticker, a value arriving on the input channel, or the
    `default` branch taken when neither is ready. Which event a pass handles is
    chosen by Go's `select` (at random among the ready cases), and whether the
    checkpoint write succeeds is decided by the file system; both are inputs
    here, never decisions of the model. */
module Scheduler {

  datatype Option<T> = None | Some(value: T)

  /** The `ToWrite` record: the value being checkpointed, its single field `N`. */
  datatype ToWrite = ToWrite(n: int)

  /** The case a pass of the `select` statement takes. */
  datatype Event =
    | Tick                  // `case <-ticker`: force a write attempt
    | Arrive(next: ToWrite) // `case next := <-in`: store the newest value
    | Idle                  // `default`: attempt a write, then sleep `WriteRate`

  /** One pass of the loop: the event `select` picked, and whether the sink
      (`writeToFile`) would report success if it is called during this pass. */
  datatype Pass = Pass(event: Event, sinkOk: bool)

  /** The scheduler's state together with a log of what it has done.
      `toWrite` is the pending slot (nil or the latest value); `running` turns
      false when `log.Fatalf` ends the process; `received` lists the values
      taken from the channel, `calls` the values handed to the sink (the failed
      one included), `sleeps` the number of `WriteRate` sleeps. */
  datatype State = State(
    toWrite: Option<ToWrite>,
    running: bool,
    received: seq<ToWrite>,
    calls: seq<ToWrite>,
    sleeps: nat)

  /** The state when `Write` starts: an empty slot and nothing done. */
  const Start := State(None, true, [], [], 0)

  /** The `maybeWrite` closure: with a value pending, hand it to the sink; on
      success clear the slot, on failure stop the process with the slot as it
      was. With nothing pending, do nothing. */
  function MaybeWrite(s: State, sinkOk: bool): (r: State)
    requires s.running
    ensures r.toWrite == None || !r.running
    ensures r.running <==> s.toWrite == None || sinkOk
    ensures r.calls == s.calls + (if s.toWrite.Some? then [s.toWrite.value] else [])
    ensures r.toWrite != s.toWrite ==> r.running && s.toWrite.Some?
    ensures r.received == s.received && r.sleeps == s.sleeps
  {
    match s.toWrite
    case None => s
    case Some(v) =>
      s.(toWrite := if sinkOk then None else s.toWrite,
         running := sinkOk,
         calls := s.calls + [v])
  }

  /** One pass of the loop. A stopped process takes no further steps. */
  function Step(s: State, p: Pass): (r: State)
    ensures r.running ==> s.running
    ensures !s.running ==> r == s
    ensures |s.calls| <= |r.calls| <= |s.calls| + 1
    ensures |s.received| <= |r.received|
    ensures |r.calls| - |s.calls| + |r.received| - |s.received| <= 1
  {
    if !s.running then s
    else
      match p.event
      case Tick => MaybeWrite(s, p.sinkOk)
      case Arrive(v) => s.(toWrite := Some(v), received := s.received + [v])
      case Idle =>
        var w := MaybeWrite(s, p.sinkOk);
        if w.running then w.(sleeps := w.sleeps + 1) else w
  }

  /** The state after the loop has handled the passes of `t`, in order. */
  function Run(t: seq<Pass>): (r: State)
    ensures |r.calls| + |r.received| <= |t|
    decreases |t|
  {
    if t == [] then Start else Step(Run(t[..|t| - 1]), t[|t| - 1])
  }

  // ----- reference definitions, stated on the trace alone -----

  /** The value of the last pass of `t` when that pass is an arrival. */
  function TrailingArrival(t: seq<Pass>): Option<ToWrite>
  {
    if t != [] && t[|t| - 1].event.Arrive? then Some(t[|t| - 1].event.next) else None
  }

  /** The last value of every burst of arrivals that is followed by a tick or
      an idle pass, in order: the values a coalescing writer is meant to
      persist. */
  function Flushes(t: seq<Pass>): seq<ToWrite>
    decreases |t|
  {
    if |t| < 2 then []
    else
      (if t[0].event.Arrive? && !t[1].event.Arrive? then [t[0].event.next] else [])
      + Flushes(t[1..])
  }

  /** The number of idle (`default`) passes in `t`. */
  function IdlePasses(t: seq<Pass>): nat
    decreases |t|
  {
    if t == [] then 0
    else IdlePasses(t[..|t| - 1]) + (if t[|t| - 1].event.Idle? then 1 else 0)
  }

  /** No pass of `t` is an arrival. */
  predicate NoArrivals(t: seq<Pass>)
  {
    forall i :: 0 <= i < |t| ==> !t[i].event.Arrive?
  }

  /** A burst: every value of `vs` arriving in turn. */
  function Burst(vs: seq<ToWrite>): seq<Pass>
  {
    seq(|vs|, i requires 0 <= i < |vs| => Pass(Arrive(vs[i]), true))
  }
}
