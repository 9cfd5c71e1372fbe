/** The `Write` goroutine as imperative code: the variable `toWrite` that the
    `maybeWrite` closure captures and updates in place becomes a field of a
    `Writer` object, and the `for`/`select` loop becomes a loop over the passes
    the environment supplies. */
module WriteLoop {
  import opened Scheduler
  import opened SchedulerProperties

  /** The state the `Write` goroutine keeps: the pending slot, whether the
      process is still alive, and ghost logs of what it has received, what it
      has handed to the sink and how often it has slept. */
  class Writer {
    var toWrite: Option<ToWrite>
    var running: bool
    ghost var received: seq<ToWrite>
    ghost var calls: seq<ToWrite>
    ghost var sleeps: nat

    /** The writer's state and logs as a value of the model. */
    ghost function Model(): State
      reads this
    {
      State(toWrite, running, received, calls, sleeps)
    }

    /** `var toWrite *ToWrite`: the slot starts empty. */
    constructor ()
      ensures Model() == Start
    {
      toWrite := None;
      running := true;
      received := [];
      calls := [];
      sleeps := 0;
    }

    /** The `maybeWrite` closure. Returns the value handed to the sink, if
        any; `sinkOk` is what the sink reports for it. */
    method MaybeWrite(sinkOk: bool) returns (call: Option<ToWrite>)
      requires running
      modifies this
      ensures Model() == Scheduler.MaybeWrite(old(Model()), sinkOk)
      ensures call == old(toWrite)
      ensures calls == old(calls) + (if call.Some? then [call.value] else [])
      ensures old(toWrite) == None ==> toWrite == None && running
      ensures old(toWrite).Some? && sinkOk ==> toWrite == None && running
      ensures old(toWrite).Some? && !sinkOk ==> toWrite == old(toWrite) && !running
      ensures received == old(received) && sleeps == old(sleeps)
    {
      call := toWrite;
      if toWrite.Some? {
        calls := calls + [toWrite.value];
        if !sinkOk {
          // log.Fatalf: the process ends before the slot is cleared
          running := false;
          return;
        }
        toWrite := None;
      }
    }

    /** One pass of the `select` loop. Returns the value handed to the sink
        during the pass, if any. */
    method Step(p: Pass) returns (call: Option<ToWrite>)
      requires running
      modifies this
      ensures Model() == Scheduler.Step(old(Model()), p)
      ensures calls == old(calls) + (if call.Some? then [call.value] else [])
      ensures p.event.Arrive? ==>
        toWrite == Some(p.event.next) && running && call == None
        && received == old(received) + [p.event.next] && sleeps == old(sleeps)
      ensures !p.event.Arrive? ==> call == old(toWrite) && received == old(received)
      ensures !p.event.Arrive? && old(toWrite).Some? ==>
        if p.sinkOk then toWrite == None && running else toWrite == old(toWrite) && !running
      ensures !p.event.Arrive? && old(toWrite) == None ==> toWrite == None && running
      ensures sleeps == old(sleeps) + (if p.event.Idle? && running then 1 else 0)
    {
      match p.event
      case Tick =>
        call := MaybeWrite(p.sinkOk);
      case Arrive(next) =>
        call := None;
        toWrite := Some(next);
        received := received + [next];
      case Idle =>
        call := MaybeWrite(p.sinkOk);
        if running {
          // time.Sleep(WriteRate)
          sleeps := sleeps + 1;
        }
    }
  }

  /** `Write`, run over the passes of `trace` until they run out or a failed
      write ends the process. Returns the values handed to the sink, in order,
      the slot as left at the end, and whether the process was ended. */
  method Write(trace: seq<Pass>) returns (written: seq<ToWrite>, pending: Option<ToWrite>, halted: bool)
    ensures written == Run(trace).calls
    ensures pending == Run(trace).toWrite && halted == !Run(trace).running
    ensures !halted ==> written == Flushes(trace) && pending == TrailingArrival(trace)
    ensures |written| <= |Run(trace).received|
  {
    var w := new Writer();
    written := [];
    var i := 0;
    while i < |trace| && w.running
      invariant 0 <= i <= |trace|
      invariant w.Model() == Run(trace[..i])
      invariant written == w.calls
    {
      RunSnoc(trace[..i], trace[i]);
      assert trace[..i + 1] == trace[..i] + [trace[i]];
      var call := w.Step(trace[i]);
      if call.Some? {
        written := written + [call.value];
      }
      i := i + 1;
    }
    if i < |trace| {
      HaltIsFinal(trace[..i], trace[i..]);
      assert trace[..i] + trace[i..] == trace;
    } else {
      assert trace[..i] == trace;
    }
    pending, halted := w.toWrite, !w.running;
    CallsAreFlushes(trace);
    SlotIsTrailingArrival(trace);
    CallsBoundedByArrivals(trace);
  }
}
