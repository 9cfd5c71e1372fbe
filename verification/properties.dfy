/** What the scheduler of `Write` promises, proved of the model in `Scheduler`. */
module SchedulerProperties {
  import opened Scheduler

  /** The trace `t` is the trace without its last pass, followed by that pass. */
  lemma SplitLast(t: seq<Pass>)
    requires t != []
    ensures t == t[..|t| - 1] + [t[|t| - 1]]
    ensures Run(t) == Step(Run(t[..|t| - 1]), t[|t| - 1])
  {
    var u, p := t[..|t| - 1], t[|t| - 1];
    assert u + [p] == t;
    RunSnoc(u, p);
  }

  /** One pass only appends to the logs: what was received or handed to the
      sink before the pass is still there, in the same order. */
  lemma StepExtendsLogs(s: State, p: Pass)
    ensures Step(s, p).calls[..|s.calls|] == s.calls
    ensures Step(s, p).received[..|s.received|] == s.received
  {
  }

  /** Run of a trace extended by one pass is one more step. */
  lemma RunSnoc(t: seq<Pass>, p: Pass)
    ensures Run(t + [p]) == Step(Run(t), p)
  {
  }

  /** While the process runs, the slot is non-empty exactly when the last pass
      was an arrival, and then it holds that arrival's value: a tick or idle
      pass always empties it. When the process has stopped, the slot still
      holds the value whose write failed. */
  lemma {:induction false} SlotIsTrailingArrival(t: seq<Pass>)
    ensures Run(t).running ==> Run(t).toWrite == TrailingArrival(t)
    ensures !Run(t).running ==> Run(t).toWrite.Some?
  {
    if t != [] {
      var u, p := t[..|t| - 1], t[|t| - 1];
      SplitLast(t);
      SlotIsTrailingArrival(u);
    }
  }

  /** The slot, when non-empty, holds the most recently received value. */
  lemma {:induction false} SlotHoldsLatestReceived(t: seq<Pass>)
    ensures Run(t).toWrite.Some? ==>
      |Run(t).received| > 0 && Run(t).toWrite.value == Run(t).received[|Run(t).received| - 1]
  {
    if t != [] {
      SplitLast(t);
      SlotHoldsLatestReceived(t[..|t| - 1]);
    }
  }

  /** A stopped process takes no further steps: whatever passes follow, the
      state and every log stay as they were. */
  lemma {:induction false} HaltIsFinal(t: seq<Pass>, u: seq<Pass>)
    requires !Run(t).running
    ensures Run(t + u) == Run(t)
    decreases |u|
  {
    if u == [] {
      assert t + u == t;
    } else {
      var u', p := u[..|u| - 1], u[|u| - 1];
      assert t + u == (t + u') + [p];
      RunSnoc(t + u', p);
      HaltIsFinal(t, u');
    }
  }

  /** Flushes of a trace extended by one pass gains the trace's last arrival
      exactly when that pass is a tick or an idle pass. */
  lemma {:induction false} FlushesSnoc(t: seq<Pass>, p: Pass)
    ensures Flushes(t + [p]) ==
      Flushes(t) + (if t != [] && t[|t| - 1].event.Arrive? && !p.event.Arrive?
                    then [t[|t| - 1].event.next] else [])
    decreases |t|
  {
    if |t| == 1 {
      assert (t + [p])[1..] == [p];
    } else if |t| >= 2 {
      assert (t + [p])[1..] == t[1..] + [p];
      FlushesSnoc(t[1..], p);
    }
  }

  /** Coalescing: while the process runs, the sink has been called with
      exactly the last value of every burst of arrivals that a tick or idle
      pass ended, in order, and with nothing else. Every call therefore
      carries the most recent value received before it, and intermediate
      values of a burst are never written. */
  lemma {:induction false} CallsAreFlushes(t: seq<Pass>)
    ensures Run(t).running ==> Run(t).calls == Flushes(t)
  {
    if t != [] {
      var u, p := t[..|t| - 1], t[|t| - 1];
      SplitLast(t);
      CallsAreFlushes(u);
      SlotIsTrailingArrival(u);
      FlushesSnoc(u, p);
    }
  }

  /** A pass that calls the sink is a tick or idle pass of a running
      process with a value pending, and it calls the sink with that value. */
  lemma StepCall(s: State, p: Pass)
    requires |Step(s, p).calls| > |s.calls|
    ensures s.running && !p.event.Arrive? && s.toWrite.Some?
    ensures Step(s, p).calls == s.calls + [s.toWrite.value]
  {
  }

  /** A pass that calls the sink calls it with the most recently received
      value, which arrived on the pass just before it. */
  lemma CallIsLatestArrival(t: seq<Pass>, p: Pass)
    requires |Run(t + [p]).calls| > |Run(t).calls|
    ensures Run(t).running && !p.event.Arrive?
    ensures |Run(t).received| > 0
    ensures Run(t + [p]).calls ==
      Run(t).calls + [Run(t).received[|Run(t).received| - 1]]
    ensures t != [] && t[|t| - 1].event == Arrive(Run(t).received[|Run(t).received| - 1])
  {
    var h := Run(t);
    RunSnoc(t, p);
    StepCall(h, p);
    SlotHoldsLatestReceived(t);
    SlotIsTrailingArrival(t);
  }

  /** At most one sink call per value received, and a value still pending
      has not been handed to the sink yet. */
  lemma {:induction false} CallsBoundedByArrivals(t: seq<Pass>)
    ensures |Run(t).calls| + (if Run(t).running && Run(t).toWrite.Some? then 1 else 0)
      <= |Run(t).received|
  {
    if t != [] {
      SplitLast(t);
      CallsBoundedByArrivals(t[..|t| - 1]);
    }
  }

  /** After any history, a stretch of ticks and idle passes calls the sink at
      most once, with the value pending when the stretch began, and leaves a
      running process with an empty slot: no value is written twice unless it
      arrives again. */
  lemma {:induction false} QuietStretch(t: seq<Pass>, u: seq<Pass>)
    requires NoArrivals(u)
    ensures Run(t + u).calls == Run(t).calls +
      (if u != [] && Run(t).running && Run(t).toWrite.Some? then [Run(t).toWrite.value] else [])
    ensures u != [] && Run(t + u).running ==> Run(t + u).toWrite == None
    decreases |u|
  {
    if u == [] {
      assert t + u == t;
    } else {
      var u', p := u[..|u| - 1], u[|u| - 1];
      assert t + u == (t + u') + [p];
      assert !p.event.Arrive?;
      RunSnoc(t + u', p);
      QuietStretch(t, u');
      if u' == [] {
        assert t + u' == t;
      }
    }
  }

  /** No spurious write: with no value ever received, the sink is never
      called, however many ticks and idle passes occur. */
  lemma {:induction false} NoArrivalNoCall(u: seq<Pass>)
    requires NoArrivals(u)
    ensures Run(u).calls == [] && Run(u).toWrite == None && Run(u).running
  {
    if u != [] {
      SplitLast(u);
      NoArrivalNoCall(u[..|u| - 1]);
    }
  }

  /** The `default` branch sleeps `WriteRate` on every idle pass, whether or
      not it wrote, and no other branch sleeps. */
  lemma {:induction false} SleepsCountIdlePasses(t: seq<Pass>)
    ensures Run(t).running ==> Run(t).sleeps == IdlePasses(t)
  {
    if t != [] {
      SplitLast(t);
      SleepsCountIdlePasses(t[..|t| - 1]);
    }
  }

  /** A failed write stops the process at once: the sink was called with the
      pending value, the slot is not cleared, no sleep follows, and nothing
      afterwards changes anything. */
  lemma FailedWriteHalts(t: seq<Pass>, p: Pass, u: seq<Pass>)
    requires Run(t).running && Run(t).toWrite.Some?
    requires !p.event.Arrive? && !p.sinkOk
    ensures !Run(t + [p]).running
    ensures Run(t + [p]).toWrite == Run(t).toWrite
    ensures Run(t + [p]).calls == Run(t).calls + [Run(t).toWrite.value]
    ensures Run(t + [p]).sleeps == Run(t).sleeps
    ensures Run(t + [p] + u) == Run(t + [p])
  {
    RunSnoc(t, p);
    HaltIsFinal(t + [p], u);
  }

  /** A burst is the burst without its last value, then that value's arrival. */
  lemma BurstSnoc(vs: seq<ToWrite>)
    requires vs != []
    ensures Burst(vs) == Burst(vs[..|vs| - 1]) + [Pass(Arrive(vs[|vs| - 1]), true)]
  {
  }

  /** An arrival on a running process overwrites the slot and records the
      value, and does nothing else. */
  lemma StepArrive(s: State, p: Pass)
    requires s.running && p.event.Arrive?
    ensures Step(s, p) == s.(toWrite := Some(p.event.next), received := s.received + [p.event.next])
  {
  }

  /** A burst of arrivals, at any point of a running loop, only fills the
      slot: it ends holding the burst's last value, the values are received
      in order, and the sink is not called. */
  lemma {:induction false} BurstFillsSlot(t: seq<Pass>, vs: seq<ToWrite>)
    requires Run(t).running && vs != []
    ensures Run(t + Burst(vs)) ==
      Run(t).(toWrite := Some(vs[|vs| - 1]), received := Run(t).received + vs)
    decreases |vs|
  {
    var u, v := vs[..|vs| - 1], vs[|vs| - 1];
    var arrival := Pass(Arrive(v), true);
    var before := t + Burst(u);
    BurstSnoc(vs);
    assert t + Burst(vs) == before + [arrival];
    RunSnoc(before, arrival);
    var h := Run(before);
    if u == [] {
      assert before == t;
    } else {
      BurstFillsSlot(t, u);
      assert Run(t).received + vs == (Run(t).received + u) + [v];
    }
    StepArrive(h, arrival);
  }

  /** The flood case of the doc comment: a burst of values followed by an
      idle pass, at any point of a running loop, writes exactly once, with
      the burst's last value, and leaves the slot empty; with two or more
      values, fewer writes than values. */
  lemma BurstThenIdleWritesLast(t: seq<Pass>, vs: seq<ToWrite>)
    requires Run(t).running && vs != []
    ensures Run(t + Burst(vs) + [Pass(Idle, true)]).calls == Run(t).calls + [vs[|vs| - 1]]
    ensures Run(t + Burst(vs) + [Pass(Idle, true)]).toWrite == None
    ensures Run(t + Burst(vs) + [Pass(Idle, true)]).running
    ensures Run(t + Burst(vs) + [Pass(Idle, true)]).sleeps == Run(t).sleeps + 1
  {
    BurstFillsSlot(t, vs);
    RunSnoc(t + Burst(vs), Pass(Idle, true));
  }

  /** The single-value case of the doc comment: a value followed by an idle
      pass, at any point of a running loop, is written immediately, and the
      slot is left empty. */
  lemma SingleValueWrittenAtOnce(t: seq<Pass>, arrival: Pass)
    requires Run(t).running && arrival.event.Arrive?
    ensures Run(t + [arrival, Pass(Idle, true)]).calls == Run(t).calls + [arrival.event.next]
    ensures Run(t + [arrival, Pass(Idle, true)]).toWrite == None
    ensures Run(t + [arrival, Pass(Idle, true)]).running
  {
    assert t + [arrival, Pass(Idle, true)] == (t + [arrival]) + [Pass(Idle, true)];
    RunSnoc(t, arrival);
    RunSnoc(t + [arrival], Pass(Idle, true));
  }
}
