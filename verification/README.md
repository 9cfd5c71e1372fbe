# write-limiter: a model of the coalescing write scheduler

The program keeps a checkpoint file up to date with the latest value of a
fast-changing `ToWrite` record without writing on every change. A
goroutine, `Write` (main.go), reads values from a channel into a single
pending slot. It writes the slot out when it finds nothing else to do (the
`default` branch of its `select`, which then sleeps `WriteRate`) or when the
`MaxWriteWait` ticker fires. A burst of values is coalesced into one write of
the last value, and a failed write ends the process through `log.Fatalf`.

The model treats that goroutine as a state machine over the passes of its
`for`/`select` loop:

- `scheduler.dfy`, module `Scheduler`: the values (`ToWrite`, `Event`,
  `Pass`, `State`), the `maybeWrite` closure and one pass of the loop as pure
  functions (`MaybeWrite`, `Step`), the fold `Run` over a trace of passes, and
  reference definitions stated on the trace alone (`Flushes`,
  `TrailingArrival`, `IdlePasses`).
- `properties.dfy`, module `SchedulerProperties`: the lemmas that say what
  the scheduler promises.
- `write_loop.dfy`, module `WriteLoop`: the imperative form. A `Writer`
  object holds the variable `toWrite` that the closure captures and updates in
  place, with ghost logs of what was received, what was handed to the sink and
  how often the loop slept. The method `Write` drives it over a trace.

A pass is the case `select` chose (`Tick`, `Arrive(v)` or `Idle` for
`default`) together with what the sink would report if called during that
pass. Both are chosen by the environment: Go picks at random among ready
`select` cases, and the file system decides whether the write succeeds. The
real loop never ends, so `Write` runs a finite prefix of passes. It stops
early when a failed write ends the process.

The loop has no case for a closed channel, so nothing is drained on
shutdown. `log.Fatalf` exits before `toWrite = nil`, so a failed write
leaves the slot holding its value. The model does the same.

## Model

| member | source | states |
|---|---|---|
| `Scheduler.MaybeWrite` | main.go:67-75 | The sink is called once with the pending value if there is one, and not at all otherwise. Afterwards the slot is empty unless the process stopped. The process stops exactly when a pending value's write fails, and only a successful write changes the slot. Nothing is received and no sleep happens. |
| `Scheduler.Step` | main.go:76-92 | One pass makes at most one sink call or receives at most one value, never both. A process stopped by `log.Fatalf` takes no further step and never resumes. |
| `SchedulerProperties.StepExtendsLogs` | main.go:76-92 | One pass only appends to the logs: everything received or handed to the sink before it stays, in the same order. |
| `Scheduler.Run` | main.go:76-92 | Over any trace, sink calls plus received values never exceed the number of passes. |
| `SchedulerProperties.SlotIsTrailingArrival` | main.go:65-92 | While running, the slot is non-empty exactly when the last pass was an arrival, and then it holds that value. Every tick or idle pass empties it. After a failed write the slot is still full. |
| `SchedulerProperties.SlotHoldsLatestReceived` | main.go:81-83 | A non-empty slot holds the most recently received value. |
| `SchedulerProperties.HaltIsFinal` | main.go:69-72 | Once the process has stopped, no later pass changes the slot or any log. |
| `SchedulerProperties.CallsAreFlushes` | main.go:48-93 | While running, the sink calls are exactly the last value of every burst of arrivals that a tick or idle pass ended, in order. Earlier values of a burst are never written. |
| `SchedulerProperties.CallIsLatestArrival` | main.go:67-83 | A pass that calls the sink is a tick or idle pass of a running process. It passes the most recently received value, which arrived on the pass just before. |
| `SchedulerProperties.CallsBoundedByArrivals` | main.go:67-83 | Sink calls never exceed received values, and a value still pending has not been handed to the sink. |
| `SchedulerProperties.QuietStretch` | main.go:67-80 | A stretch of ticks and idle passes calls the sink at most once, with the value pending when it began, and leaves a running process with an empty slot. So no value is written twice unless it arrives again. |
| `SchedulerProperties.NoArrivalNoCall` | main.go:65-75 | With no value received, the sink is never called, however many ticks and idle passes occur. |
| `SchedulerProperties.SleepsCountIdlePasses` | main.go:84-90 | While running, the number of `WriteRate` sleeps equals the number of idle passes, whether or not each one wrote. |
| `SchedulerProperties.FailedWriteHalts` | main.go:69-72 | A failed write calls the sink once with the pending value and stops the process. The slot is not cleared, no sleep follows, and later passes change nothing. |
| `SchedulerProperties.BurstFillsSlot` | main.go:55-57 | At any point of a running loop, a burst of arrivals makes no sink call, receives its values in order and leaves the last one in the slot. |
| `SchedulerProperties.BurstThenIdleWritesLast` | main.go:55-57 | At any point of a running loop, a burst followed by an idle pass adds exactly one write, of the burst's last value. It empties the slot and sleeps once. |
| `SchedulerProperties.SingleValueWrittenAtOnce` | main.go:51-53 | At any point of a running loop, a single value followed by an idle pass is written at once, and the slot is left empty. |
| `WriteLoop.Writer.constructor` | main.go:65 | The writer starts in `Scheduler.Start`: an empty slot, a live process, and nothing received, written or slept. |
| `WriteLoop.Writer.MaybeWrite` | main.go:67-75 | With a value pending, the value is handed to the sink. On success the slot is cleared. On failure the process stops with the slot unchanged. With nothing pending, nothing happens. |
| `WriteLoop.Writer.Step` | main.go:76-92 | An arrival overwrites the slot, whatever it held, and never calls the sink. A tick or idle pass calls the sink with the pending value, if there is one. An idle pass sleeps unless the write ended the process. The new state is `Scheduler.Step` of the old. |
| `WriteLoop.Write` | main.go:64-93 | The loop's sink calls, final slot and halt flag are those of `Run`. Unless halted, the sink calls are the burst ends of the trace (`Flushes`), the slot holds a trailing arrival, and writes never exceed values received. |

## Left out

- `writeToFile` (main.go:95-111) is not modelled beyond a yes/no answer per pass. That covers the log line, the file, the JSON encoding, the buffered flush and the fsync. In the code only an `os.OpenFile` error makes it fail. Errors from `Encode`, `Flush` and `Sync` are ignored, so a `sinkOk` of false stands for a failed open.
- Real time is not modelled. `time.Tick(MaxWriteWait)` becomes `Tick` passes and `time.Sleep(WriteRate)` becomes a count of sleeps. The constants `MaxWriteWait` and `WriteRate` have no role.
- The bound "a write at least every `MaxWriteWait`" is not stated. It depends on the Go runtime's ticker and scheduler, not on this code.
- Goroutines, the channel buffer of `MaxWritesToBuffer` values, backpressure on the producer, and `select {}` in `main` are not modelled. The model sees only the order in which values reach the loop.
- `select`'s random choice among ready cases is not modelled. It is an input: any trace of passes is allowed.
- `generate` (main.go:36-46), the random producer, is not modelled. Its copy-before-mutate is automatic for Dafny values.
- Channel closure is not modelled. Nothing closes `in`, and a closed channel would yield zero values forever.
- `ToWrite.N` is a Go `int`. It is modelled as an unbounded integer because the scheduler only copies it.
- `Write` runs a finite prefix of the loop's unbounded sequence of passes.
