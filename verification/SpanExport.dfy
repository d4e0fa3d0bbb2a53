/** Spans on their way out: a bounded queue, one batching loop, and a ring of recent traces. */
module SpanExport {

  const CAPACITY := 2048
  const BATCH := 100

  /**
   * `queue` is the channel, `batch` what the loop has taken and not sent, `sent` the batches handed
   * to send. `accepted` lists the spans the channel took, `dropped` counts those it did not.
   */
  datatype State<S> = State(
    queue: seq<S>, closed: bool, batch: seq<S>, sent: seq<seq<S>>, done: bool,
    accepted: seq<S>, dropped: nat)

  /** A caller records or stops; the loop receives, ticks, or finds the channel closed and empty. */
  datatype Event<S> = Record(s: S) | Stop | Receive | Tick | Finish

  function Fresh<S>(): State<S>
  {
    State([], false, [], [], false, [], 0)
  }

  ghost predicate Enabled<S>(x: State<S>, e: Event<S>)
  {
    match e
    case Record(_) => !x.closed
    case Stop => !x.closed
    case Receive => !x.done && x.queue != []
    case Tick => !x.done
    case Finish => !x.done && x.closed && x.queue == []
  }

  function Flush<S>(x: State<S>): State<S>
  {
    if x.batch == [] then x else x.(batch := [], sent := x.sent + [x.batch])
  }

  function Step<S>(x: State<S>, e: Event<S>): State<S>
    requires Enabled(x, e)
  {
    match e
    case Record(s) =>
      if |x.queue| < CAPACITY then x.(queue := x.queue + [s], accepted := x.accepted + [s])
      else x.(dropped := x.dropped + 1)
    case Stop => x.(closed := true)
    case Receive =>
      var x' := x.(queue := x.queue[1..], batch := x.batch + [x.queue[0]]);
      if |x'.batch| >= BATCH then Flush(x') else x'
    case Tick => Flush(x)
    case Finish => Flush(x).(done := true)
  }

  ghost predicate IsRun<S>(trace: seq<State<S>>, es: seq<Event<S>>)
  {
    && |trace| == |es| + 1 && trace[0] == Fresh()
    && forall i :: 0 <= i < |es| ==> Enabled(trace[i], es[i]) && trace[i + 1] == Step(trace[i], es[i])
  }

  function Concat<S>(batches: seq<seq<S>>): seq<S>
  {
    if batches == [] then [] else Concat(batches[..|batches| - 1]) + batches[|batches| - 1]
  }

  /** Nothing is lost, reordered or duplicated between the channel and send; batches are never empty or too big. */
  ghost predicate Conserved<S>(x: State<S>)
  {
    && Concat(x.sent) + x.batch + x.queue == x.accepted
    && |x.queue| <= CAPACITY && |x.batch| < BATCH
    && (forall i :: 0 <= i < |x.sent| ==> 1 <= |x.sent[i]| <= BATCH)
    && (x.done ==> x.closed && x.queue == [] && x.batch == [])
  }

  lemma {:induction false} ConcatAppend<S>(batches: seq<seq<S>>, b: seq<S>)
    ensures Concat(batches + [b]) == Concat(batches) + b
  {
    assert (batches + [b])[..|batches|] == batches;
  }

  lemma {:induction false} FlushConserves<S>(x: State<S>)
    ensures Concat(Flush(x).sent) + Flush(x).batch == Concat(x.sent) + x.batch
  {
    hide Concat;
    if x.batch != [] {
      ConcatAppend(x.sent, x.batch);
      assert Concat(x.sent) + x.batch + [] == Concat(x.sent) + x.batch;
    }
  }

  lemma {:induction false} StepConserves<S>(x: State<S>, e: Event<S>)
    requires Conserved(x) && Enabled(x, e)
    ensures Conserved(Step(x, e))
  {
    hide Concat;
    match e {
      case Record(s) =>
        assert Concat(x.sent) + x.batch + (x.queue + [s]) == Concat(x.sent) + x.batch + x.queue + [s];
      case Receive =>
        var x' := x.(queue := x.queue[1..], batch := x.batch + [x.queue[0]]);
        assert x.queue == [x.queue[0]] + x.queue[1..];
        assert Concat(x'.sent) + x'.batch + x'.queue == x.accepted;
        FlushConserves(x');
      case Stop =>
      case Tick => FlushConserves(x);
      case Finish => FlushConserves(x);
    }
  }

  /** In every interleaving: sent batches, then the pending batch, then the queue, are the accepted spans in order. */
  lemma {:induction false} AlwaysConserved<S>(trace: seq<State<S>>, es: seq<Event<S>>, i: nat)
    requires IsRun(trace, es) && i < |trace|
    ensures Conserved(trace[i])
    decreases i
  {
    hide Conserved, Enabled, Step;
    if i == 0 {
      FreshConserved<S>();
    } else {
      AlwaysConserved(trace, es, i - 1);
      StepConserves(trace[i - 1], es[i - 1]);
    }
  }

  lemma {:induction false} FreshConserved<S>()
    ensures Conserved(Fresh<S>())
  {
  }

  /** When the loop has ended, every span ever accepted has been handed to send, in order. */
  lemma {:induction false} NothingLeftBehind<S>(trace: seq<State<S>>, es: seq<Event<S>>)
    requires IsRun(trace, es) && trace[|es|].done
    ensures Concat(trace[|es|].sent) == trace[|es|].accepted
  {
    AlwaysConserved(trace, es, |es|);
    var x := trace[|es|];
    assert Concat(x.sent) + [] + [] == Concat(x.sent);
  }

  /** A span is dropped exactly when it is recorded while the queue holds its full 2048. */
  lemma {:induction false} DropsOnlyWhenFull<S>(trace: seq<State<S>>, es: seq<Event<S>>, i: nat)
    requires IsRun(trace, es) && i < |es|
    ensures trace[i + 1].dropped == trace[i].dropped + (if es[i].Record? && |trace[i].queue| == 2048 then 1 else 0)
    ensures es[i].Record? && |trace[i].queue| < 2048 ==> trace[i + 1].accepted == trace[i].accepted + [es[i].s]
  {
    AlwaysConserved(trace, es, i);
    assert Enabled(trace[i], es[i]) && trace[i + 1] == Step(trace[i], es[i]);
  }

  /**
   * A batch is handed over exactly when its hundredth span arrives, or, if it holds any, at a tick or at
   * the end; and then all of it. Otherwise it only grows, one span at a time.
   */
  lemma {:induction false} SendsWhenDue<S>(trace: seq<State<S>>, es: seq<Event<S>>, i: nat)
    requires IsRun(trace, es) && i < |es|
    ensures var x, x' := trace[i], trace[i + 1];
            var pending := if es[i].Receive? && x.queue != [] then x.batch + [x.queue[0]] else x.batch;
            var due := (es[i].Receive? && |pending| == 100) || ((es[i].Tick? || es[i].Finish?) && pending != []);
            && x'.sent == (if due then x.sent + [pending] else x.sent)
            && x'.batch == (if due then [] else pending)
  {
    AlwaysConserved(trace, es, i);
    assert Enabled(trace[i], es[i]) && trace[i + 1] == Step(trace[i], es[i]);
  }

  // --------------------------------------------------------------- the object

  class Exporter<S> {
    var ch: seq<S>
    var closed: bool
    var batch: seq<S>
    var sent: seq<seq<S>>
    var done: bool
    ghost var accepted: seq<S>
    ghost var dropped: nat

    ghost function Abs(): State<S>
      reads this
    {
      State(ch, closed, batch, sent, done, accepted, dropped)
    }

    constructor ()
      ensures Abs() == Fresh()
    {
      ch, closed, batch, sent, done := [], false, [], [], false;
      accepted, dropped := [], 0;
    }

    method Record(s: S)
      requires !closed
      modifies this
      ensures Abs() == Step(old(Abs()), Event.Record(s))
    {
      if |ch| < CAPACITY {
        ch := ch + [s];
        accepted := accepted + [s];
      } else {
        dropped := dropped + 1;
      }
    }

    method Send(spans: seq<S>)
      modifies this`sent
      ensures sent == old(sent) + [spans]
    {
      sent := sent + [spans];
    }

    method OnSpan()
      requires Enabled(Abs(), Receive)
      modifies this
      ensures Abs() == Step(old(Abs()), Receive)
    {
      var s := ch[0];
      ch := ch[1..];
      batch := batch + [s];
      if |batch| >= BATCH {
        Send(batch);
        batch := [];
      }
    }

    method OnTick()
      requires Enabled(Abs(), Tick)
      modifies this
      ensures Abs() == Step(old(Abs()), Tick)
    {
      if |batch| > 0 {
        Send(batch);
        batch := [];
      }
    }

    method OnClosed()
      requires Enabled(Abs(), Finish)
      modifies this
      ensures Abs() == Step(old(Abs()), Finish)
    {
      if |batch| > 0 {
        Send(batch);
        batch := [];
      }
      done := true;
    }

    /** Close the channel and wait for the loop, which drains it first; ticks may still come in between. */
    method Stop()
      requires !closed && !done && Conserved(Abs())
      modifies this
      ensures done && closed && ch == [] && batch == []
      ensures accepted == old(accepted) && dropped == old(dropped)
      ensures Concat(sent) == accepted && Conserved(Abs())
    {
      hide Concat;
      StepConserves(Abs(), Event.Stop);
      closed := true;
      while ch != []
        invariant closed && !done && Conserved(Abs())
        invariant accepted == old(accepted) && dropped == old(dropped)
        decreases |ch|
      {
        if * {
          StepConserves(Abs(), Tick);
          OnTick();
        }
        StepConserves(Abs(), Receive);
        OnSpan();
      }
      StepConserves(Abs(), Finish);
      OnClosed();
      assert Concat(sent) + [] + [] == Concat(sent);
    }
  }

  // ----------------------------------------------------------- recent traces

  /** The last n of a history, or all of it while it is shorter. */
  function Last<T>(history: seq<T>, n: nat): seq<T>
  {
    if |history| <= n then history else history[|history| - n..]
  }

  class TraceStore<T> {
    var spans: seq<T>
    const max: nat
    /** Everything ever added. */
    ghost var history: seq<T>

    ghost predicate Valid()
      reads this
    {
      max >= 1 && spans == Last(history, max)
    }

    constructor (max: int)
      ensures Valid() && history == []
      ensures this.max == if max <= 0 then 100 else max
    {
      this.max := if max <= 0 then 100 else max;
      spans, history := [], [];
    }

    method Add(s: T)
      requires Valid()
      modifies this
      ensures Valid() && history == old(history) + [s]
    {
      if |spans| >= max {
        spans := spans[1..];
      }
      spans := spans + [s];
      history := history + [s];
    }

    method GetAll() returns (out: seq<T>)
      requires Valid()
      ensures |out| == if |history| < max then |history| else max
      ensures out == history[|history| - |out|..]
    {
      out := spans;
    }
  }
}
