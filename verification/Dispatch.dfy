/** rocketmq/client/trace.go: the dispatcher's queue, its pending batch and the loop that commits batches. */
module Dispatch {
  import opened Common

  const BATCH_SIZE := 100
  const QUEUE_SIZE := 1024

  /** The dispatcher with the local variables of its loop; `committed` are the batches given to batchCommit. */
  datatype State<T> = State(
    running: bool, cancelled: bool, ended: bool, input: seq<T>, discarded: nat,
    count: nat, batch: seq<T>, committed: seq<seq<T>>)

  /** A call of Append or Close, or one turn of the loop: a context taken from the queue, a tick (with whether the
      time since the last put has run out), or the cancellation. */
  datatype Event<T> = Append(ctx: T) | Close | Receive | Tick(expired: bool) | Done

  /** The dispatcher once Start has returned. */
  function Started<T>(): State<T> {
    State(true, false, false, [], 0, 0, [], [])
  }

  function Step<T>(s: State<T>, e: Event<T>): State<T> {
    match e
    case Append(ctx) =>
      if !s.running then s
      else if |s.input| < QUEUE_SIZE then s.(input := s.input + [ctx])
      else s.(discarded := s.discarded + 1)
    case Close => s.(running := false, cancelled := true)
    case Receive =>
      if s.ended || s.input == [] then s
      else
        var batch := s.batch + [s.input[0]];
        if s.count + 1 == BATCH_SIZE then s.(input := s.input[1..], count := 0, batch := [], committed := s.committed + [batch])
        else s.(input := s.input[1..], count := s.count + 1, batch := batch)
    case Tick(expired) =>
      if s.ended || !expired then s
      else if s.batch == [] then s.(count := s.count + 1)
      else s.(count := s.count + 1, batch := [], committed := s.committed + [s.batch])
    case Done =>
      if s.ended || !s.cancelled then s
      else s.(ended := true, batch := [], committed := s.committed + [s.batch])
  }

  /** A run, and what Append returned along it. */
  function Run<T>(s: State<T>, events: seq<Event<T>>): State<T>
    decreases |events|
  {
    if events == [] then s else Step(Run(s, events[..|events| - 1]), events[|events| - 1])
  }

  predicate Accepts<T>(s: State<T>, e: Event<T>) {
    e.Append? && s.running && |s.input| < QUEUE_SIZE
  }

  /** The contexts for which Append returned true. */
  function Accepted<T>(s: State<T>, events: seq<Event<T>>): seq<T>
    decreases |events|
  {
    if events == [] then []
    else
      var front, last := events[..|events| - 1], events[|events| - 1];
      Accepted(s, front) + if Accepts(Run(s, front), last) then [last.ctx] else []
  }

  /** Calls of Append while the dispatcher ran. */
  function AppendsWhileRunning<T>(s: State<T>, events: seq<Event<T>>): nat
    decreases |events|
  {
    if events == [] then 0
    else
      var front, last := events[..|events| - 1], events[|events| - 1];
      AppendsWhileRunning(s, front) + if last.Append? && Run(s, front).running then 1 else 0
  }

  /** Every accepted context is in a committed batch, in the pending batch or in the queue: once, and in order. */
  ghost predicate Conserved<T>(s: State<T>, accepted: seq<T>, appends: nat) {
    && accepted == Flatten(s.committed) + s.batch + s.input
    && appends == |accepted| + s.discarded
    && |s.input| <= QUEUE_SIZE
    && (s.ended ==> s.batch == [] && s.cancelled) && (s.cancelled <==> !s.running)
  }

  lemma StepConserves<T>(s: State<T>, e: Event<T>, accepted: seq<T>, appends: nat)
    requires Conserved(s, accepted, appends)
    ensures Conserved(Step(s, e), if Accepts(s, e) then accepted + [e.ctx] else accepted,
                      if e.Append? && s.running then appends + 1 else appends)
  {
    hide Flatten;
    FlattenSnoc(s.committed, s.batch);
    if s.input != [] {
      FlattenSnoc(s.committed, s.batch + [s.input[0]]);
      assert s.input == [s.input[0]] + s.input[1..];
    }
    match e
    case Append(ctx) =>
    case Close =>
    case Receive =>
      assert accepted == Flatten(Step(s, e).committed) + Step(s, e).batch + Step(s, e).input;
    case Tick(_) =>
    case Done =>
  }

  /** Every run conserves what was appended: no context is lost, repeated or reordered, and the calls of Append made
      while running are exactly the accepted and the discarded ones. */
  lemma {:induction false} RunConserves<T>(events: seq<Event<T>>)
    ensures Conserved(Run(Started(), events), Accepted(Started(), events), AppendsWhileRunning(Started(), events))
    decreases |events|
  {
    if events != [] {
      var front, last := events[..|events| - 1], events[|events| - 1];
      RunConserves(front);
      StepConserves(Run(Started(), front), last, Accepted(Started(), front), AppendsWhileRunning(Started(), front));
    }
  }

  /** When the loop has ended, nothing is pending: what is not committed is still in the queue, where it stays. So
      every accepted context is committed exactly when the queue was empty at the end. */
  lemma EndedCommits<T>(events: seq<Event<T>>)
    requires Run(Started(), events).ended
    ensures var s := Run(Started(), events);
            && Accepted(Started(), events) == Flatten(s.committed) + s.input
            && (Accepted(Started(), events) == Flatten(s.committed) <==> s.input == [])
  {
    hide Run, Accepted, AppendsWhileRunning, Flatten;
    RunConserves(events);
    var s := Run(Started(), events);
    NothingLeft(Accepted(Started(), events), Flatten(s.committed), s.input);
  }

  lemma NothingLeft<T>(all: seq<T>, done: seq<T>, rest: seq<T>)
    requires all == done + [] + rest
    ensures all == done + rest && (all == done <==> rest == [])
  {
    assert |all| == |done| + |rest|;
    assert done + [] == done;
  }

  lemma {:induction false} NothingAfterTheEnd<T>(s: State<T>, events: seq<Event<T>>)
    requires s.ended && !s.running
    ensures var t := Run(s, events); t.ended && !t.running && t.committed == s.committed && t.input == s.input
    decreases |events|
  {
    if events != [] {
      NothingAfterTheEnd(s, events[..|events| - 1]);
    }
  }

  lemma PastTheLimit<T>(s: State<T>, e: Event<T>)
    requires s.count >= BATCH_SIZE
    ensures Step(s, e).count >= BATCH_SIZE
    ensures e.Receive? ==> Step(s, e).committed == s.committed
  {
  }

  /** Ticks count too, but only a received context compares the count with the batch size, and it asks for equality.
      Past the limit the count never comes back, whatever happens, and no received context commits a batch any more. */
  lemma {:induction false} LimitStaysLost<T>(s: State<T>, events: seq<Event<T>>)
    requires s.count >= BATCH_SIZE
    ensures Run(s, events).count >= BATCH_SIZE
    ensures forall k | 0 <= k < |events| && events[k] == Receive :: Run(s, events[..k + 1]).committed == Run(s, events[..k]).committed
    decreases |events|
  {
    hide Step;
    if events != [] {
      var last := |events| - 1;
      var front := events[..last];
      LimitStaysLost(s, front);
      PastTheLimit(Run(s, front), events[last]);
      assert events[..last + 1] == events;
      forall k | 0 <= k < last && events[k] == Receive ensures Run(s, events[..k + 1]).committed == Run(s, events[..k]).committed {
        assert front[k] == events[k] && front[..k + 1] == events[..k + 1] && front[..k] == events[..k];
      }
    }
  }

  /** An expired tick comes right before the contexts that would have filled the batch. */
  ghost predicate SteppedOver<T>(events: seq<Event<T>>, k: nat) {
    && k < |events| && events[k] == Tick(true)
    && var s := Run(Started(), events[..k]); !s.ended && s.count == BATCH_SIZE - 1
  }

  lemma StepReachesLimit<T>(s: State<T>, e: Event<T>)
    ensures Step(s, e).count >= BATCH_SIZE <==>
            s.count >= BATCH_SIZE || (e == Tick(true) && !s.ended && s.count == BATCH_SIZE - 1)
  {
  }

  /** The limit is lost exactly when an expired tick takes the count from one below it. */
  lemma {:induction false} LimitLostIff<T>(events: seq<Event<T>>)
    ensures Run(Started(), events).count >= BATCH_SIZE <==> exists k: nat :: SteppedOver(events, k)
    decreases |events|
  {
    hide Step;
    if events == [] {
      assert Run(Started<T>(), events) == Started();
    } else {
      var last := |events| - 1;
      var front := events[..last];
      LimitLostIff(front);
      StepReachesLimit(Run(Started(), front), events[last]);
      forall k: nat | k < last ensures SteppedOver(events, k) <==> SteppedOver(front, k) {
        assert events[..k] == front[..k];
      }
      assert SteppedOver(events, last) <==>
             events[last] == Tick(true) && !Run(Started(), front).ended && Run(Started(), front).count == BATCH_SIZE - 1;
    }
  }

  /** Until then the size limit holds. */
  lemma {:induction false} LimitHolds<T>(events: seq<Event<T>>)
    requires Run(Started(), events).count < BATCH_SIZE
    ensures var s := Run(Started(), events);
            |s.batch| <= s.count && forall b | b in s.committed :: |b| <= 100
    decreases |events|
  {
    hide Run;
    if events == [] {
      assert Run(Started<T>(), events) == Started() by { EmptyRun(Started<T>()); }
    } else {
      var front, last := events[..|events| - 1], events[|events| - 1];
      RunSnoc(Started(), front, last);
      assert events == front + [last];
      StepReachesLimit(Run(Started(), front), last);
      LimitHolds(front);
    }
  }

  lemma EmptyRun<T>(s: State<T>)
    ensures Run(s, []) == s
  {
  }

  lemma RunSnoc<T>(s: State<T>, events: seq<Event<T>>, e: Event<T>)
    ensures Run(s, events + [e]) == Step(Run(s, events), e)
  {
    assert (events + [e])[..|events|] == events;
  }

  /** Afterwards a batch can grow as long as contexts are appended and received. */
  lemma {:induction false} NoLimitAfterwards<T>(s: State<T>, x: T, n: nat) returns (events: seq<Event<T>>)
    requires s.running && !s.ended && s.count >= BATCH_SIZE
    ensures var t := Run(s, events); t.running && !t.ended && t.count >= BATCH_SIZE && |t.batch| >= n
    decreases n
  {
    if n == 0 {
      events := [];
    } else {
      var before := NoLimitAfterwards(s, x, n - 1);
      events := before + [Event.Append(x)] + [Receive];
      RunSnoc(s, before, Event.Append(x));
      RunSnoc(s, before + [Event.Append(x)], Receive);
    }
  }

  // ---------------------------------------------------------------------------
  // What is committed, and when
  // ---------------------------------------------------------------------------

  /** A context is accepted exactly while the dispatcher runs and fewer than 1024 contexts wait. */
  lemma AcceptsIff<T>(s: State<T>, ctx: T)
    ensures Accepts(s, Event.Append(ctx)) <==> s.running && |s.input| < 1024
    ensures Step(s, Event.Append(ctx)).input == if Accepts(s, Event.Append(ctx)) then s.input + [ctx] else s.input
  {
  }

  /** A tick that has not expired changes nothing; one that has leaves nothing pending and commits no empty batch. */
  lemma TickCommits<T>(s: State<T>)
    requires !s.ended
    ensures Step(s, Tick(false)) == s
    ensures var t := Step(s, Tick(true));
            && t.batch == [] && t.input == s.input && Flatten(t.committed) == Flatten(s.committed) + s.batch
            && (s.batch == [] ==> t.committed == s.committed)
  {
    FlattenSnoc(s.committed, s.batch);
  }

  function Receives<T>(n: nat): seq<Event<T>> {
    seq(n, _ => Receive)
  }

  lemma ReceivesSnoc<T>(s: State<T>, n: nat)
    ensures Run(s, Receives(n + 1)) == Step(Run(s, Receives(n)), Receive)
    ensures Run(s, Receives(0)) == s
  {
    var more: seq<Event<T>> := Receives(n + 1);
    assert more[..n] == Receives(n) && more[n] == Receive;
    assert more == more[..n] + [more[n]];
    RunSnoc(s, Receives(n), Receive);
    var none: seq<Event<T>> := Receives(0);
    assert none == [];
    EmptyRun(s);
  }

  /** Without ticks, contexts are committed a hundred at a time: up to then they are pending, in order. */
  lemma {:induction false} HundredMakeABatch<T>(s: State<T>, n: nat)
    requires !s.ended && s.count == 0 && s.batch == [] && n <= 100 && n <= |s.input|
    ensures var t := Run(s, Receives(n));
            && !t.ended && t.input == s.input[n..]
            && (n < 100 ==> t.batch == s.input[..n] && t.count == n && t.committed == s.committed)
            && (n == 100 ==> t.batch == [] && t.count == 0 && t.committed == s.committed + [s.input[..100]])
  {
    hide Run;
    ReceivesSnoc(s, if n == 0 then 0 else n - 1);
    if n > 0 {
      HundredMakeABatch(s, n - 1);
      assert s.input[n - 1..][1..] == s.input[n..];
      assert s.input[..n - 1] + [s.input[n - 1..][0]] == s.input[..n];
    }
  }

  lemma {:induction false} ReceivesDrain<T>(s: State<T>, n: nat)
    requires !s.ended && n <= |s.input|
    ensures var t := Run(s, Receives(n));
            && !t.ended && t.input == s.input[n..] && t.running == s.running && t.cancelled == s.cancelled
            && Flatten(t.committed) + t.batch == Flatten(s.committed) + s.batch + s.input[..n]
  {
    hide Run, Flatten;
    ReceivesSnoc(s, if n == 0 then 0 else n - 1);
    if n > 0 {
      ReceivesDrain(s, n - 1);
      var t := Run(s, Receives(n - 1));
      var all, batch := Flatten(s.committed) + s.batch, t.batch + [t.input[0]];
      FlattenSnoc(t.committed, batch);
      assert t.input[1..] == s.input[n..] && t.input[0] == s.input[n - 1];
      assert s.input[..n] == s.input[..n - 1] + [s.input[n - 1]];
      assert Flatten(t.committed) + batch == (Flatten(t.committed) + t.batch) + [s.input[n - 1]];
      assert all + s.input[..n] == (all + s.input[..n - 1]) + [s.input[n - 1]];
    } else {
      assert s.input[..0] == [] && s.input[0..] == s.input;
      assert Flatten(s.committed) + s.batch + [] == Flatten(s.committed) + s.batch;
    }
  }

  /** A dispatcher that is closed once its queue has been received commits everything it has accepted. */
  lemma ClosedWhenDrained<T>(events: seq<Event<T>>)
    requires !Run(Started(), events).ended
    ensures var s := Run(Started(), events);
            var t := Step(Step(Run(s, Receives(|s.input|)), Event.Close), Event.Done);
            t.ended && !t.running && t.batch == [] && t.input == [] && Flatten(t.committed) == Accepted(Started(), events)
  {
    hide Run, Accepted, AppendsWhileRunning, Flatten;
    RunConserves(events);
    var s := Run(Started(), events);
    ReceivesDrain(s, |s.input|);
    var t := Run(s, Receives(|s.input|));
    assert s.input[..|s.input|] == s.input;
    FlattenSnoc(t.committed, t.batch);
  }

  class TraceDispatcher<T> {
    var running: bool
    var cancelled: bool
    var input: seq<T>
    var discardCount: nat
    var ended: bool
    var count: nat
    var batch: seq<T>
    var committed: seq<seq<T>>

    ghost function View(): State<T>
      reads this
    {
      State(running, cancelled, ended, input, discardCount, count, batch, committed)
    }

    constructor ()
      ensures View() == Started()
    {
      running, cancelled, ended := true, false, false;
      input, discardCount, count, batch, committed := [], 0, 0, [], [];
    }

    method Append(ctx: T) returns (ok: bool)
      modifies this
      ensures View() == Step(old(View()), Event.Append(ctx))
      ensures ok == Accepts(old(View()), Event.Append(ctx))
    {
      if !running {
        return false;
      }
      if |input| < QUEUE_SIZE {
        input := input + [ctx];
        return true;
      }
      discardCount := discardCount + 1;
      return false;
    }

    method Close()
      modifies this
      ensures View() == Step(old(View()), Event.Close)
    {
      running := false;
      cancelled := true;
    }

    /** process, case `ctx := <-td.input`. */
    method Receive()
      requires !ended && input != []
      modifies this
      ensures View() == Step(old(View()), Event.Receive)
    {
      var ctx := input[0];
      input := input[1..];
      count := count + 1;
      batch := batch + [ctx];
      if count == BATCH_SIZE {
        count := 0;
        committed := committed + [batch];
        batch := [];
      }
    }

    /** process, case `<-td.ticker.C`. */
    method Tick(expired: bool)
      requires !ended
      modifies this
      ensures View() == Step(old(View()), Event.Tick(expired))
    {
      if expired {
        count := count + 1;
        if |batch| > 0 {
          committed := committed + [batch];
          batch := [];
        }
      }
    }

    /** process, case `<-td.ctx.Done()`. */
    method Done()
      requires !ended && cancelled
      modifies this
      ensures View() == Step(old(View()), Event.Done)
    {
      committed := committed + [batch];
      batch := [];
      ended := true;
    }

    /** The dispatcher under any schedule of calls and turns of its loop; a turn that is not enabled is skipped. */
    method Process(schedule: seq<Event<T>>) returns (accepted: seq<T>)
      modifies this
      ensures View() == Run(old(View()), schedule)
      ensures accepted == Accepted(old(View()), schedule)
    {
      hide Step, Accepts;
      accepted := [];
      for i := 0 to |schedule|
        invariant View() == Run(old(View()), schedule[..i])
        invariant accepted == Accepted(old(View()), schedule[..i])
      {
        assert schedule[..i + 1][..i] == schedule[..i];
        var ok := Turn(schedule[i]);
        if ok {
          accepted := accepted + [schedule[i].ctx];
        }
      }
      assert schedule[..|schedule|] == schedule;
    }

    method Turn(e: Event<T>) returns (accepted: bool)
      modifies this
      ensures View() == Step(old(View()), e)
      ensures accepted == Accepts(old(View()), e) && (accepted ==> e.Append?)
    {
      accepted := false;
      match e {
        case Append(ctx) =>
          accepted := Append(ctx);
        case Close =>
          Close();
        case Receive =>
          if !ended && input != [] {
            Receive();
          }
        case Tick(expired) =>
          if !ended {
            Tick(expired);
          }
        case Done =>
          if !ended && cancelled {
            Done();
          }
      }
    }
  }
}
