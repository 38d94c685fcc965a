/** The switch reader of panel.go (readSwitches) over a finite stream of
    reports: what it stores with setSwitches and what it sends on the
    event channel, in order. The stream, its errors and the goroutine that
    runs the reader are not modelled; a finite sequence of reports stands
    for what the stream delivered before the point of interest. */
module SwitchReader {
  import opened Wrappers
  import opened Ids
  import opened Switches

  /** What the reader does, in order: store a mask with setSwitches, or
      send an event on the channel. */
  datatype ReaderAction = Store(mask: Mask) | Send(event: SwitchEvent)

  function Sends(es: seq<SwitchEvent>): (r: seq<ReaderAction>)
    ensures |r| == |es|
    ensures forall k :: 0 <= k < |es| ==> r[k] == Send(es[k])
  {
    seq(|es|, k requires 0 <= k < |es| => Send(es[k]))
  }

  /** A step result whose mask fits in 24 bits and whose events each carry
      their switch's bit of that mask. */
  predicate Settled(r: StepResult)
  {
    && Fits(r.state)
    && forall k :: 0 <= k < |r.events| ==> r.events[k].on == On(r.state, r.events[k].id)
  }

  /** Handling the reports in turn, starting from mask `state`; each step
      starts from the mask the previous one stored. */
  function Steps(panel: PanelId, state: Mask, reports: seq<Report>): (rs: seq<StepResult>)
    ensures |rs| == |reports|
    decreases |reports|
  {
    if |reports| == 0 then []
    else
      var r := Step(panel, state, reports[0]);
      [r] + Steps(panel, r.state, reports[1..])
  }

  /** One step is settled. */
  lemma StepSettled(panel: PanelId, state: Mask, data: Report)
    ensures Settled(Step(panel, state, data))
  {
    StepTransitions(panel, state, data);
  }

  /** Step t > 0 of a run is step t - 1 of the run from the first mask stored. */
  lemma StepsShift(panel: PanelId, state: Mask, reports: seq<Report>, t: nat)
    requires 0 < t < |reports|
    ensures Steps(panel, state, reports)[t]
         == Steps(panel, Step(panel, state, reports[0]).state, reports[1..])[t - 1]
  {
    StepsCons(panel, state, reports);
  }

  /** Step t of a run is settled. */
  lemma {:induction false} StepsSettledAt(panel: PanelId, state: Mask, reports: seq<Report>, t: nat)
    requires t < |reports|
    ensures Settled(Steps(panel, state, reports)[t])
    decreases t
  {
    if t == 0 {
      StepsCons(panel, state, reports);
      StepSettled(panel, state, reports[0]);
    } else {
      StepsShift(panel, state, reports, t);
      StepsSettledAt(panel, Step(panel, state, reports[0]).state, reports[1..], t - 1);
    }
  }

  /** Every step of a run is settled. */
  lemma StepsSettled(panel: PanelId, state: Mask, reports: seq<Report>)
    ensures forall t :: 0 <= t < |reports| ==> Settled(Steps(panel, state, reports)[t])
  {
    forall t | 0 <= t < |reports|
      ensures Settled(Steps(panel, state, reports)[t])
    {
      StepsSettledAt(panel, state, reports, t);
    }
  }

  /** The actions of a run: per report, store its mask, then send its
      events. */
  function Log(rs: seq<StepResult>): seq<ReaderAction>
    decreases |rs|
  {
    if |rs| == 0 then []
    else [Store(rs[0].state)] + Sends(rs[0].events) + Log(rs[1..])
  }

  /** readSwitches over a finite stream of reports, from mask `state`. */
  function Watch(panel: PanelId, state: Mask, reports: seq<Report>): (log: seq<ReaderAction>)
    ensures log == [] <==> reports == []
    ensures reports != [] ==> log[0] == Store(DecodeReport(reports[0]))
  {
    Log(Steps(panel, state, reports))
  }

  /** One report's worth of actions, then the rest of the run. */
  lemma WatchUnfold(panel: PanelId, state: Mask, reports: seq<Report>)
    requires |reports| > 0
    ensures var r := Step(panel, state, reports[0]);
      Watch(panel, state, reports)
        == [Store(r.state)] + Sends(r.events) + Watch(panel, r.state, reports[1..])
  {
    var rs := Steps(panel, state, reports);
    assert rs[1..] == Steps(panel, rs[0].state, reports[1..]);
  }

  /** The events a reader log sends, in order. */
  function Events(log: seq<ReaderAction>): seq<SwitchEvent>
    decreases |log|
  {
    if |log| == 0 then []
    else if log[0].Send? then [log[0].event] + Events(log[1..])
    else Events(log[1..])
  }

  /** The most recently stored mask in a log, if any. */
  function LastStore(log: seq<ReaderAction>): Option<Mask>
    decreases |log|
  {
    if |log| == 0 then None
    else if log[|log| - 1].Store? then Some(log[|log| - 1].mask)
    else LastStore(log[..|log| - 1])
  }

  lemma {:induction false} LastStoreAppend(a: seq<ReaderAction>, b: seq<ReaderAction>)
    requires exists k :: 0 <= k < |b| && b[k].Store?
    ensures LastStore(a + b) == LastStore(b)
    decreases |b|
  {
    if b[|b| - 1].Store? {
      assert (a + b)[|a + b| - 1] == b[|b| - 1];
    } else {
      var k :| 0 <= k < |b| && b[k].Store?;
      assert k < |b| - 1;
      assert (a + b)[..|a + b| - 1] == a + b[..|b| - 1];
      assert b[..|b| - 1][k] == b[k];
      LastStoreAppend(a, b[..|b| - 1]);
    }
  }

  lemma {:induction false} LastStoreSends(m: Mask, es: seq<SwitchEvent>, n: nat)
    requires n <= |es|
    ensures LastStore([Store(m)] + Sends(es)[..n]) == Some(m)
    decreases n
  {
    var log := [Store(m)] + Sends(es)[..n];
    if n > 0 {
      assert log[..|log| - 1] == [Store(m)] + Sends(es)[..n - 1];
      LastStoreSends(m, es, n - 1);
    }
  }

  /** In the log of settled steps, every sent event agrees with the mask
      stored last before it. */
  lemma {:induction false} LogStoredBeforeSent(rs: seq<StepResult>, k: nat)
    requires forall t :: 0 <= t < |rs| ==> Settled(rs[t])
    requires k < |Log(rs)| && Log(rs)[k].Send?
    ensures LastStore(Log(rs)[..k]).Some?
    ensures On(LastStore(Log(rs)[..k]).value, Log(rs)[k].event.id) == Log(rs)[k].event.on
    decreases |rs|
  {
    var log := Log(rs);
    var r := rs[0];
    var head := [Store(r.state)] + Sends(r.events);
    var tail := Log(rs[1..]);
    assert log == head + tail;
    if k < |head| {
      var n := k - 1;
      assert log[..k] == [Store(r.state)] + Sends(r.events)[..n];
      LastStoreSends(r.state, r.events, n);
      assert log[k] == Send(r.events[n]);
    } else {
      var k' := k - |head|;
      assert log[k] == tail[k'];
      assert forall t :: 0 <= t < |rs[1..]| ==> rs[1..][t] == rs[t + 1];
      LogStoredBeforeSent(rs[1..], k');
      var tlog := tail[..k'];
      assert tlog[0] == Store(rs[1].state);
      assert log[..k] == head + tlog;
      LastStoreAppend(head, tlog);
    }
  }

  /** When the reader sends an event, the switch state it stored with
      setSwitches already agrees with it: a report's mask is stored before
      any of its events is sent. */
  lemma StoredBeforeSent(panel: PanelId, state: Mask, reports: seq<Report>, k: nat)
    requires k < |Watch(panel, state, reports)| && Watch(panel, state, reports)[k].Send?
    ensures LastStore(Watch(panel, state, reports)[..k]).Some?
    ensures On(LastStore(Watch(panel, state, reports)[..k]).value, Watch(panel, state, reports)[k].event.id)
         == Watch(panel, state, reports)[k].event.on
  {
    StepsSettled(panel, state, reports);
    LogStoredBeforeSent(Steps(panel, state, reports), k);
  }

  /** Every mask stored in log fits in 24 bits. */
  predicate StoresFit(log: seq<ReaderAction>)
  {
    forall k :: 0 <= k < |log| && log[k].Store? ==> Fits(log[k].mask)
  }

  lemma {:induction false} LogStoresFit(rs: seq<StepResult>)
    requires forall t :: 0 <= t < |rs| ==> Fits(rs[t].state)
    ensures StoresFit(Log(rs))
    decreases |rs|
  {
    if |rs| > 0 {
      assert forall t :: 0 <= t < |rs[1..]| ==> rs[1..][t] == rs[t + 1];
      LogStoresFit(rs[1..]);
      var head := [Store(rs[0].state)] + Sends(rs[0].events);
      assert Log(rs) == head + Log(rs[1..]);
      assert StoresFit(head);
    }
  }

  /** Every mask the reader stores fits in 24 bits, whatever mask it starts
      from. */
  lemma StoredMasksFit(panel: PanelId, state: Mask, reports: seq<Report>)
    ensures StoresFit(Watch(panel, state, reports))
  {
    StepsSettled(panel, state, reports);
    LogStoresFit(Steps(panel, state, reports));
  }

  /** The reports 0b000, 0b001, 0b001, 0b011 of the example run. */
  function ExampleReports(): seq<Report>
  {
    [[0, 0, 0], [1, 0, 0], [1, 0, 0], [3, 0, 0]]
  }

  lemma SmallBytes()
    ensures Bits(0) == [false, false, false, false, false, false, false, false]
    ensures Bits(1) == [true, false, false, false, false, false, false, false]
    ensures Bits(3) == [true, true, false, false, false, false, false, false]
  {
    NoBitsOfZero();
    assert ByteBit(1, 0) && !ByteBit(1, 1) && !ByteBit(1, 2) && !ByteBit(1, 3);
    assert !ByteBit(1, 4) && !ByteBit(1, 5) && !ByteBit(1, 6) && !ByteBit(1, 7);
    assert ByteBit(3, 0) && ByteBit(3, 1) && !ByteBit(3, 2) && !ByteBit(3, 3);
    assert !ByteBit(3, 4) && !ByteBit(3, 5) && !ByteBit(3, 6) && !ByteBit(3, 7);
  }

  /** The masks of the example reports: nothing, switch 0, switches 0 and 1. */
  lemma ExampleMasks()
    ensures DecodeReport([0, 0, 0]) == Zero
    ensures DecodeReport([1, 0, 0]) == seq(32, i => i == 0)
    ensures DecodeReport([3, 0, 0]) == seq(32, i => i < 2)
  {
    SmallBytes();
  }

  /** Each report of the example run, from the mask before it. */
  lemma ExampleStepResults(panel: PanelId)
    ensures var m1 := DecodeReport([1, 0, 0]);
      && Step(panel, Zero, [0, 0, 0]) == StepResult(Zero, [])
      && Step(panel, Zero, [1, 0, 0]) == StepResult(m1, [SwitchEvent(panel, 0, true)])
      && Step(panel, m1, [1, 0, 0]) == StepResult(m1, [])
      && Step(panel, m1, [3, 0, 0]) == StepResult(DecodeReport([3, 0, 0]), [SwitchEvent(panel, 1, true)])
  {
    ExampleMasks();
    RepeatIsQuiet(panel, Zero, [0, 0, 0]);
    OnlyChange(panel, Zero, [1, 0, 0], 0);
    RepeatIsQuiet(panel, Zero, [1, 0, 0]);
    OnlyChange(panel, DecodeReport([1, 0, 0]), [3, 0, 0], 1);
  }

  lemma StepsCons(panel: PanelId, state: Mask, reports: seq<Report>)
    requires |reports| > 0
    ensures var r := Step(panel, state, reports[0]);
      Steps(panel, state, reports) == [r] + Steps(panel, r.state, reports[1..])
  {
  }

  /** The last two steps of the example run, from the mask of switch 0. */
  lemma ExampleTail(panel: PanelId)
    ensures var m1 := DecodeReport([1, 0, 0]);
      Steps(panel, m1, [[1, 0, 0], [3, 0, 0]])
        == [StepResult(m1, []), StepResult(DecodeReport([3, 0, 0]), [SwitchEvent(panel, 1, true)])]
  {
    var m1 := DecodeReport([1, 0, 0]);
    var tail: seq<Report> := [[1, 0, 0], [3, 0, 0]];
    ExampleStepResults(panel);
    StepsCons(panel, m1, tail);
    assert tail[1..] == [[3, 0, 0]];
    StepsCons(panel, m1, tail[1..]);
    assert tail[1..][1..] == [];
  }

  /** The steps of the example run from the initial mask: nothing, switch 0
      on, nothing, switch 1 on. */
  lemma ExampleSteps(panel: PanelId)
    ensures var m1 := DecodeReport([1, 0, 0]);
      var m3 := DecodeReport([3, 0, 0]);
      Steps(panel, Zero, ExampleReports())
        == [StepResult(Zero, []), StepResult(m1, [SwitchEvent(panel, 0, true)]),
            StepResult(m1, []), StepResult(m3, [SwitchEvent(panel, 1, true)])]
  {
    var reports := ExampleReports();
    ExampleStepResults(panel);
    ExampleTail(panel);
    StepsCons(panel, Zero, reports);
    assert reports[1..] == [[1, 0, 0], [1, 0, 0], [3, 0, 0]];
    StepsCons(panel, Zero, reports[1..]);
    assert reports[1..][1..] == [[1, 0, 0], [3, 0, 0]];
  }

  lemma {:induction false} EventsAppend(a: seq<ReaderAction>, b: seq<ReaderAction>)
    ensures Events(a + b) == Events(a) + Events(b)
    decreases |a|
  {
    if |a| > 0 {
      assert (a + b)[1..] == a[1..] + b;
      EventsAppend(a[1..], b);
    } else {
      assert a + b == b;
    }
  }

  /** The sent events of a run are its steps' events in order. */
  lemma {:induction false} LogEvents(rs: seq<StepResult>)
    ensures Events(Log(rs)) == if |rs| == 0 then [] else rs[0].events + Events(Log(rs[1..]))
  {
    if |rs| > 0 {
      var es := rs[0].events;
      EventsAppend([Store(rs[0].state)] + Sends(es), Log(rs[1..]));
      EventsAppend([Store(rs[0].state)], Sends(es));
      SendsEvents(es);
    }
  }

  lemma {:induction false} SendsEvents(es: seq<SwitchEvent>)
    ensures Events(Sends(es)) == es
    decreases |es|
  {
    if |es| > 0 {
      assert Sends(es)[1..] == Sends(es[1..]);
      SendsEvents(es[1..]);
    }
  }

  /** The events sent for the example's steps. */
  lemma ExampleStepEvents(panel: PanelId, m1: Mask, m3: Mask)
    ensures Events(Log([StepResult(Zero, []), StepResult(m1, [SwitchEvent(panel, 0, true)]),
                        StepResult(m1, []), StepResult(m3, [SwitchEvent(panel, 1, true)])]))
         == [SwitchEvent(panel, 0, true), SwitchEvent(panel, 1, true)]
  {
    var rs := [StepResult(Zero, []), StepResult(m1, [SwitchEvent(panel, 0, true)]),
               StepResult(m1, []), StepResult(m3, [SwitchEvent(panel, 1, true)])];
    LogEvents(rs);
    assert rs[1..] == [rs[1], rs[2], rs[3]];
    LogEvents(rs[1..]);
    assert rs[1..][1..] == [rs[2], rs[3]];
    LogEvents(rs[1..][1..]);
    assert rs[1..][1..][1..] == [rs[3]];
    LogEvents(rs[1..][1..][1..]);
    assert rs[1..][1..][1..][1..] == [];
    LogEvents(rs[1..][1..][1..][1..]);
  }

  /** The example run emits exactly "switch 0 on" then "switch 1 on". */
  lemma ExampleTrace(panel: PanelId)
    ensures Events(Watch(panel, Zero, ExampleReports()))
         == [SwitchEvent(panel, 0, true), SwitchEvent(panel, 1, true)]
  {
    ExampleSteps(panel);
    ExampleStepEvents(panel, DecodeReport([1, 0, 0]), DecodeReport([3, 0, 0]));
  }

  /** The run from report n on: report n's store and events, then the
      rest. */
  lemma WatchNext(panel: PanelId, state: Mask, reports: seq<Report>, n: nat)
    requires n < |reports|
    ensures var m := DecodeReport(reports[n]);
      Watch(panel, state, reports[n..])
        == [Store(m)] + Sends(Changes(panel, Xor(state, m), m, 0)) + Watch(panel, m, reports[n + 1..])
  {
    WatchUnfold(panel, state, reports[n..]);
    assert reports[n..][1..] == reports[n + 1..];
  }

  /** The outer loop's invariant survives handling report n. */
  lemma WatchStep(panel: PanelId, log: seq<ReaderAction>, state: Mask, reports: seq<Report>, n: nat)
    requires n < |reports|
    requires log + Watch(panel, state, reports[n..]) == Watch(panel, Zero, reports)
    ensures var m := DecodeReport(reports[n]);
      log + ([Store(m)] + Sends(Changes(panel, Xor(state, m), m, 0))) + Watch(panel, m, reports[n + 1..])
        == Watch(panel, Zero, reports)
  {
    WatchNext(panel, state, reports, n);
  }

  /** The inner loop's invariant survives bit i. */
  lemma ScanStep(panel: PanelId, changed: Mask, state: Mask, sent: seq<SwitchEvent>, i: nat)
    requires i < ReportBits
    requires sent + Changes(panel, changed, state, i) == Changes(panel, changed, state, 0)
    ensures var next := if SwitchState(changed, i) == 1
                        then sent + [SwitchEvent(panel, i, SwitchState(state, i) == 1)] else sent;
      next + Changes(panel, changed, state, i + 1) == Changes(panel, changed, state, 0)
  {
    var rest := Changes(panel, changed, state, i + 1);
    if SwitchState(changed, i) == 1 {
      var e := SwitchEvent(panel, i, SwitchState(state, i) == 1);
      assert Changes(panel, changed, state, i) == [e] + rest;
      assert sent + [e] + rest == sent + ([e] + rest);
    }
  }

  /** The inner loop of readSwitches: bits 0..23 of `changed` in turn,
      one event for each set bit, carrying that bit of `state`. */
  method ScanChanges(panel: PanelId, changed: Mask, state: Mask) returns (sent: seq<SwitchEvent>)
    ensures sent == Changes(panel, changed, state, 0)
  {
    sent := [];
    var i: nat := 0;
    while i < ReportBits
      invariant i <= ReportBits
      invariant sent + Changes(panel, changed, state, i) == Changes(panel, changed, state, 0)
    {
      ScanStep(panel, changed, state, sent, i);
      if SwitchState(changed, i) == 1 {
        sent := sent + [SwitchEvent(panel, i, SwitchState(state, i) == 1)];
      }
      i := i + 1;
    }
  }

  /** readSwitches with its stream replaced by a finite sequence of
      reports: the mask starts at 0; each report is decoded, XORed with the
      previous mask, stored, and its changes are sent. */
  method ReadSwitches(panel: PanelId, reports: seq<Report>) returns (log: seq<ReaderAction>)
    ensures log == Watch(panel, Zero, reports)
  {
    var state: Mask := Zero;
    log := [];
    var n := 0;
    while n < |reports|
      invariant 0 <= n <= |reports|
      invariant log + Watch(panel, state, reports[n..]) == Watch(panel, Zero, reports)
    {
      var newState := DecodeReport(reports[n]);
      var changed := Xor(state, newState);
      var sent := ScanChanges(panel, changed, newState);
      WatchStep(panel, log, state, reports, n);
      log := log + ([Store(newState)] + Sends(sent));
      state := newState;
      n := n + 1;
    }
    assert reports[n..] == [];
  }
}
