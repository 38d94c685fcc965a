/** Switch state of a panel and the report-diffing engine of readSwitches
    (panel.go).

    Every input report is three bytes, assembled little-endian into a 24-bit
    mask. The engine stores the new mask, XORs it with the previous one and
    emits one event per changed bit, lowest bit first. */
module Switches {
  import opened Ids
  import opened Wrappers

  /** Width of PanelSwitches, a uint32. */
  const MaskWidth: nat := 32

  /** PanelSwitches, one bit per switch: element i is bit i of the uint32.
      Go's shifts, AND and XOR on it are written out bit by bit below. */
  type Mask = m: seq<bool> | |m| == MaskWidth witness seq(32, i => false)

  /** One input report as read from the panel's stream. */
  type Report = r: seq<bv8> | |r| == 3 witness [0, 0, 0]

  /** Number of switch bits a report carries. */
  const ReportBits: nat := 24

  /** One observed transition: SwitchState{Panel, Switch, On}. */
  datatype SwitchEvent = SwitchEvent(panel: PanelId, id: nat, on: bool)

  /** The mask with no switch on, the reader's starting state. */
  const Zero: Mask := seq(32, i => false)

  /** The uint32 constant 1. */
  function One(): Mask
  {
    seq(32, i => i == 0)
  }

  /** A mask fits a report when no bit at or above 24 is set, i.e. it is
      below 2^24. */
  predicate Fits(m: Mask)
  {
    forall i :: ReportBits <= i < MaskWidth ==> !m[i]
  }

  /** Go's `x << n` on uint32: bits pushed past bit 31 are lost, so a shift
      by 32 or more gives 0. */
  function Shl(x: Mask, n: nat): (r: Mask)
    ensures forall i :: 0 <= i < n && i < MaskWidth ==> !r[i]
    ensures forall i :: n <= i < MaskWidth ==> r[i] == x[i - n]
  {
    seq(32, i requires 0 <= i < 32 => n <= i && x[i - n])
  }

  /** Go's `x >> n` on uint32; a shift by 32 or more gives 0. */
  function Shr(x: Mask, n: nat): (r: Mask)
    ensures forall i :: 0 <= i < MaskWidth ==> r[i] == (i + n < MaskWidth && x[i + n])
  {
    seq(32, i requires 0 <= i < 32 => i + n < 32 && x[i + n])
  }

  /** Go's `a & b`. */
  function And(a: Mask, b: Mask): (r: Mask)
    ensures forall i :: 0 <= i < MaskWidth ==> r[i] == (a[i] && b[i])
  {
    seq(32, i requires 0 <= i < 32 => a[i] && b[i])
  }

  /** Go's `a ^ b`. */
  function Xor(a: Mask, b: Mask): (r: Mask)
    ensures forall i :: 0 <= i < MaskWidth ==> r[i] == (a[i] != b[i])
  {
    seq(32, i requires 0 <= i < 32 => a[i] != b[i])
  }

  /** Go's `x != 0`. */
  predicate NonZero(x: Mask)
  {
    true in x
  }

  /** Switch id is on in m: bit id of the uint32 is set. */
  predicate On(m: Mask, id: nat)
  {
    id < MaskWidth && m[id]
  }

  /** PanelSwitches.SwitchState: `(switches >> id) & 1`, 1 if switch id is
      on, else 0. */
  function SwitchState(m: Mask, id: nat): (r: nat)
    ensures r <= 1
    ensures r == 1 <==> On(m, id)
  {
    if And(Shr(m, id), One())[0] then 1 else 0
  }

  /** PanelSwitches.IsSet as written: Go gives `&` and `<<` the same
      precedence, so the expression is `(switches & 1) << id`. */
  function IsSet(m: Mask, id: nat): (r: bool)
    ensures r <==> m[0] && id < MaskWidth
  {
    var x := Shl(And(m, One()), id);
    assert id < MaskWidth && m[0] ==> x[id];
    NonZero(x)
  }

  /** What IsSet's documentation promises, `switches & (1 << id) != 0`:
      true iff switch id is on. */
  function IsSetIntended(m: Mask, id: nat): (r: bool)
    ensures r <==> SwitchState(m, id) == 1
  {
    var x := And(m, Shl(One(), id));
    assert id < MaskWidth && m[id] ==> x[id];
    NonZero(x)
  }

  /** IsSet and its documented meaning disagree: with only switch 1 on it
      answers false for switch 1, and with only switch 0 on it answers true
      for switch 5. */
  lemma IsSetDiverges()
    ensures var m := DecodeReport([2, 0, 0]); !IsSet(m, 1) && IsSetIntended(m, 1)
    ensures var m := DecodeReport([1, 0, 0]); IsSet(m, 5) && !IsSetIntended(m, 5)
  {
    assert ByteBit(2, 1) && !ByteBit(2, 0);
    assert ByteBit(1, 0) && !ByteBit(1, 5);
  }

  // ---------------------------------------------------------------------
  // Reports

  /** Bit k of a byte, `(b >> k) & 1 == 1`. */
  predicate ByteBit(b: bv8, k: nat)
    requires k < 8
  {
    (b >> k) & 1 == 1
  }

  /** The eight bits of b, lowest first. */
  function Bits(b: bv8): (r: seq<bool>)
    ensures |r| == 8
    ensures forall k :: 0 <= k < 8 ==> r[k] == ByteBit(b, k)
  {
    seq(8, k requires 0 <= k < 8 => ByteBit(b, k))
  }

  /** `uint32(data[0]) | uint32(data[1])<<8 | uint32(data[2])<<16`: bits
      0..7 of the mask are those of data[0], 8..15 of data[1], 16..23 of
      data[2], and bits 24..31 are clear. */
  function DecodeReport(data: Report): (m: Mask)
    ensures Fits(m)
  {
    Bits(data[0]) + Bits(data[1]) + Bits(data[2]) + Bits(0)
  }

  /** Bit k of a decoded report is bit k % 8 of report byte k / 8. */
  lemma ReportBit(data: Report, k: nat)
    requires k < ReportBits
    ensures DecodeReport(data)[k] == ByteBit(data[k / 8], k % 8)
  {
  }

  /** The byte whose bit k is bs[k]. */
  function PackByte(bs: seq<bool>): (b: bv8)
    requires |bs| == 8
  {
    (if bs[0] then 0x01 else 0) | (if bs[1] then 0x02 else 0)
    | (if bs[2] then 0x04 else 0) | (if bs[3] then 0x08 else 0)
    | (if bs[4] then 0x10 else 0) | (if bs[5] then 0x20 else 0)
    | (if bs[6] then 0x40 else 0) | (if bs[7] then 0x80 else 0)
  }

  lemma PackEach(bs: seq<bool>)
    requires |bs| == 8
    ensures var b := PackByte(bs);
      && ByteBit(b, 0) == bs[0] && ByteBit(b, 1) == bs[1]
      && ByteBit(b, 2) == bs[2] && ByteBit(b, 3) == bs[3]
      && ByteBit(b, 4) == bs[4] && ByteBit(b, 5) == bs[5]
      && ByteBit(b, 6) == bs[6] && ByteBit(b, 7) == bs[7]
  {
  }

  /** Packing eight bits and reading them back gives the same bits. */
  lemma PackBits(bs: seq<bool>)
    requires |bs| == 8
    ensures Bits(PackByte(bs)) == bs
  {
    PackEach(bs);
  }

  /** Reading a byte's eight bits and packing them gives the byte back. */
  lemma BitsPack(b: bv8)
    ensures PackByte(Bits(b)) == b
  {
    var bs := Bits(b);
    assert bs[0] == ByteBit(b, 0) && bs[1] == ByteBit(b, 1);
    assert bs[2] == ByteBit(b, 2) && bs[3] == ByteBit(b, 3);
    assert bs[4] == ByteBit(b, 4) && bs[5] == ByteBit(b, 5);
    assert bs[6] == ByteBit(b, 6) && bs[7] == ByteBit(b, 7);
  }

  /** The report that carries mask m. */
  function EncodeReport(m: Mask): (r: Report)
  {
    [PackByte(m[0..8]), PackByte(m[8..16]), PackByte(m[16..24])]
  }

  lemma NoBitsOfZero()
    ensures forall k :: 0 <= k < 8 ==> !Bits(0)[k]
  {
    assert !ByteBit(0, 0) && !ByteBit(0, 1) && !ByteBit(0, 2) && !ByteBit(0, 3);
    assert !ByteBit(0, 4) && !ByteBit(0, 5) && !ByteBit(0, 6) && !ByteBit(0, 7);
  }

  /** A mask below 2^24 survives encoding and decoding. */
  lemma DecodeEncode(m: Mask)
    requires Fits(m)
    ensures DecodeReport(EncodeReport(m)) == m
  {
    var r := EncodeReport(m);
    PackBits(m[0..8]);
    PackBits(m[8..16]);
    PackBits(m[16..24]);
    assert Bits(r[0]) == m[0..8];
    assert Bits(r[1]) == m[8..16];
    assert Bits(r[2]) == m[16..24];
    NoBitsOfZero();
    assert Bits(0) == m[24..32];
    assert m == m[0..8] + m[8..16] + m[16..24] + m[24..32];
  }

  lemma DecodeSlices(data: Report)
    ensures var d := DecodeReport(data);
      d[0..8] == Bits(data[0]) && d[8..16] == Bits(data[1]) && d[16..24] == Bits(data[2])
  {
  }

  /** A report survives decoding and encoding. */
  lemma EncodeDecode(data: Report)
    ensures EncodeReport(DecodeReport(data)) == data
  {
    DecodeSlices(data);
    BitsPack(data[0]);
    BitsPack(data[1]);
    BitsPack(data[2]);
  }

  /** The inner loop of readSwitches from bit i on: one event per set bit of
      `changed`, carrying that bit of `state`. */
  function Changes(panel: PanelId, changed: Mask, state: Mask, i: nat): (es: seq<SwitchEvent>)
    requires i <= ReportBits
    ensures forall k :: 0 <= k < |es| ==> i <= es[k].id < ReportBits
    decreases ReportBits - i
  {
    if i == ReportBits then []
    else
      var rest := Changes(panel, changed, state, i + 1);
      if SwitchState(changed, i) == 1 then
        [SwitchEvent(panel, i, SwitchState(state, i) == 1)] + rest
      else rest
  }

  /** Every event in es is for panel, reports a set bit of `changed`, and
      carries the matching bit of `state`. */
  predicate Faithful(panel: PanelId, changed: Mask, state: Mask, es: seq<SwitchEvent>)
  {
    forall k :: 0 <= k < |es| ==>
      && es[k].panel == panel
      && On(changed, es[k].id)
      && es[k].on == On(state, es[k].id)
  }

  /** The ids of es strictly increase. */
  predicate Ascending(es: seq<SwitchEvent>)
  {
    forall k, l :: 0 <= k < l < |es| ==> es[k].id < es[l].id
  }

  lemma {:induction false} ChangesSound(panel: PanelId, changed: Mask, state: Mask, i: nat)
    requires i <= ReportBits
    ensures Faithful(panel, changed, state, Changes(panel, changed, state, i))
    decreases ReportBits - i
  {
    if i < ReportBits {
      ChangesSound(panel, changed, state, i + 1);
      var es := Changes(panel, changed, state, i);
      var rest := Changes(panel, changed, state, i + 1);
      if On(changed, i) {
        assert es == [SwitchEvent(panel, i, On(state, i))] + rest;
        assert forall k :: 0 < k < |es| ==> es[k] == rest[k - 1];
      }
    }
  }

  lemma {:induction false} ChangesAscending(panel: PanelId, changed: Mask, state: Mask, i: nat)
    requires i <= ReportBits
    ensures Ascending(Changes(panel, changed, state, i))
    decreases ReportBits - i
  {
    if i < ReportBits {
      ChangesAscending(panel, changed, state, i + 1);
      var es := Changes(panel, changed, state, i);
      var rest := Changes(panel, changed, state, i + 1);
      if On(changed, i) {
        assert es == [SwitchEvent(panel, i, On(state, i))] + rest;
        assert forall k :: 0 < k < |es| ==> es[k] == rest[k - 1];
      }
    }
  }

  /** No set bit of `changed` from i on, no event. */
  lemma {:induction false} ChangesQuiet(panel: PanelId, changed: Mask, state: Mask, i: nat)
    requires i <= ReportBits
    ensures (forall j :: i <= j < ReportBits ==> !On(changed, j)) ==> Changes(panel, changed, state, i) == []
    decreases ReportBits - i
  {
    if i < ReportBits {
      ChangesQuiet(panel, changed, state, i + 1);
    }
  }

  /** With j the only set bit of `changed` from i on, the one event is for
      switch j. */
  lemma {:induction false} ChangesSingle(panel: PanelId, changed: Mask, state: Mask, i: nat, j: nat)
    requires i <= j < ReportBits && On(changed, j)
    requires forall l :: i <= l < ReportBits && l != j ==> !On(changed, l)
    ensures Changes(panel, changed, state, i) == [SwitchEvent(panel, j, On(state, j))]
    decreases j - i
  {
    if i == j {
      ChangesQuiet(panel, changed, state, i + 1);
    } else {
      ChangesSingle(panel, changed, state, i + 1, j);
    }
  }

  /** Some event of es is for switch j. */
  predicate Covers(es: seq<SwitchEvent>, j: nat)
  {
    exists k :: 0 <= k < |es| && es[k].id == j
  }

  /** Every set bit of `changed` from i on has its event. */
  lemma {:induction false} ChangesComplete(panel: PanelId, changed: Mask, state: Mask, i: nat, j: nat)
    requires i <= j < ReportBits && On(changed, j)
    ensures Covers(Changes(panel, changed, state, i), j)
    decreases ReportBits - i
  {
    var es := Changes(panel, changed, state, i);
    if j == i {
      assert es[0].id == j;
    } else {
      ChangesComplete(panel, changed, state, i + 1, j);
      var rest := Changes(panel, changed, state, i + 1);
      var k :| 0 <= k < |rest| && rest[k].id == j;
      if On(changed, i) {
        assert es[k + 1].id == j;
      } else {
        assert es[k].id == j;
      }
    }
  }

  /** Every event in es is for panel, names a switch that differs between
      `before` and `after`, and carries its state in `after`. */
  predicate Transitions(panel: PanelId, before: Mask, after: Mask, es: seq<SwitchEvent>)
  {
    forall k :: 0 <= k < |es| ==>
      && es[k].panel == panel
      && es[k].id < ReportBits
      && On(before, es[k].id) != On(after, es[k].id)
      && es[k].on == On(after, es[k].id)
  }

  /** The result of handling one report. */
  datatype StepResult = StepResult(state: Mask, events: seq<SwitchEvent>)

  /** One iteration of readSwitches: decode the report, XOR it with the
      previous mask, store it, and emit one event per changed switch. */
  function Step(panel: PanelId, state: Mask, data: Report): (r: StepResult)
    ensures Fits(r.state)
  {
    var newState := DecodeReport(data);
    StepResult(newState, Changes(panel, Xor(state, newState), newState, 0))
  }

  /** es holds exactly one event per switch whose bit differs between
      `before` and `after`, in ascending order, each carrying the bit in
      `after`. */
  predicate ExactEvents(panel: PanelId, before: Mask, after: Mask, es: seq<SwitchEvent>)
  {
    && Transitions(panel, before, after, es)
    && Ascending(es)
    && forall j :: 0 <= j < ReportBits && On(before, j) != On(after, j) ==> Covers(es, j)
  }

  /** A step stores the decoded report, and every event it emits is a
      transition of that report's bits, carrying the new bit. */
  lemma StepTransitions(panel: PanelId, state: Mask, data: Report)
    ensures Step(panel, state, data).state == DecodeReport(data)
    ensures Fits(Step(panel, state, data).state)
    ensures Transitions(panel, state, DecodeReport(data), Step(panel, state, data).events)
  {
    var newState := DecodeReport(data);
    ChangesSound(panel, Xor(state, newState), newState, 0);
  }

  /** A step emits its events in ascending switch order. */
  lemma StepAscending(panel: PanelId, state: Mask, data: Report)
    ensures Ascending(Step(panel, state, data).events)
  {
    var newState := DecodeReport(data);
    ChangesAscending(panel, Xor(state, newState), newState, 0);
  }

  /** A step emits an event for every switch whose bit changed. */
  lemma StepComplete(panel: PanelId, state: Mask, data: Report)
    ensures forall j :: 0 <= j < ReportBits && On(state, j) != On(DecodeReport(data), j) ==>
      Covers(Step(panel, state, data).events, j)
  {
    var newState := DecodeReport(data);
    var changed := Xor(state, newState);
    forall j | 0 <= j < ReportBits && On(state, j) != On(newState, j)
      ensures Covers(Changes(panel, changed, newState, 0), j)
    {
      assert On(changed, j);
      ChangesComplete(panel, changed, newState, 0, j);
    }
  }

  /** A step stores the decoded report, which fits in 24 bits, and its
      events are exact. */
  lemma StepExact(panel: PanelId, state: Mask, data: Report)
    ensures Step(panel, state, data).state == DecodeReport(data)
    ensures Fits(Step(panel, state, data).state)
    ensures ExactEvents(panel, state, Step(panel, state, data).state, Step(panel, state, data).events)
  {
    StepTransitions(panel, state, data);
    StepAscending(panel, state, data);
    StepComplete(panel, state, data);
  }

  /** A report that changes no switch emits nothing. */
  lemma StepQuiet(panel: PanelId, state: Mask, data: Report)
    requires forall j :: 0 <= j < ReportBits ==> On(state, j) == On(DecodeReport(data), j)
    ensures Step(panel, state, data).events == []
  {
    var m := DecodeReport(data);
    var changed := Xor(state, m);
    forall j | 0 <= j < ReportBits
      ensures !On(changed, j)
    {
      assert On(state, j) == On(m, j);
    }
    ChangesQuiet(panel, changed, m, 0);
  }

  /** Feeding the same report twice emits nothing the second time. */
  lemma RepeatIsQuiet(panel: PanelId, state: Mask, data: Report)
    ensures Step(panel, Step(panel, state, data).state, data).events == []
  {
    StepQuiet(panel, DecodeReport(data), data);
  }

  /** A release is emitted like a press: the noZeroSwitch filter is not
      applied by the engine. */
  lemma FallingEdgeEmitted(panel: PanelId, state: Mask, data: Report, j: nat)
    requires j < ReportBits && On(state, j) && !On(DecodeReport(data), j)
    ensures SwitchEvent(panel, j, false) in Step(panel, state, data).events
  {
    StepExact(panel, state, data);
    var r := Step(panel, state, data);
    var k :| 0 <= k < |r.events| && r.events[k].id == j;
    assert r.events[k] == SwitchEvent(panel, j, false);
  }

  // ---------------------------------------------------------------------
  // Reconstructing a mask from events

  /** Sets (on) or clears (off) bit id of m; ids past the mask change
      nothing. */
  function SetBit(m: Mask, id: nat, on: bool): (r: Mask)
    ensures forall i :: 0 <= i < MaskWidth ==> r[i] == if i == id then on else m[i]
  {
    if id < MaskWidth then m[id := on] else m
  }

  /** The mask a listener holds after applying events es to m in order. */
  function ApplyEvents(m: Mask, es: seq<SwitchEvent>): Mask
    decreases |es|
  {
    if |es| == 0 then m else ApplyEvents(SetBit(m, es[0].id, es[0].on), es[1..])
  }

  /** The mask with bits below i taken from newer and the rest from older. */
  function Mix(newer: Mask, older: Mask, i: nat): (r: Mask)
    ensures forall k :: 0 <= k < MaskWidth ==> r[k] == if k < i then newer[k] else older[k]
  {
    seq(32, k requires 0 <= k < 32 => if k < i then newer[k] else older[k])
  }

  /** Taking bit i from newer moves the boundary of a mix up by one. */
  lemma MixStep(newer: Mask, older: Mask, i: nat)
    requires i < ReportBits
    ensures SetBit(Mix(newer, older, i), i, newer[i]) == Mix(newer, older, i + 1)
  {
    var a, b := SetBit(Mix(newer, older, i), i, newer[i]), Mix(newer, older, i + 1);
    assert forall k :: 0 <= k < MaskWidth ==> a[k] == b[k];
  }

  /** Where newer and older agree on bit i, the boundary can move past it. */
  lemma MixSame(newer: Mask, older: Mask, i: nat)
    requires i < ReportBits && newer[i] == older[i]
    ensures Mix(newer, older, i) == Mix(newer, older, i + 1)
  {
    var a, b := Mix(newer, older, i), Mix(newer, older, i + 1);
    assert forall k :: 0 <= k < MaskWidth ==> a[k] == b[k];
  }

  lemma {:induction false} ApplyChanges(panel: PanelId, older: Mask, newer: Mask, i: nat)
    requires i <= ReportBits && Fits(older) && Fits(newer)
    ensures ApplyEvents(Mix(newer, older, i), Changes(panel, Xor(older, newer), newer, i)) == newer
    decreases ReportBits - i
  {
    var changed := Xor(older, newer);
    if i == ReportBits {
      assert Mix(newer, older, i) == newer;
    } else {
      ApplyChanges(panel, older, newer, i + 1);
      if SwitchState(changed, i) == 1 {
        var es := Changes(panel, changed, newer, i);
        assert es[1..] == Changes(panel, changed, newer, i + 1);
        MixStep(newer, older, i);
      } else {
        MixSame(newer, older, i);
      }
    }
  }

  /** Applying one report's events to the previous mask reconstructs the
      new mask. */
  lemma EventsReconstruct(panel: PanelId, state: Mask, data: Report)
    requires Fits(state)
    ensures var r := Step(panel, state, data);
      ApplyEvents(state, r.events) == r.state
  {
    var newState := DecodeReport(data);
    ApplyChanges(panel, state, newState, 0);
    assert Mix(newState, state, 0) == state;
  }

  /** When a report flips exactly one bit j, its events are the single
      event for j. */
  lemma OnlyChange(panel: PanelId, state: Mask, data: Report, j: nat)
    requires j < ReportBits
    requires On(state, j) != On(DecodeReport(data), j)
    requires forall i :: 0 <= i < ReportBits && i != j ==> On(state, i) == On(DecodeReport(data), i)
    ensures Step(panel, state, data).events == [SwitchEvent(panel, j, On(DecodeReport(data), j))]
  {
    var m := DecodeReport(data);
    var changed := Xor(state, m);
    forall l | 0 <= l < ReportBits && l != j
      ensures !On(changed, l)
    {
      assert On(state, l) == On(m, l);
    }
    ChangesSingle(panel, changed, m, 0, j);
  }
}
