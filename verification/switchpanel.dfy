/** The switch panel (switchpanel.go): one output byte driving the three
    landing-gear lamps, each with a green and a red LED. */
module SwitchPanel {
  import opened Wrappers
  import opened Ids
  import opened Panels
  import opened Switches

  const BufferLength: nat := 1

  /** The LED bits, in declaration order 1 << iota. */
  const GreenN: bv8 := 1
  const GreenL: bv8 := 2
  const GreenR: bv8 := 4
  const RedN: bv8 := 8
  const RedL: bv8 := 16
  const RedR: bv8 := 32

  /** Yellow is green and red together. */
  const YellowN: bv8 := GreenN | RedN
  const YellowL: bv8 := GreenL | RedL
  const YellowR: bv8 := GreenR | RedR
  const GreenAll: bv8 := GreenN | GreenL | GreenR
  const RedAll: bv8 := RedN | RedL | RedR
  const YellowAll: bv8 := YellowN | YellowL | YellowR
  const GearN: bv8 := YellowN
  const GearL: bv8 := YellowL
  const GearR: bv8 := YellowR
  const GearAll: bv8 := YellowAll

  /** The switch names in declaration order; a switch's id is its index. */
  const SwitchNames: seq<string> := [
    "BAT", "ALTERNATOR", "AVIONICS", "FUEL", "DEICE", "PITOT", "COWL", "PANEL",
    "BEACON", "NAV", "STROBE", "TAXI", "LANDING",
    "ENG_OFF", "ALT_R", "ALT_L", "ALT_BOTH", "ENG_START", "GEAR_UP", "GEAR_DOWN"]

  /** The six LEDs each own one bit 0..5; the yellow, all and gear masks
      are unions of them, and bits 6 and 7 drive nothing. */
  lemma LedLayout()
    ensures [GreenN, GreenL, GreenR, RedN, RedL, RedR] == [1 << 0, 1 << 1, 1 << 2, 1 << 3, 1 << 4, 1 << 5]
    ensures YellowN == 0x09 && YellowL == 0x12 && YellowR == 0x24
    ensures GreenAll == 0x07 && RedAll == 0x38 && YellowAll == 0x3f
    ensures GreenAll & RedAll == 0 && GreenAll | RedAll == GearAll
    ensures GearN | GearL | GearR == GearAll && GearAll & 0xc0 == 0
  {
  }

  predicate IsSwitchPanel(p: Panel)
  {
    p.id == Switch && |p.buffer| == BufferLength
  }

  /** The output byte. */
  function Leds(p: Panel): bv8
    requires IsSwitchPanel(p)
  {
    p.buffer[0]
  }

  /** NewSwitchPanel: the byte starts at 0 and the buffer is NOT marked
      dirty. */
  function New(a: Answers): (o: Opened)
    ensures o.panel.Some? <==> Succeeds(a)
    ensures o.panel.Some? ==>
      IsSwitchPanel(o.panel.value) && Leds(o.panel.value) == 0 && !o.panel.value.dirty
  {
    Open(Switch, [0], false, a)
  }

  /** Nothing is sent before the first SetGear*: a new panel's refresh is
      silent, and the device has not been told the byte is 0. */
  lemma NewSilentUntilChanged(a: Answers)
    requires Succeeds(a)
    ensures Refresh(New(a).panel.value).sent == []
    ensures !Synced(New(a).panel.value, New(a).log)
  {
    var o := New(a);
    OpenLog(Switch, [0], false, a);
  }

  /** SetGear: the byte becomes s, the buffer dirty. */
  function SetGear(p: Panel, s: bv8): (r: Panel)
    requires IsSwitchPanel(p)
    ensures IsSwitchPanel(r) && r.dirty && r.handles == p.handles
    ensures forall k :: 0 <= k < 8 ==> (ByteBit(Leds(r), k) <==> ByteBit(s, k))
  {
    p.(buffer := [s], dirty := true)
  }

  /** SetGearOn: every bit of s is set, the other bits are kept, the buffer
      is dirty. */
  function SetGearOn(p: Panel, s: bv8): (r: Panel)
    requires IsSwitchPanel(p)
    ensures IsSwitchPanel(r) && r.dirty && r.handles == p.handles
    ensures forall k :: 0 <= k < 8 ==> (ByteBit(Leds(r), k) <==> ByteBit(Leds(p), k) || ByteBit(s, k))
  {
    OrBits(p.buffer[0], s);
    p.(buffer := [p.buffer[0] | s], dirty := true)
  }

  /** SetGearOff: every bit of s is cleared, the other bits are kept, the
      buffer is dirty. */
  function SetGearOff(p: Panel, s: bv8): (r: Panel)
    requires IsSwitchPanel(p)
    ensures IsSwitchPanel(r) && r.dirty && r.handles == p.handles
    ensures forall k :: 0 <= k < 8 ==> (ByteBit(Leds(r), k) <==> ByteBit(Leds(p), k) && !ByteBit(s, k))
  {
    AndNotBits(p.buffer[0], s);
    p.(buffer := [p.buffer[0] & !s], dirty := true)
  }

  /** OR sets a bit exactly when either operand has it. */
  lemma OrBits(a: bv8, s: bv8)
    ensures forall k :: 0 <= k < 8 ==> (ByteBit(a | s, k) <==> ByteBit(a, k) || ByteBit(s, k))
  {
    forall k | 0 <= k < 8
      ensures ByteBit(a | s, k) <==> ByteBit(a, k) || ByteBit(s, k)
    {
      if k < 4 {
        OrBitLow(a, s, k);
      } else {
        OrBitHigh(a, s, k);
      }
    }
  }

  lemma OrBitLow(a: bv8, s: bv8, k: nat)
    requires k < 4
    ensures ByteBit(a | s, k) <==> ByteBit(a, k) || ByteBit(s, k)
  {
    if k == 0 {} else if k == 1 {} else if k == 2 {} else {}
  }

  lemma OrBitHigh(a: bv8, s: bv8, k: nat)
    requires 4 <= k < 8
    ensures ByteBit(a | s, k) <==> ByteBit(a, k) || ByteBit(s, k)
  {
    if k == 4 {} else if k == 5 {} else if k == 6 {} else {}
  }

  /** AND NOT keeps a bit exactly when the first operand has it and the
      second does not. */
  lemma AndNotBits(a: bv8, s: bv8)
    ensures forall k :: 0 <= k < 8 ==> (ByteBit(a & !s, k) <==> ByteBit(a, k) && !ByteBit(s, k))
  {
    forall k | 0 <= k < 8
      ensures ByteBit(a & !s, k) <==> ByteBit(a, k) && !ByteBit(s, k)
    {
      if k < 4 {
        AndNotBitLow(a, s, k);
      } else {
        AndNotBitHigh(a, s, k);
      }
    }
  }

  lemma AndNotBitLow(a: bv8, s: bv8, k: nat)
    requires k < 4
    ensures ByteBit(a & !s, k) <==> ByteBit(a, k) && !ByteBit(s, k)
  {
    if k == 0 {} else if k == 1 {} else if k == 2 {} else {}
  }

  lemma AndNotBitHigh(a: bv8, s: bv8, k: nat)
    requires 4 <= k < 8
    ensures ByteBit(a & !s, k) <==> ByteBit(a, k) && !ByteBit(s, k)
  {
    if k == 4 {} else if k == 5 {} else if k == 6 {} else {}
  }

  /** Two panels with the same bits, dirty flag and handles are equal. */
  lemma SameBits(p: Panel, q: Panel)
    requires IsSwitchPanel(p) && IsSwitchPanel(q) && p.dirty == q.dirty && p.handles == q.handles
    requires forall k :: 0 <= k < 8 ==> (ByteBit(Leds(p), k) <==> ByteBit(Leds(q), k))
    ensures p == q
  {
    var a, b := Leds(p), Leds(q);
    assert ByteBit(a, 0) == ByteBit(b, 0) && ByteBit(a, 1) == ByteBit(b, 1);
    assert ByteBit(a, 2) == ByteBit(b, 2) && ByteBit(a, 3) == ByteBit(b, 3);
    assert ByteBit(a, 4) == ByteBit(b, 4) && ByteBit(a, 5) == ByteBit(b, 5);
    assert ByteBit(a, 6) == ByteBit(b, 6) && ByteBit(a, 7) == ByteBit(b, 7);
    assert a == b;
    assert p.buffer == [a] && q.buffer == [b];
  }

  lemma SetGearOnIdempotent(p: Panel, s: bv8)
    requires IsSwitchPanel(p)
    ensures SetGearOn(SetGearOn(p, s), s) == SetGearOn(p, s)
  {
    SameBits(SetGearOn(SetGearOn(p, s), s), SetGearOn(p, s));
  }

  lemma SetGearOffIdempotent(p: Panel, s: bv8)
    requires IsSwitchPanel(p)
    ensures SetGearOff(SetGearOff(p, s), s) == SetGearOff(p, s)
  {
    SameBits(SetGearOff(SetGearOff(p, s), s), SetGearOff(p, s));
  }

  /** SetGearOn then SetGearOff of the same bits clears them and keeps the
      rest: the same as SetGearOff alone. */
  lemma OnThenOff(p: Panel, s: bv8)
    requires IsSwitchPanel(p)
    ensures SetGearOff(SetGearOn(p, s), s) == SetGearOff(p, s)
  {
    SameBits(SetGearOff(SetGearOn(p, s), s), SetGearOff(p, s));
  }

  /** SetGear(s) is clearing every bit and then setting those of s. */
  lemma SetGearIsOffThenOn(p: Panel, s: bv8)
    requires IsSwitchPanel(p)
    ensures SetGear(p, s) == SetGearOn(SetGearOff(p, 0xff), s)
  {
    assert forall k :: 0 <= k < 8 ==> ByteBit(0xff, k);
    SameBits(SetGear(p, s), SetGearOn(SetGearOff(p, 0xff), s));
  }

  /** refreshDisplay: sends the single byte iff dirty. */
  function RefreshDisplay(p: Panel): (r: Refreshed)
    requires IsSwitchPanel(p)
    ensures IsSwitchPanel(r.panel) && !r.panel.dirty && r.panel.buffer == p.buffer
    ensures p.dirty ==> r.sent == [Control(0x21, 0x09, 0x03, 0x00, [Leds(p)])]
    ensures !p.dirty ==> r.sent == []
  {
    assert p.buffer == [Leds(p)];
    Refresh(p)
  }

  /** noZeroSwitch: true exactly for the engine rotary ENG_OFF..ENG_START
      and the gear lever. */
  function NoZeroSwitch(s: nat): (r: bool)
    ensures r <==> (s < |SwitchNames| &&
                    SwitchNames[s] in {"ENG_OFF", "ALT_R", "ALT_L", "ALT_BOTH", "ENG_START", "GEAR_UP", "GEAR_DOWN"})
  {
    if s >= 13 && s <= 17 then true
    else if s == 18 || s == 19 then true
    else false
  }
}
