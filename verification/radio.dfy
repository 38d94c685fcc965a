/** The radio panel (radiopanel.go): four five-digit displays in a 20-byte
    buffer, negative values marked with the dash code 0xef. */
module RadioPanel {
  import opened Wrappers
  import opened Ids
  import opened Encoder
  import opened Panels

  const BufferLength: nat := 20

  /** ACTIVE_1, STANDBY_1, ACTIVE_2, STANDBY_2. */
  const Displays: nat := 4

  const Dash: bv8 := 0xef

  /** What the constructor fills the buffer with. */
  const InitCode: bv8 := 0x0f

  /** The switch names in declaration order; a switch's id is its index. */
  const SwitchNames: seq<string> := [
    "COM1_1", "COM2_1", "NAV1_1", "NAV2_1", "ADF_1", "DME_1", "XPDR_1",
    "COM1_2", "COM2_2", "NAV1_2", "NAV2_2", "ADF_2", "DME_2", "XPDR_2",
    "ACT_1", "ACT_2",
    "ENC1_CW_1", "ENC1_CCW_1", "ENC2_CW_1", "ENC2_CCW_1",
    "ENC1_CW_2", "ENC1_CCW_2", "ENC2_CW_2", "ENC2_CCW_2"]

  predicate IsRadio(p: Panel)
  {
    p.id == Radio && |p.buffer| == BufferLength
  }

  /** NewRadioPanel: every byte 0x0f and the buffer dirty, so the first
      refresh sends it. */
  function New(a: Answers): (o: Opened)
    ensures o.panel.Some? <==> Succeeds(a)
    ensures o.panel.Some? ==>
      && IsRadio(o.panel.value) && o.panel.value.dirty
      && forall i :: 0 <= i < BufferLength ==> o.panel.value.buffer[i] == InitCode
  {
    Open(Radio, seq(BufferLength, i => InitCode), true, a)
  }

  /** The first refresh of a new radio panel sends twenty 0x0f bytes. */
  lemma NewFirstRefresh(a: Answers)
    requires Succeeds(a)
    ensures Transmissions(Refresh(New(a).panel.value).sent) == [seq(BufferLength, i => InitCode)]
  {
  }

  /** DisplayFloat from the already-scaled value: checks decimals, then the
      display, then the magnitude; on success only the five bytes of the
      display change and the buffer is marked dirty. */
  function DisplayFloat(p: Panel, display: nat, scaled: int, decimals: int): (u: Update)
    requires IsRadio(p) && IsInt64(scaled)
    ensures IsRadio(u.panel) && u.panel.handles == p.handles
    ensures u.error == ErrorOf(Validate(display, Displays, scaled, decimals))
    ensures u.error.Some? ==> u.panel == p
    ensures u.error.None? ==>
      && display < Displays && u.panel.dirty
      && WritesOnly(p.buffer, u.panel.buffer, display * Width)
      && ShowsNumber(u.panel.buffer, display * Width, Abs(scaled), scaled < 0, decimals, Dash)
  {
    DisplayNumber(p, Displays, Dash, display, scaled, decimals)
  }

  /** DisplayInt is DisplayFloat with no decimals; it succeeds exactly for
      a display below 4 and a value within +-99999. */
  function DisplayInt(p: Panel, display: nat, n: int): (u: Update)
    requires IsRadio(p) && IsInt64(n)
    ensures u == DisplayFloat(p, display, n, 0)
    ensures u.error.None? <==> display < Displays && -99999 <= n <= 99999
  {
    DisplayNumberAccepts(p, Displays, Dash, display, n, 0);
    DisplayFloat(p, display, n, 0)
  }

  /** DisplayOff: every byte blank, buffer dirty. */
  function DisplayOff(p: Panel): (r: Panel)
    requires IsRadio(p)
    ensures IsRadio(r) && r.dirty && r.handles == p.handles
    ensures forall i :: 0 <= i < BufferLength ==> r.buffer[i] == Blank
  {
    p.(buffer := seq(BufferLength, i => Blank), dirty := true)
  }

  /** After DisplayOff every display already shows what DisplayInt(d, 0)
      writes: zero is five blanks. */
  lemma DisplayOffShowsZero(p: Panel, display: nat)
    requires IsRadio(p) && display < Displays
    ensures DisplayInt(DisplayOff(p), display, 0).panel == DisplayOff(p)
  {
    var off := DisplayOff(p);
    var u := DisplayInt(off, display, 0);
    ZeroIsBlank(0, Dash);
    forall i | 0 <= i < BufferLength
      ensures u.panel.buffer[i] == off.buffer[i]
    {
      if display * Width <= i < display * Width + Width {
        var d := Width - 1 - (i - display * Width);
        assert i == display * Width + (Width - 1 - d);
        assert u.panel.buffer[i] == Segment(0, false, 0, Dash, d);
      }
    }
    assert u.panel.buffer == off.buffer;
  }

  /** refreshDisplay: sends the whole 20-byte buffer iff dirty. */
  function RefreshDisplay(p: Panel): (r: Refreshed)
    requires IsRadio(p)
    ensures IsRadio(r.panel) && !r.panel.dirty && r.panel.buffer == p.buffer
    ensures p.dirty ==> r.sent == [Control(0x21, 0x09, 0x03, 0x00, p.buffer)] && |p.buffer| == 20
    ensures !p.dirty ==> r.sent == []
  {
    Refresh(p)
  }

  /** noZeroSwitch: false exactly for ACT_1 and ACT_2. */
  function NoZeroSwitch(s: nat): (r: bool)
    ensures !r <==> s < |SwitchNames| && SwitchNames[s] in {"ACT_1", "ACT_2"}
  {
    if s == 14 || s == 15 then false else true
  }
}
