/** The multi panel (multipanel.go): two five-digit rows in an 11-byte
    buffer, negative values marked with the dash code 0xde. */
module MultiPanel {
  import opened Wrappers
  import opened Ids
  import opened Encoder
  import opened Panels

  const BufferLength: nat := 11

  /** ROW_1, ROW_2. */
  const Displays: nat := 2

  const Dash: bv8 := 0xde

  const InitCode: bv8 := 0x0f

  /** The switch names in declaration order; the blank name stands for the
      unnamed placeholder `_`, which still takes id 14. */
  const SwitchNames: seq<string> := [
    "ALT", "VS", "IAS", "HDG", "CRS", "ENC_CW", "ENC_CCW",
    "BTN_AP", "BTN_HDG", "BTN_NAV", "BTN_IAS", "BTN_ALT", "BTN_APR", "BTN_REV",
    "",
    "AUTO_THROTTLE", "FLAPS_UP", "FLAPS_DOWN", "TRIM_DOWN", "TRIM_UP"]

  predicate IsMulti(p: Panel)
  {
    p.id == Multi && |p.buffer| == BufferLength
  }

  /** NewMultiPanel: every byte 0x0f and the buffer dirty. */
  function New(a: Answers): (o: Opened)
    ensures o.panel.Some? <==> Succeeds(a)
    ensures o.panel.Some? ==>
      && IsMulti(o.panel.value) && o.panel.value.dirty
      && forall i :: 0 <= i < BufferLength ==> o.panel.value.buffer[i] == InitCode
  {
    Open(Multi, seq(BufferLength, i => InitCode), true, a)
  }

  /** DisplayFloat from the already-scaled value, with the multi panel's
      two rows and dash. */
  function DisplayFloat(p: Panel, display: nat, scaled: int, decimals: int): (u: Update)
    requires IsMulti(p) && IsInt64(scaled)
    ensures IsMulti(u.panel) && u.panel.handles == p.handles
    ensures u.error == ErrorOf(Validate(display, Displays, scaled, decimals))
    ensures u.error.Some? ==> u.panel == p
    ensures u.error.None? ==>
      && display < Displays && u.panel.dirty
      && WritesOnly(p.buffer, u.panel.buffer, display * Width)
      && ShowsNumber(u.panel.buffer, display * Width, Abs(scaled), scaled < 0, decimals, Dash)
  {
    DisplayNumber(p, Displays, Dash, display, scaled, decimals)
  }

  /** DisplayFloat never writes the last byte of the buffer: the two rows
      cover indices 0..9 only. */
  lemma LastByteUntouched(p: Panel, display: nat, scaled: int, decimals: int)
    requires IsMulti(p) && IsInt64(scaled)
    ensures DisplayFloat(p, display, scaled, decimals).panel.buffer[10] == p.buffer[10]
  {
    var u := DisplayFloat(p, display, scaled, decimals);
    if u.error.None? {
      assert display * Width + Width <= 10;
    }
  }

  /** DisplayInt is DisplayFloat with no decimals; it succeeds exactly for
      a row below 2 and a value within +-99999. */
  function DisplayInt(p: Panel, display: nat, n: int): (u: Update)
    requires IsMulti(p) && IsInt64(n)
    ensures u == DisplayFloat(p, display, n, 0)
    ensures u.error.None? <==> display < Displays && -99999 <= n <= 99999
  {
    DisplayNumberAccepts(p, Displays, Dash, display, n, 0);
    DisplayFloat(p, display, n, 0)
  }

  /** refreshDisplay: sends the whole 11-byte buffer iff dirty. */
  function RefreshDisplay(p: Panel): (r: Refreshed)
    requires IsMulti(p)
    ensures IsMulti(r.panel) && !r.panel.dirty && r.panel.buffer == p.buffer
    ensures p.dirty ==> r.sent == [Control(0x21, 0x09, 0x03, 0x00, p.buffer)] && |p.buffer| == 11
    ensures !p.dirty ==> r.sent == []
  {
    Refresh(p)
  }

  /** noZeroSwitch: true exactly for the rotary positions ALT..ENC_CCW and
      for TRIM_DOWN and TRIM_UP. */
  function NoZeroSwitch(s: nat): (r: bool)
    ensures r <==> (s < |SwitchNames| &&
                    SwitchNames[s] in {"ALT", "VS", "IAS", "HDG", "CRS", "ENC_CW", "ENC_CCW", "TRIM_DOWN", "TRIM_UP"})
  {
    if s <= 6 then true
    else if s == 18 || s == 19 then true
    else false
  }
}
