/** The prototype radio panel of gologi-flightpanels.go: the same encoder
    as the library radio panel, but with no dirty flag and no refresh loop;
    every successful write is sent to the device at once. */
module Prototype {
  import opened Wrappers
  import opened Ids
  import opened Encoder
  import opened Panels
  import RadioPanel

  const BufferLength: nat := 20

  /** The prototype's panel state: its DisplayState bytes. The switch bytes
      and the device handle play no part in the display path. */
  datatype ProtoPanel = ProtoPanel(display: seq<bv8>)

  /** The outcome of a display call: the state afterwards, the calls sent,
      and the error returned, if any. */
  datatype ProtoUpdate = ProtoUpdate(panel: ProtoPanel, sent: seq<UsbCall>, error: Option<DisplayError>)

  predicate Valid(p: ProtoPanel)
  {
    |p.display| == BufferLength
  }

  /** UpdateDisplay: one Set_Report with bytes 0..19. */
  function UpdateDisplay(p: ProtoPanel): (sent: seq<UsbCall>)
    requires Valid(p)
    ensures Transmissions(sent) == [p.display]
  {
    assert p.display[0..BufferLength] == p.display;
    [SetReport(p.display[0..BufferLength])]
  }

  /** NewRadioPanel: twenty 0x0f bytes, sent once. */
  function NewRadioPanel(): (r: ProtoUpdate)
    ensures Valid(r.panel) && r.error.None?
    ensures forall i :: 0 <= i < BufferLength ==> r.panel.display[i] == RadioPanel.InitCode
    ensures Transmissions(r.sent) == [r.panel.display]
  {
    var p := ProtoPanel(seq(BufferLength, i => RadioPanel.InitCode));
    ProtoUpdate(p, UpdateDisplay(p), None)
  }

  /** DisplayFloat from the already-scaled value: the checks run before any
      byte is written or sent; on success the five bytes of the display are
      written and the whole buffer is sent once. */
  function DisplayFloat(p: ProtoPanel, display: int, scaled: int, decimals: int): (u: ProtoUpdate)
    requires Valid(p) && IsInt64(scaled)
    ensures Valid(u.panel)
    ensures u.error == ErrorOf(Validate(display, RadioPanel.Displays, scaled, decimals))
    ensures u.error.Some? ==> u.panel == p && u.sent == []
    ensures u.error.None? ==>
      && 0 <= display < RadioPanel.Displays
      && WritesOnly(p.display, u.panel.display, display * Width)
      && ShowsNumber(u.panel.display, display * Width, Abs(scaled), scaled < 0, decimals, RadioPanel.Dash)
      && Transmissions(u.sent) == [u.panel.display]
  {
    match Validate(display, RadioPanel.Displays, scaled, decimals)
    case Failure(e) => ProtoUpdate(p, [], Some(e))
    case Success(q) =>
      var codes := EncodeRequest(q, RadioPanel.Dash);
      assert forall d :: 0 <= d < Width ==> codes[Width - 1 - d] == Segment(q.mag, q.neg, decimals, RadioPanel.Dash, d);
      var next := ProtoPanel(Splice(p.display, q.slot * Width, codes));
      ProtoUpdate(next, UpdateDisplay(next), None)
  }

  /** DisplayInteger is DisplayFloat with no decimals. */
  function DisplayInteger(p: ProtoPanel, display: int, n: int): (u: ProtoUpdate)
    requires Valid(p) && IsInt64(n)
    ensures u == DisplayFloat(p, display, n, 0)
    ensures u.error.None? <==> 0 <= display < RadioPanel.Displays && -99999 <= n <= 99999
  {
    DisplayFloat(p, display, n, 0)
  }

  /** The prototype writes the same bytes as the library radio panel and
      fails the same way; it sends the buffer at once where the library
      only marks it dirty for the next refresh. */
  lemma AgreesWithLibrary(p: ProtoPanel, lib: Panel, display: nat, scaled: int, decimals: int)
    requires Valid(p) && RadioPanel.IsRadio(lib) && lib.buffer == p.display && IsInt64(scaled)
    ensures var u := DisplayFloat(p, display, scaled, decimals);
      var v := RadioPanel.DisplayFloat(lib, display, scaled, decimals);
      && u.error == v.error
      && u.panel.display == v.panel.buffer
      && (u.error.None? ==> Transmissions(u.sent) == Transmissions(Refresh(v.panel).sent))
  {
    var u := DisplayFloat(p, display, scaled, decimals);
    var v := RadioPanel.DisplayFloat(lib, display, scaled, decimals);
    if u.error.None? {
      var at := display * Width;
      forall i | 0 <= i < BufferLength
        ensures u.panel.display[i] == v.panel.buffer[i]
      {
        if at <= i < at + Width {
          var d := Width - 1 - (i - at);
          assert i == at + (Width - 1 - d);
        }
      }
    }
  }
}
