/** What the three library panels share: an output buffer with a dirty flag,
    the USB handles the constructor acquires and Close releases, one
    iteration of the refresh loop, and the five-digit display write.

    USB traffic is a log of abstract calls; the answers gousb gives are
    parameters. The lock, the 50 ms sleep and the refresh goroutine are
    folded into atomic steps. */
module Panels {
  import opened Wrappers
  import opened Ids
  import opened Encoder

  // ---------------------------------------------------------------------
  // The USB log

  /** What a panel can hold: the gousb context, the opened device, and the
      claimed default interface (its release is the `intfDone` callback). */
  datatype Resource = Context | Device | Interface

  /** One call into gousb, with the answer it received where one matters. */
  datatype UsbCall =
    | NewContext
    | OpenDevice(vendor: nat, product: nat, found: bool)
    | SetAutoDetach
    | DefaultInterface(claimed: bool)
    | InEndpoint(number: nat, found: bool)
    | Control(requestType: bv8, request: bv8, value: bv16, index: bv16, data: seq<bv8>)
    | Release(resource: Resource)

  /** The HID Set_Report class request (section 7.2.2 of the USB Device
      Class Definition for HID 1.11) that every panel sends its buffer
      with: host-to-device class request 0x21, SET_REPORT 0x09, report
      type/id 0x03, interface 0. */
  function SetReport(data: seq<bv8>): (c: UsbCall)
    ensures c.Control? && c.data == data
    ensures c.requestType == 0x21 && c.request == 0x09
    ensures c.value == 0x0003 && c.index == 0x0000
  {
    Control(0x21, 0x09, 0x0003, 0x0000, data)
  }

  /** The effect of one call on the handles held; None when a resource is
      released that is not held. */
  function Apply(held: Handles, c: UsbCall): Option<Handles>
  {
    match c
    case NewContext => Some(held.(context := true))
    case OpenDevice(_, _, found) => Some(if found then held.(device := true) else held)
    case DefaultInterface(claimed) => Some(if claimed then held.(intf := true) else held)
    case Release(r) => if Holds(held, r) then Some(Drop(held, r)) else None
    case _ => Some(held)
  }

  /** Replays a log from the handles `held`. */
  function Replay(held: Handles, log: seq<UsbCall>): Option<Handles>
    decreases |log|
  {
    if |log| == 0 then Some(held)
    else
      match Apply(held, log[0])
      case None => None
      case Some(next) => Replay(next, log[1..])
  }

  lemma {:induction false} ReplayAppend(held: Handles, a: seq<UsbCall>, b: seq<UsbCall>)
    ensures Replay(held, a + b) ==
      match Replay(held, a)
      case None => None
      case Some(mid) => Replay(mid, b)
    decreases |a|
  {
    if |a| == 0 {
      assert a + b == b;
    } else {
      assert (a + b)[0] == a[0];
      assert (a + b)[1..] == a[1..] + b;
      match Apply(held, a[0])
      case None =>
      case Some(next) => ReplayAppend(next, a[1..], b);
    }
  }

  /** Calls that put a buffer on the wire. */
  function Transmissions(log: seq<UsbCall>): (sent: seq<seq<bv8>>)
    ensures |sent| <= |log|
    ensures sent == [] <==> forall k :: 0 <= k < |log| ==> !log[k].Control?
    ensures |log| > 0 && log[|log| - 1].Control? ==> sent[|sent| - 1] == log[|log| - 1].data
    decreases |log|
  {
    if |log| == 0 then []
    else
      var rest := Transmissions(log[1..]);
      assert forall k :: 1 <= k < |log| ==> log[1..][k - 1] == log[k];
      (if log[0].Control? then [log[0].data] else []) + rest
  }

  lemma {:induction false} TransmissionsAppend(a: seq<UsbCall>, b: seq<UsbCall>)
    ensures Transmissions(a + b) == Transmissions(a) + Transmissions(b)
    decreases |a|
  {
    if |a| == 0 {
      assert a + b == b;
    } else {
      assert (a + b)[0] == a[0];
      assert (a + b)[1..] == a[1..] + b;
      TransmissionsAppend(a[1..], b);
    }
  }

  // ---------------------------------------------------------------------
  // Panel state

  /** Which handle fields are non-nil: ctx, device, intfDone. Also what a
      log holds at a point. */
  datatype Handles = Handles(context: bool, device: bool, intf: bool)

  const Nothing := Handles(false, false, false)
  const Everything := Handles(true, true, true)

  predicate Holds(h: Handles, r: Resource)
  {
    match r
    case Context => h.context
    case Device => h.device
    case Interface => h.intf
  }

  function Drop(h: Handles, r: Resource): (d: Handles)
    ensures forall q :: Holds(d, q) <==> Holds(h, q) && q != r
  {
    match r
    case Context => h.(context := false)
    case Device => h.(device := false)
    case Interface => h.(intf := false)
  }

  /** Everything h holds, held also holds. */
  predicate Within(h: Handles, held: Handles)
  {
    forall r :: Holds(h, r) ==> Holds(held, r)
  }

  /** What remains of held once h is released. */
  function Without(held: Handles, h: Handles): (w: Handles)
    ensures forall r :: Holds(w, r) <==> Holds(held, r) && !Holds(h, r)
  {
    Handles(held.context && !h.context, held.device && !h.device, held.intf && !h.intf)
  }

  /** A panel: its kind, its output buffer (displayState), the dirty flag,
      and its handles. */
  datatype Panel = Panel(id: PanelId, buffer: seq<bv8>, dirty: bool, handles: Handles)

  // ---------------------------------------------------------------------
  // Constructor and Close

  /** What gousb answers during construction. `device` is whether a device
      handle came back and `deviceErr` whether an error did (both can be
      absent: the device is then simply not there); `intf` is whether the
      default interface was claimed, `endpoint` whether in-endpoint 1 exists. */
  datatype Answers = Answers(device: bool, deviceErr: bool, intf: bool, endpoint: bool)

  /** Close: intfDone, then device, then context, each only when non-nil.
      Close does not reset the fields. */
  function CloseCalls(h: Handles): (log: seq<UsbCall>)
    ensures forall k :: 0 <= k < |log| ==> log[k].Release?
    ensures forall r :: Release(r) in log <==> Holds(h, r)
    ensures forall i, j :: 0 <= i < j < |log| ==> Rank(log[i].resource) < Rank(log[j].resource)
  {
    (if h.intf then [Release(Interface)] else [])
      + (if h.device then [Release(Device)] else [])
      + (if h.context then [Release(Context)] else [])
  }

  /** Release order: the interface first, the context last. */
  function Rank(r: Resource): nat
  {
    match r
    case Interface => 0
    case Device => 1
    case Context => 2
  }

  /** The outcome of a constructor: the panel, or nil with the error flag
      the constructor returned; and the calls made. */
  datatype Opened = Opened(panel: Option<Panel>, err: bool, log: seq<UsbCall>)

  /** Every answer is a success. */
  predicate Succeeds(a: Answers)
  {
    a.device && !a.deviceErr && a.intf && a.endpoint
  }

  /** The handles that are non-nil when construction stops: the context
      always, the device whenever one came back, the interface once
      claimed. */
  function Acquired(a: Answers): (h: Handles)
    ensures h.context && (h.device <==> a.device)
    ensures Succeeds(a) ==> h == Handles(true, true, true)
  {
    Handles(true, a.device, a.device && !a.deviceErr && a.intf)
  }

  /** The acquiring calls made before construction stops. */
  function Acquire(id: PanelId, a: Answers): (log: seq<UsbCall>)
    ensures |log| >= 2 && log[0] == NewContext && log[1] == OpenDevice(VendorPanel, ProductOf(id), a.device)
    ensures forall k :: 0 <= k < |log| ==> !log[k].Release? && !log[k].Control?
  {
    [NewContext, OpenDevice(VendorPanel, ProductOf(id), a.device)]
      + (if a.device && !a.deviceErr then
           [SetAutoDetach, DefaultInterface(a.intf)] + (if a.intf then [InEndpoint(1, a.endpoint)] else [])
         else [])
  }

  /** The acquiring calls hold exactly the acquired handles. */
  lemma AcquireHolds(id: PanelId, a: Answers)
    ensures Replay(Nothing, Acquire(id, a)) == Some(Acquired(a))
  {
    var open := OpenDevice(VendorPanel, ProductOf(id), a.device);
    var s0 := Handles(true, false, false);
    var s1 := Handles(true, a.device, false);
    var rest := Acquire(id, a)[2..];
    assert Acquire(id, a) == [NewContext] + ([open] + rest);
    ReplayCons(Nothing, NewContext, [open] + rest);
    ReplayCons(s0, open, rest);
    if a.device && !a.deviceErr {
      var tail := if a.intf then [InEndpoint(1, a.endpoint)] else [];
      assert rest == [SetAutoDetach] + ([DefaultInterface(a.intf)] + tail);
      ReplayCons(s1, SetAutoDetach, [DefaultInterface(a.intf)] + tail);
      ReplayCons(s1, DefaultInterface(a.intf), tail);
      if a.intf {
        ReplayCons(Acquired(a), InEndpoint(1, a.endpoint), []);
      }
    } else {
      assert rest == [];
    }
  }

  /** Replaying a log one call at a time. */
  lemma ReplayCons(held: Handles, c: UsbCall, rest: seq<UsbCall>)
    ensures Replay(held, [c] + rest) ==
      match Apply(held, c)
      case None => None
      case Some(next) => Replay(next, rest)
  {
    assert ([c] + rest)[0] == c;
    assert ([c] + rest)[1..] == rest;
  }

  /** NewRadioPanel / NewMultiPanel / NewSwitchPanel, past the buffer
      initialisation (`init`, `dirty`): context, then the device by vendor
      and product id, then the default interface, then in-endpoint 1; any
      failure calls Close on what was acquired so far. A device that is
      simply absent gives nil with no error. */
  function Open(id: PanelId, init: seq<bv8>, dirty: bool, a: Answers): (o: Opened)
    ensures o.panel.Some? <==> Succeeds(a)
    ensures o.panel.Some? ==> o.panel.value == Panel(id, init, dirty, Everything) && !o.err
    ensures o.panel.None? ==> (o.err <==> a.deviceErr || (a.device && !(a.intf && a.endpoint)))
  {
    var start := [NewContext, OpenDevice(VendorPanel, ProductOf(id), a.device)];
    if !a.device || a.deviceErr then
      Opened(None, a.deviceErr, start + CloseCalls(Handles(true, a.device, false)))
    else
      var claim := start + [SetAutoDetach, DefaultInterface(a.intf)];
      if !a.intf then
        Opened(None, true, claim + CloseCalls(Handles(true, true, false)))
      else
        var found := claim + [InEndpoint(1, a.endpoint)];
        if !a.endpoint then
          Opened(None, true, found + CloseCalls(Handles(true, true, true)))
        else
          Opened(Some(Panel(id, init, dirty, Handles(true, true, true))), false, found)
  }

  /** The constructor's calls: the acquiring ones, then, on failure, Close
      on what was acquired. */
  lemma OpenLog(id: PanelId, init: seq<bv8>, dirty: bool, a: Answers)
    ensures Succeeds(a) ==> Open(id, init, dirty, a).log == Acquire(id, a)
    ensures !Succeeds(a) ==> Open(id, init, dirty, a).log == Acquire(id, a) + CloseCalls(Acquired(a))
  {
    var start := [NewContext, OpenDevice(VendorPanel, ProductOf(id), a.device)];
    if !a.device || a.deviceErr {
      assert Acquire(id, a) == start;
    } else if !a.intf {
      assert Acquire(id, a) == start + [SetAutoDetach, DefaultInterface(a.intf)];
    } else {
      assert Acquire(id, a) == start + [SetAutoDetach, DefaultInterface(a.intf)] + [InEndpoint(1, a.endpoint)];
    }
  }

  /** A failed constructor leaves nothing held and releases nothing twice;
      a successful one holds context, device and interface. */
  lemma OpenNoLeak(id: PanelId, init: seq<bv8>, dirty: bool, a: Answers)
    ensures Open(id, init, dirty, a).panel.None? ==> Replay(Nothing, Open(id, init, dirty, a).log) == Some(Nothing)
    ensures Open(id, init, dirty, a).panel.Some? ==> Replay(Nothing, Open(id, init, dirty, a).log) == Some(Everything)
  {
    OpenLog(id, init, dirty, a);
    AcquireHolds(id, a);
    ReplayAppend(Nothing, Acquire(id, a), CloseCalls(Acquired(a)));
    ReleaseHandles(Acquired(a), Acquired(a));
  }

  /** Releasing one held resource. */
  lemma ReleaseStep(held: Handles, r: Resource, rest: seq<UsbCall>)
    requires Holds(held, r)
    ensures Replay(held, [Release(r)] + rest) == Replay(Drop(held, r), rest)
  {
    assert ([Release(r)] + rest)[1..] == rest;
  }

  /** Close releases exactly the handles that are non-nil. */
  lemma {:induction false} ReleaseHandles(held: Handles, h: Handles)
    requires Within(h, held)
    ensures Replay(held, CloseCalls(h)) == Some(Without(held, h))
    decreases h.intf, h.device, h.context
  {
    if h.intf {
      var h' := h.(intf := false);
      assert CloseCalls(h) == [Release(Interface)] + CloseCalls(h');
      ReleaseStep(held, Interface, CloseCalls(h'));
      ReleaseHandles(Drop(held, Interface), h');
    } else if h.device {
      var h' := h.(device := false);
      assert CloseCalls(h) == [Release(Device)] + CloseCalls(h');
      ReleaseStep(held, Device, CloseCalls(h'));
      ReleaseHandles(Drop(held, Device), h');
    } else if h.context {
      assert CloseCalls(h) == [Release(Context)] + [];
      ReleaseStep(held, Context, []);
    } else {
      assert CloseCalls(h) == [];
    }
  }

  /** Closing a panel whose handles are what the log holds releases everything. */
  lemma CloseReleasesAll(p: Panel, log: seq<UsbCall>)
    requires Replay(Nothing, log) == Some(p.handles)
    ensures Replay(Nothing, log + CloseCalls(p.handles)) == Some(Nothing)
  {
    ReplayAppend(Nothing, log, CloseCalls(p.handles));
    ReleaseHandles(p.handles, p.handles);
  }

  /** Close is not idempotent: it leaves the handles non-nil, so a second
      Close releases the same resources again. */
  lemma CloseTwiceReleasesTwice(p: Panel, log: seq<UsbCall>)
    requires Replay(Nothing, log) == Some(p.handles)
    requires p.handles != Nothing
    ensures Replay(Nothing, log + CloseCalls(p.handles) + CloseCalls(p.handles)) == None
  {
    CloseReleasesAll(p, log);
    ReplayAppend(Nothing, log + CloseCalls(p.handles), CloseCalls(p.handles));
    var c := CloseCalls(p.handles);
    assert c[0].Release? && !Holds(Nothing, c[0].resource);
  }

  // ---------------------------------------------------------------------
  // Refresh

  datatype Refreshed = Refreshed(panel: Panel, sent: seq<UsbCall>)

  /** One iteration of refreshDisplay: a dirty buffer goes out whole in one
      Set_Report, and the panel is clean afterwards. */
  function Refresh(p: Panel): (r: Refreshed)
    ensures r.panel == p.(dirty := false)
    ensures Transmissions(r.sent) == if p.dirty then [p.buffer] else []
  {
    if p.dirty then Refreshed(p.(dirty := false), [SetReport(p.buffer)])
    else Refreshed(p, [])
  }

  /** The buffer the device last received, if any. */
  function Shown(log: seq<UsbCall>): Option<seq<bv8>>
  {
    var t := Transmissions(log);
    if t == [] then None else Some(t[|t| - 1])
  }

  /** Calls after which nothing is sent leave the device showing what it
      showed; otherwise it shows what they sent last. */
  lemma ShownAppend(a: seq<UsbCall>, b: seq<UsbCall>)
    ensures Shown(a + b) == if Transmissions(b) == [] then Shown(a) else Shown(b)
  {
    TransmissionsAppend(a, b);
    var ta, tb := Transmissions(a), Transmissions(b);
    if tb == [] {
      assert ta + tb == ta;
    } else {
      assert (ta + tb)[|ta + tb| - 1] == tb[|tb| - 1];
    }
  }

  /** The refresh invariant: a clean panel's buffer is what the device shows. */
  predicate Synced(p: Panel, log: seq<UsbCall>)
  {
    !p.dirty ==> Shown(log) == Some(p.buffer)
  }

  /** A refresh leaves the device showing the buffer whenever it sent
      anything, and preserves the invariant. */
  lemma RefreshSyncs(p: Panel, log: seq<UsbCall>)
    ensures var r := Refresh(p);
      && (p.dirty ==> Shown(log + r.sent) == Some(p.buffer))
      && (Synced(p, log) ==> Synced(r.panel, log + r.sent))
  {
    var r := Refresh(p);
    TransmissionsAppend(log, r.sent);
    if !p.dirty {
      assert log + r.sent == log;
    }
  }

  /** Refreshing twice sends the buffer at most once. */
  lemma RefreshOnce(p: Panel)
    ensures Refresh(Refresh(p).panel).sent == []
  {
  }

  // ---------------------------------------------------------------------
  // The five-digit display write

  /** The outcome of a display call: the panel afterwards and the error
      returned, if any. */
  datatype Update = Update(panel: Panel, error: Option<DisplayError>)

  /** The error Validate reports, if any. */
  function ErrorOf(v: Result<Request, DisplayError>): Option<DisplayError>
  {
    match v
    case Failure(e) => Some(e)
    case Success(_) => None
  }

  /** buffer with the five bytes from index `at` replaced by `codes`. */
  function Splice(buffer: seq<bv8>, at: nat, codes: seq<bv8>): (r: seq<bv8>)
    requires |codes| == Width && at + Width <= |buffer|
    ensures |r| == |buffer|
    ensures forall i :: 0 <= i < |buffer| && !(at <= i < at + Width) ==> r[i] == buffer[i]
    ensures forall k :: 0 <= k < Width ==> r[at + k] == codes[k]
  {
    buffer[..at] + codes + buffer[at + Width..]
  }

  /** `after` differs from `before` at most in the five bytes from `at`. */
  predicate WritesOnly(before: seq<bv8>, after: seq<bv8>, at: nat)
  {
    && |after| == |before|
    && forall i :: 0 <= i < |before| && (i < at || at + Width <= i) ==> after[i] == before[i]
  }

  /** The five bytes from `at` show the reference encoding: digit position d
      at index at + 4 - d. */
  predicate ShowsNumber(buffer: seq<bv8>, at: nat, mag: nat, neg: bool, decimals: int, dash: bv8)
  {
    && at + Width <= |buffer|
    && forall d :: 0 <= d < Width ==> buffer[at + (Width - 1 - d)] == Segment(mag, neg, decimals, dash, d)
  }

  /** DisplayFloat on a panel with `slots` displays and the given dash code,
      from the already-scaled value: validate, and on success mark the
      buffer dirty and write the five codes of display `display`. An
      error leaves the panel untouched. */
  function DisplayNumber(p: Panel, slots: nat, dash: bv8, display: int, scaled: int, decimals: int): (u: Update)
    requires slots * Width <= |p.buffer| && IsInt64(scaled)
    ensures u.error == ErrorOf(Validate(display, slots, scaled, decimals))
    ensures u.error.Some? ==> u.panel == p
    ensures u.error.None? ==>
      && 0 <= display < slots
      && u.panel == p.(buffer := u.panel.buffer, dirty := true)
      && WritesOnly(p.buffer, u.panel.buffer, display * Width)
      && ShowsNumber(u.panel.buffer, display * Width, Abs(scaled), scaled < 0, decimals, dash)
  {
    match Validate(display, slots, scaled, decimals)
    case Failure(e) => Update(p, Some(e))
    case Success(q) =>
      var codes := EncodeRequest(q, dash);
      assert forall d :: 0 <= d < Width ==> codes[Width - 1 - d] == Segment(q.mag, q.neg, decimals, dash, d);
      Update(p.(buffer := Splice(p.buffer, q.slot * Width, codes), dirty := true), None)
  }

  /** The write succeeds exactly when decimals, display and magnitude are in
      range; no value is ever rejected for being below -9999. */
  lemma DisplayNumberAccepts(p: Panel, slots: nat, dash: bv8, display: int, scaled: int, decimals: int)
    requires slots * Width <= |p.buffer| && IsInt64(scaled)
    ensures DisplayNumber(p, slots, dash, display, scaled, decimals).error.None? <==>
      0 <= decimals <= 5 && 0 <= display < slots && -99999 <= scaled <= 99999
  {
  }
}
