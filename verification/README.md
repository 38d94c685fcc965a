# fpanels in Dafny

A model of the deterministic core of fpanels, a Go driver for the Saitek /
Logitech radio, multi and switch flight panels, together with proofs about
that model. Three pieces of logic are modelled.

- **The five-digit segment encoder.** This is `DisplayFloat` / `DisplayInt`
  of the radio and multi panels and of the prototype program
  `gologi-flightpanels.go`.
  - It validates the decimals and the display slot, strips the sign and
    range-checks the scaled value.
  - It then writes five bytes in reverse digit order.
  - Each byte is a digit, a digit with the decimal-point mask `0xd0`, a blank
    `0xff`, or the panel's dash byte: `0xef` on the radio panel, `0xde` on the
    multi panel.
- **The switch-report diffing engine.** This is `readSwitches` of
  `panel.go`.
  - A 3-byte report decodes little-endian into a 24-bit mask.
  - The mask is XORed with the previous one and stored.
  - One `{panel, id, on}` event is sent per changed bit, in ascending bit
    order.
- **The panel output state machine.**
  - The state is a fixed-length byte buffer with a dirty flag.
  - The mutators (`DisplayFloat`, `DisplayOff`, `SetGear*`) rewrite bytes
    and set the flag.
  - One iteration of `refreshDisplay` sends the whole buffer iff it is
    dirty.
  - The constructors acquire the USB context, then the device, then the
    default interface, then in-endpoint 1. `Close` releases whichever
    handles are non-nil.

Modules, one per file:

- `Wrappers` (`wrappers.dfy`): `Option` and `Result`.
- `Ids` (`ids.dfy`): panel kinds and USB vendor/product ids. The
  constructors open the device by the names `USB_VENDOR_PANEL` and
  `USB_PRODUCT_*`, which the modelled revision of fpanels does not define;
  the model gives them the values of `panel.go`'s `USBVendorPanel` and
  `USBProduct*` (panel.go:17-20).
- `Encoder` (`encoder.dfy`):
  - `Encode5`, mirroring the source loop with its pending-sign flag, and
    `Segment`, a closed-form reference that `Encode5` is proved against;
  - `Validate`, with Go's int64 negation;
  - `ReadBack`, a decoder of the five codes used for the round trip.
- `Switches` (`switches.dfy`):
  - 32-bit masks, written as sequences of 32 booleans so that Go's `<<`,
    `>>`, `&` and `^` on `uint32` are pointwise definitions;
  - report decoding, `SwitchState` and `IsSet`;
  - the per-report step `Step`.
- `SwitchReader` (`reader.dfy`): the reader loop over a finite sequence of
  reports. It produces a log of "store mask" and "send event" actions.
  `ReadSwitches` is the loop as a method.
- `Panels` (`panels.dfy`):
  - the abstract USB call log and its replay onto the handles held;
  - construction and `Close`;
  - one refresh step;
  - the five-digit display write shared by both display panels.
- `RadioPanel`, `MultiPanel`, `SwitchPanel` (`radio.dfy`, `multi.dfy`,
  `switchpanel.dfy`): each panel's buffer, constants, constructor,
  mutators, refresh and `noZeroSwitch`.
- `Prototype` (`prototype.dfy`): the prototype radio panel. It has no dirty
  flag and sends the buffer after every successful write.

Some behaviours of the Go code are easy to miss and are stated outright.

- **`Close` is not idempotent.** It does not reset the handle fields, so a
  second `Close` releases the same resources again
  (`Panels.CloseTwiceReleasesTwice`).
- **The refresh loop polls.** It checks the dirty flag every 50 ms instead
  of waiting on a condition variable, so a refresh is modelled as one
  atomic step that may find the buffer clean.
- **An absent device is not an error.** `OpenDeviceWithVIDPID` can answer
  with no device and no error. The constructor then returns a nil panel
  with a nil error, not a device-open failure.
- **The accepted range is `±99999`.** The `tempN < -9999` test runs after
  the sign has been stripped, so it is unreachable except at the most
  negative int64, where the negation wraps around
  (`Encoder.LowerArmOnlyAtMinInt64`). Every other value is accepted iff its
  magnitude is at most 99999.
- **The sign of a negative value is not always shown.** A five-digit
  negative value is accepted but displayed with no sign at all
  (`Encoder.DashLostWhenFull`, `Encoder.ReadBackEncode`).
- **The switch panel starts unsynced.** Its constructor does not set the
  dirty flag, so the device is not told the initial all-off byte
  (`SwitchPanel.NewSilentUntilChanged`).

## Model

| member | source | states |
|---|---|---|
| Switches.DecodeReport | panel.go:267 | the decoded mask fits in 24 bits: bits 24..31 are clear |
| Switches.ReportBit | panel.go:267 | bit k of the mask, for k below 24, is bit k mod 8 of report byte k div 8, so bytes 0, 1 and 2 fill bits 0..7, 8..15 and 16..23 |
| Switches.DecodeEncode | panel.go:267 | every mask that fits in 24 bits is the decoding of some report (the one packed from its bits) |
| Switches.EncodeDecode | panel.go:267 | decoding loses nothing: packing a decoded report gives back the same three bytes |
| Switches.SwitchState | panel.go:246-249 | the result is 0 or 1, and is 1 exactly when bit id of the mask is set (0 for ids of 32 and above) |
| Switches.IsSet | panel.go:241-244 | as written, `switches & 1 << id` parses as `(switches & 1) << id`: true iff bit 0 is set and id < 32, whatever switch id names |
| Switches.IsSetIntended | panel.go:241-244 | the documented meaning: true iff switch id is on, i.e. iff SwitchState is 1 |
| Switches.IsSetDiverges | panel.go:241-244 | with only switch 1 on, IsSet(1) is false; with only switch 0 on, IsSet(5) is true; IsSetIntended answers the opposite in both |
| Switches.Changes | panel.go:271-279 | every event of the inner loop from bit i names a switch in i..23 |
| Switches.ChangesSound | panel.go:271-278 | every event is for the reader's panel, names a set bit of `changed`, and carries that bit of the new mask |
| Switches.ChangesAscending | panel.go:271 | the event ids strictly increase |
| Switches.ChangesComplete | panel.go:271-272 | every set bit of `changed` in 0..23 has an event |
| Switches.ChangesQuiet | panel.go:271-272 | no set bit of `changed` gives no event |
| Switches.ChangesSingle | panel.go:271-278 | a `changed` mask with one set bit gives exactly that one event |
| Switches.StepTransitions | panel.go:267-278 | a report step stores the decoded report; each event names a switch that differs between old and new mask and carries its new state |
| Switches.StepAscending | panel.go:271-278 | a report step's events come in ascending id order |
| Switches.StepComplete | panel.go:268-278 | every switch that differs between old and new mask has an event |
| Switches.Step | panel.go:262-279 | whatever the report, the mask a step stores fits in 24 bits (the events it emits are StepExact's subject) |
| Switches.StepExact | panel.go:253-278 | the stored mask fits in 24 bits, and the events are exactly one per changed switch, ascending, each with the new bit: both directions |
| Switches.StepQuiet | panel.go:268-279 | a report that changes no switch sends nothing |
| Switches.RepeatIsQuiet | panel.go:268-279 | feeding the same report twice sends nothing the second time |
| Switches.FallingEdgeEmitted | panel.go:271-279 | a switch turned off is reported (on = false): the zero-transition filter is commented out |
| Switches.OnlyChange | panel.go:268-278 | a report flipping exactly one switch sends exactly the one event for it |
| Switches.ApplyChanges | panel.go:268-278 | applying the events from bit i on to the mask mixed at i yields the new mask |
| Switches.EventsReconstruct | panel.go:268-278 | a listener applying a report's events to the old mask obtains exactly the new mask |
| SwitchReader.StepsSettled | panel.go:262-279 | in a run over any reports, every stored mask fits in 24 bits and every event carries its switch's bit of that mask |
| SwitchReader.Watch | panel.go:251-281 | the reader acts iff it receives a report, and its first action stores the first report's mask, before any event is sent |
| SwitchReader.WatchUnfold | panel.go:262-279 | a run is the first report's store and sends followed by the run from the mask it stored |
| SwitchReader.StoredBeforeSent | panel.go:268-277 | whenever the reader sends an event, it has already stored a mask, and that mask agrees with the event |
| SwitchReader.StoredMasksFit | panel.go:253-270 | every mask stored with setSwitches fits in 24 bits, whatever mask the reader starts from |
| SwitchReader.ExampleTrace | panel.go:253-279 | from mask 0, the reports 0b000, 0b001, 0b001, 0b011 send exactly "switch 0 on", then "switch 1 on" |
| SwitchReader.ScanChanges | panel.go:271-279 | the inner loop over bits 0..23 sends the event list of Changes |
| SwitchReader.ReadSwitches | panel.go:251-281 | the loop over reports from mask 0 produces, in order, each report's store followed by its events, as Watch defines them |
| Encoder.EncodeFrom | radiopanel.go:122-142 | the digit loop from position d, carrying the pending-sign flag, agrees at every position with the closed-form Segment |
| Encoder.Encode5 | radiopanel.go:122-142 | five codes; buffer index 4 - d holds position d: the digit (with point on position `decimals`) if 10^d <= mag, the dash on the first position past the top digit of a negative value, a blank otherwise |
| Encoder.Negate64 | radiopanel.go:109-112 | Go's int64 negation: -n, except that the most negative value stays negative |
| Encoder.Stripped | radiopanel.go:108-112 | tempN after its sign is stripped is the magnitude, for every value but the most negative int64 |
| Encoder.Validate | radiopanel.go:103-118 | each error iff its condition in source order (decimals outside 0..5; then display outside the panel's slots; then magnitude above 99999); on success the request holds the display, decimals, magnitude and sign of the value |
| Encoder.LowerArmOnlyAtMinInt64 | radiopanel.go:109-118 | the `tempN < -9999` arm fires exactly for the most negative int64, and without it that value would pass the range test |
| Encoder.ZeroIsBlank | radiopanel.go:127-133 | 0 is shown as five blanks |
| Encoder.DigitCodeShape | radiopanel.go:135-138 | a digit code is a digit, carries the point mask iff asked, and reads back as its digit |
| Encoder.SegmentShape | radiopanel.go:127-139 | one position is the dash iff it is the first past the top digit of a negative value; it has the point iff it is position `decimals` and holds a digit; it reads back as its digit |
| Encoder.Pow10Values | radiopanel.go:125 | the powers 10^0..10^5 the loop uses |
| Encoder.DashPosition | radiopanel.go:127-133 | in the five codes, position d is the dash iff the value is negative and d is the first position past its top digit |
| Encoder.DashUnique | radiopanel.go:127-133 | at most one of the five codes is the dash |
| Encoder.DashLostWhenFull | radiopanel.go:127-133 | a magnitude of 10000 or more shows no dash, negative or not |
| Encoder.DashShown | radiopanel.go:127-133 | a dash is shown iff the value is negative with magnitude below 10000 |
| Encoder.PointPlacement | radiopanel.go:134-139 | position d carries the decimal point iff decimals != 0, d == decimals and the position holds a digit |
| Encoder.PointLostBelowScale | radiopanel.go:134-139 | a magnitude below 10^decimals shows no decimal point anywhere |
| Encoder.ReadBackNegative | radiopanel.go:127-133 | reading codes back finds a sign iff the dash is among them |
| Encoder.ReadBackPrefix | radiopanel.go:122-142 | reading back positions 4 down to d gives mag / 10^d |
| Encoder.ReadBackEncode | radiopanel.go:122-142 | round trip: reading the five codes back gives the magnitude, with a sign iff the value was negative with at most four digits |
| Panels.SetReport | radiopanel.go:161 | every buffer goes out as the HID Set_Report request 0x21, 0x09, value 0x03, index 0, carrying the buffer |
| Panels.Transmissions | radiopanel.go:161 | a log sends no buffer iff none of its calls is a control transfer; when the last call is one, its data is the last buffer sent; never more buffers than calls |
| Panels.ReplayAppend | multipanel.go:43-86 | replaying a concatenated log is replaying its halves in turn |
| Panels.TransmissionsAppend | radiopanel.go:155-166 | the buffers sent by a concatenated log are those of its halves in turn |
| Panels.CloseCalls | multipanel.go:75-86 | Close releases exactly the non-nil handles, in the order interface, device, context |
| Panels.Acquired | multipanel.go:50-69 | construction stops holding the context always, the device iff one came back, and everything on success |
| Panels.Acquire | multipanel.go:50-66 | the constructor's first calls create the context and open the device by vendor 0x06a3 and the panel's product id; it makes no release and no transfer while acquiring |
| Panels.AcquireHolds | multipanel.go:50-69 | the acquiring calls leave exactly the acquired handles held |
| Panels.Open | multipanel.go:43-73 | a panel comes back iff every step succeeds, holding all three handles with the initial buffer and dirty flag; on failure the error is reported iff gousb gave one or a later step failed, so an absent device gives nil with no error |
| Panels.OpenLog | multipanel.go:50-69 | the constructor's calls are the acquiring ones, followed on failure by Close on what was acquired: an endpoint failure releases all three, an interface failure releases device and context |
| Panels.OpenNoLeak | multipanel.go:50-86 | a failed constructor leaves nothing held and releases nothing twice; a successful one holds context, device and interface |
| Panels.ReleaseStep | multipanel.go:75-86 | releasing a held resource drops it from the handles held |
| Panels.ReleaseHandles | multipanel.go:75-86 | Close on handles that are held releases them and leaves the rest |
| Panels.CloseReleasesAll | multipanel.go:75-86 | closing a panel after the log that acquired its handles leaves nothing held |
| Panels.CloseTwiceReleasesTwice | multipanel.go:75-86 | a second Close releases resources no longer held: Close is not idempotent |
| Panels.Refresh | radiopanel.go:159-164 | one refresh sends the whole buffer once iff it is dirty and then clears the flag; a clean buffer sends nothing |
| Panels.ShownAppend | radiopanel.go:155-166 | after further calls the device shows the last buffer they sent, or, if they sent none, what it showed before |
| Panels.RefreshSyncs | radiopanel.go:159-164 | after a refresh that sent, the device shows the buffer; a refresh preserves "a clean buffer is what the device shows" |
| Panels.RefreshOnce | radiopanel.go:159-164 | a second refresh with no write in between sends nothing |
| Panels.Splice | radiopanel.go:140-141 | writing five codes at an offset changes those five bytes and no other |
| Panels.DisplayNumber | radiopanel.go:100-143 | the error is Validate's; an error leaves buffer and flag untouched; on success only bytes display*5..display*5+4 change, byte display*5+4-d holds Segment of position d, and the flag is set |
| Panels.DisplayNumberAccepts | radiopanel.go:103-118 | a write succeeds iff decimals are in 0..5, the display is a valid slot and the value is within -99999..99999 |
| RadioPanel.New | radiopanel.go:49-79 | a panel comes back iff every USB step succeeds; its 20 bytes are 0x0f and it is dirty |
| RadioPanel.NewFirstRefresh | radiopanel.go:52-55 | the first refresh of a new radio panel sends twenty 0x0f bytes |
| RadioPanel.DisplayFloat | radiopanel.go:100-144 | with 4 displays and dash 0xef: errors leave the panel untouched; success writes only the chosen display's five bytes, with the reference encoding, and sets dirty |
| RadioPanel.DisplayInt | radiopanel.go:96-98 | DisplayFloat with no decimals; succeeds iff display < 4 and -99999 <= n <= 99999 |
| RadioPanel.DisplayOff | radiopanel.go:146-154 | all 20 bytes 0xff, buffer dirty |
| RadioPanel.DisplayOffShowsZero | radiopanel.go:100-154 | after DisplayOff, writing 0 to any display changes nothing: zero is five blanks |
| RadioPanel.RefreshDisplay | radiopanel.go:155-166 | a dirty panel sends Control(0x21, 0x09, 0x03, 0x00) with all 20 bytes and becomes clean; a clean one sends nothing |
| RadioPanel.NoZeroSwitch | radiopanel.go:174-179 | false exactly for ACT_1 and ACT_2 |
| MultiPanel.New | multipanel.go:43-73 | a panel comes back iff every USB step succeeds; its 11 bytes are 0x0f and it is dirty |
| MultiPanel.DisplayFloat | multipanel.go:94-138 | with 2 rows and dash 0xde: errors leave the panel untouched; success writes only the chosen row's five bytes, with the reference encoding, and sets dirty |
| MultiPanel.LastByteUntouched | multipanel.go:116-136 | DisplayFloat never changes byte 10 |
| MultiPanel.DisplayInt | multipanel.go:90-92 | DisplayFloat with no decimals; succeeds iff row < 2 and -99999 <= n <= 99999 |
| MultiPanel.RefreshDisplay | multipanel.go:140-151 | a dirty panel sends all 11 bytes and becomes clean; a clean one sends nothing |
| MultiPanel.NoZeroSwitch | multipanel.go:159-167 | true exactly for ALT..ENC_CCW and TRIM_DOWN, TRIM_UP (ids 0..6, 18, 19; the placeholder takes 14) |
| SwitchPanel.LedLayout | switchpanel.go:31-48 | the six LEDs are bits 0..5; yellow is green or red; YELLOW_ALL is 0x3f; each gear mask is its yellow mask; bits 6 and 7 drive nothing |
| SwitchPanel.New | switchpanel.go:56-82 | a panel comes back iff every USB step succeeds; its byte is 0 and it is not dirty |
| SwitchPanel.NewSilentUntilChanged | switchpanel.go:58-60 | a new switch panel's refresh sends nothing, and nothing has told the device its byte |
| SwitchPanel.SetGear | switchpanel.go:97-102 | every bit of the byte becomes that of s; dirty |
| SwitchPanel.SetGearOn | switchpanel.go:104-109 | a bit is set afterwards iff it was set or is in s; dirty |
| SwitchPanel.SetGearOff | switchpanel.go:111-116 | a bit is set afterwards iff it was set and is not in s; dirty |
| SwitchPanel.OrBits | switchpanel.go:106 | a bit of `a | s` is set iff it is set in a or in s |
| SwitchPanel.AndNotBits | switchpanel.go:113 | a bit of `a &^ s` is set iff it is set in a and not in s |
| SwitchPanel.SameBits | switchpanel.go:53 | two switch panels with the same eight bits, flag and handles are equal |
| SwitchPanel.SetGearOnIdempotent | switchpanel.go:104-109 | SetGearOn twice is SetGearOn once |
| SwitchPanel.SetGearOffIdempotent | switchpanel.go:111-116 | SetGearOff twice is SetGearOff once |
| SwitchPanel.OnThenOff | switchpanel.go:104-116 | SetGearOn then SetGearOff of the same bits clears them and keeps the others: the same as SetGearOff alone |
| SwitchPanel.SetGearIsOffThenOn | switchpanel.go:97-116 | SetGear(s) equals clearing every bit, then SetGearOn(s) |
| SwitchPanel.RefreshDisplay | switchpanel.go:118-129 | a dirty panel sends its one byte and becomes clean; a clean one sends nothing |
| SwitchPanel.NoZeroSwitch | switchpanel.go:139-147 | true exactly for ENG_OFF..ENG_START, GEAR_UP and GEAR_DOWN (ids 13..19) |
| Prototype.UpdateDisplay | gologi-flightpanels.go:76-79 | sends the 20-byte buffer once |
| Prototype.NewRadioPanel | gologi-flightpanels.go:81-89 | the 20 bytes are 0x0f and are sent once |
| Prototype.DisplayFloat | gologi-flightpanels.go:35-74 | errors in source order, with nothing written or sent; success writes only the chosen display's five bytes, with the reference encoding and dash 0xef, then sends the whole buffer exactly once |
| Prototype.DisplayInteger | gologi-flightpanels.go:31-33 | DisplayFloat with no decimals; succeeds iff 0 <= display < 4 and -99999 <= n <= 99999 |
| Prototype.AgreesWithLibrary | gologi-flightpanels.go:35-79 | the prototype fails exactly when the library radio panel does, writes the same bytes, and sends what the library's next refresh sends |

## Left out

- USB transport (gousb). Contexts, devices, interfaces, endpoints and
  transfers are abstract calls in a log. The answers gousb gives are the
  `Answers` parameter. `DefaultInterface` is taken to return a non-nil
  release callback exactly when it succeeds.
- Concurrency. The display mutex, the refresh goroutine, its 50 ms sleep and
  the blocking channel send are folded into atomic steps. The model says
  nothing about interleavings, and nothing about the goroutines `Close`
  never stops.
- float32 scaling. `DisplayFloat` takes the already-scaled integer
  `int(n * float32(10^decimals))` as any int64. That is a superset of what
  the conversion produces: it yields only float32-representable values,
  which are sparse above 2^24.
- RadioPanel.DisplayInt: modelled as DisplayFloat of n itself. The source
  goes through `float32(n)`, which changes the value only when |n| is
  above 2^24. Such values are rejected either way, so the outcome is the
  same for every int64.
- MultiPanel.DisplayInt: the same float32 simplification as the radio
  panel.
- Prototype.DisplayInteger: the same float32 simplification as the radio
  panel.
- The truncating conversion `uint32(id)` of a switch id. Ids are `nat`.
  Ids from 2^32 on, which Go would wrap, are treated as past the mask.
- The name tables and `*String` lookups of panel.go:85-239. They are glue
  and name switch constants such as `Rot1COM1` and `SwAct1` that the
  modelled revision of fpanels does not define. Each panel's switch names
  appear only to state `noZeroSwitch`.
- `DisplayString` and the `LEDs*` functions. They are declared in the
  `StringDisplayer` and `LEDDisplayer` interfaces (panel.go:72-83) and called by
  the demo programs, but no panel type has a body for them in the modelled
  revision.
- `WatchSwitches`, the stream, and read errors. The reader runs over a
  finite sequence of reports; an error ends the Go loop and is not
  modelled. `setSwitches` is not part of this model; it is taken to store
  the mask it is given.
- The `connected` field and the prototype's `SwitchState [3]byte`.
  Nothing in the modelled code reads them.
- Prototype.UpdateDisplay: the prototype's device handle is taken to be
  non-nil, so the model does not say that `NewRadioPanel(nil)` panics on its
  first `UpdateDisplay`. The error `Control` returns is ignored, as in
  the source (gologi-flightpanels.go:78).
- The demo programs and `main`, `read`, `readStream` and `write` of the
  prototype. They are I/O-driven.

## Findings

| source | as written | input that shows it | evidently intended | confidence | as-written member | corrected member |
|---|---|---|---|---|---|---|
| panel.go:241-244 | `uint32(switches)&1<<uint32(id) != 0` parses as `(switches & 1) << id`, which tests bit 0 for every id below 32 | mask 0b10 (only switch 1 on), id 1: answers false; mask 0b1, id 5: answers true | `switches & (1 << id) != 0`, true iff switch id is on, as its comment says | high (not executed) | Switches.IsSet, Switches.IsSetDiverges | Switches.IsSetIntended |
