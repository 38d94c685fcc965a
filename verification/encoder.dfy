/** The five-digit segment encoder shared by DisplayFloat/DisplayInt of the
    radio panel, the multi panel and the prototype radio panel.

    A request is validated (decimals, display slot, magnitude), its sign is
    stripped, and the magnitude is written as five segment codes, most
    significant position first in the buffer. */
module Encoder {
  import opened Wrappers

  /** Number of digit positions per display. */
  const Width: nat := 5

  /** Largest magnitude the range check lets through. */
  const MaxMagnitude: nat := 99999

  /** Segment code for a position left of the most significant digit. */
  const Blank: bv8 := 0xff

  /** Mask ORed onto a digit code to light that digit's decimal point. */
  const PointMask: bv8 := 0xd0

  function Pow10(d: nat): (p: nat)
    ensures p >= 1
  {
    if d == 0 then 1 else 10 * Pow10(d - 1)
  }

  function Abs(n: int): nat
  {
    if n < 0 then -n else n
  }

  /** Decimal digit d (0 = least significant) of mag. */
  function DigitAt(mag: nat, d: nat): (v: nat)
    ensures v < 10
  {
    (mag / Pow10(d)) % 10
  }

  /** A digit code, optionally carrying the decimal point. */
  function DigitCode(v: nat, point: bool): bv8
    requires v < 10
  {
    if point then (v as bv8) | PointMask else v as bv8
  }

  /** Codes a display may show as digits: 0x00..0x09, and 0xd0..0xd9 with the point lit. */
  predicate IsDigitCode(b: bv8)
  {
    b < 10 || (0xd0 <= b && b <= 0xd9)
  }

  predicate HasPoint(b: bv8)
  {
    0xd0 <= b && b <= 0xd9
  }

  /** A per-panel dash code must be distinguishable from digits and blanks
      (0xef on the radio panel, 0xde on the multi panel). */
  predicate ValidDash(dash: bv8)
  {
    dash != Blank && !IsDigitCode(dash)
  }

  /** Closed-form reference for what digit position d (0 = least significant)
      shows: the digit if 10^d <= mag, the dash on the first position past the
      most significant digit of a negative value, a blank otherwise. */
  function Segment(mag: nat, neg: bool, decimals: int, dash: bv8, d: nat): bv8
  {
    if Pow10(d) <= mag then DigitCode(DigitAt(mag, d), decimals != 0 && d == decimals)
    else if neg && (d == 0 || Pow10(d - 1) <= mag) then dash
    else Blank
  }

  lemma {:induction false} Pow10Monotone(i: nat, j: nat)
    requires i <= j
    ensures Pow10(i) <= Pow10(j)
    decreases j - i
  {
    if i < j {
      Pow10Monotone(i, j - 1);
    }
  }

  /** The source's digit loop from position d upwards, carrying the
      "sign still pending" flag that the first blank position consumes.
      The result lists positions 4 down to d, in buffer order. */
  function EncodeFrom(mag: nat, neg: bool, decimals: int, dash: bv8, d: nat): (r: seq<bv8>)
    requires d <= Width
    requires neg ==> d == 0 || Pow10(d - 1) <= mag
    ensures |r| == Width - d
    ensures forall k :: d <= k < Width ==> r[Width - 1 - k] == Segment(mag, neg, decimals, dash, k)
    decreases Width - d
  {
    if d == Width then []
    else if Pow10(d) > mag then
      if neg then
        var rest := EncodeFrom(mag, false, decimals, dash, d + 1);
        forall k | d < k < Width
          ensures Segment(mag, false, decimals, dash, k) == Segment(mag, true, decimals, dash, k)
        {
          SignSettled(mag, decimals, dash, d, k);
        }
        rest + [dash]
      else
        EncodeFrom(mag, neg, decimals, dash, d + 1) + [Blank]
    else
      EncodeFrom(mag, neg, decimals, dash, d + 1) + [DigitCode(DigitAt(mag, d), decimals != 0 && d == decimals)]
  }

  /** Past the first blank position, the pending sign no longer matters. */
  lemma SignSettled(mag: nat, decimals: int, dash: bv8, d: nat, k: nat)
    requires d < k && mag < Pow10(d)
    ensures Segment(mag, false, decimals, dash, k) == Segment(mag, true, decimals, dash, k)
  {
    Pow10Monotone(d, k - 1);
    Pow10Monotone(k - 1, k);
  }

  /** The five segment codes for magnitude mag; buffer index 4 - d holds digit position d. */
  function Encode5(mag: nat, neg: bool, decimals: int, dash: bv8): (r: seq<bv8>)
    ensures |r| == Width
    ensures forall d :: 0 <= d < Width ==> r[Width - 1 - d] == Segment(mag, neg, decimals, dash, d)
  {
    EncodeFrom(mag, neg, decimals, dash, 0)
  }

  // ---------------------------------------------------------------------
  // Validation

  datatype DisplayError = DecimalsOutOfRange | DisplayOutOfRange | ValueOutOfRange

  /** A validated request: the magnitude and sign of the scaled value, and
      the display slot and decimals it goes to. */
  datatype Request = Request(slot: nat, mag: nat, neg: bool, decimals: nat)

  /** Go's int is 64 bits wide. */
  const MinInt64: int := -0x8000_0000_0000_0000

  predicate IsInt64(n: int)
  {
    MinInt64 <= n < -MinInt64
  }

  /** Go's unary minus on int64: negating the most negative value wraps
      around to itself. */
  function Negate64(n: int): (r: int)
    requires IsInt64(n)
    ensures IsInt64(r)
    ensures n != MinInt64 ==> r == -n
    ensures n == MinInt64 ==> r < 0
  {
    if n == MinInt64 then n else -n
  }

  /** tempN once its sign has been stripped. */
  function Stripped(scaled: int): (t: int)
    requires IsInt64(scaled)
    ensures scaled != MinInt64 ==> t == Abs(scaled)
  {
    if scaled < 0 then Negate64(scaled) else scaled
  }

  /** The source's range test, applied to tempN after its sign was
      stripped. */
  predicate RangeRejects(t: int)
  {
    t < -9999 || t > 99999
  }

  /** DisplayFloat's checks in source order: decimals, then the display slot
      (slots is the panel's number of displays), then the magnitude. */
  function Validate(display: int, slots: nat, scaled: int, decimals: int): (r: Result<Request, DisplayError>)
    requires IsInt64(scaled)
    ensures r == Failure(DecimalsOutOfRange) <==> decimals < 0 || decimals > 5
    ensures r == Failure(DisplayOutOfRange) <==> 0 <= decimals <= 5 && (display < 0 || display >= slots)
    ensures r == Failure(ValueOutOfRange) <==>
      0 <= decimals <= 5 && 0 <= display < slots && Abs(scaled) > MaxMagnitude
    ensures r.Success? ==>
      && r.value.slot == display && r.value.decimals == decimals
      && r.value.mag <= MaxMagnitude
      && (r.value.neg <==> scaled < 0)
      && (if r.value.neg then -(r.value.mag as int) else r.value.mag as int) == scaled
  {
    if decimals < 0 || decimals > 5 then Failure(DecimalsOutOfRange)
    else
      var t := Stripped(scaled);
      var neg := scaled < 0;
      if display < 0 || display > slots - 1 then Failure(DisplayOutOfRange)
      else if RangeRejects(t) then Failure(ValueOutOfRange)
      else Success(Request(display, t, neg, decimals))
  }

  /** The lower arm of the range test sees a negative tempN only when the
      sign strip wrapped around: it fires for the most negative int64 and
      for nothing else, and without it that value would pass the test. */
  lemma LowerArmOnlyAtMinInt64(scaled: int)
    requires IsInt64(scaled)
    ensures Stripped(scaled) < -9999 <==> scaled == MinInt64
    ensures scaled == MinInt64 ==> !(Stripped(scaled) > 99999)
  {
  }

  /** The five codes a validated request writes. */
  function EncodeRequest(q: Request, dash: bv8): (r: seq<bv8>)
    ensures |r| == Width
  {
    Encode5(q.mag, q.neg, q.decimals, dash)
  }

  // ---------------------------------------------------------------------
  // Properties of the encoding

  /** Zero is shown with every position blank. */
  lemma ZeroIsBlank(decimals: int, dash: bv8)
    ensures Encode5(0, false, decimals, dash) == [Blank, Blank, Blank, Blank, Blank]
  {
    var r := Encode5(0, false, decimals, dash);
    assert r[0] == Segment(0, false, decimals, dash, 4);
    assert r[1] == Segment(0, false, decimals, dash, 3);
    assert r[2] == Segment(0, false, decimals, dash, 2);
    assert r[3] == Segment(0, false, decimals, dash, 1);
    assert r[4] == Segment(0, false, decimals, dash, 0);
  }

  lemma DigitCodeShape(v: nat, point: bool)
    requires v < 10
    ensures IsDigitCode(DigitCode(v, point))
    ensures HasPoint(DigitCode(v, point)) <==> point
    ensures DigitValue(DigitCode(v, point)) == v
  {
    var b := v as bv8;
    assert b < 10;
    if point {
      assert (b | PointMask) == b + 0xd0;
    }
  }

  /** What one position's code reveals: a dash exactly on the first position
      of a negative value past its last digit, a decimal point exactly on
      position `decimals` when it holds a digit, and the digit's value. */
  lemma SegmentShape(mag: nat, neg: bool, decimals: int, dash: bv8, d: nat)
    requires ValidDash(dash)
    ensures var b := Segment(mag, neg, decimals, dash, d);
      && (b == dash <==> neg && mag < Pow10(d) && (d == 0 || Pow10(d - 1) <= mag))
      && (HasPoint(b) <==> decimals != 0 && d == decimals && Pow10(d) <= mag)
      && DigitValue(b) == (if Pow10(d) <= mag then DigitAt(mag, d) else 0)
  {
    if Pow10(d) <= mag {
      DigitCodeShape(DigitAt(mag, d), decimals != 0 && d == decimals);
    }
  }

  lemma Pow10Values()
    ensures Pow10(0) == 1 && Pow10(1) == 10 && Pow10(2) == 100
    ensures Pow10(3) == 1000 && Pow10(4) == 10000 && Pow10(5) == 100000
  {
  }

  /** The dash sits exactly at the first position past the most significant
      digit of a negative value. */
  lemma DashPosition(mag: nat, neg: bool, decimals: int, dash: bv8)
    requires ValidDash(dash)
    ensures forall d :: 0 <= d < Width ==>
      (Encode5(mag, neg, decimals, dash)[Width - 1 - d] == dash <==>
       neg && mag < Pow10(d) && (d == 0 || Pow10(d - 1) <= mag))
  {
    var r := Encode5(mag, neg, decimals, dash);
    forall d | 0 <= d < Width
      ensures r[Width - 1 - d] == dash <==> neg && mag < Pow10(d) && (d == 0 || Pow10(d - 1) <= mag)
    {
      SegmentShape(mag, neg, decimals, dash, d);
    }
  }

  /** At most one position shows the dash. */
  lemma DashUnique(mag: nat, neg: bool, decimals: int, dash: bv8)
    requires ValidDash(dash)
    ensures forall i, j ::
      (0 <= i < Width && 0 <= j < Width &&
       Encode5(mag, neg, decimals, dash)[i] == dash &&
       Encode5(mag, neg, decimals, dash)[j] == dash) ==> i == j
  {
    var r := Encode5(mag, neg, decimals, dash);
    DashPosition(mag, neg, decimals, dash);
    forall i, j | 0 <= i < Width && 0 <= j < Width && r[i] == dash && r[j] == dash
      ensures i == j
    {
      var di, dj := Width - 1 - i, Width - 1 - j;
      assert r[Width - 1 - di] == dash && r[Width - 1 - dj] == dash;
      FirstPastTopUnique(mag, di, dj);
    }
  }

  /** Only one position is the first past the most significant digit. */
  lemma FirstPastTopUnique(mag: nat, i: nat, j: nat)
    requires mag < Pow10(i) && (i == 0 || Pow10(i - 1) <= mag)
    requires mag < Pow10(j) && (j == 0 || Pow10(j - 1) <= mag)
    ensures i == j
  {
    if i < j {
      Pow10Monotone(i, j - 1);
    } else if j < i {
      Pow10Monotone(j, i - 1);
    }
  }

  /** A magnitude that fills all five positions leaves no room for the sign. */
  lemma DashLostWhenFull(mag: nat, neg: bool, decimals: int, dash: bv8)
    requires ValidDash(dash)
    requires mag >= 10000
    ensures dash !in Encode5(mag, neg, decimals, dash)
  {
    DashPosition(mag, neg, decimals, dash);
    Pow10Values();
    NoPositionPastTop(Encode5(mag, neg, decimals, dash), mag, neg, dash);
  }

  /** Five codes showing the dash only past the top digit have none when
      every position holds a digit. */
  lemma NoPositionPastTop(r: seq<bv8>, mag: nat, neg: bool, dash: bv8)
    requires |r| == Width && Pow10(4) <= mag
    requires forall d :: 0 <= d < Width ==> (r[Width - 1 - d] == dash ==> mag < Pow10(d))
    ensures dash !in r
  {
    forall i | 0 <= i < Width
      ensures r[i] != dash
    {
      var d := Width - 1 - i;
      assert r[Width - 1 - d] == r[i];
      Pow10Monotone(d, 4);
    }
  }

  /** The decimal point is lit on position `decimals` exactly, and only when
      that position holds a digit. */
  lemma PointPlacement(mag: nat, neg: bool, decimals: int, dash: bv8)
    requires ValidDash(dash)
    ensures forall d :: 0 <= d < Width ==>
      (HasPoint(Encode5(mag, neg, decimals, dash)[Width - 1 - d]) <==>
       decimals != 0 && d == decimals && Pow10(d) <= mag)
  {
    var r := Encode5(mag, neg, decimals, dash);
    forall d | 0 <= d < Width
      ensures HasPoint(r[Width - 1 - d]) <==> decimals != 0 && d == decimals && Pow10(d) <= mag
    {
      SegmentShape(mag, neg, decimals, dash, d);
    }
  }

  /** A value below 10^decimals shows no decimal point at all; in particular
      decimals = 5 never lights one, since no position 5 is written. */
  lemma PointLostBelowScale(mag: nat, neg: bool, decimals: nat, dash: bv8)
    requires ValidDash(dash) && decimals > 0 && mag < Pow10(decimals)
    ensures forall i :: 0 <= i < Width ==> !HasPoint(Encode5(mag, neg, decimals, dash)[i])
  {
    var r := Encode5(mag, neg, decimals, dash);
    forall i | 0 <= i < Width
      ensures !HasPoint(r[i])
    {
      var d := Width - 1 - i;
      assert r[i] == Segment(mag, neg, decimals, dash, d);
      SegmentShape(mag, neg, decimals, dash, d);
    }
  }

  // ---------------------------------------------------------------------
  // Reading a display back

  /** What a reader of the five codes sees: the number formed by the digit
      codes (blanks and the dash count as 0) and whether a dash is shown. */
  datatype Reading = Reading(magnitude: nat, negative: bool)

  function DigitValue(b: bv8): nat
  {
    if b < 10 then b as nat
    else if 0xd0 <= b && b <= 0xd9 then (b - 0xd0) as nat
    else 0
  }

  /** Reads codes in buffer order, most significant position first. */
  function ReadBack(s: seq<bv8>, dash: bv8): Reading
    decreases |s|
  {
    if |s| == 0 then Reading(0, false)
    else
      var front := ReadBack(s[..|s| - 1], dash);
      Reading(front.magnitude * 10 + DigitValue(s[|s| - 1]), front.negative || s[|s| - 1] == dash)
  }

  lemma {:induction false} ReadBackNegative(s: seq<bv8>, dash: bv8)
    ensures ReadBack(s, dash).negative <==> dash in s
    decreases |s|
  {
    if |s| > 0 {
      ReadBackNegative(s[..|s| - 1], dash);
      assert s == s[..|s| - 1] + [s[|s| - 1]];
    }
  }

  /** mag / 10^d splits into its next-higher part and digit d. */
  lemma DigitStep(mag: nat, d: nat)
    requires mag <= MaxMagnitude && d < Width
    ensures mag / Pow10(d) == (mag / Pow10(d + 1)) * 10 + DigitAt(mag, d)
    ensures mag < Pow10(d) ==> DigitAt(mag, d) == 0
  {
    Pow10Values();
    if d == 0 {
    } else if d == 1 {
    } else if d == 2 {
    } else if d == 3 {
    } else {
    }
  }

  /** Reading the codes of positions 4 down to d gives mag / 10^d. */
  lemma {:induction false} ReadBackPrefix(mag: nat, neg: bool, decimals: int, dash: bv8, d: nat)
    requires mag <= MaxMagnitude && ValidDash(dash) && d <= Width
    ensures ReadBack(Encode5(mag, neg, decimals, dash)[..Width - d], dash).magnitude == mag / Pow10(d)
    decreases Width - d
  {
    var r := Encode5(mag, neg, decimals, dash);
    if d == Width {
      Pow10Values();
    } else {
      ReadBackPrefix(mag, neg, decimals, dash, d + 1);
      var s := r[..Width - d];
      assert s[..|s| - 1] == r[..Width - (d + 1)];
      assert s[|s| - 1] == Segment(mag, neg, decimals, dash, d);
      SegmentShape(mag, neg, decimals, dash, d);
      DigitStep(mag, d);
    }
  }

  /** A dash is shown exactly for a negative value with at most four digits. */
  lemma DashShown(mag: nat, neg: bool, decimals: int, dash: bv8)
    requires ValidDash(dash)
    ensures dash in Encode5(mag, neg, decimals, dash) <==> neg && mag < 10000
  {
    var r := Encode5(mag, neg, decimals, dash);
    if mag >= 10000 {
      DashLostWhenFull(mag, neg, decimals, dash);
    } else if neg {
      DashPosition(mag, neg, decimals, dash);
      Pow10Values();
      var d := if mag < 1 then 0 else if mag < 10 then 1 else if mag < 100 then 2 else if mag < 1000 then 3 else 4;
      assert r[Width - 1 - d] == dash;
    } else {
      DashPosition(mag, neg, decimals, dash);
      forall i | 0 <= i < Width
        ensures r[i] != dash
      {
        assert r[Width - 1 - (Width - 1 - i)] == r[i];
      }
    }
  }

  /** Round trip: reading the five codes back gives the magnitude, and a
      sign exactly when the value was negative with at most four digits;
      the sign of a five-digit negative value is lost. */
  lemma ReadBackEncode(mag: nat, neg: bool, decimals: int, dash: bv8)
    requires mag <= MaxMagnitude && ValidDash(dash)
    ensures ReadBack(Encode5(mag, neg, decimals, dash), dash) == Reading(mag, neg && mag < 10000)
  {
    var r := Encode5(mag, neg, decimals, dash);
    ReadBackPrefix(mag, neg, decimals, dash, 0);
    assert r[..Width] == r;
    ReadBackNegative(r, dash);
    DashShown(mag, neg, decimals, dash);
  }
}
