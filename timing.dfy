/** Timing calculation: from the oscillator frequency and the PTB4 pin level
    to the standard baud rate of the monitor link and the branch offset that
    calibrates the delay loop of the flash handler routines.

    The frequency is an integer number of Hz; the tolerance test and the two
    truncating conversions are stated in exact integer arithmetic. */
module Timing {
  import opened Common

  /** The standard baud rates, ascending, in the order they are searched. */
  const BaudRates: seq<int> := [50, 75, 110, 134, 150, 200, 300, 600, 1200, 1800, 2400,
                                3600, 4800, 7200, 9600, 14400, 19200, 28800, 38400, 57600, 115200]

  datatype Timing = Timing(baudRate: int, braOffset: int)

  /** `int(a / d)` on the exact quotient: truncation toward zero. */
  function TruncDiv(a: int, d: int): (q: int)
    requires d > 0
    ensures a >= 0 ==> q * d <= a < q * d + d
    ensures a < 0 ==> q * d - d < a <= q * d
  {
    if a >= 0 then a / d else -((-a) / d)
  }

  /** With PTB4 high the monitor runs at half the oscillator frequency. */
  function Divider(ptb4: bool): int { if ptb4 then 2 else 1 }

  /** The baud rate the monitor uses: the effective frequency over 552, truncated. */
  function BaudTheoretical(f: int, ptb4: bool): int
  {
    TruncDiv(f, 552 * Divider(ptb4))
  }

  /** `b * 0.98 < th < b * 1.02`, scaled by 100. */
  predicate WithinTolerance(b: int, th: int)
  {
    98 * b < 100 * th < 102 * b
  }

  /** Index of the first rate whose tolerance window holds `th`. */
  function FirstMatch(rates: seq<int>, th: int): (r: Option<nat>)
    ensures r.Some? ==> r.value < |rates| && WithinTolerance(rates[r.value], th)
    ensures r.Some? ==> forall j :: 0 <= j < r.value ==> !WithinTolerance(rates[j], th)
    ensures r.None? ==> forall j :: 0 <= j < |rates| ==> !WithinTolerance(rates[j], th)
  {
    if rates == [] then None
    else if WithinTolerance(rates[0], th) then Some(0)
    else match FirstMatch(rates[1..], th)
      case None => None
      case Some(i) => Some(i + 1)
  }

  /** Number of NOPs in the delay loop: `int(fb / 400000 - 3)`, truncated toward zero. */
  function NopCount(f: int, ptb4: bool): int
  {
    var d := 400000 * Divider(ptb4);
    TruncDiv(f - 3 * d, d)
  }

  /** The NOP count when `/` divides integers by flooring, as it does in
      Python 2 for a frequency given as an integer with PTB4 low:
      `fb / 400000 - 3` with `fb / 400000` rounded down. */
  function NopCountFloor(f: int): int { f / 400000 - 3 }

  /** From 1.2 MHz up both readings give the same count; below it, off the
      multiples of 400 kHz, flooring gives one NOP fewer. */
  lemma NopCountReadings(f: int)
    ensures f >= 1200000 ==> NopCountFloor(f) == NopCount(f, false)
    ensures 0 <= f < 1200000 && f % 400000 != 0 ==> NopCountFloor(f) == NopCount(f, false) - 1
  {
    var q := f / 400000;
    assert q * 400000 <= f < q * 400000 + 400000;
    if f >= 1200000 {
      assert NopCount(f, false) == TruncDiv(f - 1200000, 400000);
      assert (f - 1200000) / 400000 == q - 3;
    } else if 0 <= f && f % 400000 != 0 {
      assert f - 1200000 < 0;
      assert TruncDiv(f - 1200000, 400000) == -((1200000 - f) / 400000);
      assert (1200000 - f) / 400000 == 2 - q;
    }
  }

  /** The timing of the link, or the configuration error when no standard
      baud rate is within 2% of the one the oscillator gives. */
  function GetTiming(f: int, ptb4: bool): (r: Result<Timing>)
    ensures r.Err? <==> forall j :: 0 <= j < |BaudRates| ==> !WithinTolerance(BaudRates[j], BaudTheoretical(f, ptb4))
    ensures r.Err? ==> r.error == NoBaudRate(BaudTheoretical(f, ptb4))
    ensures r.Ok? ==> exists i :: (0 <= i < |BaudRates| && r.value.baudRate == BaudRates[i]
      && WithinTolerance(BaudRates[i], BaudTheoretical(f, ptb4))
      && forall j :: 0 <= j < i ==> !WithinTolerance(BaudRates[j], BaudTheoretical(f, ptb4)))
    ensures r.Ok? ==> r.value.braOffset == 254 - NopCount(f, ptb4)
  {
    var th := BaudTheoretical(f, ptb4);
    match FirstMatch(BaudRates, th)
    case None => Err(NoBaudRate(th))
    case Some(i) => Ok(Timing(BaudRates[i], 254 - NopCount(f, ptb4)))
  }

  /** Neighbouring windows are apart: 1.02 times a rate is below 0.98 times the next one. */
  lemma {:induction false} WindowsApart(i: int, j: int)
    requires 0 <= i < j < |BaudRates|
    ensures 102 * BaudRates[i] <= 98 * BaudRates[j]
    decreases j - i
  {
    var r := BaudRates;
    assert forall k :: 0 <= k < |r| - 1 ==> 102 * r[k] <= 98 * r[k + 1] && r[k] < r[k + 1];
    if j > i + 1 {
      WindowsApart(i, j - 1);
    }
  }

  /** So no theoretical rate lies in two windows: the chosen rate is the only
      standard rate within tolerance. */
  lemma BaudRateUnique(f: int, ptb4: bool, b: int)
    requires GetTiming(f, ptb4).Ok?
    requires b in BaudRates && WithinTolerance(b, BaudTheoretical(f, ptb4))
    ensures b == GetTiming(f, ptb4).value.baudRate
  {
    var th := BaudTheoretical(f, ptb4);
    var i :| 0 <= i < |BaudRates| && GetTiming(f, ptb4).value.baudRate == BaudRates[i] && WithinTolerance(BaudRates[i], th);
    var j :| 0 <= j < |BaudRates| && b == BaudRates[j];
    OneWindow(i, j, th);
  }

  /** A theoretical rate lies in the window of at most one standard rate. */
  lemma OneWindow(i: int, j: int, th: int)
    requires 0 <= i < |BaudRates| && 0 <= j < |BaudRates|
    requires WithinTolerance(BaudRates[i], th) && WithinTolerance(BaudRates[j], th)
    ensures i == j
  {
    if i < j {
      WindowsApart(i, j);
    } else if j < i {
      WindowsApart(j, i);
    }
  }

  /** NopCount is the truncation toward zero of the real `fb / 400000 - 3`. */
  lemma NopCountIsTruncation(f: int, ptb4: bool)
    ensures var x := (f as real) / ((400000 * Divider(ptb4)) as real) - 3.0;
      var n := NopCount(f, ptb4) as real;
      && (x >= 0.0 ==> n <= x < n + 1.0)
      && (x < 0.0 ==> n - 1.0 < x <= n)
  {
    var d := 400000 * Divider(ptb4);
    var a := f - 3 * d;
    var q := TruncDiv(a, d);
    var dr := d as real;
    var x := (f as real) / dr - 3.0;
    assert x == (a as real) / dr;
    assert x * dr == a as real;
    if a >= 0 {
      assert (q as real) * dr <= x * dr < (q as real + 1.0) * dr;
    } else {
      assert (q as real - 1.0) * dr < x * dr <= (q as real) * dr;
    }
  }

  /** On success the branch offset is positive and at most 256; it fits the
      handler's offset byte exactly when the effective frequency is above 400 kHz. */
  lemma BraOffsetRange(f: int, ptb4: bool)
    requires GetTiming(f, ptb4).Ok?
    ensures var bra := GetTiming(f, ptb4).value.braOffset;
      && 0 < bra <= 256
      && (bra < 256 <==> f > 400000 * Divider(ptb4))
  {
    var th := BaudTheoretical(f, ptb4);
    var i :| 0 <= i < |BaudRates| && WithinTolerance(BaudRates[i], th);
    RateBounds(i);
    NopRange(f, ptb4);
  }

  /** The NOP count over the range of frequencies some standard rate covers. */
  lemma NopRange(f: int, ptb4: bool)
    requires 50 <= BaudTheoretical(f, ptb4) < 117504
    ensures -2 <= NopCount(f, ptb4) < 254
    ensures NopCount(f, ptb4) >= -1 <==> f > 400000 * Divider(ptb4)
  {
    var th := BaudTheoretical(f, ptb4);
    if ptb4 {
      FrequencyBounds(f, 1104, th);
      NopBounds(f, 800000);
    } else {
      FrequencyBounds(f, 552, th);
      NopBounds(f, 400000);
    }
  }

  /** Every standard rate lies between the first and the last. */
  lemma RateBounds(i: int)
    requires 0 <= i < |BaudRates|
    ensures 50 <= BaudRates[i] <= 115200
  {
    if 0 < i {
      WindowsApart(0, i);
    }
    if i < |BaudRates| - 1 {
      WindowsApart(i, |BaudRates| - 1);
    }
  }

  lemma FrequencyBounds(f: int, e: int, th: int)
    requires (e == 552 || e == 1104) && th == TruncDiv(f, e) && 50 <= th < 117504
    ensures 50 * e <= f < 117504 * e
  {
    if e == 552 {
      assert f >= 0 ==> th * 552 <= f < th * 552 + 552;
      assert f < 0 ==> th * 552 - 552 < f;
    } else {
      assert f >= 0 ==> th * 1104 <= f < th * 1104 + 1104;
      assert f < 0 ==> th * 1104 - 1104 < f;
    }
  }

  lemma NopBounds(f: int, d: int)
    requires d == 400000 || d == 800000
    requires 0 < f < 163 * d
    ensures var n := TruncDiv(f - 3 * d, d); -2 <= n < 254 && (n >= -1 <==> f > d)
  {
    var n := TruncDiv(f - 3 * d, d);
    if f - 3 * d >= 0 {
      assert n * d <= f - 3 * d < n * d + d;
      assert 0 <= n < 161;
    } else {
      assert n * d - d < f - 3 * d <= n * d;
      assert -3 < n <= 0;
      if n == -2 { assert f <= d; }
      if n == -1 || n == 0 { assert f > d; }
    }
  }

  /** A standard rate within tolerance is the one GetTiming picks. */
  lemma GetTimingAt(f: int, ptb4: bool, i: int)
    requires 0 <= i < |BaudRates| && WithinTolerance(BaudRates[i], BaudTheoretical(f, ptb4))
    ensures GetTiming(f, ptb4) == Ok(Timing(BaudRates[i], 254 - NopCount(f, ptb4)))
  {
    assert GetTiming(f, ptb4).Ok?;
    BaudRateUnique(f, ptb4, BaudRates[i]);
  }

  /** A theoretical rate in the gap between the windows of two neighbouring
      standard rates matches none. */
  lemma InGap(th: int, j: int)
    requires 0 <= j < |BaudRates| - 1
    requires 102 * BaudRates[j] <= 100 * th <= 98 * BaudRates[j + 1]
    ensures forall k :: 0 <= k < |BaudRates| ==> !WithinTolerance(BaudRates[k], th)
  {
    forall k | 0 <= k < |BaudRates|
      ensures !WithinTolerance(BaudRates[k], th)
    {
      if k < j {
        WindowsApart(k, j);
      } else if k > j + 1 {
        WindowsApart(j + 1, k);
      }
    }
  }

  /** A theoretical rate in such a gap is the configuration error. */
  lemma GetTimingInGap(f: int, ptb4: bool, j: int)
    requires 0 <= j < |BaudRates| - 1
    requires 102 * BaudRates[j] <= 100 * BaudTheoretical(f, ptb4) <= 98 * BaudRates[j + 1]
    ensures GetTiming(f, ptb4) == Err(NoBaudRate(BaudTheoretical(f, ptb4)))
  {
    InGap(BaudTheoretical(f, ptb4), j);
  }

  /** 5.2 MHz with PTB4 low: the monitor wants 9420 baud, which 9600 covers,
      and ten NOPs give the branch offset 0xF4. */
  lemma GetTimingExample()
    ensures BaudTheoretical(5200000, false) == 9420
    ensures GetTiming(5200000, false) == Ok(Timing(9600, 0xF4))
  {
    assert BaudTheoretical(5200000, false) == 9420;
    assert NopCount(5200000, false) == 10;
    GetTimingAt(5200000, false, 14);
  }

  /** 3 MHz with PTB4 low needs 5434 baud, which no standard rate covers. */
  lemma GetTimingNoRateExample()
    ensures GetTiming(3000000, false) == Err(NoBaudRate(5434))
  {
    assert BaudTheoretical(3000000, false) == 5434;
    GetTimingInGap(3000000, false, 12);
  }
}
