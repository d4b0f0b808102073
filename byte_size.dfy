/** `formatBytes` of scripts/build-content.js: a size in bytes written with
    binary prefixes, one decimal below ten units, none from ten up. */
module ByteSize {
  import opened Text
  import opened JsValue

  /** The argument as `typeof`/`isNaN` see it. Sizes come from `statSync`, so
      numbers are whole. */
  datatype ByteCount = NotANumber | NaN | Num(n: int)

  function Pow1024(i: nat): (r: nat)
    ensures r >= 1
  {
    if i == 0 then 1 else 1024 * Pow1024(i - 1)
  }

  /** `Math.floor(Math.log(bytes) / Math.log(1024))`, computed exactly. */
  function FloorLog1024(n: nat): (r: nat)
    requires n >= 1
    ensures Pow1024(r) <= n < Pow1024(r + 1)
  {
    if n < 1024 then 0
    else
      var k := FloorLog1024(n / 1024);
      assert Pow1024(k) * 1024 <= n by {
        assert Pow1024(k) <= n / 1024;
        assert Pow1024(k) * 1024 <= (n / 1024) * 1024;
      }
      assert n < Pow1024(k + 1) * 1024 by {
        assert n / 1024 + 1 <= Pow1024(k + 1);
        assert n < (n / 1024 + 1) * 1024;
        assert (n / 1024 + 1) * 1024 <= Pow1024(k + 1) * 1024;
      }
      k + 1
  }

  /** The largest power not above `n` is unique: any `i` with
      `1024^i <= n < 1024^(i+1)` is `FloorLog1024(n)`. */
  lemma FloorLogUnique(n: nat, i: nat)
    requires n >= 1 && Pow1024(i) <= n < Pow1024(i + 1)
    ensures FloorLog1024(n) == i
  {
    var k := FloorLog1024(n);
    if k < i {
      PowMonotone(k + 1, i);
    } else if i < k {
      PowMonotone(i + 1, k);
    }
  }

  lemma {:induction false} PowMonotone(i: nat, j: nat)
    requires i <= j
    ensures Pow1024(i) <= Pow1024(j)
  {
    if i < j {
      PowMonotone(i, j - 1);
    }
  }

  /** `x.toFixed(...)` rounds half up: `a / d` to the nearest whole number. */
  function RoundDiv(a: nat, d: nat): nat
    requires d >= 1
  {
    (2 * a + d) / (2 * d)
  }

  /** The rounded quotient is within half a unit of the exact one, ties up. */
  lemma RoundDivBounds(a: nat, d: nat)
    requires d >= 1
    ensures 2 * d * RoundDiv(a, d) <= 2 * a + d < 2 * d * (RoundDiv(a, d) + 1)
  {
    var q := RoundDiv(a, d);
    var m := 2 * d;
    assert 2 * a + d == q * m + (2 * a + d) % m;
  }

  const Units: seq<string> := ["B", "KB", "MB", "GB", "TB"]

  /** `units[i]`, which reads "undefined" past "TB". */
  function UnitName(i: nat): string {
    if i < |Units| then Units[i] else "undefined"
  }

  /** `(n / p).toFixed(decimals)` for `decimals` 0 or 1. */
  function ToFixed(n: nat, p: nat, oneDecimal: bool): string
    requires p >= 1
  {
    if !oneDecimal then NatToString(RoundDiv(n, p))
    else
      var tenths := RoundDiv(10 * n, p);
      NatToString(tenths / 10) + "." + [DigitChar(tenths % 10)]
  }

  function FormatBytes(bytes: ByteCount): (r: Option<string>)
  {
    match bytes
    case Num(n) =>
      if n < 0 then None
      else if n == 0 then Some("0 B")
      else
        var i := FloorLog1024(n);
        var p := Pow1024(i);
        Some(ToFixed(n, p, !(n >= 10 * p || i == 0)) + " " + UnitName(i))
    case _ => None
  }

  /** `null` for a non-number, NaN or a negative value; "0 B" for zero. */
  lemma FormatBytesNull(bytes: ByteCount)
    ensures FormatBytes(bytes) == None <==> !bytes.Num? || bytes.n < 0
    ensures bytes == Num(0) ==> FormatBytes(bytes) == Some("0 B")
  {
  }

  /** Reads a number printed with at most one decimal back, in tenths. */
  function TenthsOf(s: string): Option<nat> {
    if |s| >= 3 && s[|s| - 2] == '.' then
      var whole, last := s[..|s| - 2], s[|s| - 1];
      if IsDigit(last) && forall i :: 0 <= i < |whole| ==> IsDigit(whole[i]) then
        Some(10 * DigitsValue(whole) + (last as int - '0' as int))
      else None
    else if s != [] && forall i :: 0 <= i < |s| ==> IsDigit(s[i]) then Some(10 * DigitsValue(s))
    else None
  }

  /** The printed number, read back, is `n / p` to within half of its last
      printed digit (ties rounded up). */
  lemma ToFixedAccuracy(n: nat, p: nat, oneDecimal: bool)
    requires p >= 1
    ensures var t := TenthsOf(ToFixed(n, p, oneDecimal));
      t.Some? &&
      (!oneDecimal ==> t.value % 10 == 0 && 2 * p * (t.value / 10) <= 2 * n + p < 2 * p * (t.value / 10 + 1)) &&
      (oneDecimal ==> 2 * p * t.value <= 20 * n + p < 2 * p * t.value + 2 * p)
  {
    if !oneDecimal {
      ToFixedWhole(n, p);
    } else {
      ToFixedTenths(n, p);
    }
  }

  lemma ToFixedWhole(n: nat, p: nat)
    requires p >= 1
    ensures var t := TenthsOf(ToFixed(n, p, false));
      t.Some? && t.value % 10 == 0 && 2 * p * (t.value / 10) <= 2 * n + p < 2 * p * (t.value / 10 + 1)
  {
    var q := RoundDiv(n, p);
    RoundDivBounds(n, p);
    NatToStringRoundTrip(q);
    TenthsOfDigits(NatToString(q));
    assert (10 * q) / 10 == q;
  }

  lemma TenthsOfDigits(s: string)
    requires s != [] && forall i :: 0 <= i < |s| ==> IsDigit(s[i])
    ensures TenthsOf(s) == Some(10 * DigitsValue(s))
  {
    if |s| >= 3 {
      assert IsDigit(s[|s| - 2]);
    }
  }

  lemma ToFixedTenths(n: nat, p: nat)
    requires p >= 1
    ensures var t := TenthsOf(ToFixed(n, p, true));
      t.Some? && 2 * p * t.value <= 20 * n + p < 2 * p * t.value + 2 * p
  {
    var tenths := RoundDiv(10 * n, p);
    RoundDivBounds(10 * n, p);
    assert 2 * p * (tenths + 1) == 2 * p * tenths + 2 * p;
    var w, d := tenths / 10, tenths % 10;
    assert ToFixed(n, p, true) == NatToString(w) + "." + [DigitChar(d)];
    NatToStringRoundTrip(w);
    TenthsOfDecimal(NatToString(w), d);
    assert 10 * w + d == tenths;
  }

  /** "ddd.d" reads back as its value in tenths. */
  lemma TenthsOfDecimal(whole: string, d: nat)
    requires whole != [] && (forall i :: 0 <= i < |whole| ==> IsDigit(whole[i])) && d < 10
    ensures TenthsOf(whole + "." + [DigitChar(d)]) == Some(10 * DigitsValue(whole) + d)
  {
    var c := DigitChar(d);
    assert IsDigit(c) && c as int - '0' as int == d;
    var s := whole + "." + [c];
    assert |s| >= 3 && s[|s| - 2] == '.' && s[|s| - 1] == c;
    assert s[..|s| - 2] == whole;
  }

  /** For a positive size: the unit is the largest power of 1024 not above
      it, so the scaled value lies in [1, 1024); below 1024^5 the unit is one
      of B..TB; a decimal is printed exactly when the unit is not bytes and
      the scaled value is below ten. */
  lemma FormatBytesUnit(n: nat, i: nat)
    requires n >= 1 && Pow1024(i) <= n < Pow1024(i + 1)
    ensures var r := FormatBytes(Num(n));
      var oneDecimal := i != 0 && n < 10 * Pow1024(i);
      r == Some(ToFixed(n, Pow1024(i), oneDecimal) + " " + UnitName(i)) &&
      (n < Pow1024(5) ==> i < 5 && UnitName(i) == Units[i]) &&
      ('.' in r.value <==> oneDecimal)
  {
    FloorLogUnique(n, i);
    if n < Pow1024(5) && i >= 5 {
      PowMonotone(5, i);
    }
    var oneDecimal := i != 0 && n < 10 * Pow1024(i);
    ToFixedDot(n, Pow1024(i), oneDecimal);
    UnitNameNoDot(i);
  }

  /** A decimal point is printed exactly when one decimal is asked for. */
  lemma ToFixedDot(n: nat, p: nat, oneDecimal: bool)
    requires p >= 1
    ensures '.' in ToFixed(n, p, oneDecimal) <==> oneDecimal
  {
    if !oneDecimal {
      var text := NatToString(RoundDiv(n, p));
      assert forall k :: 0 <= k < |text| ==> text[k] != '.';
    }
  }

  lemma UnitNameNoDot(i: nat)
    ensures '.' !in UnitName(i)
  {
    assert forall u :: u in Units ==> '.' !in u;
  }

  /** 1536 bytes read "1.5 KB". */
  lemma FormatBytesKilo()
    ensures FormatBytes(Num(1536)) == Some("1.5 KB")
  {
    assert Pow1024(1) == 1024 && Pow1024(2) == 1048576;
    FloorLogUnique(1536, 1);
    assert RoundDiv(15360, 1024) == 15;
    assert NatToString(1) == "1";
    assert ToFixed(1536, 1024, true) == "1.5";
    assert UnitName(1) == "KB";
    assert "1.5" + " " + "KB" == "1.5 KB";
  }

  /** Exactly one mebibyte reads "1.0 MB": the scaled value 1 is below ten,
      so one decimal is printed. */
  lemma FormatBytesMega()
    ensures FormatBytes(Num(1048576)) == Some("1.0 MB")
  {
    assert Pow1024(2) == 1048576 && Pow1024(3) == 1073741824;
    FloorLogUnique(1048576, 2);
    assert RoundDiv(10485760, 1048576) == 10;
    assert NatToString(1) == "1";
    assert ToFixed(1048576, 1048576, true) == "1.0";
    assert UnitName(2) == "MB";
    assert "1.0" + " " + "MB" == "1.0 MB";
  }
}
