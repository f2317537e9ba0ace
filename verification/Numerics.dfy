/** The numeric worker: decimal text becomes a sign, a scale and a little-endian integer. */
module Numerics {
  import opened Arithmetic
  import opened Text
  import opened Odbc
  import opened DateTimes

  const TWO_56 := 0x100_0000_0000_0000
  const TWO_64 := 0x1_0000_0000_0000_0000
  const MAX_SCALE := 127  // of an SQLSCHAR

  // ---- Library functions

  /** `boost::lexical_cast<uint64_t>`: an optional sign and at least one digit; a minus sign
      negates modulo 2^64. */
  function LexicalCastUInt64(s: string): (r: Option<nat>)
    ensures r.Some? ==> r.value < TWO_64
  {
    var signed := s != "" && (s[0] == '-' || s[0] == '+');
    var digits := if signed then s[1..] else s;
    if digits == "" || !AllDigits(digits) || Number(digits) >= TWO_64 then None
    else if signed && s[0] == '-' then Some((TWO_64 - Number(digits)) % TWO_64)
    else Some(Number(digits))
  }

  // ---- Bytes

  function Pow256(n: nat): (p: nat)
    ensures p >= 1
  {
    if n == 0 then 1 else 256 * Pow256(n - 1)
  }

  /** Byte k of an integer as a little-endian machine stores it. */
  function Byte(n: nat, k: nat): (b: nat)
    ensures b < 256
  {
    if k == 0 then n % 256 else Byte(n / 256, k - 1)
  }

  function LittleEndian(bytes: seq<nat>): nat {
    if bytes == [] then 0 else bytes[0] + 256 * LittleEndian(bytes[1..])
  }

  /** The first k bytes of an integer, read back, are that integer modulo 256^k; zeros after
      them add nothing. */
  lemma {:induction false} LittleEndianOfBytes(n: nat, k: nat, bytes: seq<nat>)
    requires k <= |bytes|
    requires forall i | 0 <= i < k :: bytes[i] == Byte(n, i)
    requires forall i | k <= i < |bytes| :: bytes[i] == 0
    ensures LittleEndian(bytes) == n % Pow256(k)
  {
    if bytes != [] {
      var rest := bytes[1..];
      if k == 0 {
        LittleEndianOfBytes(n, 0, rest);
      } else {
        forall i | 0 <= i < k - 1 ensures rest[i] == Byte(n / 256, i) {
          assert rest[i] == bytes[i + 1] == Byte(n, i + 1);
        }
        LittleEndianOfBytes(n / 256, k - 1, rest);
        ModByFactors(n, Pow256(k - 1));
      }
    }
  }

  // ---- The worker

  /** The text between the sign and the end. */
  function Unsigned(trimmed: string): string {
    if trimmed != "" && trimmed[0] == '-' then trimmed[1..] else trimmed
  }

  /** What follows the first point, counted; none without a point. */
  function ScaleOf(unsigned: string): nat {
    var index := IndexOf(unsigned, '.');
    if index == |unsigned| then 0 else |unsigned| - index - 1
  }

  function ScaledInteger(unsigned: string): Option<nat> {
    LexicalCastUInt64(EraseAll(unsigned, '.'))
  }

  predicate Converts(trimmed: string) {
    ScaleOf(Unsigned(trimmed)) <= MAX_SCALE && ScaledInteger(Unsigned(trimmed)).Some?
  }

  /** The structure that the worker leaves for a text that converts. */
  ghost predicate Delivers(trimmed: string, out: NumericStruct)
    requires trimmed != "" && Converts(trimmed)
  {
    && out.sign == (if trimmed[0] == '-' then 0 else 1)
    && out.scale == out.precision == ScaleOf(Unsigned(trimmed))
    && |out.val| == SQL_MAX_NUMERIC_LEN
    && LittleEndian(out.val) == ScaledInteger(Unsigned(trimmed)).value % TWO_56
    && forall k | 0 <= k < SQL_MAX_NUMERIC_LEN ::
         out.val[k] == if k < 7 then Byte(ScaledInteger(Unsigned(trimmed)).value, k) else 0
  }

  lemma IsDelivered(trimmed: string, out: NumericStruct, n: nat)
    requires trimmed != "" && Converts(trimmed) && ScaledInteger(Unsigned(trimmed)) == Some(n)
    requires out.sign == (if trimmed[0] == '-' then 0 else 1)
    requires out.scale == out.precision == ScaleOf(Unsigned(trimmed))
    requires |out.val| == SQL_MAX_NUMERIC_LEN && LittleEndian(out.val) == n % TWO_56
    requires forall k | 0 <= k < SQL_MAX_NUMERIC_LEN :: out.val[k] == if k < 7 then Byte(n, k) else 0
    ensures Delivers(trimmed, out) == true
  {
  }

  method TranslateNumeric(data: string, target: Area, resultSize: Cell?)
    returns (thrown: Option<Exception>)
    modifies target`structs, resultSize
    ensures thrown == if Trim(data) == "" || Converts(Trim(data)) then None else Some(DataTranslation)
    ensures Trim(data) == "" ==> target.structs == old(target.structs)
    ensures target.structs == old(target.structs).(numeric := target.structs.numeric)
    ensures Trim(data) != "" && Converts(Trim(data)) ==> Delivers(Trim(data), target.structs.numeric) == true
    ensures resultSize != null ==>
              resultSize.value == if Trim(data) == "" then NULL_DATA
                                  else if thrown.None? then SIZEOF_NUMERIC_STRUCT
                                  else old(resultSize.value)
  {
    var trimd := Trim(data);
    if trimd == "" {
      SetResultSize(resultSize, NULL_DATA);
      return None;
    }
    var numeric := target.structs.numeric;
    if trimd[0] == '-' {
      numeric := numeric.(sign := 0);
      trimd := trimd[1..];
    } else {
      numeric := numeric.(sign := 1);
    }
    target.structs := target.structs.(numeric := numeric);

    var index := IndexOf(trimd, '.');
    if index == |trimd| {
      numeric := numeric.(scale := 0, precision := 0);
      EraseNothing(trimd, '.');
    } else {
      var scale := |trimd| - index - 1;
      if scale > MAX_SCALE {
        return Some(DataTranslation);
      }
      numeric := numeric.(scale := scale, precision := scale);
      trimd := EraseAll(trimd, '.');
    }

    var val := new nat[SQL_MAX_NUMERIC_LEN](i => 0);
    target.structs := target.structs.(numeric := numeric.(val := val[..]));

    var intvalue := LexicalCastUInt64(trimd);
    if intvalue.None? {
      return Some(DataTranslation);
    }
    CopyBytes(intvalue.value, val);
    numeric := numeric.(val := val[..]);
    IsDelivered(Trim(data), numeric, intvalue.value);
    target.structs := target.structs.(numeric := numeric);
    SetResultSize(resultSize, SIZEOF_NUMERIC_STRUCT);
    return None;
  }

  /** Copies bytes 0 to 6 of the integer: the end of the range given to `std::copy`, element
      7, is exclusive. */
  method CopyBytes(intvalue: nat, val: array<nat>)
    requires val.Length == SQL_MAX_NUMERIC_LEN
    requires forall k | 0 <= k < val.Length :: val[k] == 0
    modifies val
    ensures LittleEndian(val[..]) == intvalue % TWO_56
    ensures forall k | 0 <= k < val.Length :: val[k] == if k < 7 then Byte(intvalue, k) else 0
  {
    for i := 0 to 7
      invariant forall k | 0 <= k < i :: val[k] == Byte(intvalue, k)
      invariant forall k | i <= k < val.Length :: val[k] == 0
    {
      val[i] := Byte(intvalue, i);
    }
    LittleEndianOfBytes(intvalue, 7, val[..]);
    Pow256Of7();
  }

  /** The lowest byte comes first. */
  lemma {:induction false} ByteIs(n: nat, k: nat)
    ensures Byte(n, k) == n / Pow256(k) % 256
    decreases k
  {
    if k > 0 {
      ByteIs(n / 256, k - 1);
      DivideTwice(n, Pow256(k - 1));
    }
  }

  lemma DivideTwice(n: nat, m: nat)
    requires m >= 1
    ensures n / 256 / m == n / (256 * m)
  {
    var q := n / 256 / m;
    var r, low := n / 256 - q * m, n % 256;
    assert 0 <= r < m && n == 256 * (q * m + r) + low;
    assert n == q * (256 * m) + (256 * r + low);
    QuotientUnique(n, 256 * m, q, 256 * r + low);
  }

  lemma Pow256Of7()
    ensures Pow256(7) == TWO_56
  {
    assert Pow256(3) == 0x100_0000;
  }

  lemma {:induction false} EraseNothing(s: string, c: char)
    requires Free(s, c)
    ensures EraseAll(s, c) == s
  {
    if s != "" {
      assert s[0] in s;
      EraseNothing(s[1..], c);
      assert s == [s[0]] + s[1..];
    }
  }

  // ---- What the decimal text means

  /** The fraction that digits after a point write: each one a tenth of the place before. */
  function Fraction(digits: string): real
    requires AllDigits(digits)
  {
    if digits == "" then 0.0
    else Fraction(digits[..|digits| - 1]) + DigitValue(digits[|digits| - 1]) as real / Pow10(|digits|) as real
  }

  /** whole[.part] */
  function Magnitude(whole: string, point: bool, part: string): string {
    whole + (if point then "." + part else "")
  }

  /** [-]whole[.part], the part and its point only when `point`. */
  function DecimalText(negative: bool, whole: string, point: bool, part: string): string {
    (if negative then "-" else "") + Magnitude(whole, point, part)
  }

  function DecimalValue(negative: bool, whole: string, part: string): real
    requires AllDigits(whole) && AllDigits(part)
  {
    var magnitude := Number(whole) as real + Fraction(part);
    if negative then -magnitude else magnitude
  }

  /** What the structure denotes: its integer scaled down, with its sign. */
  function Denoted(n: NumericStruct): real {
    var magnitude := LittleEndian(n.val) as real / Pow10(n.scale) as real;
    if n.sign == 0 then -magnitude else magnitude
  }

  lemma {:induction false} ScaledNumber(whole: string, part: string)
    requires AllDigits(whole) && AllDigits(part)
    ensures AllDigits(whole + part)
    ensures Number(whole + part) as real / Pow10(|part|) as real == Number(whole) as real + Fraction(part)
  {
    if part == "" {
      assert whole + part == whole;
    } else {
      var last := |part| - 1;
      var digit := DigitValue(part[last]) as real;
      ScaledNumber(whole, part[..last]);
      assert (whole + part)[..|whole + part| - 1] == whole + part[..last];
      var n, p := Number(whole + part[..last]) as real, Pow10(last) as real;
      assert Pow10(|part|) as real == 10.0 * p;
      DivideByTen(n, digit, p);
    }
  }

  lemma DivideByTen(n: real, digit: real, p: real)
    requires p > 0.0
    ensures (10.0 * n + digit) / (10.0 * p) == n / p + digit / (10.0 * p)
  {
    var a, b, q := n / p, digit / (10.0 * p), 10.0 * p;
    assert a * q == 10.0 * n by { assert a * p == n; }
    assert b * q == digit;
    assert (a + b) * q == 10.0 * n + digit;
  }

  lemma DigitsAreFree(s: string, c: char)
    requires AllDigits(s) && !IsDigit(c)
    ensures Free(s, c)
  {
  }

  ghost predicate IsDecimal(whole: string, point: bool, part: string) {
    AllDigits(whole) && AllDigits(part) && (part != "" ==> point) && whole + part != ""
  }

  /** The worker takes the sign off a decimal text. */
  lemma SignOfDecimal(negative: bool, whole: string, point: bool, part: string)
    requires IsDecimal(whole, point, part)
    ensures var text := DecimalText(negative, whole, point, part);
            text != "" && (text[0] == '-' <==> negative) && Unsigned(text) == Magnitude(whole, point, part)
  {
    var magnitude := Magnitude(whole, point, part);
    assert magnitude[0] != '-' by {
      if whole != "" {
        assert magnitude[0] == whole[0] && IsDigit(whole[0]);
      } else {
        assert magnitude[0] == '.';
      }
    }
  }

  /** It counts the digits after the point and keeps the digits on both sides of it. */
  lemma PartsOfMagnitude(whole: string, point: bool, part: string)
    requires IsDecimal(whole, point, part)
    ensures ScaleOf(Magnitude(whole, point, part)) == |part|
    ensures EraseAll(Magnitude(whole, point, part), '.') == whole + part
  {
    DigitsAreFree(whole, '.');
    DigitsAreFree(part, '.');
    if point {
      assert Magnitude(whole, true, part) == whole + "." + part;
      IndexOfAfterFree(whole, part, '.');
      EraseBetween(whole, part, '.');
    } else {
      assert Magnitude(whole, false, part) == whole == whole + part;
      EraseNothing(whole, '.');
    }
  }

  lemma {:induction false} EraseBetween(a: string, b: string, c: char)
    requires Free(a, c) && Free(b, c)
    ensures EraseAll(a + [c] + b, c) == a + b
  {
    if a == "" {
      assert ([c] + b)[1..] == b;
      EraseNothing(b, c);
    } else {
      assert a[0] in a;
      assert (a + [c] + b)[1..] == a[1..] + [c] + b;
      EraseBetween(a[1..], b, c);
      assert a == [a[0]] + a[1..];
    }
  }

  lemma CastOfDigits(digits: string)
    requires digits != "" && AllDigits(digits)
    ensures LexicalCastUInt64(digits) == if Number(digits) < TWO_64 then Some(Number(digits)) else None
  {
    assert IsDigit(digits[0]);
  }

  /** With a sign: a minus sign negates modulo 2^64, a plus sign does nothing. */
  lemma CastOfSigned(digits: string)
    requires digits != "" && AllDigits(digits)
    ensures LexicalCastUInt64("+" + digits) == LexicalCastUInt64(digits)
    ensures LexicalCastUInt64("-" + digits) ==
            if Number(digits) >= 0x1_0000_0000_0000_0000 then None
            else if Number(digits) == 0 then Some(0)
            else Some(0x1_0000_0000_0000_0000 - Number(digits))
  {
    assert ("+" + digits)[1..] == digits && ("-" + digits)[1..] == digits;
    assert IsDigit(digits[0]);
  }

  /** Anything else is refused. */
  lemma CastOfOther(s: string)
    requires s == "" || (!IsDigit(s[0]) && s[0] != '-' && s[0] != '+') || exists i | 0 < i < |s| :: !IsDigit(s[i])
    ensures LexicalCastUInt64(s) == None
  {
    if s != "" && (IsDigit(s[0]) || s[0] == '-' || s[0] == '+') {
      var i :| 0 < i < |s| && !IsDigit(s[i]);
      assert s[1..][i - 1] == s[i];
    }
  }

  lemma DigitsOfConcat(a: string, b: string)
    requires AllDigits(a) && AllDigits(b)
    ensures AllDigits(a + b)
  {
  }

  /** The worker converts a decimal text exactly when its scale and its digits fit. */
  lemma DecimalConverts(negative: bool, whole: string, point: bool, part: string)
    requires IsDecimal(whole, point, part)
    ensures AllDigits(whole + part)
    ensures Converts(DecimalText(negative, whole, point, part)) <==>
            |part| <= MAX_SCALE && Number(whole + part) < TWO_64
  {
    DigitsOfConcat(whole, part);
    SignOfDecimal(negative, whole, point, part);
    PartsOfMagnitude(whole, point, part);
    CastOfDigits(whole + part);
  }

  /** Where it converts, the structure denotes the decimal written exactly when the digits are
      below 2^56: the eighth byte is never copied. */
  lemma DecimalDenoted(negative: bool, whole: string, point: bool, part: string, out: NumericStruct)
    requires IsDecimal(whole, point, part)
    requires var text := DecimalText(negative, whole, point, part);
             text != "" && Converts(text) && Delivers(text, out)
    ensures AllDigits(whole + part)
    ensures Denoted(out) == DecimalValue(negative, whole, part) <==> Number(whole + part) < TWO_56
  {
    DigitsOfConcat(whole, part);
    SignOfDecimal(negative, whole, point, part);
    PartsOfMagnitude(whole, point, part);
    CastOfDigits(whole + part);
    ScaledNumber(whole, part);
    SameQuotient(Number(whole + part), Pow10(|part|));
  }

  lemma SameQuotient(n: nat, p: nat)
    requires p > 0
    ensures (n % TWO_56) as real / p as real == n as real / p as real <==> n < TWO_56
  {
    QuotientsDiffer((n % TWO_56) as real, n as real, p as real);
  }

  lemma QuotientsDiffer(a: real, b: real, p: real)
    requires p > 0.0
    ensures a / p == b / p <==> a == b
  {
    assert (a / p) * p == a && (b / p) * p == b;
  }
}
