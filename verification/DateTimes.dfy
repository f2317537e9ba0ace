/** The date, time and timestamp workers: each takes its fields from the first place in the
    text at which its shape matches. */
module DateTimes {
  import opened Text
  import opened Odbc

  // ---- Shapes

  predicate DigitsAt(s: string, i: nat, n: nat) {
    i + n <= |s| && AllDigits(s[i..i + n])
  }

  predicate CharAt(s: string, i: nat, c: char) {
    i < |s| && s[i] == c
  }

  /** dddd-dd-dd */
  predicate DateAt(s: string, i: nat) {
    DigitsAt(s, i, 4) && CharAt(s, i + 4, '-') && DigitsAt(s, i + 5, 2)
    && CharAt(s, i + 7, '-') && DigitsAt(s, i + 8, 2)
  }

  /** dd:dd:dd */
  predicate TimeAt(s: string, i: nat) {
    DigitsAt(s, i, 2) && CharAt(s, i + 2, ':') && DigitsAt(s, i + 3, 2)
    && CharAt(s, i + 5, ':') && DigitsAt(s, i + 6, 2)
  }

  /** .ddd */
  predicate FractionAt(s: string, i: nat) {
    CharAt(s, i, '.') && DigitsAt(s, i + 1, 3)
  }

  /** The position after an optional blank and an optional `T`, each taken when present. */
  function AfterSeparator(s: string, i: nat): nat {
    var j := if i < |s| && IsSpace(s[i]) then i + 1 else i;
    if CharAt(s, j, 'T') then j + 1 else j
  }

  /** Every way in which a backtracking matcher may get past the optional blank and the
      optional `T` to a time of day. */
  ghost predicate SeparatorMatch(s: string, i: nat, blank: bool, tee: bool) {
    (blank ==> i < |s| && IsSpace(s[i]))
    && var j := if blank then i + 1 else i;
    (tee ==> CharAt(s, j, 'T'))
    && TimeAt(s, if tee then j + 1 else j)
  }

  /** The greedy choice is the only one that can reach a time of day, so a backtracking
      search cannot end anywhere else. */
  lemma SeparatorIsForced(s: string, i: nat)
    ensures TimeAt(s, AfterSeparator(s, i)) <==>
            exists blank, tee :: SeparatorMatch(s, i, blank, tee)
    ensures forall blank, tee :: SeparatorMatch(s, i, blank, tee) ==>
              AfterSeparator(s, i) == i + (if blank then 1 else 0) + (if tee then 1 else 0)
  {
    forall blank, tee | SeparatorMatch(s, i, blank, tee)
      ensures AfterSeparator(s, i) == i + (if blank then 1 else 0) + (if tee then 1 else 0)
    {
      var k := i + (if blank then 1 else 0) + (if tee then 1 else 0);
      assert TimeAt(s, k);
      assert s[k..k + 2][0] == s[k] && IsDigit(s[k]);
    }
    if TimeAt(s, AfterSeparator(s, i)) {
      var blank := i < |s| && IsSpace(s[i]);
      var j := if blank then i + 1 else i;
      assert SeparatorMatch(s, i, blank, CharAt(s, j, 'T'));
    }
  }

  // ---- Searching

  function FindDate(s: string, from: nat := 0): (r: Option<nat>)
    requires from <= |s|
    ensures r.Some? ==> from <= r.value && DateAt(s, r.value)
                        && forall j | from <= j < r.value :: !DateAt(s, j)
    ensures r.None? ==> forall j | from <= j :: !DateAt(s, j)
    decreases |s| - from
  {
    if DateAt(s, from) then Some(from)
    else if from == |s| then None
    else FindDate(s, from + 1)
  }

  function FindTime(s: string, from: nat := 0): (r: Option<nat>)
    requires from <= |s|
    ensures r.Some? ==> from <= r.value && TimeAt(s, r.value)
                        && forall j | from <= j < r.value :: !TimeAt(s, j)
    ensures r.None? ==> forall j | from <= j :: !TimeAt(s, j)
    decreases |s| - from
  {
    if TimeAt(s, from) then Some(from)
    else if from == |s| then None
    else FindTime(s, from + 1)
  }

  // ---- Fields

  function Field(s: string, i: nat, n: nat): nat
    requires DigitsAt(s, i, n)
  {
    Number(s[i..i + n])
  }

  function DateFields(s: string, i: nat): DateStruct
    requires DateAt(s, i)
  {
    DateStruct(Field(s, i, 4), Field(s, i + 5, 2), Field(s, i + 8, 2))
  }

  function TimeFields(s: string, i: nat): TimeStruct
    requires TimeAt(s, i)
  {
    TimeStruct(Field(s, i, 2), Field(s, i + 3, 2), Field(s, i + 6, 2))
  }

  /** A missing time of day or fraction counts as zero; a fraction is stored as the three
      digits written, unscaled. */
  function TimestampFields(s: string, i: nat): TimestampStruct
    requires DateAt(s, i)
  {
    var t := AfterSeparator(s, i + 10);
    if TimeAt(s, t) then
      TimestampStruct(DateFields(s, i), TimeFields(s, t),
                      if FractionAt(s, t + 8) then Field(s, t + 9, 3) else 0)
    else
      TimestampStruct(DateFields(s, i), TimeStruct(0, 0, 0), 0)
  }

  // ---- Workers

  predicate Blank(s: string) {
    Trim(s) == ""
  }

  const ZERO_DATE := DateStruct(0, 0, 0)

  method TranslateDate(data: string, target: Area, resultSize: Cell?)
    returns (thrown: Option<Exception>)
    modifies target`structs, resultSize
    ensures thrown == if Blank(data) || FindDate(data).Some? then None else Some(DateTimeFormat)
    ensures target.structs == if Blank(data) || FindDate(data).None? then old(target.structs)
                              else old(target.structs).(date := DateFields(data, FindDate(data).value))
    ensures resultSize != null ==>
              resultSize.value == if Blank(data) || FindDate(data).None?
                                     || DateFields(data, FindDate(data).value) == ZERO_DATE
                                  then NULL_DATA else SQL_DATE_LEN
  {
    if data == "" || Trim(data) == "" {
      SetResultSize(resultSize, NULL_DATA);
      return None;
    }
    var found := FindDate(data);
    if found.None? {
      SetResultSize(resultSize, NULL_DATA);
      return Some(DateTimeFormat);
    }
    var date := DateFields(data, found.value);
    target.structs := target.structs.(date := date);
    // 0000-00-00, as one server sends it, stands for a null.
    if date.year == 0 && date.month == 0 && date.day == 0 {
      SetResultSize(resultSize, NULL_DATA);
      return None;
    }
    SetResultSize(resultSize, SQL_DATE_LEN);
    return None;
  }

  method TranslateTimestamp(data: string, target: Area, resultSize: Cell?)
    returns (thrown: Option<Exception>)
    modifies target`structs, resultSize
    ensures thrown == if Blank(data) || FindDate(data).Some? then None else Some(DateTimeFormat)
    ensures target.structs ==
            if Blank(data) || FindDate(data).None? then old(target.structs)
            else old(target.structs).(timestamp := TimestampFields(data, FindDate(data).value))
    ensures resultSize != null ==>
              resultSize.value == if Blank(data) || FindDate(data).None?
                                  then NULL_DATA else SQL_TIMESTAMP_LEN
  {
    if data == "" || Trim(data) == "" {
      SetResultSize(resultSize, NULL_DATA);
      return None;
    }
    var found := FindDate(data);
    if found.None? {
      SetResultSize(resultSize, NULL_DATA);
      return Some(DateTimeFormat);
    }
    target.structs := target.structs.(timestamp := TimestampFields(data, found.value));
    SetResultSize(resultSize, SQL_TIMESTAMP_LEN);
    return None;
  }

  method TranslateTime(data: string, target: Area, resultSize: Cell?)
    returns (thrown: Option<Exception>)
    modifies target`structs, resultSize
    ensures thrown == if Blank(data) || FindTime(data).Some? then None else Some(DateTimeFormat)
    ensures target.structs == if Blank(data) || FindTime(data).None? then old(target.structs)
                              else old(target.structs).(time := TimeFields(data, FindTime(data).value))
    ensures resultSize != null ==>
              resultSize.value == if Blank(data) || FindTime(data).None?
                                  then NULL_DATA else SQL_TIME_LEN
  {
    if data == "" || Trim(data) == "" {
      SetResultSize(resultSize, NULL_DATA);
      return None;
    }
    var found := FindTime(data);
    if found.None? {
      SetResultSize(resultSize, NULL_DATA);
      return Some(DateTimeFormat);
    }
    target.structs := target.structs.(time := TimeFields(data, found.value));
    SetResultSize(resultSize, SQL_TIME_LEN);
    return None;
  }

  // ---- Formatting, the inverse

  /** The last `width` decimal digits of n. */
  function Pad(n: nat, width: nat): (s: string)
    ensures |s| == width && AllDigits(s)
  {
    if width == 0 then "" else Pad(n / 10, width - 1) + [DigitChar(n % 10)]
  }

  function Pow10(n: nat): (p: nat)
    ensures p >= 1
  {
    if n == 0 then 1 else 10 * Pow10(n - 1)
  }

  lemma {:induction false} NumberOfPad(n: nat, width: nat)
    requires n < Pow10(width)
    ensures Number(Pad(n, width)) == n
  {
    if width > 0 {
      NumberOfPad(n / 10, width - 1);
      NumberOfLast(Pad(n / 10, width - 1), n % 10);
    }
  }

  lemma NumberOfLast(s: string, d: nat)
    requires AllDigits(s) && d < 10
    ensures AllDigits(s + [DigitChar(d)])
    ensures Number(s + [DigitChar(d)]) == 10 * Number(s) + d
  {
    assert (s + [DigitChar(d)])[..|s|] == s;
  }

  function FormatDate(d: DateStruct): string {
    Pad(d.year, 4) + "-" + Pad(d.month, 2) + "-" + Pad(d.day, 2)
  }

  function FormatTime(t: TimeStruct): string {
    Pad(t.hour, 2) + ":" + Pad(t.minute, 2) + ":" + Pad(t.second, 2)
  }

  /** YYYY-MM-DDThh:mm:ss.sss */
  function FormatTimestamp(t: TimestampStruct): string {
    FormatDate(t.date) + "T" + FormatTime(t.time) + "." + Pad(t.fraction, 3)
  }

  predicate DateInRange(d: DateStruct) {
    d.year < 10000 && d.month < 100 && d.day < 100
  }

  predicate TimeInRange(t: TimeStruct) {
    t.hour < 100 && t.minute < 100 && t.second < 100
  }

  /** Text written by FormatDate is read back wherever it stands. */
  lemma DateReadsBack(before: string, d: DateStruct, after: string)
    requires DateInRange(d)
    ensures var s := before + FormatDate(d) + after;
            DateAt(s, |before|) && DateFields(s, |before|) == d
  {
    var s, i := before + FormatDate(d) + after, |before|;
    NumberOfPad(d.year, 4);
    NumberOfPad(d.month, 2);
    NumberOfPad(d.day, 2);
    assert s[i..i + 4] == Pad(d.year, 4);
    assert s[i + 5..i + 7] == Pad(d.month, 2);
    assert s[i + 8..i + 10] == Pad(d.day, 2);
    assert s[i + 4] == '-' && s[i + 7] == '-';
  }

  lemma TimeReadsBack(before: string, t: TimeStruct, after: string)
    requires TimeInRange(t)
    ensures var s := before + FormatTime(t) + after;
            TimeAt(s, |before|) && TimeFields(s, |before|) == t
  {
    var s, i := before + FormatTime(t) + after, |before|;
    NumberOfPad(t.hour, 2);
    NumberOfPad(t.minute, 2);
    NumberOfPad(t.second, 2);
    assert s[i..i + 2] == Pad(t.hour, 2);
    assert s[i + 3..i + 5] == Pad(t.minute, 2);
    assert s[i + 6..i + 8] == Pad(t.second, 2);
    assert s[i + 2] == ':' && s[i + 5] == ':';
  }

  /** Searching a formatted date finds it at once and gives the date back. */
  lemma DateRoundTrip(d: DateStruct, after: string)
    requires DateInRange(d)
    ensures var s := FormatDate(d) + after;
            FindDate(s) == Some(0) && DateFields(s, 0) == d && !Blank(s)
  {
    DateReadsBack("", d, after);
    assert "" + FormatDate(d) + after == FormatDate(d) + after;
    NotBlank(FormatDate(d) + after);
  }

  lemma TimeRoundTrip(t: TimeStruct, after: string)
    requires TimeInRange(t)
    ensures var s := FormatTime(t) + after;
            FindTime(s) == Some(0) && TimeFields(s, 0) == t && !Blank(s)
  {
    TimeReadsBack("", t, after);
    assert "" + FormatTime(t) + after == FormatTime(t) + after;
    NotBlank(FormatTime(t) + after);
  }

  /** A time of day after the `T`, whatever follows it, is read with its date. */
  lemma DateAndTimeReadBack(d: DateStruct, t: TimeStruct, after: string)
    requires DateInRange(d) && TimeInRange(t)
    ensures var s := FormatDate(d) + "T" + FormatTime(t) + after;
            FindDate(s) == Some(0) && DateAt(s, 0) && DateFields(s, 0) == d && !Blank(s)
            && AfterSeparator(s, 10) == 11 && TimeAt(s, 11) && TimeFields(s, 11) == t
  {
    var s := FormatDate(d) + "T" + FormatTime(t) + after;
    assert s == FormatDate(d) + ("T" + FormatTime(t) + after);
    DateRoundTrip(d, "T" + FormatTime(t) + after);
    TimeReadsBack(FormatDate(d) + "T", t, after);
    assert s[10] == 'T';
  }

  /** The worker inverts YYYY-MM-DDThh:mm:ss.sss. */
  lemma TimestampRoundTrip(t: TimestampStruct)
    requires DateInRange(t.date) && TimeInRange(t.time) && t.fraction < 1000
    ensures var s := FormatTimestamp(t);
            FindDate(s) == Some(0) && TimestampFields(s, 0) == t && !Blank(s)
  {
    var s, fraction := FormatTimestamp(t), "." + Pad(t.fraction, 3);
    assert s == FormatDate(t.date) + "T" + FormatTime(t.time) + fraction;
    DateAndTimeReadBack(t.date, t.time, fraction);
    NumberOfPad(t.fraction, 3);
    assert s[20..23] == Pad(t.fraction, 3) && s[19] == '.';
  }

  /** Without its fraction, or without its time of day, the text reads as if that were zero. */
  lemma ShortTimestampRoundTrip(d: DateStruct, t: TimeStruct)
    requires DateInRange(d) && TimeInRange(t)
    ensures var s := FormatDate(d) + "T" + FormatTime(t);
            FindDate(s) == Some(0) && TimestampFields(s, 0) == TimestampStruct(d, t, 0)
    ensures var s := FormatDate(d);
            FindDate(s) == Some(0)
            && TimestampFields(s, 0) == TimestampStruct(d, TimeStruct(0, 0, 0), 0)
  {
    DateAndTimeReadBack(d, t, "");
    assert FormatDate(d) + "T" + FormatTime(t) + "" == FormatDate(d) + "T" + FormatTime(t);
    DateRoundTrip(d, "");
    assert FormatDate(d) + "" == FormatDate(d);
  }

  // ---- Characters and shapes

  ghost predicate DigitIn(s: string, i: nat) {
    i < |s| && '0' <= s[i] <= '9'
  }

  lemma DigitsAre(s: string, i: nat, n: nat)
    ensures DigitsAt(s, i, n) <==> i + n <= |s| && forall k: nat | i <= k < i + n :: DigitIn(s, k)
  {
    if i + n <= |s| {
      var part := s[i..i + n];
      assert forall k: nat | i <= k < i + n :: part[k - i] == s[k];
      if forall k: nat | i <= k < i + n :: DigitIn(s, k) {
        forall k: nat | k < n ensures IsDigit(part[k]) {
          assert DigitIn(s, i + k);
        }
      }
    }
  }

  lemma DateShape(s: string, i: nat)
    ensures DateAt(s, i) <==>
            i + 10 <= |s| && s[i + 4] == '-' && s[i + 7] == '-'
            && forall k: nat | i <= k < i + 10 && k != i + 4 && k != i + 7 :: DigitIn(s, k)
  {
    DigitsAre(s, i, 4);
    DigitsAre(s, i + 5, 2);
    DigitsAre(s, i + 8, 2);
  }

  lemma TimeShape(s: string, i: nat)
    ensures TimeAt(s, i) <==>
            i + 8 <= |s| && s[i + 2] == ':' && s[i + 5] == ':'
            && forall k: nat | i <= k < i + 8 && k != i + 2 && k != i + 5 :: DigitIn(s, k)
  {
    DigitsAre(s, i, 2);
    DigitsAre(s, i + 3, 2);
    DigitsAre(s, i + 6, 2);
  }

  lemma FractionShape(s: string, i: nat)
    ensures FractionAt(s, i) <==>
            i + 4 <= |s| && s[i] == '.' && DigitIn(s, i + 1) && DigitIn(s, i + 2) && DigitIn(s, i + 3)
  {
    DigitsAre(s, i + 1, 3);
  }

  lemma PadOfTwo(n: nat)
    requires n < 100
    ensures Pad(n, 2) == [DigitChar(n / 10), DigitChar(n % 10)]
  {
    var tens := n / 10;
    assert Pad(tens, 1) == Pad(tens / 10, 0) + [DigitChar(tens % 10)] == [DigitChar(tens)];
    assert Pad(n, 2) == Pad(tens, 1) + [DigitChar(n % 10)];
  }

  lemma PadOfThree(n: nat)
    requires n < 1000
    ensures Pad(n, 3) == [DigitChar(n / 100), DigitChar(n / 10 % 10), DigitChar(n % 10)]
  {
    PadOfTwo(n / 10);
    assert n / 10 / 10 == n / 100;
  }

  lemma PadOfFour(n: nat)
    requires n < 10000
    ensures Pad(n, 4) == [DigitChar(n / 1000), DigitChar(n / 100 % 10), DigitChar(n / 10 % 10), DigitChar(n % 10)]
  {
    var rest := n / 10;
    PadOfThree(rest);
    assert rest / 100 == n / 1000 && rest / 10 == n / 100;
    assert Pad(n, 4) == Pad(rest, 3) + [DigitChar(n % 10)];
  }

  /** How dates and times are written, character by character: year, month and day; hour, minute and
      second. */
  lemma DateWritten(d: DateStruct)
    requires DateInRange(d)
    ensures FormatDate(d) ==
            [DigitChar(d.year / 1000), DigitChar(d.year / 100 % 10), DigitChar(d.year / 10 % 10),
             DigitChar(d.year % 10), '-', DigitChar(d.month / 10), DigitChar(d.month % 10), '-',
             DigitChar(d.day / 10), DigitChar(d.day % 10)]
  {
    PadOfFour(d.year);
    PadOfTwo(d.month);
    PadOfTwo(d.day);
  }

  lemma TimeWritten(t: TimeStruct)
    requires TimeInRange(t)
    ensures FormatTime(t) ==
            [DigitChar(t.hour / 10), DigitChar(t.hour % 10), ':',
             DigitChar(t.minute / 10), DigitChar(t.minute % 10), ':',
             DigitChar(t.second / 10), DigitChar(t.second % 10)]
  {
    PadOfTwo(t.hour);
    PadOfTwo(t.minute);
    PadOfTwo(t.second);
  }

  /** The fraction that a text writes after its seconds, in billionths of a second. */
  function WrittenBillionths(s: string, i: nat): nat
    requires FractionAt(s, i)
  {
    Field(s, i + 1, 3) * 1_000_000
  }

  lemma NumberOfThree(s: string)
    requires |s| == 3 && AllDigits(s)
    ensures Number(s) == 100 * DigitValue(s[0]) + 10 * DigitValue(s[1]) + DigitValue(s[2])
  {
    assert s[..2][..1] == [s[0]] && [s[0]][..0] == "";
    assert Number(s[..2]) == 10 * Number([s[0]]) + DigitValue(s[1]);
  }

  /** The fraction field counts billionths of a second, but is filled with the three digits as
      they are: it says what the text writes exactly when they are 000. */
  lemma FractionIsUnscaled(s: string, i: nat)
    requires DateAt(s, i) && TimeAt(s, AfterSeparator(s, i + 10)) && FractionAt(s, AfterSeparator(s, i + 10) + 8)
    ensures var point := AfterSeparator(s, i + 10) + 8;
            TimestampFields(s, i).fraction == WrittenBillionths(s, point) <==> s[point + 1..point + 4] == "000"
  {
    var point := AfterSeparator(s, i + 10) + 8;
    var digits := s[point + 1..point + 4];
    NumberOfThree(digits);
    assert digits == [digits[0], digits[1], digits[2]];
  }

  lemma NotBlank(s: string)
    requires s != "" && IsDigit(s[0])
    ensures !Blank(s)
  {
    TrimRightKeeps(s);
  }

  lemma {:induction false} TrimRightKeeps(s: string)
    requires s != "" && !IsSpace(s[0])
    ensures TrimRight(s) != ""
  {
    if |s| > 1 {
      TrimRightKeeps(s[..|s| - 1]);
    }
  }
}
