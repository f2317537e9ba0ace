/** The string operations that the driver takes from its libraries: splitting at a
    separator, joining, trimming, and cutting a token at its first `=`. */
module Text {
  datatype Option<+T> = None | Some(value: T) {
    function GetOr(default: T): T {
      if Some? then value else default
    }
  }

  // ---- Splitting and joining

  ghost predicate Free(s: string, sep: char) {
    sep !in s
  }

  ghost predicate AllFree(parts: seq<string>, sep: char) {
    forall i | 0 <= i < |parts| :: Free(parts[i], sep)
  }

  /** Splits without merging adjacent separators: n separators give n + 1 parts, and the
      empty string gives one empty part. */
  function Split(s: string, sep: char): (parts: seq<string>)
    ensures |parts| >= 1
  {
    if s == "" then [""]
    else
      var rest := Split(s[1..], sep);
      if s[0] == sep then [""] + rest
      else [[s[0]] + rest[0]] + rest[1..]
  }

  function Join(parts: seq<string>, sep: char): string {
    if parts == [] then ""
    else if |parts| == 1 then parts[0]
    else parts[0] + [sep] + Join(parts[1..], sep)
  }

  lemma {:induction false} JoinOfSplit(s: string, sep: char)
    ensures Join(Split(s, sep), sep) == s
  {
    if s != "" {
      JoinOfSplit(s[1..], sep);
      var rest := Split(s[1..], sep);
      if s[0] == sep {
        assert ([""] + rest)[1..] == rest;
      } else {
        var parts := [[s[0]] + rest[0]] + rest[1..];
        assert parts[1..] == rest[1..];
        if |rest| > 1 {
          assert Join(parts, sep) == [s[0]] + (rest[0] + [sep] + Join(rest[1..], sep));
        }
      }
    }
  }

  lemma {:induction false} SplitPartsAreFree(s: string, sep: char)
    ensures AllFree(Split(s, sep), sep)
  {
    if s != "" {
      SplitPartsAreFree(s[1..], sep);
    }
  }

  lemma {:induction false} SplitOfFree(s: string, sep: char)
    requires Free(s, sep)
    ensures Split(s, sep) == [s]
  {
    if s != "" {
      assert s[0] in s;
      SplitOfFree(s[1..], sep);
      assert s == [s[0]] + s[1..];
    }
  }

  lemma {:induction false} SplitOfConcat(a: string, b: string, sep: char)
    ensures Split(a + [sep] + b, sep) == Split(a, sep) + Split(b, sep)
  {
    var s := a + [sep] + b;
    if a == "" {
      assert s[1..] == b;
    } else {
      assert s[1..] == a[1..] + [sep] + b;
      SplitOfConcat(a[1..], b, sep);
    }
  }

  /** Splitting undoes joining exactly when no part contains the separator. */
  lemma {:induction false} SplitOfJoin(parts: seq<string>, sep: char)
    requires |parts| >= 1
    ensures Split(Join(parts, sep), sep) == parts <==> AllFree(parts, sep)
  {
    SplitPartsAreFree(Join(parts, sep), sep);
    if AllFree(parts, sep) {
      SplitOfJoinFree(parts, sep);
    }
  }

  lemma {:induction false} SplitOfJoinFree(parts: seq<string>, sep: char)
    requires |parts| >= 1 && AllFree(parts, sep)
    ensures Split(Join(parts, sep), sep) == parts
  {
    SplitOfFree(parts[0], sep);
    if |parts| > 1 {
      SplitOfJoinFree(parts[1..], sep);
      SplitOfConcat(parts[0], Join(parts[1..], sep), sep);
    }
  }

  /** Every part followed by the separator. */
  function Terminate(parts: seq<string>, sep: char): string {
    if parts == [] then "" else parts[0] + [sep] + Terminate(parts[1..], sep)
  }

  lemma {:induction false} SplitOfTerminate(parts: seq<string>, sep: char)
    requires AllFree(parts, sep)
    ensures Split(Terminate(parts, sep), sep) == parts + [""]
  {
    if parts != [] {
      SplitOfTerminate(parts[1..], sep);
      SplitOfFree(parts[0], sep);
      SplitOfConcat(parts[0], Terminate(parts[1..], sep), sep);
    }
  }

  lemma {:induction false} TerminateOneMore(parts: seq<string>, part: string, sep: char)
    ensures Terminate(parts + [part], sep) == Terminate(parts, sep) + part + [sep]
  {
    if parts != [] {
      assert (parts + [part])[1..] == parts[1..] + [part];
      TerminateOneMore(parts[1..], part, sep);
    }
  }

  function EraseAll(s: string, c: char): string {
    if s == "" then "" else (if s[0] == c then "" else [s[0]]) + EraseAll(s[1..], c)
  }

  /** No occurrence is left, every other character stays, and that in its order: text before and
      after is erased on its own. */
  lemma ErasedIsFree(s: string, c: char)
    ensures Free(EraseAll(s, c), c)
  {
  }

  lemma EraseOne(x: char, c: char)
    ensures EraseAll([x], c) == if x == c then "" else [x]
  {
  }

  lemma {:induction false} EraseConcat(a: string, b: string, c: char)
    ensures EraseAll(a + b, c) == EraseAll(a, c) + EraseAll(b, c)
  {
    if a == "" {
      assert a + b == b;
    } else {
      assert (a + b)[1..] == a[1..] + b;
      EraseConcat(a[1..], b, c);
    }
  }

  function Mapped<A, B>(s: seq<A>, f: A -> B): (r: seq<B>)
    ensures |r| == |s| && forall i | 0 <= i < |s| :: r[i] == f(s[i])
  {
    seq(|s|, i requires 0 <= i < |s| => f(s[i]))
  }

  lemma MappedOneMore<A, B>(s: seq<A>, f: A -> B)
    requires s != []
    ensures Mapped(s, f) == Mapped(s[..|s| - 1], f) + [f(s[|s| - 1])]
  {
  }

  function Concat(parts: seq<string>): string {
    if parts == [] then "" else parts[0] + Concat(parts[1..])
  }

  lemma {:induction false} ConcatOneMore(parts: seq<string>, part: string)
    ensures Concat(parts + [part]) == Concat(parts) + part
  {
    if parts != [] {
      assert (parts + [part])[1..] == parts[1..] + [part];
      ConcatOneMore(parts[1..], part);
    }
  }

  // ---- key=value tokens

  function IndexOf(s: string, c: char): (i: nat)
    ensures i <= |s|
    ensures c !in s[..i]
    ensures i < |s| ==> s[i] == c
  {
    if s == "" || s[0] == c then 0 else 1 + IndexOf(s[1..], c)
  }

  lemma {:induction false} IndexOfFirst(s: string, c: char, n: nat)
    requires n < |s| && s[n] == c && Free(s[..n], c)
    ensures IndexOf(s, c) == n
  {
    if n > 0 {
      assert s[0] == s[..n][0];
      assert s[1..][..n - 1] == s[..n][1..];
      IndexOfFirst(s[1..], c, n - 1);
    }
  }

  /** Cuts at the first `=`. Without one the position is `npos`, which the callers pass on to
      `substr` both as a length and, plus one, as a start: key and value are then both the
      whole token. */
  function Cut(token: string): (string, string) {
    var i := IndexOf(token, '=');
    if i < |token| then (token[..i], token[i + 1..]) else (token, token)
  }

  lemma IndexOfAfterFree(key: string, rest: string, c: char)
    requires Free(key, c)
    ensures IndexOf(key + [c] + rest, c) == |key|
  {
    assert (key + [c] + rest)[..|key|] == key;
    IndexOfFirst(key + [c] + rest, c, |key|);
  }

  lemma CutOfPair(key: string, value: string)
    requires Free(key, '=')
    ensures Cut(key + "=" + value) == (key, value)
  {
    IndexOfAfterFree(key, value, '=');
    var token := key + "=" + value;
    assert token[..|key|] == key && token[|key| + 1..] == value;
  }

  // ---- Characters

  /** `std::isspace` in the C locale. */
  predicate IsSpace(c: char) {
    c == ' ' || '\t' <= c <= '\r'
  }

  function TrimLeft(s: string): string {
    if s != "" && IsSpace(s[0]) then TrimLeft(s[1..]) else s
  }

  function TrimRight(s: string): string {
    if s != "" && IsSpace(s[|s| - 1]) then TrimRight(s[..|s| - 1]) else s
  }

  function Trim(s: string): string {
    TrimRight(TrimLeft(s))
  }

  lemma {:induction false} TrimLeftIs(s: string)
    ensures |TrimLeft(s)| <= |s| && TrimLeft(s) == s[|s| - |TrimLeft(s)|..]
    ensures forall i | 0 <= i < |s| - |TrimLeft(s)| :: IsSpace(s[i])
    ensures TrimLeft(s) != "" ==> !IsSpace(TrimLeft(s)[0])
  {
    if s != "" && IsSpace(s[0]) {
      TrimLeftIs(s[1..]);
      assert forall i | 1 <= i < |s| - |TrimLeft(s)| :: s[i] == s[1..][i - 1];
    }
  }

  lemma {:induction false} TrimRightIs(s: string)
    ensures TrimRight(s) <= s
    ensures forall i | |TrimRight(s)| <= i < |s| :: IsSpace(s[i])
    ensures TrimRight(s) != "" ==> !IsSpace(TrimRight(s)[|TrimRight(s)| - 1])
  {
    if s != "" && IsSpace(s[|s| - 1]) {
      TrimRightIs(s[..|s| - 1]);
    }
  }

  /** What trimming leaves stands between two stretches of white space, and neither starts nor
      ends with any. */
  lemma TrimIs(s: string) returns (before: string, after: string)
    ensures s == before + Trim(s) + after && (AllSpace(before) == true) && (AllSpace(after) == true)
    ensures Trim(s) != "" ==> !IsSpace(Trim(s)[0]) && !IsSpace(Trim(s)[|Trim(s)| - 1])
  {
    var left := TrimLeft(s);
    TrimLeftIs(s);
    TrimRightIs(left);
    before, after := s[..|s| - |left|], left[|Trim(s)|..];
    ThreeParts(s, left, TrimRight(left));
    SpacesAre(before);
    SpacesAre(after);
  }

  lemma ThreeParts(s: string, left: string, middle: string)
    requires |left| <= |s| && left == s[|s| - |left|..] && middle <= left
    ensures s == s[..|s| - |left|] + middle + left[|middle|..]
  {
    assert s == s[..|s| - |left|] + left && left == middle + left[|middle|..];
  }

  lemma SpacesAre(s: string)
    requires forall i | 0 <= i < |s| :: IsSpace(s[i])
    ensures AllSpace(s)
  {
  }

  lemma BlankIs(s: string)
    ensures Trim(s) == "" <==> AllSpace(s)
  {
    var before, after := TrimIs(s);
    if Trim(s) == "" {
      assert s == before + after;
    } else {
      assert s[|before|] == Trim(s)[0];
    }
  }

  ghost predicate AllSpace(s: string) {
    forall i | 0 <= i < |s| :: s[i] in {' ', '\t', '\n', '\U{000b}', '\U{000c}', '\r'}
  }

  predicate IsDigit(c: char) {
    '0' <= c <= '9'
  }

  function DigitValue(c: char): (d: nat)
    requires IsDigit(c)
    ensures d < 10
  {
    c as int - '0' as int
  }

  function DigitChar(d: nat): (c: char)
    requires d < 10
    ensures IsDigit(c) && DigitValue(c) == d
  {
    ('0' as int + d) as char
  }

  predicate AllDigits(s: string) {
    forall i | 0 <= i < |s| :: IsDigit(s[i])
  }

  /** The decimal number that a run of digits writes. */
  function Number(s: string): nat
    requires AllDigits(s)
  {
    if s == "" then 0 else 10 * Number(s[..|s| - 1]) + DigitValue(s[|s| - 1])
  }

  /** What is left of a string that went through a C string: all up to its first NUL. */
  function CText(s: string): string {
    s[..IndexOf(s, '\0')]
  }

  lemma CTextOfFree(s: string)
    ensures CText(s) == s <==> Free(s, '\0')
  {
    assert s == s[..IndexOf(s, '\0')] + s[IndexOf(s, '\0')..];
  }
}
