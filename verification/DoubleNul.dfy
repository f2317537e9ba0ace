/** Lists of strings in one block of memory: a NUL after each string, and one more NUL after
    the last. The installer hands such lists to the two parsers. */
module DoubleNul {
  import opened Text

  function Encode(list: seq<string>): string {
    if list == [] then ['\0'] else list[0] + ['\0'] + Encode(list[1..])
  }

  /** Strings that such a list can hold. */
  ghost predicate Encodable(list: seq<string>) {
    forall i | 0 <= i < |list| :: list[i] != "" && Free(list[i], '\0')
  }

  /** Walking the memory string by string ends at an empty one before the memory does. */
  ghost predicate Terminated(memory: string) {
    memory != ""
    && (memory[0] != '\0' ==>
          var len := IndexOf(memory, '\0');
          len < |memory| && Terminated(memory[len + 1..]))
  }

  /** The strings up to the first empty one. */
  ghost function Decode(memory: string): seq<string>
    requires Terminated(memory)
  {
    if memory[0] == '\0' then []
    else
      var len := IndexOf(memory, '\0');
      [memory[..len]] + Decode(memory[len + 1..])
  }

  /** `strlen`: the distance to the next NUL. */
  method StrLen(memory: string, i: nat) returns (len: nat)
    requires i <= |memory| && '\0' in memory[i..]
    ensures len == IndexOf(memory[i..], '\0') < |memory[i..]|
  {
    len := 0;
    while memory[i + len] != '\0'
      invariant i + len < |memory| && Free(memory[i..i + len], '\0')
      invariant '\0' in memory[i + len..]
      decreases |memory| - len
    {
      assert memory[i + len..] == [memory[i + len]] + memory[i + len + 1..];
      assert memory[i..i + len + 1] == memory[i..i + len] + [memory[i + len]];
      len := len + 1;
    }
    assert memory[i..][..len] == memory[i..i + len];
    IndexOfFirst(memory[i..], '\0', len);
  }

  lemma IndexOfIn(s: string, c: char)
    ensures IndexOf(s, c) < |s| <==> c in s
  {
    assert s[..|s|] == s;
  }

  /** Takes the string at i out of the memory and steps over its NUL. */
  method TakeString(memory: string, i: nat) returns (s: string, next: nat)
    requires i < |memory| && Terminated(memory[i..]) && memory[i] != '\0'
    ensures i < next < |memory| && Terminated(memory[next..])
    ensures Decode(memory[i..]) == [s] + Decode(memory[next..])
  {
    ghost var rest := memory[i..];
    IndexOfIn(rest, '\0');
    var len := StrLen(memory, i);
    s := memory[i..i + len];
    next := i + len + 1;
    assert s == rest[..len] && memory[next..] == rest[len + 1..];
  }

  method Drivers2Vector(drivers: string) returns (drvvector: seq<string>)
    requires Terminated(drivers)
    ensures drvvector == Decode(drivers)
  {
    drvvector := [];
    var i := 0;
    assert drivers[0..] == drivers;
    while drivers[i] != '\0'
      invariant i < |drivers| && Terminated(drivers[i..])
      invariant drvvector + Decode(drivers[i..]) == Decode(drivers)
      decreases |drivers| - i
    {
      var drv, next := TakeString(drivers, i);
      drvvector := drvvector + [drv];
      i := next;
    }
  }

  /** The pairs done are entered and the others are left. */
  ghost predicate EnteredSoFar(attmap: map<string, string>, done: seq<string>, left: seq<string>, all: seq<string>) {
    attmap == MapOf(done) && done + left == all
  }

  lemma EnterNext(attmap: map<string, string>, done: seq<string>, pair: string, left: seq<string>, all: seq<string>)
    requires EnteredSoFar(attmap, done, [pair] + left, all) == true
    ensures EnteredSoFar(Entered(attmap, pair), done + [pair], left, all) == true
  {
    MapOfSnoc(done, pair);
    assert done + ([pair] + left) == done + [pair] + left;
  }

  lemma AllEntered(attmap: map<string, string>, done: seq<string>, all: seq<string>)
    requires EnteredSoFar(attmap, done, [], all) == true
    ensures attmap == MapOf(all)
  {
    assert done + [] == done;
  }

  method Att2Map(attributes: string) returns (attmap: map<string, string>)
    requires Terminated(attributes)
    ensures attmap == MapOf(Decode(attributes))
  {
    attmap := map[];
    var i := 0;
    assert attributes[0..] == attributes;
    ghost var all, done: seq<string> := Decode(attributes[0..]), [];
    assert done + all == all;
    while attributes[i] != '\0'
      invariant i < |attributes| && Terminated(attributes[i..])
      invariant EnteredSoFar(attmap, done, Decode(attributes[i..]), all) == true
      decreases |attributes| - i
    {
      var pair, next := TakeString(attributes, i);
      EnterNext(attmap, done, pair, Decode(attributes[next..]), all);
      attmap := Entered(attmap, pair);
      done := done + [pair];
      i := next;
    }
    AllEntered(attmap, done, all);
  }

  function Entered(m: map<string, string>, pair: string): map<string, string> {
    var (key, value) := Cut(pair);
    m[key := value]
  }

  /** The map that the pairs leave when they are entered one after the other. */
  function MapOf(pairs: seq<string>): map<string, string> {
    if pairs == [] then map[] else Entered(MapOf(pairs[..|pairs| - 1]), pairs[|pairs| - 1])
  }

  lemma MapOfSnoc(pairs: seq<string>, pair: string)
    ensures MapOf(pairs + [pair]) == Entered(MapOf(pairs), pair)
  {
    assert (pairs + [pair])[..|pairs|] == pairs;
  }

  // ---- Round trips

  /** What an encoded list decodes to, whatever follows it in memory. */
  lemma {:induction false} DecodeOfEncode(list: seq<string>, after: string)
    requires Encodable(list)
    ensures Terminated(Encode(list) + after)
    ensures Decode(Encode(list) + after) == list
  {
    var memory := Encode(list) + after;
    if list != [] {
      var rest := Encode(list[1..]) + after;
      assert memory == list[0] + ['\0'] + rest;
      IndexOfAfterFree(list[0], rest, '\0');
      assert memory[0] == list[0][0] && list[0][0] in list[0];
      assert memory[..|list[0]|] == list[0] && memory[|list[0]| + 1..] == rest;
      DecodeOfEncode(list[1..], after);
    }
  }

  /** And back: the memory starts with the encoding of the list decoded, which is encodable. */
  lemma {:induction false} EncodeOfDecode(memory: string)
    requires Terminated(memory)
    ensures Encodable(Decode(memory)) && Encode(Decode(memory)) <= memory
  {
    if memory[0] != '\0' {
      var len := IndexOf(memory, '\0');
      var first, rest := memory[..len], memory[len + 1..];
      EncodeOfDecode(rest);
      assert memory == first + ['\0'] + rest;
      PrependFirst(first, Decode(rest), rest, memory);
    }
  }

  lemma PrependFirst(first: string, list: seq<string>, rest: string, memory: string)
    requires first != "" && Free(first, '\0') && Encodable(list) && Encode(list) <= rest
    requires memory == first + ['\0'] + rest
    ensures Encodable([first] + list) && Encode([first] + list) <= memory
  {
    assert ([first] + list)[1..] == list;
    assert rest == Encode(list) + rest[|Encode(list)|..];
  }

  /** An encoded list as it stands in memory, and two pairs that an attribute list leaves. */
  lemma EncodedPair(s: string, t: string)
    ensures Encode([s, t]) == s + "\0" + t + "\0" + "\0"
  {
    assert [s, t][1..] == [t] && [t][1..] == [];
    assert Encode([t]) == t + "\0" + "\0";
    assert Encode([s, t]) == s + "\0" + Encode([t]);
  }

  lemma PairEntered(m: map<string, string>, key: string, value: string)
    requires Free(key, '=')
    ensures Entered(m, key + "=" + value) == m[key := value]
  {
    CutOfPair(key, value);
  }

  /** Pair i is the last one with its key. */
  ghost predicate IsLast(pairs: seq<string>, key: string, i: int) {
    0 <= i < |pairs| && Cut(pairs[i]).0 == key && forall j | i < j < |pairs| :: Cut(pairs[j]).0 != key
  }

  lemma {:induction false} LastWins(pairs: seq<string>, key: string)
    ensures key !in MapOf(pairs) ==> forall i | 0 <= i < |pairs| :: Cut(pairs[i]).0 != key
    ensures key in MapOf(pairs) ==> exists i :: IsLast(pairs, key, i) && MapOf(pairs)[key] == Cut(pairs[i]).1
  {
    if pairs != [] {
      var last := |pairs| - 1;
      if Cut(pairs[last]).0 == key {
        assert IsLast(pairs, key, last);
      } else {
        LastWins(pairs[..last], key);
        if key in MapOf(pairs) {
          var i :| IsLast(pairs[..last], key, i) && MapOf(pairs[..last])[key] == Cut(pairs[i]).1;
          assert IsLast(pairs, key, i);
        }
        forall i | key !in MapOf(pairs) && 0 <= i < |pairs| ensures Cut(pairs[i]).0 != key {
          assert i < last ==> pairs[..last][i] == pairs[i];
        }
      }
    }
  }

  /** The attribute map of an encoded list has exactly the keys of its pairs, each with the value
      of its last pair, cut at the first `=`. */
  lemma AttributesLastWin(list: seq<string>, after: string, key: string)
    requires Encodable(list)
    ensures Terminated(Encode(list) + after)
    ensures var attmap := MapOf(Decode(Encode(list) + after));
            && (key !in attmap ==> forall i | 0 <= i < |list| :: Cut(list[i]).0 != key)
            && (key in attmap ==> exists i :: IsLast(list, key, i) && attmap[key] == Cut(list[i]).1)
  {
    DecodeOfEncode(list, after);
    LastWins(list, key);
  }
}
