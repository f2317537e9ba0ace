/** The position within the column that `SQLGetData` is handing out, and the two workers that
    move it: characters and binary. Each has a second mode, without a position, for bound
    columns. */
module Streaming {
  import opened Text
  import opened Odbc

  datatype Status = NoDataRetrieved | HasMoreData | NoMoreData

  datatype Stream = Stream(column: nat, status: Status, offset: nat)

  const FRESH := Stream(0, NoDataRetrieved, 0)

  datatype Worker = Character | Binary

  function Min(a: int, b: int): int {
    if a < b then a else b
  }

  // ---- One read

  /** Whether a streaming call reaches its copy: the character worker keeps one byte for the
      terminating NUL and skips the copy when nothing is left. */
  predicate Copies(w: Worker, length: int, hasTarget: bool) {
    hasTarget && (w.Character? ==> length - 1 > 0)
  }

  /** How much `std::string::copy` takes when `available` is left. */
  function Take(w: Worker, length: int, available: nat): (n: nat)
    requires w.Character? ==> length - 1 > 0
    ensures n <= available
  {
    var room := if w.Character? then length - 1 else length;
    if room < 0 then available else Min(room, available)
  }

  /** Where the copy starts; the binary worker holds the offset in a 32-bit `int`. */
  function Start(w: Worker, offset: nat): int {
    if w.Character? then offset else Int32(offset)
  }

  /** The outcome of one call of a worker with a position: the bytes copied into the target,
      the length reported, the new position, or an exception that leaves all as it was. */
  datatype Read = Read(stream: Stream, copied: string, reported: Option<int>, thrown: Option<Exception>)

  function ReadStream(w: Worker, data: string, s: Stream, length: int, hasTarget: bool): Read {
    if data == "" then
      Read(s, "", Some(NULL_DATA), None)
    else if !Copies(w, length, hasTarget) then
      Read(Advanced(data, s, 0), "", Some(|data| - s.offset), None)
    else
      var start := Start(w, s.offset);
      if start < 0 || start > |data| then
        Read(s, "", None, Some(OutOfRange))
      else
        var n := Take(w, length, |data| - start);
        Read(Advanced(data, s, n), data[start..start + n], Some(|data| - s.offset), None)
  }

  function Advanced(data: string, s: Stream, n: nat): Stream {
    s.(offset := s.offset + n, status := if s.offset + n >= |data| then NoMoreData else HasMoreData)
  }

  // ---- What a read leaves in the target

  /** The bytes copied, then what was there; the character worker puts its NUL into the last
      byte of the buffer, wherever the data ends. */
  function StreamedImage(w: Worker, before: seq<char>, copied: string, length: int): (image: seq<char>)
    requires |copied| <= |before|
    requires w.Character? ==> 0 < length <= |before| && |copied| < length
    ensures |image| == |before|
  {
    var written := copied + before[|copied|..];
    if w.Character? then written[length - 1 := '\0'] else written
  }

  /** The target after a read with a position. */
  function ReadInto(w: Worker, data: string, length: int, s: Stream, before: seq<char>): (image: seq<char>)
    requires if length < 0 then |data| < |before| else length <= |before|
    ensures |image| == |before|
  {
    var r := ReadStream(w, data, s, length, true);
    if data == "" || !Copies(w, length, true) || r.thrown.Some? then before
    else StreamedImage(w, before, r.copied, length)
  }

  /** A read without a position: the characters that fit and a NUL right after them, or the
      bytes that fit. */
  function BoundCount(w: Worker, data: string, length: int): (n: nat)
    ensures n <= |data|
  {
    if length < 0 then |data|
    else if w.Binary? then Min(length, |data|)
    else if length == 0 then 0
    else Min(length - 1, |data|)
  }

  function BoundImage(w: Worker, before: seq<char>, data: string, length: int): (image: seq<char>)
    requires if length < 0 then |data| < |before| else length <= |before|
    ensures |image| == |before|
  {
    var n := BoundCount(w, data, length);
    if data == "" || (w.Character? && length == 0) then before
    else if w.Character? then data[..n] + ['\0'] + before[n + 1..]
    else data[..n] + before[n..]
  }

  function BoundReported(w: Worker, data: string, length: int, hasTarget: bool): int {
    if data == "" then NULL_DATA
    else if hasTarget then BoundCount(w, data, length)
    else 0
  }

  // ---- The classes

  class DataStreamInfo {
    var column: nat
    var status: Status
    var offset: nat

    function View(): Stream
      reads this
    {
      Stream(column, status, offset)
    }

    constructor ()
      ensures View() == FRESH
    {
      column, status, offset := 0, NoDataRetrieved, 0;
    }

    method Reset()
      modifies this
      ensures View() == FRESH
    {
      column, status, offset := 0, NoDataRetrieved, 0;
    }
  }

  /** `std::string::copy`: fails past the end, else copies what there is up to `n`. */
  method CopyOut(data: string, dest: array<char>, n: int, pos: int) returns (copied: Option<nat>)
    requires 0 <= pos <= |data| ==> (if n < 0 then |data| - pos else Min(n, |data| - pos)) <= dest.Length
    modifies dest
    ensures copied.None? <==> pos < 0 || pos > |data|
    ensures copied.None? ==> dest[..] == old(dest[..])
    ensures copied.Some? ==>
              copied.value == (if n < 0 then |data| - pos else Min(n, |data| - pos))
              && dest[..] == data[pos..pos + copied.value] + old(dest[..])[copied.value..]
  {
    if pos < 0 || pos > |data| {
      return None;
    }
    var size: nat := if n < 0 then |data| - pos else Min(n, |data| - pos);
    forall i | 0 <= i < size {
      dest[i] := data[pos + i];
    }
    return Some(size);
  }

  /** The bounded copy that terminates the copied text. */
  method CopyString(src: string, dest: array?<char>, length: int) returns (size: nat)
    requires dest != null ==> HasRoom(dest, length, src)
    modifies dest
    ensures dest == null ==> size == 0
    ensures dest != null ==> size == BoundCount(Character, src, length)
    ensures dest != null && length != 0 ==>
              dest[..] == src[..size] + ['\0'] + old(dest[..])[size + 1..]
    ensures dest != null && length == 0 ==> dest[..] == old(dest[..])
  {
    if dest == null || length == 0 {
      return 0;
    }
    var copied := CopyOut(src, dest, length, 0);
    size := copied.value;
    ghost var copy := dest[..];
    if length > 0 && size >= length {
      dest[length - 1] := '\0';
      size := length - 1;
    } else {
      dest[size] := '\0';
    }
    assert copy[..size] == src[..size] && copy[size + 1..] == old(dest[..])[size + 1..];
    assert dest[..] == copy[size := '\0'];
    assert dest[..] == dest[..size] + ['\0'] + dest[size + 1..];
  }

  /** The end of a streaming call: the position moves on by what was copied, and what was left
      before it is reported. */
  method Advance(data: string, size: nat, streamInfo: DataStreamInfo) returns (remaining: int)
    modifies streamInfo
    ensures streamInfo.View() == Advanced(data, old(streamInfo.View()), size)
    ensures remaining == |data| - old(streamInfo.offset)
  {
    remaining := |data| - streamInfo.offset;
    streamInfo.offset := streamInfo.offset + size;
    streamInfo.status := if streamInfo.offset >= |data| then NoMoreData else HasMoreData;
  }

  method StreamCharacter(data: string, target: array?<char>, targetLen: int, streamInfo: DataStreamInfo)
    returns (size: int, thrown: Option<Exception>)
    requires data != ""
    requires target != null ==> HasRoom(target, targetLen, data)
    modifies target, streamInfo
    ensures var r := ReadStream(Character, data, old(streamInfo.View()), targetLen, target != null);
            streamInfo.View() == r.stream && thrown == r.thrown && (thrown.None? ==> r.reported == Some(size))
    ensures target != null ==>
              target[..] == ReadInto(Character, data, targetLen, old(streamInfo.View()), old(target[..]))
  {
    // One off for the terminating NUL.
    var adjTargetLen := targetLen - 1;
    var copied := Some(0);
    if target != null && adjTargetLen > 0 {
      copied := CopyOut(data, target, adjTargetLen, streamInfo.offset);
      if copied.None? {
        return 0, Some(OutOfRange);
      }
      target[adjTargetLen] := '\0';
    }
    size := Advance(data, copied.value, streamInfo);
    thrown := None;
  }

  method StreamBinary(data: string, target: array?<char>, targetLen: int, streamInfo: DataStreamInfo)
    returns (size: int, thrown: Option<Exception>)
    requires data != ""
    requires target != null ==> HasRoom(target, targetLen, data)
    modifies target, streamInfo
    ensures var r := ReadStream(Binary, data, old(streamInfo.View()), targetLen, target != null);
            streamInfo.View() == r.stream && thrown == r.thrown && (thrown.None? ==> r.reported == Some(size))
    ensures target != null ==>
              target[..] == ReadInto(Binary, data, targetLen, old(streamInfo.View()), old(target[..]))
  {
    var offset := Int32(streamInfo.offset);
    var copied := Some(0);
    if target != null {
      copied := CopyOut(data, target, targetLen, offset);
      if copied.None? {
        return 0, Some(OutOfRange);
      }
    }
    size := Advance(data, copied.value, streamInfo);
    thrown := None;
  }

  method TranslateCharacter(data: string, target: array?<char>, targetLen: int, resultSize: Cell?,
                            streamInfo: DataStreamInfo?)
    returns (thrown: Option<Exception>)
    requires target != null ==> HasRoom(target, targetLen, data)
    modifies target, resultSize, streamInfo
    ensures streamInfo != null ==>
              var r := ReadStream(Character, data, old(streamInfo.View()), targetLen, target != null);
              && streamInfo.View() == r.stream && thrown == r.thrown
              && (resultSize != null ==> resultSize.value == r.reported.GetOr(old(resultSize.value)))
              && (target != null ==>
                    target[..] == ReadInto(Character, data, targetLen, old(streamInfo.View()), old(target[..])))
    ensures streamInfo == null ==>
              && thrown.None?
              && (resultSize != null ==>
                    resultSize.value == BoundReported(Character, data, targetLen, target != null))
              && (target != null ==> target[..] == BoundImage(Character, old(target[..]), data, targetLen))
  {
    thrown := None;
    var size := NULL_DATA;
    if data != "" {
      if streamInfo != null {
        size, thrown := StreamCharacter(data, target, targetLen, streamInfo);
        if thrown.Some? {
          return;
        }
      } else {
        size := CopyString(data, target, targetLen);
      }
    }
    SetResultSize(resultSize, size);
  }

  method TranslateBinary(data: string, target: array?<char>, targetLen: int, resultSize: Cell?,
                         streamInfo: DataStreamInfo?)
    returns (thrown: Option<Exception>)
    requires target != null ==> HasRoom(target, targetLen, data)
    modifies target, resultSize, streamInfo
    ensures streamInfo != null ==>
              var r := ReadStream(Binary, data, old(streamInfo.View()), targetLen, target != null);
              && streamInfo.View() == r.stream && thrown == r.thrown
              && (resultSize != null ==> resultSize.value == r.reported.GetOr(old(resultSize.value)))
              && (target != null ==>
                    target[..] == ReadInto(Binary, data, targetLen, old(streamInfo.View()), old(target[..])))
    ensures streamInfo == null ==>
              && thrown.None?
              && (resultSize != null ==>
                    resultSize.value == BoundReported(Binary, data, targetLen, target != null))
              && (target != null ==> target[..] == BoundImage(Binary, old(target[..]), data, targetLen))
  {
    thrown := None;
    var size := NULL_DATA;
    if data != "" {
      if streamInfo != null {
        size, thrown := StreamBinary(data, target, targetLen, streamInfo);
        if thrown.Some? {
          return;
        }
      } else if target != null {
        var copied := CopyOut(data, target, targetLen, 0);
        size := copied.value;
      } else {
        size := 0;
      }
    }
    SetResultSize(resultSize, size);
  }
}
