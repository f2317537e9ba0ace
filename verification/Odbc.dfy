/** What the driver shares with the applications that call it: return codes, the C structures
    that values are delivered in, and the memory that the applications lend for that. */
module Odbc {

  datatype ReturnCode = Success | SuccessWithInfo | NoData | Error | InvalidHandle

  /** `SQL_NULL_DATA`, reported instead of a length for a null value. */
  const NULL_DATA := -1

  datatype Exception = DateTimeFormat | DataTranslation | MissingTranslator | OutOfRange

  // ---- C data types (Appendix D of the ODBC Programmer's Reference)

  const SQL_DATE_LEN := 10
  const SQL_TIME_LEN := 8
  const SQL_TIMESTAMP_LEN := 19
  const SQL_MAX_NUMERIC_LEN := 16
  const SIZEOF_NUMERIC_STRUCT := 19

  datatype DateStruct = DateStruct(year: nat, month: nat, day: nat)

  datatype TimeStruct = TimeStruct(hour: nat, minute: nat, second: nat)

  datatype TimestampStruct = TimestampStruct(date: DateStruct, time: TimeStruct, fraction: nat)

  /** `sign` is 1 for positive and 0 for negative; `val` is little-endian. */
  datatype NumericStruct = NumericStruct(precision: nat, scale: nat, sign: nat, val: seq<nat>)

  datatype Structs = Structs(date: DateStruct, time: TimeStruct, timestamp: TimestampStruct,
                             numeric: NumericStruct)

  // ---- Application memory

  /** A place for one length or indicator, the target of an `SQLLEN*`. */
  class Cell {
    var value: int

    constructor () {
      value := 0;
    }
  }

  /** The target of an `SQLPOINTER`: characters and bytes go to `bytes`, every other type to
      its C structure. */
  class Area {
    const bytes: array<char>
    var structs: Structs

    constructor (bytes: array<char>, structs: Structs)
      ensures this.bytes == bytes && this.structs == structs
    {
      this.bytes := bytes;
      this.structs := structs;
    }
  }

  method SetResultSize(resultSize: Cell?, value: int)
    modifies resultSize
    ensures resultSize != null ==> resultSize.value == value
  {
    if resultSize != null {
      resultSize.value := value;
    }
  }

  function Footprint(target: Area?): set<object> {
    if target == null then {} else {target, target.bytes}
  }

  /** The target holds what is announced; a negative length announces no limit, because the
      copying functions take it as a `size_t`. */
  predicate HasRoom(target: array<char>, length: int, data: string) {
    if length < 0 then |data| < target.Length else length <= target.Length
  }

  /** An integer cut to a 16-bit one, in two's complement. */
  function Int16(n: int): (r: int)
    ensures -0x8000 <= r < 0x8000
    ensures r == n <==> -0x8000 <= n < 0x8000
  {
    var low := n % 0x1_0000;
    if low < 0x8000 then low else low - 0x1_0000
  }

  /** A 64-bit integer cut to a 32-bit one, in two's complement. */
  function Int32(n: int): (r: int)
    ensures -0x8000_0000 <= r < 0x8000_0000
    ensures r == n <==> -0x8000_0000 <= n < 0x8000_0000
  {
    var low := n % 0x1_0000_0000;
    if low < 0x8000_0000 then low else low - 0x1_0000_0000
  }

  /** Cutting takes away a multiple of 2^16, or of 2^32. */
  lemma CutModulo(n: int)
    ensures var q := n / 0x1_0000; Int16(n) == n - 0x1_0000 * q || Int16(n) == n - 0x1_0000 * (q + 1)
    ensures var q := n / 0x1_0000_0000; Int32(n) == n - 0x1_0000_0000 * q || Int32(n) == n - 0x1_0000_0000 * (q + 1)
  {
  }
}
