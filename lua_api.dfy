/**
 * The guards of the script API: how each call checks its argument count,
 * its arguments and the range it touches before any data is accessed, and
 * the byte swaps a big-endian write applies to the values it collects.
 * A call that passes its guards yields the access it asks of the open file.
 */
module ScriptApi {
  import opened Bytes

  // ------------------------------------------------------------ values

  /**
   * A Lua value as the API sees it. Argument `n` of a call is `args[n - 1]`;
   * a table is given by its values in the order the traversal visits them.
   */
  datatype Arg = Nil | Boolean(b: bool) | Integer(i: int) | Str(s: string) | Table(values: seq<Arg>)

  /** The errors a call raises, named after their message keys. */
  datatype Error =
    | WrongNumberOfArguments
    | BadArgument
    | OutOfBounds
    | BitIndexInvalid
    | NotAValidType
    | OutOfSpace
    | CannotAllocateSpace
    | DoesNotExist

  datatype Result<T> = Ok(value: T) | Err(error: Error)
  {
    predicate IsFailure()
    {
      Err?
    }

    function PropagateFailure<U>(): Result<U>
      requires Err?
    {
      Err(error)
    }

    function Extract(): T
      requires Ok?
    {
      value
    }
  }

  /** What a call that passed its guards does with the open file. */
  datatype Access =
    | ReadValues(offs: u32, count: u32, width: Width, bigEndian: bool)
    | ReadBitAt(offs: u32, bit: nat)
    | ReadNibble(offs: u32, first: bool)
    | WriteValues(offs: u32, width: Width, values: seq<bv32>)
    | WriteBitAt(offs: u32, bit: nat, on: bool)
    | WriteNibble(offs: u32, first: bool, value: nat)
    | Dump(offs: u32, size: u32, path: string)
    | Inject(offs: u32, data: seq<byte>)
    | NoAccess

  /** A Lua integer stored in a `uint32_t`: it wraps around. */
  function ToU32(x: int): (r: u32)
    ensures 0 <= x < U32_LIMIT ==> r == x
    ensures x < 0 && -U32_LIMIT <= x ==> r == x + U32_LIMIT
    ensures x >= U32_LIMIT && x < 2 * U32_LIMIT ==> r == x - U32_LIMIT
  {
    x % 0x1_0000_0000
  }

  /** A Lua integer stored in a `uint8_t`. */
  function ToU8(x: int): (r: nat)
    ensures r < 0x100
    ensures 0 <= x < 0x100 ==> r == x
  {
    x % 0x100
  }

  // ------------------------------------------------------------ coercions

  /** The range of a Lua integer (`lua_Integer`, 64 bits). */
  predicate IsLuaInteger(x: int)
  {
    -0x8000_0000_0000_0000 <= x < 0x8000_0000_0000_0000
  }

  /** Whether `s` is made of decimal digits only. */
  predicate AllDigits(s: string)
  {
    forall k :: 0 <= k < |s| ==> '0' <= s[k] <= '9'
  }

  /** The number a string of decimal digits denotes. */
  function DigitsValue(s: string): nat
    requires AllDigits(s)
  {
    if s == [] then 0
    else DigitsValue(s[..|s| - 1]) * 10 + ((s[|s| - 1] as int) - ('0' as int))
  }

  /**
   * The integer a string converts to: an optional sign, then one or more
   * decimal digits, within the range of a Lua integer.
   */
  function Numeral(s: string): (r: Option<int>)
    ensures r.Some? ==> IsLuaInteger(r.value)
  {
    var neg := |s| > 0 && s[0] == '-';
    var body := if |s| > 0 && (s[0] == '-' || s[0] == '+') then s[1..] else s;
    if body == [] || !AllDigits(body) then None
    else
      var v: int := if neg then 0 - DigitsValue(body) as int else DigitsValue(body);
      if IsLuaInteger(v) then Some(v) else None
  }

  /** The decimal digits of `n`, without leading zeros. */
  function Digits(n: nat): string
  {
    if n < 10 then [(('0' as int) + n) as char]
    else Digits(n / 10) + [(('0' as int) + n % 10) as char]
  }

  /** How Lua writes an integer as a string: a '-' for negatives, then the digits. */
  function DecimalText(x: int): string
  {
    if x < 0 then "-" + Digits(-x) else Digits(x)
  }

  /** The digits of `n` denote `n`. */
  lemma {:induction false} DigitsDenote(n: nat)
    ensures |Digits(n)| > 0 && AllDigits(Digits(n)) && DigitsValue(Digits(n)) == n
  {
    if n >= 10 {
      DigitsDenote(n / 10);
      var d := Digits(n);
      assert d[..|d| - 1] == Digits(n / 10);
    }
  }

  /** An integer written as a string converts back to the same integer. */
  lemma DecimalRoundTrip(x: int)
    requires IsLuaInteger(x)
    ensures Numeral(DecimalText(x)) == Some(x)
  {
    var n := if x < 0 then -x else x;
    DigitsDenote(n);
    if x < 0 {
      assert DecimalText(x)[1..] == Digits(n);
    }
  }

  /**
   * The integer `luaL_checkinteger` and `lua_tointeger` obtain from a value:
   * an integer is itself, a string is converted when it is a numeral, and
   * nothing else has one.
   */
  function IntegerOf(a: Arg): Option<int>
  {
    match a
    case Integer(i) => Some(i)
    case Str(s) => Numeral(s)
    case _ => None
  }

  /** Whether a value is accepted where an integer is expected. */
  predicate IsInteger(a: Arg)
  {
    IntegerOf(a).Some?
  }

  /** The integer an accepted value stands for. */
  function IntValue(a: Arg): int
    requires IsInteger(a)
  {
    IntegerOf(a).value
  }

  /** The string `luaL_checkstring` obtains: a string is itself, an integer is written in decimal. */
  function StringOf(a: Arg): Option<string>
  {
    match a
    case Str(s) => Some(s)
    case Integer(i) => Some(DecimalText(i))
    case _ => None
  }

  /** Whether a value is accepted where a string is expected. */
  predicate IsString(a: Arg)
  {
    StringOf(a).Some?
  }

  /** The string an accepted value stands for. */
  function TextOf(a: Arg): string
    requires IsString(a)
  {
    StringOf(a).value
  }

  /** `luaL_checkinteger` on argument `k + 1`, stored in a `uint32_t`. */
  function CheckU32(args: seq<Arg>, k: nat): (r: Result<u32>)
    requires k < |args|
    ensures r.Ok? <==> IsInteger(args[k])
    ensures r.Ok? ==> r.value == ToU32(IntValue(args[k]))
    ensures args[k].Integer? ==> r == Ok(ToU32(args[k].i))
  {
    if IsInteger(args[k]) then Ok(ToU32(IntValue(args[k]))) else Err(BadArgument)
  }

  /** `luaL_checkstring` on argument `k + 1`. */
  function CheckString(args: seq<Arg>, k: nat): (r: Result<string>)
    requires k < |args|
    ensures r.Ok? <==> args[k].Str? || args[k].Integer?
    ensures args[k].Str? ==> r == Ok(args[k].s)
    ensures args[k].Integer? ==> r == Ok(DecimalText(args[k].i))
  {
    if IsString(args[k]) then Ok(TextOf(args[k])) else Err(BadArgument)
  }

  /** `lua_toboolean`: only nil and false are false. */
  predicate ToBoolean(a: Arg)
  {
    !(a.Nil? || a == Boolean(false))
  }

  /** `lua_tointeger`: an integer or a numeral is its value, anything else 0. */
  function ToInteger(a: Arg): int
  {
    if IsInteger(a) then IntValue(a) else 0
  }

  /**
   * A numeric string is as good as the integer: `Read("16", 2)` reads what
   * `Read(16, 2)` reads, and a number given as a path is used as its digits.
   */
  lemma NumeralArguments(x: int, k: nat, args: seq<Arg>)
    requires IsLuaInteger(x) && k < |args| && args[k] == Integer(x)
    ensures CheckU32(args[k := Str(DecimalText(x))], k) == CheckU32(args, k)
    ensures CheckString(args, k) == Ok(DecimalText(x))
  {
    DecimalRoundTrip(x);
  }

  /** The element type a type string names: "uint8_t"/"u8", "uint16_t"/"u16", "uint32_t"/"u32". */
  function TypeOf(name: string): (w: Option<Width>)
    ensures name == "u8" || name == "uint8_t" <==> w == Some(U8)
    ensures name == "u16" || name == "uint16_t" <==> w == Some(U16)
    ensures name == "u32" || name == "uint32_t" <==> w == Some(U32)
  {
    if name == "uint8_t" || name == "u8" then Some(U8)
    else if name == "uint16_t" || name == "u16" then Some(U16)
    else if name == "uint32_t" || name == "u32" then Some(U32)
    else None
  }

  // ------------------------------------------------------------ range guards

  /**
   * The offset a range guard compares with the file's size, in `uint32_t`:
   * for `uint8_t` the end of the range (one past its last byte), for the
   * wider types its last byte.
   */
  function Reaches(offs: nat, count: nat, w: Width): u32
  {
    if w == U8 then ToU32(offs + count) else ToU32(offs + count * w.Size() - 1)
  }

  /** The sum in a range guard does not wrap around. */
  predicate NoWrap(offs: nat, count: nat, w: Width)
  {
    if w == U8 then offs + count < U32_LIMIT else 0 < offs + count * w.Size() <= U32_LIMIT
  }

  /**
   * Every byte of the range lies in the file; for `uint8_t` the range also
   * stops short of the file's last byte.
   */
  predicate Fits(offs: nat, count: nat, w: Width, size: nat)
  {
    if w == U8 then offs + count < size else offs + count * w.Size() <= size
  }

  /** Where the sum does not wrap, the guard lets through exactly the ranges that fit. */
  lemma ReachesFits(offs: nat, count: nat, w: Width, size: u32)
    requires NoWrap(offs, count, w)
    ensures Reaches(offs, count, w) < size <==> Fits(offs, count, w, size)
  {
  }

  // ------------------------------------------------------------ Read

  /**
   * `Read(offs, count[, type[, bigEndian]])`: two to four arguments, the
   * type defaulting to `uint8_t` and the order to little endian; the range
   * guard is checked before anything is read.
   */
  function ReadRequest(args: seq<Arg>, size: u32): (r: Result<Access>)
    ensures !(2 <= |args| <= 4) ==> r == Err(WrongNumberOfArguments)
    ensures r.Ok? ==> r.value.ReadValues? && Reaches(r.value.offs, r.value.count, r.value.width) < size
    ensures r.Ok? ==> IsInteger(args[0]) && IsInteger(args[1])
    ensures r.Ok? ==> r.value.offs == ToU32(IntValue(args[0])) && r.value.count == ToU32(IntValue(args[1]))
    ensures r.Ok? && |args| == 2 ==> r.value.width == U8
    ensures r.Ok? && |args| < 4 ==> !r.value.bigEndian
    ensures 3 <= |args| <= 4 && IsInteger(args[0]) && IsInteger(args[1]) && IsString(args[2]) && TypeOf(TextOf(args[2])).None? ==>
      r == Err(NotAValidType)
  {
    if !(2 <= |args| <= 4) then Err(WrongNumberOfArguments)
    else
      var offs :- CheckU32(args, 0);
      var count :- CheckU32(args, 1);
      var name :- if |args| >= 3 then CheckString(args, 2) else Ok("uint8_t");
      var bigEndian := |args| == 4 && ToBoolean(args[3]);
      if TypeOf(name).None? then Err(NotAValidType)
      else
        var w := TypeOf(name).value;
        if Reaches(offs, count, w) >= size then Err(OutOfBounds)
        else Ok(ReadValues(offs, count, w, bigEndian))
  }

  /** A read that passes its guard, where the sum does not wrap, lies in the file. */
  lemma ReadWithinFile(args: seq<Arg>, size: u32)
    requires ReadRequest(args, size).Ok?
    requires var a := ReadRequest(args, size).value; NoWrap(a.offs, a.count, a.width)
    ensures var a := ReadRequest(args, size).value; Fits(a.offs, a.count, a.width, size)
  {
    var a := ReadRequest(args, size).value;
    ReachesFits(a.offs, a.count, a.width, size);
  }

  /** With well-formed arguments and no wrap-around, a read is granted exactly when its range fits. */
  lemma ReadBounds(offs: u32, count: u32, name: string, bigEndian: bool, size: u32)
    requires TypeOf(name).Some? && NoWrap(offs, count, TypeOf(name).value)
    ensures var r := ReadRequest([Integer(offs), Integer(count), Str(name), Boolean(bigEndian)], size);
      r.Ok? <==> Fits(offs, count, TypeOf(name).value, size)
    ensures var r := ReadRequest([Integer(offs), Integer(count), Str(name), Boolean(bigEndian)], size);
      r.Err? ==> r.error == OutOfBounds
  {
    ReachesFits(offs, count, TypeOf(name).value, size);
  }

  /**
   * The same bytes up to the end of the file: as `uint8_t` values they are
   * refused, as `uint16_t` values they are granted.
   */
  lemma ReadToEndOfFile(offs: u32, count: u32, size: u32)
    requires 0 < count && offs + 2 * count == size
    ensures ReadRequest([Integer(offs), Integer(2 * count), Str("u8")], size) == Err(OutOfBounds)
    ensures ReadRequest([Integer(offs), Integer(count), Str("u16")], size) == Ok(ReadValues(offs, count, U16, false))
  {
    assert TypeOf("u8") == Some(U8) && TypeOf("u16") == Some(U16);
  }

  /** An empty `uint16_t` read at offset 0 is refused whatever the file's size: the guard wraps to 0xFFFFFFFF. */
  lemma ReadEmptyAtStart(size: u32)
    ensures ReadRequest([Integer(0), Integer(0), Str("u16")], size) == Err(OutOfBounds)
  {
    assert TypeOf("u16") == Some(U16);
  }

  /**
   * A `uint16_t` read at offset 0xFFFFFFFF of a 16-byte file: the guard's
   * sum wraps to 0 and the read is granted, far past the end of the file.
   */
  lemma ReadRangeWraps()
    ensures ReadRequest([Integer(0xFFFF_FFFF), Integer(1), Str("u16")], 0x10) == Ok(ReadValues(0xFFFF_FFFF, 1, U16, false))
  {
    assert TypeOf("u16") == Some(U16);
  }

  /**
   * The table a granted read returns: element `i` of what was read under
   * key `i`, counting from 0. When the stack has no room the call fails.
   */
  method Read(args: seq<Arg>, size: u32, fetched: seq<int>, stackOk: bool) returns (r: Result<map<int, int>>)
    ensures ReadRequest(args, size).Err? ==> r == Err(ReadRequest(args, size).error)
    ensures ReadRequest(args, size).Ok? && !stackOk ==> r == Err(OutOfSpace)
    ensures ReadRequest(args, size).Ok? && stackOk ==>
      && r.Ok?
      && (forall i :: i in r.value <==> 0 <= i < |fetched|)
      && forall i :: 0 <= i < |fetched| ==> r.value[i] == fetched[i]
  {
    var req := ReadRequest(args, size);
    if req.Err? {
      return Err(req.error);
    }
    if !stackOk {
      return Err(OutOfSpace);
    }
    var table: map<int, int> := map[];
    var idx := 0;
    while idx < |fetched|
      invariant 0 <= idx <= |fetched|
      invariant forall i :: i in table <==> 0 <= i < idx
      invariant forall i :: 0 <= i < idx ==> table[i] == fetched[i]
    {
      table := table[idx := fetched[idx]];
      idx := idx + 1;
    }
    r := Ok(table);
  }

  // ------------------------------------------------------------ Write

  /** `x` with its two low bytes exchanged, in `uint16_t`. */
  function Swap16(x: bv32): bv32
  {
    ((x >> 8) | (x << 8)) & 0xFFFF
  }

  /** `x` with its four bytes reversed, in `uint32_t`. */
  function Swap32(x: bv32): bv32
  {
    (x >> 24) | ((x << 8) & 0x00FF_0000) | ((x >> 8) & 0x0000_FF00) | (x << 24)
  }

  /** Swapping a `uint16_t` twice gives it back. */
  lemma Swap16Involution(x: bv32)
    requires x <= 0xFFFF
    ensures Swap16(x) <= 0xFFFF
    ensures Swap16(Swap16(x)) == x
  {
  }

  /** Reversing a `uint32_t` twice gives it back. */
  lemma Swap32Involution(x: bv32)
    ensures Swap32(Swap32(x)) == x
  {
  }

  /** The swaps exchange the bytes: byte `k` of the result is byte `w - 1 - k` of the value. */
  lemma SwapsReverseBytes(x: bv32)
    ensures x <= 0xFFFF ==> Slice(Swap16(x), 0) == Slice(x, 8) && Slice(Swap16(x), 8) == Slice(x, 0)
    ensures x <= 0xFFFF ==> Swap16(x) <= 0xFFFF
    ensures Slice(Swap32(x), 0) == Slice(x, 24) && Slice(Swap32(x), 8) == Slice(x, 16)
    ensures Slice(Swap32(x), 16) == Slice(x, 8) && Slice(Swap32(x), 24) == Slice(x, 0)
  {
  }

  /** A Lua integer stored in an element of type `w`. */
  function Truncated(i: int, w: Width): bv32
  {
    (ToU32(i) as bv32) & w.Mask()
  }

  /**
   * The element a table value becomes: the integer stored in the element
   * type, its bytes swapped for a big-endian `uint16_t` or `uint32_t` write
   * (a `uint8_t` write ignores the order).
   */
  function Element(a: Arg, w: Width, bigEndian: bool): bv32
  {
    var t := Truncated(ToInteger(a), w);
    if bigEndian && w == U16 then Swap16(t)
    else if bigEndian && w == U32 then Swap32(t)
    else t
  }

  /** The elements collected from a table's values. */
  function Collected(values: seq<Arg>, w: Width, bigEndian: bool): (dt: seq<bv32>)
    ensures |dt| == |values|
    ensures forall k :: 0 <= k < |values| ==> dt[k] == Element(values[k], w, bigEndian)
  {
    seq(|values|, k requires 0 <= k < |values| => Element(values[k], w, bigEndian))
  }

  /**
   * A big-endian write stores, in the buffer's own little-endian order,
   * exactly the bytes of the plain value in big-endian order.
   */
  lemma BigEndianLayout(a: Arg, w: Width)
    ensures Decompose(Element(a, w, true), w, false) == Decompose(Element(a, w, false), w, true)
  {
    var t := Truncated(ToInteger(a), w);
    assert Element(a, w, false) == t;
    if w == U16 {
      assert t <= 0xFFFF;
      SwapsReverseBytes(t);
      assert Decompose(Swap16(t), w, false)[0] == Slice(t, 8);
    } else if w == U32 {
      SwapsReverseBytes(t);
      assert Decompose(Swap32(t), w, false)[0] == Slice(t, 24);
    }
  }

  /** The table argument's values: none when the second argument is not a table. */
  function TableValues(args: seq<Arg>): seq<Arg>
    requires 2 <= |args|
  {
    if args[1].Table? then args[1].values else []
  }

  /**
   * `Write(offs, table[, type[, bigEndian]])`: after the argument count and
   * the type, every table value is collected (a vector that cannot grow past
   * `capacity` elements fails the call), then the collected range is guarded
   * with the same shapes as `Read`.
   */
  function WriteRequest(args: seq<Arg>, size: u32, capacity: nat): (r: Result<Access>)
    ensures !(2 <= |args| <= 4) ==> r == Err(WrongNumberOfArguments)
    ensures r.Ok? ==> IsInteger(args[0]) && r.value.WriteValues? && r.value.offs == ToU32(IntValue(args[0]))
    ensures r.Ok? ==> Reaches(r.value.offs, |r.value.values|, r.value.width) < size
    ensures r.Ok? ==> r.value.values == Collected(TableValues(args), r.value.width, |args| == 4 && ToBoolean(args[3]))
    ensures r.Ok? && |args| == 2 ==> r.value.width == U8
    ensures 3 <= |args| <= 4 && IsInteger(args[0]) && IsString(args[2]) && TypeOf(TextOf(args[2])).None? ==>
      r == Err(NotAValidType)
    ensures 2 <= |args| <= 4 && |TableValues(args)| > capacity && r.Err? ==> r.error != OutOfBounds
  {
    if !(2 <= |args| <= 4) then Err(WrongNumberOfArguments)
    else
      var offs :- CheckU32(args, 0);
      var name :- if |args| >= 3 then CheckString(args, 2) else Ok("uint8_t");
      var bigEndian := |args| == 4 && ToBoolean(args[3]);
      if TypeOf(name).None? then Err(NotAValidType)
      else
        var w := TypeOf(name).value;
        var values := TableValues(args);
        if |values| > capacity then Err(CannotAllocateSpace)
        else if Reaches(offs, |values|, w) >= size then Err(OutOfBounds)
        else Ok(WriteValues(offs, w, Collected(values, w, bigEndian)))
  }

  /** A write that passes its guard, where the sum does not wrap, lies in the file. */
  lemma WriteWithinFile(args: seq<Arg>, size: u32, capacity: nat)
    requires WriteRequest(args, size, capacity).Ok?
    requires var a := WriteRequest(args, size, capacity).value; NoWrap(a.offs, |a.values|, a.width)
    ensures var a := WriteRequest(args, size, capacity).value; Fits(a.offs, |a.values|, a.width, size)
  {
    var a := WriteRequest(args, size, capacity).value;
    ReachesFits(a.offs, |a.values|, a.width, size);
  }

  /**
   * The collection loop: each table value is pushed as an element (swapped
   * for big endian); a push past `capacity` elements fails the call.
   */
  method Collect(values: seq<Arg>, w: Width, bigEndian: bool, capacity: nat) returns (r: Result<seq<bv32>>)
    ensures |values| > capacity ==> r == Err(CannotAllocateSpace)
    ensures |values| <= capacity ==> r == Ok(Collected(values, w, bigEndian))
  {
    var dt: seq<bv32> := [];
    var k := 0;
    while k < |values|
      invariant 0 <= k <= |values| && k <= capacity
      invariant |dt| == k
      invariant forall j :: 0 <= j < k ==> dt[j] == Element(values[j], w, bigEndian)
    {
      if |dt| == capacity {
        return Err(CannotAllocateSpace);
      }
      var e := Truncated(ToInteger(values[k]), w);
      if bigEndian && w == U16 {
        e := Swap16(e);
      } else if bigEndian && w == U32 {
        e := Swap32(e);
      }
      dt := dt + [e];
      k := k + 1;
    }
    assert dt == Collected(values, w, bigEndian);
    r := Ok(dt);
  }

  /** `Write` as the call runs it: the guards, then the collection loop, then the range guard. */
  method Write(args: seq<Arg>, size: u32, capacity: nat) returns (r: Result<Access>)
    ensures r == WriteRequest(args, size, capacity)
  {
    if !(2 <= |args| <= 4) {
      return Err(WrongNumberOfArguments);
    }
    if !IsInteger(args[0]) {
      return Err(BadArgument);
    }
    var offs := ToU32(IntValue(args[0]));
    var name := "uint8_t";
    if |args| >= 3 {
      if !IsString(args[2]) {
        return Err(BadArgument);
      }
      name := TextOf(args[2]);
    }
    var bigEndian := |args| == 4 && ToBoolean(args[3]);
    if TypeOf(name).None? {
      return Err(NotAValidType);
    }
    var w := TypeOf(name).value;
    var dt := Collect(TableValues(args), w, bigEndian, capacity);
    if dt.Err? {
      return Err(dt.error);
    }
    if Reaches(offs, |dt.value|, w) >= size {
      return Err(OutOfBounds);
    }
    r := Ok(WriteValues(offs, w, dt.value));
  }

  // ------------------------------------------------------------ bits and nibbles

  /** `ReadBit(offs, bit)`: the offset is checked before the bit index is even fetched. */
  function ReadBit(args: seq<Arg>, size: u32): (r: Result<Access>)
    ensures |args| != 2 ==> r == Err(WrongNumberOfArguments)
    ensures r.Ok? ==> r.value.ReadBitAt? && r.value.offs < size && r.value.bit <= 7
    ensures |args| == 2 && IsInteger(args[0]) && ToU32(IntValue(args[0])) >= size ==> r == Err(OutOfBounds)
    ensures |args| == 2 && IsInteger(args[0]) && ToU32(IntValue(args[0])) < size && IsInteger(args[1]) ==>
      (r.Ok? <==> ToU8(IntValue(args[1])) <= 7) && (r.Err? ==> r.error == BitIndexInvalid)
  {
    if |args| != 2 then Err(WrongNumberOfArguments)
    else
      var offs :- CheckU32(args, 0);
      if offs >= size then Err(OutOfBounds)
      else
        var bit :- if IsInteger(args[1]) then Ok(ToU8(IntValue(args[1]))) else Err(BadArgument);
        if bit > 7 then Err(BitIndexInvalid) else Ok(ReadBitAt(offs, bit))
  }

  /** `ReadBits(offs, first)`: one nibble of a byte inside the file. */
  function ReadBits(args: seq<Arg>, size: u32): (r: Result<Access>)
    ensures |args| != 2 ==> r == Err(WrongNumberOfArguments)
    ensures r.Ok? ==> r.value.ReadNibble? && r.value.offs < size && r.value.first == ToBoolean(args[1])
    ensures |args| == 2 && IsInteger(args[0]) ==> (r.Ok? <==> ToU32(IntValue(args[0])) < size)
  {
    if |args| != 2 then Err(WrongNumberOfArguments)
    else
      var offs :- CheckU32(args, 0);
      if offs >= size then Err(OutOfBounds) else Ok(ReadNibble(offs, ToBoolean(args[1])))
  }

  /** `WriteBit(offs, bit, set)`: the same checks as `ReadBit`, with a third argument. */
  function WriteBit(args: seq<Arg>, size: u32): (r: Result<Access>)
    ensures |args| != 3 ==> r == Err(WrongNumberOfArguments)
    ensures r.Ok? ==> r.value.WriteBitAt? && r.value.offs < size && r.value.bit <= 7
    ensures r.Ok? ==> r.value.on == ToBoolean(args[2])
    ensures |args| == 3 && IsInteger(args[0]) && ToU32(IntValue(args[0])) >= size ==> r == Err(OutOfBounds)
    ensures |args| == 3 && IsInteger(args[0]) && ToU32(IntValue(args[0])) < size && IsInteger(args[1]) ==>
      (r.Ok? <==> ToU8(IntValue(args[1])) <= 7) && (r.Err? ==> r.error == BitIndexInvalid)
  {
    if |args| != 3 then Err(WrongNumberOfArguments)
    else
      var offs :- CheckU32(args, 0);
      if offs >= size then Err(OutOfBounds)
      else
        var bit :- if IsInteger(args[1]) then Ok(ToU8(IntValue(args[1]))) else Err(BadArgument);
        if bit > 7 then Err(BitIndexInvalid) else Ok(WriteBitAt(offs, bit, ToBoolean(args[2])))
  }

  /** `WriteBits(offs, first, value)`: one nibble of a byte inside the file, the value taken as a `uint8_t`. */
  function WriteBits(args: seq<Arg>, size: u32): (r: Result<Access>)
    ensures |args| != 3 ==> r == Err(WrongNumberOfArguments)
    ensures r.Ok? ==> r.value.WriteNibble? && r.value.offs < size && r.value.value < 0x100
    ensures |args| == 3 && IsInteger(args[0]) && ToU32(IntValue(args[0])) >= size ==> r == Err(OutOfBounds)
    ensures |args| == 3 && IsInteger(args[0]) && ToU32(IntValue(args[0])) < size && IsInteger(args[2]) ==>
      r == Ok(WriteNibble(ToU32(IntValue(args[0])), ToBoolean(args[1]), ToU8(IntValue(args[2]))))
  {
    if |args| != 3 then Err(WrongNumberOfArguments)
    else
      var offs :- CheckU32(args, 0);
      if offs >= size then Err(OutOfBounds)
      else
        var v :- if IsInteger(args[2]) then Ok(ToU8(IntValue(args[2]))) else Err(BadArgument);
        Ok(WriteNibble(offs, ToBoolean(args[1]), v))
  }

  /** A bit index of 8 is refused even at a valid offset, and a bad offset is refused whatever the bit index. */
  lemma BitGuardsOrder(offs: u32, bit: int, size: u32)
    ensures offs >= size ==> ReadBit([Integer(offs), Integer(bit)], size) == Err(OutOfBounds)
    ensures offs >= size ==> WriteBit([Integer(offs), Integer(bit), Boolean(true)], size) == Err(OutOfBounds)
    ensures offs < size ==> ReadBit([Integer(offs), Integer(8)], size) == Err(BitIndexInvalid)
    ensures offs < size ==> ReadBit([Integer(offs), Integer(0x107)], size) == Ok(ReadBitAt(offs, 7))
  {
  }

  // ------------------------------------------------------------ files

  /**
   * `DumpBytes(offs, size, path)`: the range guard comes before the path is
   * fetched; a destination that cannot be created ends the call without an
   * error; a failed allocation raises one.
   */
  function DumpBytes(args: seq<Arg>, size: u32, canCreate: bool, allocOk: bool): (r: Result<Access>)
    ensures |args| != 3 ==> r == Err(WrongNumberOfArguments)
    ensures r.Ok? ==> IsInteger(args[0]) && IsInteger(args[1]) && IsString(args[2])
    ensures r.Ok? && r.value.Dump? ==> Add32(r.value.offs, r.value.size) < size && r.value.path == TextOf(args[2])
    ensures r.Ok? && r.value.Dump? ==> r.value.offs == ToU32(IntValue(args[0])) && r.value.size == ToU32(IntValue(args[1]))
    ensures r.Ok? ==> r.value.Dump? || r.value == NoAccess
    ensures r == Ok(NoAccess) <==>
      (|args| == 3 && IsInteger(args[0]) && IsInteger(args[1]) && IsString(args[2])
       && Add32(ToU32(IntValue(args[0])), ToU32(IntValue(args[1]))) < size && !canCreate)
  {
    if |args| != 3 then Err(WrongNumberOfArguments)
    else
      var offs :- CheckU32(args, 0);
      var n :- CheckU32(args, 1);
      if Add32(offs, n) >= size then Err(OutOfBounds)
      else
        var path :- CheckString(args, 2);
        if !canCreate then Ok(NoAccess)
        else if !allocOk then Err(CannotAllocateSpace)
        else Ok(Dump(offs, n, path))
  }

  /**
   * `InjectFile(offs, path)`: a missing source file is an error; the
   * source's length, as a `uint32_t`, is range-guarded like `DumpBytes`, and
   * that many of its bytes are written from `offs` on.
   */
  function InjectFile(args: seq<Arg>, size: u32, files: map<string, seq<byte>>, allocOk: bool): (r: Result<Access>)
    ensures |args| != 2 ==> r == Err(WrongNumberOfArguments)
    ensures |args| == 2 && IsInteger(args[0]) && IsString(args[1]) && TextOf(args[1]) !in files ==> r == Err(DoesNotExist)
    ensures r.Ok? ==> IsInteger(args[0]) && IsString(args[1]) && TextOf(args[1]) in files
    ensures r.Ok? ==> r.value.Inject? && r.value.offs == ToU32(IntValue(args[0]))
    ensures r.Ok? ==> |r.value.data| < U32_LIMIT && Add32(r.value.offs, |r.value.data|) < size
    ensures r.Ok? && |files[TextOf(args[1])]| < U32_LIMIT ==> r.value.data == files[TextOf(args[1])]
  {
    if |args| != 2 then Err(WrongNumberOfArguments)
    else
      var offs :- CheckU32(args, 0);
      var path :- CheckString(args, 1);
      if path !in files then Err(DoesNotExist)
      else
        var n := ToU32(|files[path]|);
        if Add32(offs, n) >= size then Err(OutOfBounds)
        else if !allocOk then Err(CannotAllocateSpace)
        else Ok(Inject(offs, files[path][..n]))
  }

  /** Where the sum does not wrap, a dump or an injection granted lies in the file and stops short of its last byte. */
  lemma FileRangesWithinFile(offs: u32, n: u32, size: u32)
    requires offs + n < U32_LIMIT
    ensures Add32(offs, n) < size <==> offs + n < size
  {
  }

  /** `FileSize([path])`: the open file's size, or the named file's length, -1 when it is missing. */
  function FileSize(args: seq<Arg>, size: u32, files: map<string, seq<byte>>): (r: Result<int>)
    ensures |args| > 1 ==> r == Err(WrongNumberOfArguments)
    ensures |args| == 0 ==> r == Ok(size)
    ensures |args| == 1 && IsString(args[0]) ==> r == Ok(if TextOf(args[0]) in files then |files[TextOf(args[0])]| else -1)
    ensures r.Ok? ==> r.value >= -1
  {
    if |args| > 1 then Err(WrongNumberOfArguments)
    else if |args| == 0 then Ok(size)
    else
      var path :- CheckString(args, 0);
      if path in files then Ok(|files[path]|) else Ok(-1)
  }
}
