/**
Modbus data types and byte orders, and register values on the client side
(internal/modbus/decode.go).
*/
module ModbusCodec {
  import opened Common
  import opened Bytes

  /** Any other name in a tag's configuration is treated as `Unknown`, which behaves like uint16. */
  datatype DataType = Boolean | Int16 | Uint16 | Int32 | Uint32 | Single | Double | Unknown

  /** Any other name, the empty one included, is treated as `ABCD`. */
  datatype ByteOrder = ABCD | BADC | CDAB | DCBA

  /** What a register or coil read yields; a float is kept as its IEEE bit pattern. */
  datatype Value = Int(n: int) | Bool(b: bool) | Float32(single: nat) | Float64(double: nat)

  /**
  A Go value to be written. `Number` is float32 or float64, known by the int64 it converts to and
  whether it differs from zero; `Integer` is int or int64, `Narrow` is int32, uint32 or uint16, `Json` a
  json.Number, known by what its own conversions to int64 and float64 give, and `Other` any type the
  converters refuse.
  */
  datatype GoValue =
    | Number(float: Float)
    | Integer(n: int)
    | Narrow(n: int)
    | Json(int64: Option<int>, float64: Option<Float>)
    | Truth(b: bool)
    | Other

  datatype Float = Float(whole: int, nonZero: bool)

  /** The bit patterns the language's float conversions give for a value. */
  datatype Ieee = Ieee(single: u32, double: u64)

  function RegisterCount(t: DataType): (n: nat)
    ensures n == 1 || n == 2 || n == 4
  {
    match t
    case Int32 => 2
    case Uint32 => 2
    case Single => 2
    case Double => 4
    case _ => 1
  }

  // ----- byte orders -----

  /** The input position that output position i of n is copied from; -1 where nothing is. */
  function Source(order: ByteOrder, n: nat, i: nat): (k: int)
    requires i < n
    ensures -1 <= k < n
  {
    match order
    case ABCD => i
    case BADC => if i % 2 == 1 then i - 1 else if i + 1 < n then i + 1 else -1
    case CDAB => if n == 4 then (i + 2) % 4 else if n == 8 then 6 - i / 2 * 2 + i % 2 else i
    case DCBA => n - 1 - i
  }

  /** arrangeBytes as a permutation; the odd last byte of BADC is lost. */
  function Arranged(data: seq<byte>, order: ByteOrder): (r: seq<byte>)
    ensures |r| == |data|
  {
    seq(|data|, i requires 0 <= i < |data| => var k := Source(order, |data|, i); if k < 0 then 0 else data[k])
  }

  method ArrangeBytes(data: seq<byte>, order: ByteOrder) returns (r: seq<byte>)
    ensures r == Arranged(data, order)
  {
    var out := new byte[|data|](_ => 0);
    match order {
      case BADC => SwapBytes(out, data);
      case CDAB => SwapWords(out, data);
      case DCBA => Reverse(out, data);
      case ABCD => CopyInto(out, data);
    }
    r := out[..];
    assert order == ABCD ==> r == Arranged(data, ABCD);
  }

  method SwapBytes(out: array<byte>, data: seq<byte>)
    requires out.Length == |data| && forall k | 0 <= k < out.Length :: out[k] == 0
    modifies out
    ensures out[..] == Arranged(data, BADC)
  {
    var i := 0;
    while i + 1 < |data|
      invariant 0 <= i <= |data| && i % 2 == 0
      invariant forall k | 0 <= k < i :: out[k] == data[if k % 2 == 1 then k - 1 else k + 1]
      invariant forall k | i <= k < |data| :: out[k] == 0
    {
      out[i] := data[i + 1];
      out[i + 1] := data[i];
      i := i + 2;
    }
  }

  method SwapWords(out: array<byte>, data: seq<byte>)
    requires out.Length == |data|
    modifies out
    ensures out[..] == Arranged(data, CDAB)
  {
    if |data| == 4 {
      out[0], out[1], out[2], out[3] := data[2], data[3], data[0], data[1];
    } else if |data| == 8 {
      out[0], out[1], out[2], out[3] := data[6], data[7], data[4], data[5];
      out[4], out[5], out[6], out[7] := data[2], data[3], data[0], data[1];
    } else {
      CopyInto(out, data);
    }
  }

  method Reverse(out: array<byte>, data: seq<byte>)
    requires out.Length == |data|
    modifies out
    ensures out[..] == Arranged(data, DCBA)
  {
    for i := 0 to |data|
      invariant forall k | 0 <= k < i :: out[k] == data[|data| - 1 - k]
    {
      out[i] := data[|data| - 1 - i];
    }
  }

  method CopyInto(out: array<byte>, data: seq<byte>)
    requires out.Length == |data|
    modifies out
    ensures out[..] == data
  {
    for i := 0 to |data|
      invariant forall k | 0 <= k < i :: out[k] == data[k]
    {
      out[i] := data[i];
    }
  }

  /** The order undoes itself position by position, but for the odd last one under BADC. */
  lemma SourceOfSource(order: ByteOrder, n: nat, i: nat)
    requires i < n && Source(order, n, i) >= 0
    ensures Source(order, n, Source(order, n, i)) == i
  {
  }

  lemma ArrangedTwice(data: seq<byte>, order: ByteOrder, i: nat)
    requires i < |data|
    ensures Arranged(Arranged(data, order), order)[i] ==
            if order == BADC && i + 1 == |data| && i % 2 == 0 then 0 else data[i]
  {
    if Source(order, |data|, i) >= 0 {
      SourceOfSource(order, |data|, i);
    }
  }

  lemma ArrangedSelfInverse(data: seq<byte>, order: ByteOrder)
    requires order != BADC || |data| % 2 == 0
    ensures Arranged(Arranged(data, order), order) == data
  {
    var twice := Arranged(Arranged(data, order), order);
    forall i | 0 <= i < |data|
      ensures twice[i] == data[i]
    {
      ArrangedTwice(data, order, i);
    }
  }

  /** arrangeBytes undoes itself exactly when no byte is lost: never an odd non-zero last byte under BADC. */
  lemma ArrangedSelfInverseIff(data: seq<byte>, order: ByteOrder)
    ensures Arranged(Arranged(data, order), order) == data <==>
            order != BADC || |data| % 2 == 0 || data[|data| - 1] == 0
  {
    if order != BADC || |data| % 2 == 0 {
      ArrangedSelfInverse(data, order);
    } else {
      var twice := Arranged(Arranged(data, order), order);
      forall i | 0 <= i < |data|
        ensures twice[i] == if i + 1 == |data| then 0 else data[i]
      {
        ArrangedTwice(data, order, i);
      }
    }
  }

  /** One byte is enough. */
  lemma ArrangedLosesByte()
    ensures Arranged(Arranged([1], BADC), BADC) == [0]
  {
    ArrangedTwice([1], BADC, 0);
  }

  // ----- decoding -----

  /** The number in a register of the given width, as two's complement. */
  function Signed(n: int, modulus: int): int {
    if n >= modulus / 2 then n - modulus else n
  }

  /** Reads the big-endian bytes of one value. */
  function Interpret(raw: seq<byte>, t: DataType): Value
    requires |raw| == 2 * RegisterCount(t)
  {
    if t == Boolean then Bool(raw[0] != 0 || raw[1] != 0) else Typed(FromBytes(raw), t)
  }

  function Typed(n: nat, t: DataType): Value {
    match t
    case Int16 => Int(Signed(n, 0x1_0000))
    case Int32 => Int(Signed(n, 0x1_0000_0000))
    case Single => Float32(n)
    case Double => Float64(n)
    case _ => Int(n)
  }

  function DecodeRegisters(data: seq<byte>, t: DataType, order: ByteOrder): Result<Value> {
    var needed := 2 * RegisterCount(t);
    if |data| < needed then Err("short data") else Ok(Interpret(Arranged(data[..needed], order), t))
  }

  /** Bit `bitOffset` of packed bytes; bits past the end read as false. */
  function DecodeBoolFromCoils(data: seq<byte>, bitOffset: nat): bool {
    bitOffset / 8 < |data| && Bit(data[bitOffset / 8], bitOffset % 8)
  }

  // ----- encoding -----

  function ToInt64(v: GoValue): Option<int> {
    match v
    case Number(f) => Some(f.whole)
    case Integer(n) => Some(n)
    case Narrow(n) => Some(n)
    case Json(i, f) => if i.Some? then i else if f.Some? then Some(f.value.whole) else None
    case _ => None
  }

  function ToBool(v: GoValue): Option<bool> {
    match v
    case Truth(b) => Some(b)
    case Number(f) => Some(f.nonZero)
    case Integer(n) => Some(n != 0)
    case Json(_, f) => if f.Some? then Some(f.value.nonZero) else None
    case _ => None
  }

  /** toFloat64 accepts the value. */
  predicate HasFloat64(v: GoValue) {
    v.Number? || v.Integer? || v.Narrow? || (v.Json? && v.float64.Some?)
  }

  /** encodeValue accepts the value for the data type. */
  predicate Encodable(v: GoValue, t: DataType) {
    match t
    case Boolean => ToBool(v).Some?
    case Single => HasFloat64(v)
    case Double => HasFloat64(v)
    case _ => ToInt64(v).Some?
  }

  /** The number put into the registers; integers that do not fit keep their low bits. */
  function Bits(v: GoValue, ieee: Ieee, t: DataType): (n: nat)
    requires Encodable(v, t)
  {
    match t
    case Boolean => if ToBool(v).value then 1 else 0
    case Single => ieee.single
    case Double => ieee.double
    case _ => ToInt64(v).value % Modulus(t)
  }

  function Modulus(t: DataType): int {
    if t == Int32 || t == Uint32 then 0x1_0000_0000 else 0x1_0000
  }

  function RawBytes(v: GoValue, ieee: Ieee, t: DataType): (r: seq<byte>)
    requires Encodable(v, t)
    ensures |r| == 2 * RegisterCount(t)
  {
    BigEndian(Bits(v, ieee, t), 2 * RegisterCount(t))
  }

  function EncodeValue(v: GoValue, ieee: Ieee, t: DataType, order: ByteOrder): (r: Result<seq<byte>>)
    ensures r.Ok? <==> Encodable(v, t)
    ensures r.Ok? ==> |r.value| == 2 * RegisterCount(t)
  {
    if Encodable(v, t) then Ok(Arranged(RawBytes(v, ieee, t), order)) else Err("cannot convert")
  }

  // ----- what a written value reads back as -----

  /** n is a value of the integer data type. */
  predicate InRange(n: int, t: DataType) {
    match t
    case Int16 => -0x8000 <= n < 0x8000
    case Int32 => -0x8000_0000 <= n < 0x8000_0000
    case Uint32 => 0 <= n < 0x1_0000_0000
    case _ => 0 <= n < 0x1_0000
  }

  /** Reading back a written value gives its truth value, its bit pattern, or the integer it wraps to. */
  ghost predicate ReadsBackAs(v: GoValue, ieee: Ieee, t: DataType, got: Value)
    requires Encodable(v, t)
  {
    match t
    case Boolean => got == Bool(ToBool(v).value)
    case Single => got == Float32(ieee.single)
    case Double => got == Float64(ieee.double)
    case _ => got.Int? && InRange(got.n, t) && (got.n - ToInt64(v).value) % Modulus(t) == 0
  }

  /** There is only one such integer. */
  lemma WrapUnique(a: int, b: int, v: int, t: DataType)
    requires InRange(a, t) && InRange(b, t) && (a - v) % Modulus(t) == 0 && (b - v) % Modulus(t) == 0
    ensures a == b
  {
  }

  /** The powers of 256 that the data types are as wide as. */
  lemma Widths(t: DataType)
    ensures Pow256(2 * RegisterCount(t)) ==
            match t
            case Double => 0x1_0000_0000_0000_0000
            case Int32 => 0x1_0000_0000
            case Uint32 => 0x1_0000_0000
            case Single => 0x1_0000_0000
            case _ => 0x1_0000
  {
    assert Pow256(2) == 0x1_0000;
    assert Pow256(4) == 0x1_0000_0000;
    assert Pow256(6) == 0x1_0000_0000_0000;
    assert Pow256(8) == 0x1_0000_0000_0000_0000;
  }

  /** Reading a number as a two's complement or unsigned integer of its type keeps it modulo the type's width. */
  lemma TypedWraps(n: nat, v: int, t: DataType)
    requires !(t.Boolean? || t.Single? || t.Double?) && n == v % Modulus(t)
    ensures Typed(n, t).Int? && InRange(Typed(n, t).n, t) && (Typed(n, t).n - v) % Modulus(t) == 0
  {
    var m := Modulus(t);
    var q := v / m;
    assert n - v == -q * m && n - m - v == (-q - 1) * m;
  }

  lemma BooleanBytes(b: bool)
    ensures BigEndian(if b then 1 else 0, 2) == [0, if b then 1 else 0]
  {
  }

  lemma InterpretRaw(v: GoValue, ieee: Ieee, t: DataType)
    requires Encodable(v, t)
    ensures ReadsBackAs(v, ieee, t, Interpret(RawBytes(v, ieee, t), t))
  {
    if t == Boolean {
      BooleanBytes(ToBool(v).value);
    } else {
      Widths(t);
      FromBigEndian(Bits(v, ieee, t), 2 * RegisterCount(t));
      if !(t.Single? || t.Double?) {
        TypedWraps(Bits(v, ieee, t), ToInt64(v).value, t);
      }
    }
  }

  lemma DecodeArranged(raw: seq<byte>, rest: seq<byte>, t: DataType, order: ByteOrder)
    requires |raw| == 2 * RegisterCount(t)
    ensures DecodeRegisters(Arranged(raw, order) + rest, t, order) == Ok(Interpret(raw, t))
  {
    var sent := Arranged(raw, order);
    assert (sent + rest)[..2 * RegisterCount(t)] == sent;
    ArrangedSelfInverse(raw, order);
  }

  /** Bytes made by EncodeValue, whatever follows them, decode to the value wrapped to its type, for every byte order. */
  lemma DecodeOfEncode(v: GoValue, ieee: Ieee, t: DataType, order: ByteOrder, rest: seq<byte>)
    requires Encodable(v, t)
    ensures var r := DecodeRegisters(EncodeValue(v, ieee, t, order).value + rest, t, order);
      r.Ok? && ReadsBackAs(v, ieee, t, r.value)
  {
    DecodeArranged(RawBytes(v, ieee, t), rest, t, order);
    InterpretRaw(v, ieee, t);
  }

  // ----- the same, told from the value and not from its conversions -----

  /** Every way a Go value can be the integer w. */
  ghost predicate IsInteger(v: GoValue, w: int) {
    v == Integer(w) || v == Narrow(w) || (v.Number? && v.float.whole == w) ||
    (v.Json? && (v.int64 == Some(w) || (v.int64 == None && v.float64.Some? && v.float64.value.whole == w)))
  }

  /** Every way a Go value can be the truth value b. */
  ghost predicate IsTruth(v: GoValue, b: bool) {
    v == Truth(b) || (v.Number? && v.float.nonZero == b) || (v.Integer? && (v.n != 0) == b) ||
    (v.Json? && v.float64.Some? && v.float64.value.nonZero == b)
  }

  predicate IsIntegerType(t: DataType) {
    t.Int16? || t.Uint16? || t.Int32? || t.Uint32? || t.Unknown?
  }

  /**
  An integer written to an integer type reads back as the one integer of the type congruent to it: itself when
  it is in range. A value that is no integer is refused.
  */
  lemma WrittenInteger(v: GoValue, w: int, ieee: Ieee, t: DataType, order: ByteOrder)
    requires IsIntegerType(t)
    ensures EncodeValue(v, ieee, t, order).Ok? <==> exists n :: IsInteger(v, n)
    ensures IsInteger(v, w) ==>
              var r := DecodeRegisters(EncodeValue(v, ieee, t, order).value, t, order);
              r.Ok? && r.value.Int? && InRange(r.value.n, t) && (r.value.n - w) % Modulus(t) == 0 &&
              (InRange(w, t) ==> r.value == Int(w))
  {
    assert ToInt64(v).Some? ==> IsInteger(v, ToInt64(v).value);
    if IsInteger(v, w) {
      assert ToInt64(v) == Some(w);
      DecodeOfEncode(v, ieee, t, order, []);
      assert EncodeValue(v, ieee, t, order).value + [] == EncodeValue(v, ieee, t, order).value;
      if InRange(w, t) {
        WrapUnique(DecodeRegisters(EncodeValue(v, ieee, t, order).value, t, order).value.n, w, w, t);
      }
    }
  }

  /** A truth value written to a boolean reads back as itself, and any other value is refused. */
  lemma WrittenTruth(v: GoValue, b: bool, ieee: Ieee, order: ByteOrder)
    ensures EncodeValue(v, ieee, Boolean, order).Ok? <==> exists x :: IsTruth(v, x)
    ensures IsTruth(v, b) ==> DecodeRegisters(EncodeValue(v, ieee, Boolean, order).value, Boolean, order) == Ok(Bool(b))
  {
    assert ToBool(v).Some? ==> IsTruth(v, ToBool(v).value);
    if IsTruth(v, b) {
      assert ToBool(v) == Some(b);
      DecodeOfEncode(v, ieee, Boolean, order, []);
      assert EncodeValue(v, ieee, Boolean, order).value + [] == EncodeValue(v, ieee, Boolean, order).value;
    }
  }

  /** A number written to a float type reads back as its bit pattern, and any other value is refused. */
  lemma WrittenFloat(v: GoValue, ieee: Ieee, t: DataType, order: ByteOrder)
    requires t.Single? || t.Double?
    ensures EncodeValue(v, ieee, t, order).Ok? <==>
            v.Number? || v.Integer? || v.Narrow? || (v.Json? && v.float64.Some?)
    ensures EncodeValue(v, ieee, t, order).Ok? ==>
              DecodeRegisters(EncodeValue(v, ieee, t, order).value, t, order) ==
              Ok(if t.Single? then Float32(ieee.single) else Float64(ieee.double))
  {
    if Encodable(v, t) {
      DecodeOfEncode(v, ieee, t, order, []);
      assert EncodeValue(v, ieee, t, order).value + [] == EncodeValue(v, ieee, t, order).value;
    }
  }

  /** Four bytes are rearranged as the name of the order says, and two and eight accordingly. */
  lemma NamesTellOrder(a: byte, b: byte, c: byte, d: byte, e: byte, f: byte, g: byte, h: byte)
    ensures Arranged([a, b, c, d], ABCD) == [a, b, c, d] && Arranged([a, b, c, d], BADC) == [b, a, d, c]
    ensures Arranged([a, b, c, d], CDAB) == [c, d, a, b] && Arranged([a, b, c, d], DCBA) == [d, c, b, a]
    ensures Arranged([a, b], ABCD) == Arranged([a, b], CDAB) == [a, b]
    ensures Arranged([a, b], BADC) == Arranged([a, b], DCBA) == [b, a]
    ensures Arranged([a, b, c, d, e, f, g, h], ABCD) == [a, b, c, d, e, f, g, h]
    ensures Arranged([a, b, c, d, e, f, g, h], BADC) == [b, a, d, c, f, e, h, g]
    ensures Arranged([a, b, c, d, e, f, g, h], CDAB) == [g, h, e, f, c, d, a, b]
    ensures Arranged([a, b, c, d, e, f, g, h], DCBA) == [h, g, f, e, d, c, b, a]
  {
  }

  /** A 16-bit number goes out most significant byte first. */
  lemma HighByteFirst(v: GoValue, w: int, ieee: Ieee)
    requires IsInteger(v, w) && 0 <= w < 0x1_0000
    ensures EncodeValue(v, ieee, Uint16, ABCD) == Ok([w / 256, w % 256])
  {
    assert ToInt64(v) == Some(w);
    TwoBytes(w);
    NamesTellOrder(w / 256, w % 256, 0, 0, 0, 0, 0, 0);
  }

  lemma TwoBytes(w: int)
    requires 0 <= w < 0x1_0000
    ensures BigEndian(w, 2) == [w / 256, w % 256]
  {
    assert BigEndian(w / 256, 1) == BigEndian(w / 256 / 256, 0) + [w / 256 % 256];
    assert BigEndian(w, 2) == BigEndian(w / 256, 1) + [w % 256];
  }
}
