/** Request handling of the Modbus TCP server: internal/modbusserver/server.go. */
module ModbusServer {
  import opened Bytes
  import opened ModbusCodec
  import opened ModbusStore

  // ----- packed bits -----

  function Min(a: int, b: int): int {
    if a < b then a else b
  }

  /** The bits that go into byte j: eight of them, fewer at the end. */
  function Octet(bits: seq<bool>, j: nat): (r: seq<bool>)
    ensures |r| <= 8
  {
    bits[Min(8 * j, |bits|)..Min(8 * j + 8, |bits|)]
  }

  function PackOctet(bits: seq<bool>, j: nat): byte {
    Pow2Of8();
    Pow2Monotone(|Octet(bits, j)|, 8);
    Pack(Octet(bits, j))
  }

  /** Bits packed eight to a byte, least significant first, with the rest of the last byte zero. */
  function PackBits(bits: seq<bool>): (r: seq<byte>)
    ensures |r| == (|bits| + 7) / 8
    ensures forall j | 0 <= j < |r| :: r[j] == PackOctet(bits, j)
  {
    seq<byte>((|bits| + 7) / 8, j requires 0 <= j => PackOctet(bits, j))
  }

  /** Unpacking gives back every bit, and false in the padding. */
  lemma PackedBitOfPack(bits: seq<bool>, i: nat)
    ensures DecodeBoolFromCoils(PackBits(bits), i) <==> i < |bits| && bits[i]
  {
    if i / 8 < (|bits| + 7) / 8 {
      BitOfPack(Octet(bits, i / 8), i % 8);
    }
  }

  /** Packed bytes are given by their bits. */
  lemma PackedBitsDetermine(a: seq<byte>, b: seq<byte>)
    requires |a| == |b| && forall i: nat | i < 8 * |a| :: DecodeBoolFromCoils(a, i) == DecodeBoolFromCoils(b, i)
    ensures a == b
  {
    Pow2Of8();
    forall j | 0 <= j < |a|
      ensures a[j] == b[j]
    {
      forall i: nat | i < 8
        ensures Bit(a[j], i) == Bit(b[j], i)
      {
        assert DecodeBoolFromCoils(a, 8 * j + i) == DecodeBoolFromCoils(b, 8 * j + i);
      }
      BitsDetermine(a[j], b[j], 8);
    }
  }

  lemma OctetNext(bits: seq<bool>, i: nat, j: nat)
    requires i < |bits|
    ensures Octet(bits[..i + 1], j) == if j == i / 8 then Octet(bits[..i], j) + [bits[i]] else Octet(bits[..i], j)
    ensures |Octet(bits[..i], i / 8)| == i % 8
  {
    if j < i / 8 {
      assert 8 * j + 8 <= i;
      assert bits[..i + 1][8 * j..8 * j + 8] == bits[..i][8 * j..8 * j + 8];
    } else if j == i / 8 {
      assert 8 * j <= i < 8 * j + 8;
      assert bits[..i + 1][8 * j..i + 1] == bits[..i][8 * j..i] + [bits[i]];
    } else {
      assert 8 * j >= i + 1;
    }
  }

  /** How setting or leaving bit i of the response extends what was packed before it. */
  lemma PackOctetNext(bits: seq<bool>, i: nat, j: nat)
    requires i < |bits|
    ensures PackOctet(bits[..i + 1], j) ==
            if j == i / 8 && bits[i] then SetBit(PackOctet(bits[..i], j), i % 8) else PackOctet(bits[..i], j)
  {
    OctetNext(bits, i, j);
    SetNextBit(Octet(bits[..i], j));
    LeaveNextBit(Octet(bits[..i], j));
  }

  /** The bytes hold the first i bits and zeros. */
  ghost predicate PackedUpTo(packed: seq<byte>, bits: seq<bool>, i: nat)
    requires i <= |bits|
  {
    |packed| == (|bits| + 7) / 8 && forall j | 0 <= j < |packed| :: packed[j] == PackOctet(bits[..i], j)
  }

  lemma PackNext(packed: seq<byte>, bits: seq<bool>, i: nat)
    requires i < |bits| && PackedUpTo(packed, bits, i)
    ensures i / 8 < |packed|
    ensures !bits[i] ==> PackedUpTo(packed, bits, i + 1)
    ensures bits[i] ==> SetBit(packed[i / 8], i % 8) < 0x100 &&
                        PackedUpTo(packed[i / 8 := SetBit(packed[i / 8], i % 8)], bits, i + 1)
  {
    forall j | 0 <= j < |packed| {
      PackOctetNext(bits, i, j);
    }
  }

  // ----- what each request does -----

  /** fc | 0x80 */
  function Exceptional(fc: byte): byte {
    if fc < 0x80 then fc + 0x80 else fc
  }

  function Address(pdu: seq<byte>): (n: int)
    requires |pdu| >= 5
    ensures 0 <= n < 0x1_0000
  {
    Get16(pdu[1], pdu[2])
  }

  function Count(pdu: seq<byte>): (n: int)
    requires |pdu| >= 5
    ensures 0 <= n < 0x1_0000
  {
    Get16(pdu[3], pdu[4])
  }

  function ReadBits(m: map<int, bool>, pdu: seq<byte>): seq<byte>
    requires pdu != []
  {
    if |pdu| < 5 then [Exceptional(pdu[0]), 3]
    else [pdu[0], LowByte((Count(pdu) + 7) / 8)] + PackBits(BitsAt(m, Address(pdu), Count(pdu)))
  }

  function ReadWords(m: map<int, Word>, pdu: seq<byte>): seq<byte>
    requires pdu != []
  {
    if |pdu| < 5 then [Exceptional(pdu[0]), 3]
    else [pdu[0], LowByte(Count(pdu) * 2)] + WordBytes(WordsAt(m, Address(pdu), Count(pdu)))
  }

  /** The coil values a write-multiple-coils request carries. */
  function CarriedBits(pdu: seq<byte>): seq<bool>
    requires |pdu| >= 6
  {
    seq(Min(Count(pdu), 8 * (|pdu| - 6)), i requires 0 <= i => DecodeBoolFromCoils(pdu[6..], i))
  }

  lemma CarriedBit(pdu: seq<byte>, i: nat)
    requires |pdu| >= 6 && i < Count(pdu) && 6 + i / 8 < |pdu|
    ensures i < |CarriedBits(pdu)| && CarriedBits(pdu)[i] == Bit(pdu[6 + i / 8], i % 8)
  {
    assert pdu[6..][i / 8] == pdu[6 + i / 8];
  }

  /** The reply to a request, and the registers after it. */
  function HandlePdu(r: Registers, pdu: seq<byte>): (seq<byte>, Registers) {
    if pdu == [] then ([0x81, 1], r)
    else
      match pdu[0]
      case 0x01 => (ReadBits(r.coils, pdu), r)
      case 0x02 => (ReadBits(r.discretes, pdu), r)
      case 0x03 => (ReadWords(r.holding, pdu), r)
      case 0x04 => (ReadWords(r.input, pdu), r)
      case 0x05 =>
        if |pdu| < 5 then ([0x85, 3], r)
        else (pdu[..5], r.(coils := r.coils[Address(pdu) := pdu[3..5] == [0xFF, 0x00]]))
      case 0x06 =>
        if |pdu| < 5 then ([0x86, 3], r)
        else (pdu[..5], r.(holding := r.holding[Address(pdu) := Word(pdu[3], pdu[4])]))
      case 0x0F =>
        if |pdu| < 6 || |pdu| < 6 + pdu[5] as int then ([0x8F, 3], r)
        else (pdu[..5], r.(coils := Overwrite(r.coils, Address(pdu), CarriedBits(pdu))))
      case 0x10 =>
        if |pdu| < 6 || |pdu| < 6 + Count(pdu) * 2 then ([0x90, 3], r)
        else (pdu[..5], r.(holding := Overwrite(r.holding, Address(pdu), BytesWords(pdu[6..6 + Count(pdu) * 2]))))
      case _ => ([Exceptional(pdu[0]), 1], r)
  }

  // ----- the handlers, as loops over response buffers and register maps -----

  class TcpServer {
    const unitId: int
    const store: RegisterStore

    constructor (unit: int, s: RegisterStore)
      ensures unitId == unit && store == s
    {
      unitId := unit;
      store := s;
    }

    method HandlePDU(pdu: seq<byte>) returns (resp: seq<byte>)
      modifies store
      ensures (resp, store.Contents()) == HandlePdu(old(store.Contents()), pdu)
      ensures store.tagsByVariable == old(store.tagsByVariable) && store.tagsByAddress == old(store.tagsByAddress)
    {
      if |pdu| == 0 {
        return [0x81, 1];
      }
      match pdu[0] {
        case 0x01 => resp := HandleReadBits(pdu, store.coils);
        case 0x02 => resp := HandleReadBits(pdu, store.discretes);
        case 0x03 => resp := HandleReadWords(pdu, store.holding);
        case 0x04 => resp := HandleReadWords(pdu, store.input);
        case 0x05 => resp := HandleWriteSingleCoil(pdu);
        case 0x06 => resp := HandleWriteSingleRegister(pdu);
        case 0x0F => resp := HandleWriteMultipleCoils(pdu);
        case 0x10 => resp := HandleWriteMultipleRegisters(pdu);
        case _ => resp := [Exceptional(pdu[0]), 1];
      }
    }

    method HandleReadBits(pdu: seq<byte>, cells: map<int, bool>) returns (resp: seq<byte>)
      requires pdu != []
      ensures resp == ReadBits(cells, pdu)
    {
      if |pdu| < 5 {
        return [Exceptional(pdu[0]), 3];
      }
      var count := Count(pdu);
      var packed := PackCells(cells, Address(pdu), count);
      resp := [pdu[0], LowByte((count + 7) / 8)] + packed;
    }

    method PackCells(cells: map<int, bool>, addr: int, count: nat) returns (r: seq<byte>)
      ensures r == PackBits(BitsAt(cells, addr, count))
    {
      var byteCount := (count + 7) / 8;
      ghost var bits := BitsAt(cells, addr, count);
      var packed := new byte[byteCount](_ => 0);
      assert forall j | 0 <= j < byteCount :: PackOctet(bits[..0], j) == 0;
      for i := 0 to count
        invariant PackedUpTo(packed[..], bits, i)
      {
        PackNext(packed[..], bits, i);
        if BitAt(cells, addr + i) {
          packed[i / 8] := SetBit(packed[i / 8], i % 8);
        }
      }
      assert bits[..count] == bits;
      r := packed[..];
    }

    method HandleReadWords(pdu: seq<byte>, cells: map<int, Word>) returns (resp: seq<byte>)
      requires pdu != []
      ensures resp == ReadWords(cells, pdu)
    {
      if |pdu| < 5 {
        return [Exceptional(pdu[0]), 3];
      }
      var count := Count(pdu);
      var data := CellBytes(cells, Address(pdu), count);
      resp := [pdu[0], LowByte(count * 2)] + data;
    }

    method CellBytes(cells: map<int, Word>, addr: int, count: nat) returns (r: seq<byte>)
      ensures r == WordBytes(WordsAt(cells, addr, count))
    {
      ghost var words := WordsAt(cells, addr, count);
      var data := new byte[count * 2](_ => 0);
      for i := 0 to count
        invariant data[..2 * i] == WordBytes(words[..i])
      {
        NextWordBytes(words, i);
        PutWord(data, i, WordAt(cells, addr + i));
      }
      assert words[..count] == words && data[..] == data[..2 * count];
      r := data[..];
    }

    method PutWord(data: array<byte>, i: nat, word: Word)
      requires 2 * i + 1 < data.Length
      modifies data
      ensures data[..2 * (i + 1)] == old(data[..2 * i]) + word.Bytes()
    {
      data[2 * i] := word.hi;
      data[2 * i + 1] := word.lo;
    }

    method HandleWriteSingleCoil(pdu: seq<byte>) returns (resp: seq<byte>)
      requires pdu != [] && pdu[0] == 5
      modifies store`coils
      ensures (resp, store.Contents()) == HandlePdu(old(store.Contents()), pdu)
    {
      if |pdu| < 5 {
        return [0x85, 3];
      }
      store.coils := store.coils[Address(pdu) := Get16(pdu[3], pdu[4]) == 0xFF00];
      assert pdu[3..5] == [pdu[3], pdu[4]];
      resp := Echo(pdu);
    }

    method HandleWriteSingleRegister(pdu: seq<byte>) returns (resp: seq<byte>)
      requires pdu != [] && pdu[0] == 6
      modifies store`holding
      ensures (resp, store.Contents()) == HandlePdu(old(store.Contents()), pdu)
    {
      if |pdu| < 5 {
        return [0x86, 3];
      }
      store.holding := store.holding[Address(pdu) := Word(pdu[3], pdu[4])];
      resp := Echo(pdu);
    }

    method HandleWriteMultipleCoils(pdu: seq<byte>) returns (resp: seq<byte>)
      requires pdu != [] && pdu[0] == 0x0F
      modifies store`coils
      ensures (resp, store.Contents()) == HandlePdu(old(store.Contents()), pdu)
    {
      if |pdu| < 6 || |pdu| < 6 + pdu[5] as int {
        return [0x8F, 3];
      }
      StoreCoils(pdu);
      resp := Echo(pdu);
    }

    method StoreCoils(pdu: seq<byte>)
      requires |pdu| >= 6
      modifies store`coils
      ensures store.coils == Overwrite(old(store.coils), Address(pdu), CarriedBits(pdu))
    {
      var addr, count := Address(pdu), Count(pdu);
      ghost var carried := CarriedBits(pdu);
      var i := 0;
      while i < count && 6 + i / 8 < |pdu|
        invariant 0 <= i <= |carried|
        invariant store.coils == Overwrite(old(store.coils), addr, carried[..i])
      {
        OverwriteNext(old(store.coils), addr, carried, i);
        CarriedBit(pdu, i);
        store.coils := store.coils[addr + i := Bit(pdu[6 + i / 8], i % 8)];
        i := i + 1;
      }
      assert carried[..i] == carried;
    }

    method HandleWriteMultipleRegisters(pdu: seq<byte>) returns (resp: seq<byte>)
      requires pdu != [] && pdu[0] == 0x10
      modifies store`holding
      ensures (resp, store.Contents()) == HandlePdu(old(store.Contents()), pdu)
    {
      if |pdu| < 6 || |pdu| < 6 + Count(pdu) * 2 {
        return [0x90, 3];
      }
      StoreWords(Address(pdu), pdu[6..6 + Count(pdu) * 2]);
      resp := Echo(pdu);
    }

    method StoreWords(addr: int, data: seq<byte>)
      requires |data| % 2 == 0
      modifies store`holding
      ensures store.holding == Overwrite(old(store.holding), addr, BytesWords(data))
    {
      ghost var words := BytesWords(data);
      for i := 0 to |data| / 2
        invariant store.holding == Overwrite(old(store.holding), addr, words[..i])
      {
        OverwriteNext(old(store.holding), addr, words, i);
        WordOfBytes(data, i);
        store.holding := store.holding[addr + i := Word(data[i * 2], data[i * 2 + 1])];
      }
      assert words[..|words|] == words;
    }

    /** A write is acknowledged with its function code, address and value or count. */
    method Echo(pdu: seq<byte>) returns (resp: seq<byte>)
      requires |pdu| >= 5
      ensures resp == pdu[..5]
    {
      resp := [pdu[0]] + Put16(Get16(pdu[1], pdu[2])) + Put16(Get16(pdu[3], pdu[4]));
      PutGet16(pdu[1], pdu[2]);
      PutGet16(pdu[3], pdu[4]);
    }
  }

  lemma PutGet16(hi: byte, lo: byte)
    ensures Put16(Get16(hi, lo)) == [hi, lo]
  {
  }

  lemma NextWordBytes(words: seq<Word>, i: nat)
    requires i < |words|
    ensures WordBytes(words[..i + 1]) == WordBytes(words[..i]) + words[i].Bytes()
  {
    assert words[..i + 1] == words[..i] + [words[i]];
    WordBytesAppend(words[..i], [words[i]]);
    assert WordBytes([words[i]]) == words[i].Bytes() + WordBytes([]);
  }

  lemma {:induction false} WordOfBytes(s: seq<byte>, i: nat)
    requires |s| % 2 == 0 && 2 * i < |s|
    ensures BytesWords(s)[i] == Word(s[2 * i], s[2 * i + 1])
    decreases i
  {
    if i > 0 {
      WordOfBytes(s[2..], i - 1);
    }
  }

  // ----- every request, told from its bytes -----

  /** A function code the server knows. */
  predicate Served(fc: byte) {
    fc in {1, 2, 3, 4, 5, 6, 15, 16}
  }

  /** The request is as long as its function code and counts say. */
  predicate LongEnough(pdu: seq<byte>)
    requires pdu != []
  {
    if pdu[0] == 15 then |pdu| >= 6 && |pdu| >= 6 + pdu[5] as int
    else if pdu[0] == 16 then |pdu| >= 6 && |pdu| >= 6 + 2 * (256 * pdu[3] as int + pdu[4])
    else |pdu| >= 5
  }

  /**
  A request is refused exactly when its code is unknown or it is too short, with the code's high bit set, the
  reason and no effect. A read that is not refused has no effect either, and a write is echoed.
  */
  lemma RefusedIff(r: Registers, pdu: seq<byte>)
    ensures var (resp, after) := HandlePdu(r, pdu);
      resp != [] &&
      (resp[0] >= 0x80 <==> pdu == [] || !Served(pdu[0]) || !LongEnough(pdu)) &&
      (resp[0] >= 0x80 ==>
         after == r && resp == [if pdu == [] then 0x81 else 0x80 + pdu[0] % 0x80, if pdu == [] || !Served(pdu[0]) then 1 else 3]) &&
      (resp[0] < 0x80 ==> resp[0] == pdu[0]) &&
      (resp[0] < 0x80 && pdu[0] <= 4 ==> after == r) &&
      (resp[0] < 0x80 && pdu[0] >= 5 ==> resp == pdu[..5])
  {
  }

  /** A coil after a write that is not refused: set by the request if it names the coil and carries its bit. */
  lemma CoilAfter(r: Registers, pdu: seq<byte>, a: int)
    requires pdu != [] && pdu[0] in {5, 15} && LongEnough(pdu)
    ensures var after, i := HandlePdu(r, pdu).1, a - (256 * pdu[1] as int + pdu[2]);
      after == r.(coils := after.coils) &&
      BitAt(after.coils, a) ==
        if pdu[0] == 5 then (if i == 0 then pdu[3] == 0xFF && pdu[4] == 0 else BitAt(r.coils, a))
        else if 0 <= i < 256 * pdu[3] as int + pdu[4] && 6 + i / 8 < |pdu| then Bit(pdu[6 + i / 8], i % 8)
        else BitAt(r.coils, a)
  {
    if pdu[0] == 5 {
      assert pdu[3..5] == [pdu[3], pdu[4]];
    } else {
      OverwriteAt(r.coils, Address(pdu), CarriedBits(pdu), a);
      var i := a - Address(pdu);
      if 0 <= i < Count(pdu) && 6 + i / 8 < |pdu| {
        CarriedBit(pdu, i);
      }
    }
  }

  /** A holding register after a write that is not refused. */
  lemma RegisterAfter(r: Registers, pdu: seq<byte>, a: int)
    requires pdu != [] && pdu[0] in {6, 16} && LongEnough(pdu)
    ensures var after, i := HandlePdu(r, pdu).1, a - (256 * pdu[1] as int + pdu[2]);
      after == r.(holding := after.holding) &&
      WordAt(after.holding, a) ==
        if pdu[0] == 6 then (if i == 0 then Word(pdu[3], pdu[4]) else WordAt(r.holding, a))
        else if 0 <= i < 256 * pdu[3] as int + pdu[4] then Word(pdu[6 + 2 * i], pdu[7 + 2 * i])
        else WordAt(r.holding, a)
  {
    if pdu[0] == 16 {
      WordsWritten(r.holding, Address(pdu), pdu, Count(pdu), a);
    }
  }

  lemma WordsWritten(m: map<int, Word>, addr: int, pdu: seq<byte>, count: nat, a: int)
    requires |pdu| >= 6 + count * 2
    ensures WordAt(Overwrite(m, addr, BytesWords(pdu[6..6 + count * 2])), a) ==
            if 0 <= a - addr < count then Word(pdu[6 + 2 * (a - addr)], pdu[7 + 2 * (a - addr)]) else WordAt(m, a)
  {
    var data, i := pdu[6..6 + count * 2], a - addr;
    OverwriteAt(m, addr, BytesWords(data), a);
    if 0 <= i < count {
      WordOfBytes(data, i);
      assert data[2 * i] == pdu[6 + 2 * i] && data[2 * i + 1] == pdu[7 + 2 * i];
    }
  }

  // ----- what a client can rely on -----

  /** A write-multiple-coils request for the given bits. */
  function WriteCoilsPdu(addr: u16, data: seq<byte>, count: u16): seq<byte>
    requires |data| < 256
  {
    [0x0F] + Put16(addr) + Put16(count) + [|data|] + data
  }

  function ReadPdu(fc: byte, addr: u16, count: u16): seq<byte> {
    [fc] + Put16(addr) + Put16(count)
  }

  lemma ReadPduFields(fc: byte, addr: u16, count: u16)
    ensures var p := ReadPdu(fc, addr, count); |p| == 5 && p[0] == fc && Address(p) == addr && Count(p) == count
  {
  }

  lemma WriteCoilsPduFields(addr: u16, data: seq<byte>, count: u16)
    requires |data| < 256
    ensures var p := WriteCoilsPdu(addr, data, count);
      |p| == 6 + |data| && p[0] == 0x0F && Address(p) == addr && Count(p) == count && p[5] == |data| && p[6..] == data
  {
  }

  /** A well-formed write overwrites exactly the coils it names with the bits it carries. */
  lemma WrittenCoils(r: Registers, addr: u16, data: seq<byte>, count: u16) returns (bits: seq<bool>)
    requires |data| < 256 && |data| == (count as int + 7) / 8
    ensures HandlePdu(r, WriteCoilsPdu(addr, data, count)).1 == r.(coils := Overwrite(r.coils, addr, bits))
    ensures |bits| == count && forall i | 0 <= i < count :: bits[i] == DecodeBoolFromCoils(data, i)
  {
    WriteCoilsPduFields(addr, data, count);
    bits := CarriedBits(WriteCoilsPdu(addr, data, count));
  }

  lemma OverwrittenBits(m: map<int, bool>, a: int, bits: seq<bool>)
    ensures BitsAt(Overwrite(m, a, bits), a, |bits|) == bits
  {
    forall i | 0 <= i < |bits|
      ensures BitsAt(Overwrite(m, a, bits), a, |bits|)[i] == bits[i]
    {
      OverwriteAt(m, a, bits, a + i);
    }
  }

  /** A well-formed write leaves every other coil as it was. */
  lemma OtherCoilsKept(r: Registers, addr: u16, data: seq<byte>, count: u16, b: int)
    requires |data| < 256 && |data| == (count as int + 7) / 8 && !(addr <= b < addr as int + count)
    ensures BitAt(HandlePdu(r, WriteCoilsPdu(addr, data, count)).1.coils, b) == BitAt(r.coils, b)
  {
    var bits := WrittenCoils(r, addr, data, count);
    OverwriteAt(r.coils, addr, bits, b);
  }

  lemma ReadCoilsReply(r: Registers, addr: u16, count: u16, n: byte)
    requires n == (count as int + 7) / 8
    ensures HandlePdu(r, ReadPdu(1, addr, count)).0 == [1, n] + PackBits(BitsAt(r.coils, addr, count))
  {
    ReadPduFields(1, addr, count);
  }

  /**
  Coils written by FC 0F and read back by FC 01 are the bits sent; the padding of the last byte reads
  zero, whatever was sent there.
  */
  lemma WrittenCoilsReadBack(r: Registers, addr: u16, data: seq<byte>, count: u16)
    requires |data| < 256 && |data| == (count as int + 7) / 8
    ensures var r' := HandlePdu(r, WriteCoilsPdu(addr, data, count)).1;
      var resp := HandlePdu(r', ReadPdu(1, addr, count)).0;
      |resp| == 2 + |data| && resp[..2] == [1, |data|] &&
      forall i: nat :: DecodeBoolFromCoils(resp[2..], i) <==> i < count && DecodeBoolFromCoils(data, i)
  {
    var bits := WrittenCoils(r, addr, data, count);
    OverwrittenBits(r.coils, addr, bits);
    ReadCoils(r.(coils := Overwrite(r.coils, addr, bits)), addr, data, count);
  }

  lemma ReadCoils(r: Registers, addr: u16, data: seq<byte>, count: u16)
    requires |data| < 256 && |data| == (count as int + 7) / 8
    requires forall i | 0 <= i < count :: BitsAt(r.coils, addr, count)[i] == DecodeBoolFromCoils(data, i)
    ensures var resp := HandlePdu(r, ReadPdu(1, addr, count)).0;
      |resp| == 2 + |data| && resp[..2] == [1, |data|] &&
      forall i: nat :: DecodeBoolFromCoils(resp[2..], i) <==> i < count && DecodeBoolFromCoils(data, i)
  {
    PackedCopy(BitsAt(r.coils, addr, count), data, [1, |data|]);
    ReadCoilsReply(r, addr, count, |data|);
  }

  lemma PackedCopy(bits: seq<bool>, data: seq<byte>, head: seq<byte>)
    requires |data| == (|bits| + 7) / 8 && |head| == 2 && forall i | 0 <= i < |bits| :: bits[i] == DecodeBoolFromCoils(data, i)
    ensures var resp := head + PackBits(bits);
      |resp| == 2 + |data| && resp[..2] == head &&
      forall i: nat :: DecodeBoolFromCoils(resp[2..], i) <==> i < |bits| && DecodeBoolFromCoils(data, i)
  {
    var resp := head + PackBits(bits);
    assert resp[2..] == PackBits(bits);
    forall i: nat
      ensures DecodeBoolFromCoils(resp[2..], i) <==> i < |bits| && DecodeBoolFromCoils(data, i)
    {
      PackedBitOfPack(bits, i);
    }
  }

  /** With clean padding the bytes read are the bytes written. */
  lemma WrittenBytesReadBack(r: Registers, addr: u16, data: seq<byte>, count: u16)
    requires |data| < 256 && |data| == (count as int + 7) / 8
    requires forall i: nat | count <= i < 8 * |data| :: !DecodeBoolFromCoils(data, i)
    ensures var r' := HandlePdu(r, WriteCoilsPdu(addr, data, count)).1;
      HandlePdu(r', ReadPdu(1, addr, count)).0 == [1, |data|] + data
  {
    WrittenCoilsReadBack(r, addr, data, count);
    var r' := HandlePdu(r, WriteCoilsPdu(addr, data, count)).1;
    var resp := HandlePdu(r', ReadPdu(1, addr, count)).0;
    PackedBitsDetermine(resp[2..], data);
    assert resp == resp[..2] + resp[2..];
  }
}
