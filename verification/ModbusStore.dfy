/** The server's register space and its value encoding: internal/modbusserver/store.go. */
module ModbusStore {
  import opened Common
  import opened Bytes
  import opened ModbusCodec

  // ----- value encoding -----

  /** The input position that output position i of n bytes is copied from. */
  function ServerSource(order: ByteOrder, n: nat, i: nat): (k: nat)
    requires i < n && n % 2 == 0
    ensures k < n
  {
    match order
    case ABCD => i
    case BADC =>
      NextFits(n, i);
      if i % 2 == 1 then i - 1 else i + 1
    case CDAB => if i % 4 >= 2 then i - 2 else if i + 2 < n then i + 2 else i
    case DCBA => n - 1 - i
  }

  lemma NextFits(n: nat, i: nat)
    requires i < n && n % 2 == 0
    ensures i % 2 == 0 ==> i + 1 < n
  {
    var h := n / 2;
    assert n == 2 * h;
    if i % 2 == 0 {
      assert i == 2 * (i / 2) && i / 2 < h;
    }
  }

  function ServerArranged(raw: seq<byte>, order: ByteOrder): (r: seq<byte>)
    requires |raw| % 2 == 0
    ensures |r| == |raw|
  {
    seq(|raw|, i requires 0 <= i < |raw| => raw[ServerSource(order, |raw|, i)])
  }

  function ArrangeWords(words: seq<Word>, order: ByteOrder): (r: seq<Word>)
    ensures |r| == |words|
  {
    BytesWords(ServerArranged(WordBytes(words), order))
  }

  lemma ServerSourceOfSource(order: ByteOrder, n: nat, i: nat)
    requires i < n && n % 2 == 0
    ensures ServerSource(order, n, ServerSource(order, n, i)) == i
  {
    if order == CDAB {
      PairSwapTwice(n, i);
    }
  }

  lemma PairSwapTwice(n: nat, i: nat)
    requires i < n && n % 2 == 0
    ensures ServerSource(CDAB, n, ServerSource(CDAB, n, i)) == i
  {
    if i % 4 >= 2 {
      assert (i - 2) % 4 == i % 4 - 2;
    } else if i + 2 < n {
      assert (i + 2) % 4 == i % 4 + 2;
    }
  }

  /** Every transformation is its own inverse, on any number of words. */
  lemma ArrangeWordsSelfInverse(words: seq<Word>, order: ByteOrder)
    ensures ArrangeWords(ArrangeWords(words, order), order) == words
  {
    BytesOfWords(ServerArranged(WordBytes(words), order));
    ServerArrangedTwice(WordBytes(words), order);
    WordsOfBytes(words);
  }

  lemma ServerArrangedTwice(raw: seq<byte>, order: ByteOrder)
    requires |raw| % 2 == 0
    ensures ServerArranged(ServerArranged(raw, order), order) == raw
  {
    forall i | 0 <= i < |raw|
      ensures ServerArranged(ServerArranged(raw, order), order)[i] == raw[i]
    {
      ServerSourceOfSource(order, |raw|, i);
    }
  }

  /**
  A float64 to be stored: its integer part, whether anything follows the point, and its bit patterns. An
  infinity or NaN has an integer part beyond every type. The language leaves open what converting a value
  to an integer type it does not fit gives; `other` is that.
  */
  datatype Quantity = Quantity(whole: int, fraction: bool, ieee: Ieee, other: int) {
    const nonZero: bool := whole != 0 || fraction
  }

  /** The value is one the conversion to the integer data type is defined for. */
  predicate Storable(q: Quantity, t: DataType) {
    t.Boolean? || t.Single? || t.Double? || InRange(q.whole, t)
  }

  /** The number put into the registers. */
  function ServerBits(q: Quantity, t: DataType): nat {
    match t
    case Boolean => if q.nonZero then 1 else 0
    case Single => q.ieee.single
    case Double => q.ieee.double
    case _ => (if InRange(q.whole, t) then q.whole else q.other) % Modulus(t)
  }

  function ServerRaw(q: Quantity, t: DataType): (r: seq<byte>)
    ensures |r| == 2 * RegisterCount(t)
  {
    BigEndian(ServerBits(q, t), 2 * RegisterCount(t))
  }

  function EncodeToRegisters(q: Quantity, t: DataType, order: ByteOrder): (r: seq<Word>)
    ensures |r| == RegisterCount(t)
  {
    WireWords(ServerRaw(q, t), order)
  }

  /** The registers holding big-endian bytes in the given order. */
  function WireWords(raw: seq<byte>, order: ByteOrder): (r: seq<Word>)
    requires |raw| % 2 == 0
    ensures |r| == |raw| / 2
  {
    ArrangeWords(BytesWords(raw), order)
  }

  function DecodeFromRegisters(words: seq<Word>, t: DataType, order: ByteOrder): Value
    requires |words| == RegisterCount(t)
  {
    if t == Boolean then Bool(words[0] != Word(0, 0)) else Interpret(WordBytes(ArrangeWords(words, order)), t)
  }

  /** The value handed in, seen through its data type; an integer type sees the integer part. */
  function Meant(q: Quantity, t: DataType): Value {
    match t
    case Boolean => Bool(q.nonZero)
    case Single => Float32(q.ieee.single)
    case Double => Float64(q.ieee.double)
    case _ => Int(q.whole)
  }

  /** The value that ends up in the registers. */
  function Stored(q: Quantity, t: DataType): Value {
    if Storable(q, t) then Meant(q, t) else Typed(q.other % Modulus(t), t)
  }

  /** For an integer type it is the integer part of the value handed in exactly when that part is in range. */
  lemma StoredIsMeantIff(q: Quantity, t: DataType)
    ensures Stored(q, t) == Meant(q, t) <==> Storable(q, t)
  {
    if !Storable(q, t) {
      TypedWraps(q.other % Modulus(t), q.other, t);
    }
  }

  /** 70000 does not fit a uint16. */
  lemma StoredAsAnother(q: Quantity)
    requires q.whole == 70000
    ensures Stored(q, Uint16) != Meant(q, Uint16) == Int(70000)
  {
    StoredIsMeantIff(q, Uint16);
  }

  /** The value v of data type t is the number handed in, nothing of it lost but a float's low-order digits. */
  predicate Keeps(v: Value, q: Quantity, t: DataType) {
    v == Meant(q, t) && (t.Boolean? || t.Single? || t.Double? || !q.fraction)
  }

  /** The number handed in is kept exactly when the type is no integer type or holds that very integer. */
  lemma StoredExactlyIff(q: Quantity, t: DataType)
    ensures Keeps(Stored(q, t), q, t) <==>
            t.Boolean? || t.Single? || t.Double? || (InRange(q.whole, t) && !q.fraction)
  {
    StoredIsMeantIff(q, t);
  }

  /** 0.5 is stored as 0. */
  lemma StoredAsZero(q: Quantity)
    requires q.whole == 0 && q.fraction
    ensures q.nonZero && Stored(q, Uint16) == Int(0) && !Keeps(Stored(q, Uint16), q, Uint16)
  {
    StoredExactlyIff(q, Uint16);
  }

  /** Told from the number: the server reads back the integer, the truth value or the bit pattern it was handed. */
  lemma ServerKeeps(w: int, fraction: bool, ieee: Ieee, other: int, t: DataType, order: ByteOrder)
    ensures var got := DecodeFromRegisters(EncodeToRegisters(Quantity(w, fraction, ieee, other), t, order), t, order);
      match t
      case Boolean => got == Bool(w != 0 || fraction)
      case Single => got == Float32(ieee.single)
      case Double => got == Float64(ieee.double)
      case _ => InRange(w, t) ==> got == Int(w)
  {
    ServerRoundTrip(Quantity(w, fraction, ieee, other), t, order);
  }

  lemma FitsItsType(n: int, t: DataType)
    requires !(t.Boolean? || t.Single? || t.Double?) && InRange(n, t)
    ensures Typed(n % Modulus(t), t) == Int(n)
  {
  }

  lemma InterpretServerRaw(q: Quantity, t: DataType)
    ensures Interpret(ServerRaw(q, t), t) == Stored(q, t)
  {
    if t == Boolean {
      BooleanBytes(q.nonZero);
    } else {
      BitsFit(q, t);
      FromBigEndian(ServerBits(q, t), 2 * RegisterCount(t));
      TypedIsStored(q, t);
    }
  }

  lemma BitsFit(q: Quantity, t: DataType)
    requires t != Boolean
    ensures ServerBits(q, t) < Pow256(2 * RegisterCount(t))
  {
    Widths(t);
  }

  lemma TypedIsStored(q: Quantity, t: DataType)
    requires t != Boolean
    ensures Typed(ServerBits(q, t), t) == Stored(q, t)
  {
    if InRange(q.whole, t) && !(t.Single? || t.Double?) {
      FitsItsType(q.whole, t);
    }
  }

  lemma ArrangeRaw(raw: seq<byte>, order: ByteOrder)
    requires |raw| % 2 == 0
    ensures WordBytes(WireWords(raw, order)) == ServerArranged(raw, order)
  {
    BytesOfWords(raw);
    BytesOfWords(ServerArranged(raw, order));
  }

  /** The bytes the encoded registers put on the wire. */
  lemma EncodedBytes(q: Quantity, t: DataType, order: ByteOrder)
    ensures WordBytes(EncodeToRegisters(q, t, order)) == ServerArranged(ServerRaw(q, t), order)
  {
    ArrangeRaw(ServerRaw(q, t), order);
  }

  lemma ArrangeRawTwice(raw: seq<byte>, order: ByteOrder)
    requires |raw| % 2 == 0
    ensures WordBytes(ArrangeWords(WireWords(raw, order), order)) == raw
  {
    ArrangeWordsSelfInverse(BytesWords(raw), order);
    BytesOfWords(raw);
  }

  /** The server reads back what it stored, for every data type and byte order. */
  lemma ServerRoundTrip(q: Quantity, t: DataType, order: ByteOrder)
    ensures DecodeFromRegisters(EncodeToRegisters(q, t, order), t, order) == Stored(q, t)
  {
    if t == Boolean {
      BooleanWord(q, order);
    } else {
      ArrangeRawTwice(ServerRaw(q, t), order);
      InterpretServerRaw(q, t);
    }
  }

  lemma BooleanWord(q: Quantity, order: ByteOrder)
    ensures EncodeToRegisters(q, Boolean, order)[0] != Word(0, 0) <==> q.nonZero
  {
    BooleanBytes(q.nonZero);
    OneWord(ServerRaw(q, Boolean), order);
  }

  lemma OneWord(raw: seq<byte>, order: ByteOrder)
    requires |raw| == 2
    ensures WireWords(raw, order)[0] != Word(0, 0) <==> raw[0] != 0 || raw[1] != 0
  {
    var w := WireWords(raw, order);
    ArrangeRaw(raw, order);
    assert WordBytes(w)[..2] == w[0].Bytes();
    assert ServerArranged(raw, order)[..2] == [raw[0], raw[1]] || ServerArranged(raw, order)[..2] == [raw[1], raw[0]];
  }

  // ----- what the client makes of the server's bytes -----

  /** For one and two registers client and server use the same byte orders; for four they differ on CDAB. */
  lemma OrdersAgree(raw: seq<byte>, order: ByteOrder)
    requires |raw| in {2, 4} || (|raw| == 8 && order != CDAB)
    ensures ServerArranged(raw, order) == Arranged(raw, order)
  {
    forall i | 0 <= i < |raw|
      ensures ServerArranged(raw, order)[i] == Arranged(raw, order)[i]
    {
      assert ServerSource(order, |raw|, i) == Source(order, |raw|, i);
    }
  }

  /** In CDAB order the client swaps the halves of a four-register value of the server's. */
  lemma OrdersDiffer(raw: seq<byte>)
    requires |raw| == 8
    ensures Arranged(ServerArranged(raw, CDAB), CDAB) == raw[4..] + raw[..4]
  {
    var s := ServerArranged(raw, CDAB);
    assert s == [raw[2], raw[3], raw[0], raw[1], raw[6], raw[7], raw[4], raw[5]];
    assert Arranged(s, CDAB) == [s[6], s[7], s[4], s[5], s[2], s[3], s[0], s[1]];
  }

  lemma DecodeSent(sent: seq<byte>, rest: seq<byte>, t: DataType, order: ByteOrder)
    requires |sent| == 2 * RegisterCount(t)
    ensures DecodeRegisters(sent + rest, t, order) == Ok(Interpret(Arranged(sent, order), t))
  {
    assert (sent + rest)[..2 * RegisterCount(t)] == sent;
  }

  /**
  The client decodes the server's registers, whatever bytes follow them, to the value stored, except
  that a float64 in CDAB order survives only when the two halves of its bit pattern are equal.
  */
  lemma ClientReadsServerIff(q: Quantity, t: DataType, order: ByteOrder, rest: seq<byte>)
    ensures DecodeRegisters(WordBytes(EncodeToRegisters(q, t, order)) + rest, t, order) == Ok(Stored(q, t)) <==>
            !(t == Double && order == CDAB && ServerRaw(q, t)[..4] != ServerRaw(q, t)[4..])
  {
    EncodedBytes(q, t, order);
    DecodeSent(ServerArranged(ServerRaw(q, t), order), rest, t, order);
    InterpretServerRaw(q, t);
    RearrangedIff(ServerRaw(q, t), t, order);
  }

  /** The float64 whose bit pattern is 1 is one that does not. */
  lemma CdabDiffers(q: Quantity)
    requires q.ieee.double == 1
    ensures DecodeRegisters(WordBytes(EncodeToRegisters(q, Double, CDAB)) + [], Double, CDAB) != Ok(Stored(q, Double))
  {
    ClientReadsServerIff(q, Double, CDAB, []);
    var raw := ServerRaw(q, Double);
    if raw[..4] == raw[4..] {
      assert raw[3] == raw[..4][3] == raw[4..][3] == raw[7];
    }
    OneLast(8);
  }

  lemma {:induction false} OneLast(k: nat)
    requires k >= 2
    ensures BigEndian(1, k)[k - 1] == 1 && forall i | 0 <= i < k - 1 :: BigEndian(1, k)[i] == 0
  {
    Zeros(k - 1);
    assert BigEndian(1, k) == BigEndian(0, k - 1) + [1];
  }

  lemma {:induction false} Zeros(k: nat)
    ensures forall i | 0 <= i < k :: BigEndian(0, k)[i] == 0
  {
    if k > 0 {
      Zeros(k - 1);
      assert BigEndian(0, k) == BigEndian(0, k - 1) + [0];
    }
  }

  /** What the client's byte order makes of the server's. */
  lemma RearrangedIff(raw: seq<byte>, t: DataType, order: ByteOrder)
    requires |raw| == 2 * RegisterCount(t)
    ensures Interpret(Arranged(ServerArranged(raw, order), order), t) == Interpret(raw, t) <==>
            !(t == Double && order == CDAB && raw[..4] != raw[4..])
  {
    if t == Double && order == CDAB {
      OrdersDiffer(raw);
      SwappedHalves(raw);
    } else {
      OrdersAgree(raw, order);
      ArrangedSelfInverse(raw, order);
    }
  }

  lemma SwappedHalves(raw: seq<byte>)
    requires |raw| == 8
    ensures FromBytes(raw[4..] + raw[..4]) == FromBytes(raw) <==> raw[..4] == raw[4..]
  {
    assert raw == raw[..4] + raw[4..];
    if FromBytes(raw[4..] + raw[..4]) == FromBytes(raw) {
      FromBytesInjective(raw[4..] + raw[..4], raw);
      assert raw[..4] == (raw[4..] + raw[..4])[..4] == raw[4..];
    }
  }

  // ----- the register space -----

  datatype Space = Coil | Discrete | Holding | Input

  /** A function-code name in a tag's configuration. */
  datatype FunctionName = Named(space: Space) | OtherName(name: string)

  /** A tag; function-code names other than the four work on the holding registers. */
  datatype Tag = Tag(id: string, address: int, fc: FunctionName, datatype_: DataType, order: ByteOrder, writable: bool) {
    const space: Space := if fc.Named? then fc.space else Holding
  }

  /** The four address spaces; an address never written reads as false or 0. */
  datatype Registers = Registers(
    coils: map<int, bool>,
    discretes: map<int, bool>,
    holding: map<int, Word>,
    input: map<int, Word>)

  function BitAt(m: map<int, bool>, a: int): bool {
    a in m && m[a]
  }

  function WordAt(m: map<int, Word>, a: int): Word {
    if a in m then m[a] else Word(0, 0)
  }

  function BitsAt(m: map<int, bool>, a: int, count: nat): (r: seq<bool>)
    ensures |r| == count && forall i | 0 <= i < count :: r[i] == BitAt(m, a + i)
  {
    seq(count, i requires 0 <= i < count => BitAt(m, a + i))
  }

  function WordsAt(m: map<int, Word>, a: int, count: nat): (r: seq<Word>)
    ensures |r| == count && forall i | 0 <= i < count :: r[i] == WordAt(m, a + i)
  {
    seq(count, i requires 0 <= i < count => WordAt(m, a + i))
  }

  /** Consecutive cells overwritten from address a on. */
  function Overwrite<T>(m: map<int, T>, a: int, cells: seq<T>): map<int, T> {
    if cells == [] then m
    else Overwrite(m, a, cells[..|cells| - 1])[a + |cells| - 1 := cells[|cells| - 1]]
  }

  lemma {:induction false} OverwriteAt<T>(m: map<int, T>, a: int, cells: seq<T>, b: int)
    ensures var r := Overwrite(m, a, cells);
      if a <= b < a + |cells| then b in r && r[b] == cells[b - a]
      else (b in r <==> b in m) && (b in m ==> r[b] == m[b])
    decreases |cells|
  {
    if cells != [] {
      OverwriteAt(m, a, cells[..|cells| - 1], b);
    }
  }

  lemma OverwriteNext<T>(m: map<int, T>, a: int, cells: seq<T>, i: nat)
    requires i < |cells|
    ensures Overwrite(m, a, cells[..i])[a + i := cells[i]] == Overwrite(m, a, cells[..i + 1])
  {
    assert cells[..i + 1][..i] == cells[..i];
  }

  /** The words written are the words read. */
  lemma OverwriteRead(m: map<int, Word>, a: int, words: seq<Word>)
    ensures WordsAt(Overwrite(m, a, words), a, |words|) == words
  {
    forall i | 0 <= i < |words|
      ensures WordsAt(Overwrite(m, a, words), a, |words|)[i] == words[i]
    {
      OverwriteAt(m, a, words, a + i);
    }
  }

  /** Words elsewhere are untouched. */
  lemma OverwriteElsewhere(m: map<int, Word>, a: int, words: seq<Word>, b: int, n: nat)
    requires b + n <= a || a + |words| <= b
    ensures WordsAt(Overwrite(m, a, words), b, n) == WordsAt(m, b, n)
  {
    var r := WordsAt(Overwrite(m, a, words), b, n);
    forall i | 0 <= i < n
      ensures r[i] == WordsAt(m, b, n)[i]
    {
      OverwriteAt(m, a, words, b + i);
    }
  }

  /** A value handed to UpdateFromVariable, as its conversions to bool and to float64 see it. */
  datatype Variable = Variable(truth: bool, number: Quantity)

  function Updated(r: Registers, tag: Tag, v: Variable): Registers
  {
    match tag.space
    case Coil => r.(coils := r.coils[tag.address := v.truth])
    case Discrete => r.(discretes := r.discretes[tag.address := v.truth])
    case Holding =>
      r.(holding := Overwrite(r.holding, tag.address, EncodeToRegisters(v.number, tag.datatype_, tag.order)))
    case Input =>
      r.(input := Overwrite(r.input, tag.address, EncodeToRegisters(v.number, tag.datatype_, tag.order)))
  }

  function WordsOf(r: Registers, tag: Tag): (words: seq<Word>)
    requires tag.space in {Holding, Input}
    ensures |words| == RegisterCount(tag.datatype_)
  {
    WordsAt(if tag.space == Input then r.input else r.holding, tag.address, RegisterCount(tag.datatype_))
  }

  /** The typed value at a tag's own address. */
  function TypedValue(r: Registers, tag: Tag): Value {
    match tag.space
    case Coil => Bool(BitAt(r.coils, tag.address))
    case Discrete => Bool(BitAt(r.discretes, tag.address))
    case _ => DecodeFromRegisters(WordsOf(r, tag), tag.datatype_, tag.order)
  }

  /** The addresses a tag occupies in its space. */
  function Width(tag: Tag): nat {
    if tag.space in {Coil, Discrete} then 1 else RegisterCount(tag.datatype_)
  }

  predicate Disjoint(s: Tag, t: Tag) {
    s.space != t.space || s.address + Width(s) <= t.address || t.address + Width(t) <= s.address
  }

  lemma UpdatedWords(r: Registers, tag: Tag, v: Variable)
    requires tag.space in {Holding, Input}
    ensures WordsOf(Updated(r, tag, v), tag) == EncodeToRegisters(v.number, tag.datatype_, tag.order)
  {
    var words := EncodeToRegisters(v.number, tag.datatype_, tag.order);
    OverwriteRead(if tag.space == Input then r.input else r.holding, tag.address, words);
  }

  /** An update is read back as the value meant. */
  lemma UpdateReadsBack(r: Registers, tag: Tag, v: Variable)
    ensures TypedValue(Updated(r, tag, v), tag) ==
            if tag.space in {Coil, Discrete} then Bool(v.truth) else Stored(v.number, tag.datatype_)
  {
    if tag.space in {Holding, Input} {
      UpdatedWords(r, tag, v);
      ServerRoundTrip(v.number, tag.datatype_, tag.order);
    }
  }

  /** An update leaves the value of every tag it does not overlap as it was. */
  lemma UpdateElsewhere(r: Registers, tag: Tag, v: Variable, other: Tag)
    requires Disjoint(tag, other)
    ensures TypedValue(Updated(r, tag, v), other) == TypedValue(r, other)
  {
    if tag.space in {Holding, Input} && other.space == tag.space {
      var words := EncodeToRegisters(v.number, tag.datatype_, tag.order);
      OverwriteElsewhere(if tag.space == Input then r.input else r.holding, tag.address, words,
                         other.address, RegisterCount(other.datatype_));
    }
  }

  class RegisterStore {
    var coils: map<int, bool>
    var discretes: map<int, bool>
    var holding: map<int, Word>
    var input: map<int, Word>
    var tagsByVariable: map<string, Tag>
    var tagsByAddress: map<(FunctionName, int), Tag>

    function Contents(): Registers
      reads this
    {
      Registers(coils, discretes, holding, input)
    }

    constructor ()
      ensures Contents() == Registers(map[], map[], map[], map[]) && tagsByVariable == map[] && tagsByAddress == map[]
    {
      coils, discretes, holding, input := map[], map[], map[], map[];
      tagsByVariable, tagsByAddress := map[], map[];
    }

    method RegisterTag(tag: Tag)
      modifies this`tagsByVariable, this`tagsByAddress
      ensures tagsByVariable == old(tagsByVariable)[tag.id := tag]
      ensures tagsByAddress == old(tagsByAddress)[(tag.fc, tag.address) := tag]
    {
      tagsByVariable := tagsByVariable[tag.id := tag];
      tagsByAddress := tagsByAddress[(tag.fc, tag.address) := tag];
    }

    method UpdateFromVariable(id: string, v: Variable) returns (ok: bool)
      modifies this`coils, this`discretes, this`holding, this`input
      ensures ok <==> id in tagsByVariable
      ensures Contents() == if ok then Updated(old(Contents()), tagsByVariable[id], v) else old(Contents())
    {
      if id !in tagsByVariable {
        return false;
      }
      var tag := tagsByVariable[id];
      match tag.space {
        case Coil => coils := coils[tag.address := v.truth];
        case Discrete => discretes := discretes[tag.address := v.truth];
        case Holding => holding := WriteWords(holding, tag.address, EncodeToRegisters(v.number, tag.datatype_, tag.order));
        case Input => input := WriteWords(input, tag.address, EncodeToRegisters(v.number, tag.datatype_, tag.order));
      }
      ok := true;
    }

    method WriteWords(store: map<int, Word>, address: int, words: seq<Word>) returns (r: map<int, Word>)
      ensures r == Overwrite(store, address, words)
    {
      r := store;
      for i := 0 to |words|
        invariant r == Overwrite(store, address, words[..i])
      {
        OverwriteNext(store, address, words, i);
        r := r[address + i := words[i]];
      }
      assert words[..|words|] == words;
    }

    /** The value of the tag registered under the name and address, read as its data type. */
    method ReadTypedValue(fc: FunctionName, address: int) returns (r: Option<Value>)
      ensures r.Some? <==> (fc, address) in tagsByAddress
      ensures r.Some? ==> r.value == TypedValue(Contents(), tagsByAddress[(fc, address)].(fc := fc, address := address))
    {
      if (fc, address) !in tagsByAddress {
        return None;
      }
      var tag := tagsByAddress[(fc, address)];
      if fc == Named(Coil) {
        return Some(Bool(BitAt(coils, address)));
      }
      if fc == Named(Discrete) {
        return Some(Bool(BitAt(discretes, address)));
      }
      var store := if fc == Named(Input) then input else holding;
      var count := RegisterCount(tag.datatype_);
      var words: seq<Word> := [];
      for i := 0 to count
        invariant words == WordsAt(store, address, i)
      {
        words := words + [WordAt(store, address + i)];
      }
      r := Some(DecodeFromRegisters(words, tag.datatype_, tag.order));
    }
  }
}
