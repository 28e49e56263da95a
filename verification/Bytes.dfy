/** Bytes, 16-bit words and bits as integers; multi-byte numbers are big-endian. */
module Bytes {
  type byte = b: int | 0 <= b < 0x100
  type u16 = w: int | 0 <= w < 0x1_0000
  type u32 = n: int | 0 <= n < 0x1_0000_0000
  type u64 = n: int | 0 <= n < 0x1_0000_0000_0000_0000

  /** What conversion to a byte keeps of a number. */
  function LowByte(n: nat): byte {
    if n < 256 then n else n % 256
  }

  // ----- words -----

  function Get16(hi: byte, lo: byte): u16 {
    hi * 256 + lo
  }

  function Put16(w: u16): (r: seq<byte>)
    ensures |r| == 2 && Get16(r[0], r[1]) == w
  {
    [w / 256, w % 256]
  }

  // ----- numbers of any width -----

  function Pow256(k: nat): nat {
    if k == 0 then 1 else 256 * Pow256(k - 1)
  }

  /** The k low bytes of n. */
  function BigEndian(n: nat, k: nat): (r: seq<byte>)
    ensures |r| == k
  {
    if k == 0 then [] else BigEndian(n / 256, k - 1) + [n % 256]
  }

  function FromBytes(s: seq<byte>): (n: nat) {
    if s == [] then 0 else FromBytes(s[..|s| - 1]) * 256 + s[|s| - 1]
  }

  /** A number that fits in k bytes is recovered from them. */
  lemma {:induction false} FromBigEndian(n: nat, k: nat)
    requires n < Pow256(k)
    ensures FromBytes(BigEndian(n, k)) == n
  {
    if k > 0 {
      var s := BigEndian(n, k);
      var prefix := BigEndian(n / 256, k - 1);
      assert s[..k - 1] == prefix && s[k - 1] == n % 256;
      FromBigEndian(n / 256, k - 1);
      assert FromBytes(s) == FromBytes(prefix) * 256 + n % 256;
    }
  }

  /** Byte strings of one length that mean the same number are the same. */
  lemma {:induction false} FromBytesInjective(s: seq<byte>, t: seq<byte>)
    requires |s| == |t| && FromBytes(s) == FromBytes(t)
    ensures s == t
  {
    if s != [] {
      FromBytesInjective(s[..|s| - 1], t[..|t| - 1]);
      assert s == s[..|s| - 1] + [s[|s| - 1]] && t == t[..|t| - 1] + [t[|t| - 1]];
    }
  }

  // ----- chunks -----

  function Flatten(chunks: seq<seq<byte>>): seq<byte> {
    if chunks == [] then [] else chunks[0] + Flatten(chunks[1..])
  }

  // ----- registers -----

  /** A 16-bit register: its two bytes. */
  datatype Word = Word(hi: byte, lo: byte) {
    function Bytes(): seq<byte> {
      [hi, lo]
    }
  }

  /** The bytes of consecutive registers. */
  function WordBytes(words: seq<Word>): (r: seq<byte>)
    ensures |r| == 2 * |words|
  {
    if words == [] then [] else words[0].Bytes() + WordBytes(words[1..])
  }

  /** The registers whose bytes are given. */
  function BytesWords(s: seq<byte>): (r: seq<Word>)
    requires |s| % 2 == 0
    ensures |r| == |s| / 2
  {
    if s == [] then [] else [Word(s[0], s[1])] + BytesWords(s[2..])
  }

  lemma {:induction false} WordsOfBytes(words: seq<Word>)
    ensures BytesWords(WordBytes(words)) == words
  {
    if words != [] {
      assert WordBytes(words)[2..] == WordBytes(words[1..]);
      WordsOfBytes(words[1..]);
    }
  }

  lemma {:induction false} BytesOfWords(s: seq<byte>)
    requires |s| % 2 == 0
    ensures WordBytes(BytesWords(s)) == s
  {
    if s != [] {
      BytesOfWords(s[2..]);
      assert BytesWords(s)[1..] == BytesWords(s[2..]);
    }
  }

  lemma {:induction false} WordBytesAppend(a: seq<Word>, b: seq<Word>)
    ensures WordBytes(a + b) == WordBytes(a) + WordBytes(b)
  {
    if a == [] {
      assert a + b == b;
    } else {
      assert (a + b)[1..] == a[1..] + b;
      WordBytesAppend(a[1..], b);
    }
  }

  lemma WordBytesSplit(words: seq<Word>, i: nat)
    requires i <= |words|
    ensures WordBytes(words)[..2 * i] == WordBytes(words[..i]) && WordBytes(words)[2 * i..] == WordBytes(words[i..])
  {
    assert words == words[..i] + words[i..];
    WordBytesAppend(words[..i], words[i..]);
  }

  /** The bytes of a run of words are a run of the bytes. */
  lemma WordBytesSlice(words: seq<Word>, i: nat, n: nat)
    requires i + n <= |words|
    ensures WordBytes(words)[2 * i..][..2 * n] == WordBytes(words[i..][..n])
  {
    WordBytesSplit(words, i);
    WordBytesSplit(words[i..], n);
  }

  // ----- bits, least significant first -----

  predicate Bit(b: nat, i: nat)
    decreases i
  {
    if i == 0 then b % 2 == 1 else Bit(b / 2, i - 1)
  }

  /** Bit k alone makes the number two to the k. */
  lemma {:induction false} BitOfPower(k: nat, i: nat)
    ensures Bit(Pow2(k), i) <==> i == k
    decreases k
  {
    if k == 0 {
      if i > 0 {
        BitOfZero(i - 1);
      }
    } else if i > 0 {
      BitOfPower(k - 1, i - 1);
    }
  }

  function SetBit(b: nat, i: nat): nat
    decreases i
  {
    if i == 0 then (if b % 2 == 1 then b else b + 1) else b % 2 + 2 * SetBit(b / 2, i - 1)
  }

  function Pow2(n: nat): nat {
    if n == 0 then 1 else 2 * Pow2(n - 1)
  }

  /** The number whose bits are given. */
  function Pack(bits: seq<bool>): (b: nat)
    ensures b < Pow2(|bits|)
  {
    if bits == [] then 0 else (if bits[0] then 1 else 0) + 2 * Pack(bits[1..])
  }

  lemma {:induction false} BitOfPack(bits: seq<bool>, i: nat)
    ensures Bit(Pack(bits), i) <==> i < |bits| && bits[i]
    decreases i
  {
    if bits == [] {
      BitOfZero(i);
    } else if i > 0 {
      BitOfPack(bits[1..], i - 1);
    }
  }

  lemma {:induction false} BitOfZero(i: nat)
    ensures !Bit(0, i)
    decreases i
  {
    if i > 0 {
      BitOfZero(i - 1);
    }
  }

  /** A number below 2^n is given by its first n bits. */
  lemma {:induction false} BitsDetermine(a: nat, b: nat, n: nat)
    requires a < Pow2(n) && b < Pow2(n)
    requires forall i: nat | i < n :: Bit(a, i) == Bit(b, i)
    ensures a == b
    decreases n
  {
    if n > 0 {
      forall i: nat | i < n - 1
        ensures Bit(a / 2, i) == Bit(b / 2, i)
      {
        assert Bit(a, i + 1) == Bit(b, i + 1);
      }
      BitsDetermine(a / 2, b / 2, n - 1);
      assert Bit(a, 0) == Bit(b, 0);
    }
  }

  /** Setting the next bit appends true. */
  lemma {:induction false} SetNextBit(bits: seq<bool>)
    ensures SetBit(Pack(bits), |bits|) == Pack(bits + [true])
  {
    if bits != [] {
      var low := if bits[0] then 1 else 0;
      assert Pack(bits) / 2 == Pack(bits[1..]) && Pack(bits) % 2 == low;
      assert (bits + [true])[1..] == bits[1..] + [true];
      SetNextBit(bits[1..]);
    }
  }

  /** Leaving the next bit clear appends false. */
  lemma {:induction false} LeaveNextBit(bits: seq<bool>)
    ensures Pack(bits) == Pack(bits + [false])
  {
    if bits != [] {
      assert (bits + [false])[1..] == bits[1..] + [false];
      LeaveNextBit(bits[1..]);
    }
  }

  lemma {:induction false} Pow2Monotone(m: nat, n: nat)
    requires m <= n
    ensures Pow2(m) <= Pow2(n)
    decreases n
  {
    if m < n {
      Pow2Monotone(m, n - 1);
    }
  }

  lemma Pow2Of8()
    ensures Pow2(8) == 256
  {
    assert Pow2(4) == 16;
  }
}
