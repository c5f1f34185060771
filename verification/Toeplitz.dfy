/** The Toeplitz receive-side-scaling hash (sfxge_hash.c).

    The reference definition slides a 32-bit window over the key one bit at a time and XORs the
    window in for every set input bit.  The driver looks whole bytes up in a table that
    toeplitz_cache_init fills once.  The two agree on every key and input. */
module Toeplitz {

  const KEY_LEN := 40
  const INPUT_MAX := 36
  const BYTE_VALUES := 256

  type Key = k: seq<bv8> | |k| == KEY_LEN witness seq(40, _ => 0)

  // ---------------------------------------------------------------- reference definition

  /** Bit number b of a byte string, the most significant bit of byte 0 being bit 0. */
  predicate Bit(s: seq<bv8>, b: nat)
    requires b < 8 * |s|
  {
    ByteBit(s[b / 8], b % 8)
  }

  /** Bit j of a byte, most significant first. */
  predicate ByteBit(v: bv8, j: nat)
    requires j < 8
  {
    v & MaskAt(j) != 0
  }

  function MaskAt(j: nat): bv8
    requires j < 8
  {
    if j == 0 then 0x80 else MaskAt(j - 1) >> 1
  }

  /** The n key bits that start at bit b, read as one binary number (its low 32 bits). */
  function Window(key: Key, b: nat, n: nat): bv32
    requires b + n <= 8 * KEY_LEN
  {
    if n == 0 then 0 else Append(Window(key, b, n - 1), Bit(key, b + n - 1))
  }

  function Append(w: bv32, bit: bool): bv32 {
    (w << 1) | (if bit then 1 else 0)
  }

  function Xor(x: bv32, y: bv32): bv32 {
    x ^ y
  }

  /** XOR of the 32-bit key windows at the set bits among the first n bits of the input. */
  function BitwiseHash(key: Key, input: seq<bv8>, n: nat): bv32
    requires |input| <= INPUT_MAX && n <= 8 * |input|
  {
    if n == 0 then 0
    else Xor(BitwiseHash(key, input, n - 1), if Bit(input, n - 1) then Window(key, n - 1, 32) else 0)
  }

  function ReferenceHash(key: Key, input: seq<bv8>): bv32
    requires |input| <= INPUT_MAX
  {
    BitwiseHash(key, input, 8 * |input|)
  }

  // ---------------------------------------------------------------- the sliding window

  function OneAt(n: nat): bv32
    requires n >= 1
  {
    if n == 1 then 1 else OneAt(n - 1) << 1
  }

  lemma OneLeavesTheWord()
    ensures OneAt(33) == 0
  {
    assert OneAt(5) == 0x10;
    assert OneAt(9) == 0x100;
    assert OneAt(13) == 0x1000;
    assert OneAt(17) == 0x1_0000;
    assert OneAt(21) == 0x10_0000;
    assert OneAt(25) == 0x100_0000;
    assert OneAt(29) == 0x1000_0000;
    assert OneAt(31) == 0x4000_0000;
  }

  /** A window is its first bit in front of the window that starts one bit later. */
  lemma {:induction false} WindowFromTheLeft(key: Key, b: nat, n: nat)
    requires n >= 1 && b + n <= 8 * KEY_LEN
    ensures Window(key, b, n) == Or(if Bit(key, b) then OneAt(n) else 0, Window(key, b + 1, n - 1))
  {
    hide Append, Or, OneAt, ByteBit;
    var first := Bit(key, b);
    if n == 1 {
      assert Window(key, b, 0) == 0 && Window(key, b + 1, 0) == 0;
      AppendToNothing(first);
    } else {
      WindowFromTheLeft(key, b, n - 1);
      var rest := Window(key, b + 1, n - 2);
      var last := Bit(key, b + n - 1);
      assert Window(key, b, n) == Append(Window(key, b, n - 1), last);
      assert Window(key, b + 1, n - 1) == Append(rest, last);
      ShiftDistributes(first, n, rest, last);
    }
  }

  function Or(x: bv32, y: bv32): bv32 {
    x | y
  }

  lemma AppendToNothing(bit: bool)
    ensures Append(0, bit) == Or(if bit then OneAt(1) else 0, 0)
  {
  }

  lemma ShiftDistributes(first: bool, n: nat, y: bv32, bit: bool)
    requires n >= 2
    ensures Append(Or(if first then OneAt(n - 1) else 0, y), bit)
         == Or(if first then OneAt(n) else 0, Append(y, bit))
  {
    hide Append, Or;
    if first {
      ShiftOr(OneAt(n - 1), y, bit);
    } else {
      NothingOr(y);
      NothingOr(Append(y, bit));
    }
  }

  lemma ShiftOr(x: bv32, y: bv32, bit: bool)
    ensures Append(Or(x, y), bit) == Or(x << 1, Append(y, bit))
  {
    hide Append, Or;
    if bit {
      ShiftOrOne(x, y);
    } else {
      ShiftOrZero(x, y);
    }
  }

  lemma ShiftOrOne(x: bv32, y: bv32)
    ensures Append(Or(x, y), true) == Or(x << 1, Append(y, true))
  {
    assert ((x | y) << 1) | 1 == (x << 1) | ((y << 1) | 1);
  }

  lemma ShiftOrZero(x: bv32, y: bv32)
    ensures Append(Or(x, y), false) == Or(x << 1, Append(y, false))
  {
    assert ((x | y) << 1) | 0 == (x << 1) | ((y << 1) | 0);
  }

  lemma NothingOr(y: bv32)
    ensures Or(0, y) == y
  {
  }

  /** Sliding by one bit: shift left and bring in the next key bit, exactly what
      toeplitz_cache_init does to get key_bits[j] from key_bits[j - 1]. */
  lemma WindowSlides(key: Key, b: nat)
    requires b + 33 <= 8 * KEY_LEN
    ensures Window(key, b + 1, 32) == Append(Window(key, b, 32), Bit(key, b + 32))
  {
    hide Append, Or, OneAt, ByteBit;
    WindowFromTheLeft(key, b, 33);
    OneLeavesTheWord();
    NothingOr(Window(key, b + 1, 32));
  }

  function WithByte(w: bv32, v: bv8): bv32 {
    (w << 8) | (v as bv32)
  }

  lemma EightBitsAreAByte(w: bv32, v: bv8)
    ensures Append(Append(Append(Append(Append(Append(Append(Append(w,
              ByteBit(v, 0)), ByteBit(v, 1)), ByteBit(v, 2)), ByteBit(v, 3)),
              ByteBit(v, 4)), ByteBit(v, 5)), ByteBit(v, 6)), ByteBit(v, 7))
         == WithByte(w, v)
  {
    Masks();
  }

  lemma NextBit(key: Key, b: nat, n: nat, v: bv8, j: nat)
    requires j < 8 && b % 8 == 0 && n % 8 == 0 && b + n + 8 <= 8 * KEY_LEN && v == key[(b + n) / 8]
    ensures Window(key, b, n + j + 1) == Append(Window(key, b, n + j), ByteBit(v, j))
  {
    assert (b + n + j) / 8 == (b + n) / 8 && (b + n + j) % 8 == j;
  }

  /** Eight appended bits are one appended byte. */
  lemma WindowTakesAByte(key: Key, b: nat, n: nat)
    requires b % 8 == 0 && n % 8 == 0 && b + n + 8 <= 8 * KEY_LEN
    ensures Window(key, b, n + 8) == WithByte(Window(key, b, n), key[(b + n) / 8])
  {
    hide Append, ByteBit, Bit, Window, WithByte;
    var v := key[(b + n) / 8];
    NextBit(key, b, n, v, 0);
    NextBit(key, b, n, v, 1);
    NextBit(key, b, n, v, 2);
    NextBit(key, b, n, v, 3);
    NextBit(key, b, n, v, 4);
    NextBit(key, b, n, v, 5);
    NextBit(key, b, n, v, 6);
    NextBit(key, b, n, v, 7);
    EightBitsAreAByte(Window(key, b, n), v);
  }

  lemma NextMask(j: nat)
    ensures j < 7 ==> MaskAt(j + 1) == MaskAt(j) >> 1
  {
  }

  lemma Masks()
    ensures MaskAt(0) == 0x80 && MaskAt(1) == 0x40 && MaskAt(2) == 0x20 && MaskAt(3) == 0x10
    ensures MaskAt(4) == 0x08 && MaskAt(5) == 0x04 && MaskAt(6) == 0x02 && MaskAt(7) == 0x01
  {
    assert MaskAt(3) == 0x10;
    assert MaskAt(6) == 0x02;
  }

  /** XOR is a commutative group in which every element is its own inverse. */
  lemma XorLaws(x: bv32, y: bv32, z: bv32)
    ensures Xor(Xor(x, y), z) == Xor(x, Xor(y, z))
    ensures Xor(x, 0) == x && Xor(0, x) == x
  {
  }

  function BigEndian32(k: seq<bv8>): bv32
    requires |k| >= 4
  {
    (k[0] as bv32 << 24) | (k[1] as bv32 << 16) | (k[2] as bv32 << 8) | (k[3] as bv32)
  }

  /** BE_IN32 reads the window that starts on a byte boundary. */
  lemma WindowAtByte(key: Key, i: nat)
    requires i + 4 <= KEY_LEN
    ensures Window(key, 8 * i, 32) == BigEndian32(key[i..])
  {
    hide WithByte, Window;
    WindowTakesAByte(key, 8 * i, 0);
    WindowTakesAByte(key, 8 * i, 8);
    WindowTakesAByte(key, 8 * i, 16);
    WindowTakesAByte(key, 8 * i, 24);
    NoWindow(key, 8 * i);
    FourBytes(key[i..]);
  }

  lemma NoWindow(key: Key, b: nat)
    requires b <= 8 * KEY_LEN
    ensures Window(key, b, 0) == 0
  {
  }

  lemma FourBytes(s: seq<bv8>)
    requires |s| >= 4
    ensures BigEndian32(s) == WithByte(WithByte(WithByte(WithByte(0, s[0]), s[1]), s[2]), s[3])
  {
  }

  // ---------------------------------------------------------------- the table

  /** XOR of the windows at the set bits among the first j bits of byte value v at position i. */
  function ByteHash(key: Key, i: nat, v: bv8, j: nat): bv32
    requires i < INPUT_MAX && j <= 8
  {
    if j == 0 then 0
    else Xor(ByteHash(key, i, v, j - 1), if ByteBit(v, j - 1) then Window(key, 8 * i + j - 1, 32) else 0)
  }

  function CacheEntry(key: Key, e: nat): bv32
    requires e < INPUT_MAX * BYTE_VALUES
  {
    ByteHash(key, e / BYTE_VALUES, (e % BYTE_VALUES) as bv8, 8)
  }

  ghost predicate IsCache(cache: seq<bv32>, key: Key) {
    |cache| == INPUT_MAX * BYTE_VALUES && forall e :: 0 <= e < |cache| ==> cache[e] == CacheEntry(key, e)
  }

  /** The window one bit further inside a byte. */
  lemma NextWindow(key: Key, i: nat, j: nat, mask: bv8)
    requires i < INPUT_MAX && 1 <= j < 8 && mask == MaskAt(j - 1)
    ensures Window(key, 8 * i + j, 32) == Append(Window(key, 8 * i + j - 1, 32), key[i + 4] & mask != 0)
    ensures mask >> 1 == MaskAt(j)
  {
    hide Window, MaskAt, Append;
    var b := 8 * i + j - 1;
    assert (b + 32) / 8 == i + 4 && (b + 32) % 8 == j - 1;
    WindowSlides(key, b);
    NextMask(j - 1);
  }

  method ShiftIn(w: bv32, bit: bool) returns (r: bv32)
    ensures r == Append(w, bit)
  {
    r := w << 1;
    if bit {
      r := r | 1;
    }
  }

  method KeyBits(key: Key, i: nat) returns (keyBits: array<bv32>)
    requires i < INPUT_MAX
    ensures fresh(keyBits) && keyBits.Length == 8
    ensures forall j :: 0 <= j < 8 ==> keyBits[j] == Window(key, 8 * i + j, 32)
  {
    hide Window, MaskAt, BigEndian32, Append;
    keyBits := new bv32[8];
    keyBits[0] := BigEndian32(key[i..]);
    WindowAtByte(key, i);
    Masks();
    var j, mask := 1, 0x80;
    while j < 8
      invariant 1 <= j <= 8 && mask == MaskAt(j - 1)
      invariant forall m :: 0 <= m < j ==> keyBits[m] == Window(key, 8 * i + m, 32)
    {
      NextWindow(key, i, j, mask);
      keyBits[j] := ShiftIn(keyBits[j - 1], key[i + 4] & mask != 0);
      j, mask := j + 1, mask >> 1;
    }
  }

  method ByteEntry(keyBits: array<bv32>, ghost key: Key, ghost i: nat, v: bv8) returns (res: bv32)
    requires i < INPUT_MAX && keyBits.Length == 8
    requires forall j :: 0 <= j < 8 ==> keyBits[j] == Window(key, 8 * i + j, 32)
    ensures res == ByteHash(key, i, v, 8)
  {
    hide Xor, MaskAt, Window;
    Masks();
    res := 0;
    var j, mask := 0, 0x80;
    while j < 8
      invariant 0 <= j <= 8 && (j < 8 ==> mask == MaskAt(j))
      invariant res == ByteHash(key, i, v, j)
    {
      if v & mask != 0 {
        res := Xor(res, keyBits[j]);
      } else {
        XorLaws(res, 0, 0);
      }
      if j < 7 {
        NextMask(j);
      }
      j, mask := j + 1, mask >> 1;
    }
  }

  /** toeplitz_cache_init: the nested loops over input positions and byte values. */
  method CacheInit(key: Key) returns (cache: array<bv32>)
    ensures fresh(cache) && IsCache(cache[..], key)
  {
    cache := new bv32[INPUT_MAX * BYTE_VALUES];
    var i := 0;
    while i < INPUT_MAX
      invariant 0 <= i <= INPUT_MAX
      invariant forall e :: 0 <= e < i * BYTE_VALUES ==> cache[e] == CacheEntry(key, e)
    {
      var keyBits := KeyBits(key, i);
      var byte := 0;
      while byte < BYTE_VALUES
        invariant 0 <= byte <= BYTE_VALUES && fresh(keyBits) && keyBits != cache
        invariant forall j :: 0 <= j < 8 ==> keyBits[j] == Window(key, 8 * i + j, 32)
        invariant forall e :: 0 <= e < i * BYTE_VALUES + byte ==> cache[e] == CacheEntry(key, e)
      {
        var res := ByteEntry(keyBits, key, i, byte as bv8);
        var e := i * BYTE_VALUES + byte;
        assert e / BYTE_VALUES == i && e % BYTE_VALUES == byte;
        cache[e] := res;
        byte := byte + 1;
      }
      i := i + 1;
    }
  }

  // ---------------------------------------------------------------- hashing bytes

  /** Hash of the input bytes, taken as standing at positions pos, pos + 1, ... */
  function BytesHash(key: Key, input: seq<bv8>, pos: nat): bv32
    requires pos + |input| <= INPUT_MAX
  {
    if input == [] then 0
    else Xor(BytesHash(key, input[..|input| - 1], pos), ByteHash(key, pos + |input| - 1, input[|input| - 1], 8))
  }

  /** toeplitz_hash */
  method HashBytes(cache: array<bv32>, ghost key: Key, input: seq<bv8>, pos: nat) returns (hash: bv32)
    requires IsCache(cache[..], key) && pos + |input| <= INPUT_MAX
    ensures hash == BytesHash(key, input, pos)
  {
    hide Xor, ByteHash;
    hash := 0;
    var p, n := pos, 0;
    while n < |input|
      invariant 0 <= n <= |input| && p == pos + n
      invariant hash == BytesHash(key, input[..n], pos)
    {
      var e := p * BYTE_VALUES + input[n] as int;
      assert e / BYTE_VALUES == p && e % BYTE_VALUES == input[n] as int;
      assert cache[..][e] == CacheEntry(key, e);
      hash := Xor(hash, cache[e]);
      assert input[..n + 1][..n] == input[..n];
      p, n := p + 1, n + 1;
    }
    assert input[..n] == input;
  }

  /** The byte-by-byte sum of equation (2) is the bit-by-bit sum of equation (1). */
  lemma {:induction false} BytesAreBits(key: Key, input: seq<bv8>)
    requires |input| <= INPUT_MAX
    ensures BytesHash(key, input, 0) == ReferenceHash(key, input)
  {
    hide Xor, ByteHash, ByteBit, Window;
    if input != [] {
      var n := |input| - 1;
      var front := input[..n];
      BytesAreBits(key, front);
      PrefixBits(key, input, front, 8 * n);
      LastByteBits(key, input, 8);
    }
  }

  lemma {:induction false} PrefixBits(key: Key, s: seq<bv8>, t: seq<bv8>, n: nat)
    requires |s| <= INPUT_MAX && t <= s && n <= 8 * |t|
    ensures BitwiseHash(key, s, n) == BitwiseHash(key, t, n)
  {
    hide Xor, ByteBit, Window;
    if n != 0 {
      PrefixBits(key, s, t, n - 1);
      assert t[(n - 1) / 8] == s[(n - 1) / 8];
      assert Bit(s, n - 1) == Bit(t, n - 1);
    }
  }

  lemma {:induction false} LastByteBits(key: Key, s: seq<bv8>, j: nat)
    requires 0 < |s| <= INPUT_MAX && j <= 8
    ensures BitwiseHash(key, s, 8 * (|s| - 1) + j)
         == Xor(BitwiseHash(key, s, 8 * (|s| - 1)), ByteHash(key, |s| - 1, s[|s| - 1], j))
  {
    hide Xor, ByteBit, Window;
    var front := BitwiseHash(key, s, 8 * (|s| - 1));
    if j == 0 {
      XorLaws(front, 0, 0);
    } else {
      LastByteBits(key, s, j - 1);
      var b := 8 * (|s| - 1) + j - 1;
      assert b / 8 == |s| - 1 && b % 8 == j - 1;
      XorLaws(front, ByteHash(key, |s| - 1, s[|s| - 1], j - 1), if Bit(s, b) then Window(key, b, 32) else 0);
    }
  }

  lemma {:induction false} BytesHashAppend(key: Key, s: seq<bv8>, t: seq<bv8>, pos: nat)
    requires pos + |s| + |t| <= INPUT_MAX
    ensures BytesHash(key, s + t, pos) == Xor(BytesHash(key, s, pos), BytesHash(key, t, pos + |s|))
  {
    hide Xor, ByteHash;
    if t == [] {
      assert s + t == s;
      XorLaws(BytesHash(key, s, pos), 0, 0);
    } else {
      var n := |t| - 1;
      BytesHashAppend(key, s, t[..n], pos);
      XorLaws(BytesHash(key, s, pos), BytesHash(key, t[..n], pos + |s|), ByteHash(key, pos + |s| + n, t[n], 8));
      assert (s + t)[..|s + t| - 1] == s + t[..n];
    }
  }

  lemma {:induction false} ZeroByte(key: Key, i: nat, j: nat)
    requires i < INPUT_MAX && j <= 8
    ensures ByteHash(key, i, 0, j) == 0
  {
    if j != 0 {
      ZeroByte(key, i, j - 1);
    }
  }

  lemma {:induction false} ZeroBytes(key: Key, s: seq<bv8>, pos: nat)
    requires pos + |s| <= INPUT_MAX && forall k :: 0 <= k < |s| ==> s[k] == 0
    ensures BytesHash(key, s, pos) == 0
  {
    hide ByteHash;
    if s != [] {
      ZeroBytes(key, s[..|s| - 1], pos);
      ZeroByte(key, pos + |s| - 1, 8);
    }
  }

  /** sfxge_toeplitz_hash.  Ports are their two bytes in memory order.  Whether or not the ports
      are skipped, the result is the bitwise Toeplitz hash of the whole 4-tuple. */
  method Hash(cache: array<bv32>, ghost key: Key,
              srcAddr: seq<bv8>, srcPort: seq<bv8>, dstAddr: seq<bv8>, dstPort: seq<bv8>)
    returns (hash: bv32)
    requires IsCache(cache[..], key)
    requires |srcAddr| == |dstAddr| <= 16 && |srcPort| == |dstPort| == 2
    ensures hash == ReferenceHash(key, srcAddr + dstAddr + srcPort + dstPort)
  {
    hide Xor, BytesHash, ReferenceHash;
    var pos := 0;
    var h := HashBytes(cache, key, srcAddr, pos);
    hash := Xor(0, h);
    XorLaws(h, 0, 0);
    pos := pos + |srcAddr|;
    h := HashBytes(cache, key, dstAddr, pos);
    hash := Xor(hash, h);
    pos := pos + |dstAddr|;
    if srcPort != [0, 0] || dstPort != [0, 0] {
      h := HashBytes(cache, key, srcPort, pos);
      hash := Xor(hash, h);
      pos := pos + |srcPort|;
      h := HashBytes(cache, key, dstPort, pos);
      hash := Xor(hash, h);
    } else {
      ZeroBytes(key, srcPort, |srcAddr| + |dstAddr|);
      ZeroBytes(key, dstPort, |srcAddr| + |dstAddr| + 2);
      XorLaws(hash, 0, 0);
    }
    BytesHashAppend(key, srcAddr, dstAddr, 0);
    BytesHashAppend(key, srcAddr + dstAddr, srcPort, 0);
    BytesHashAppend(key, srcAddr + dstAddr + srcPort, dstPort, 0);
    BytesAreBits(key, srcAddr + dstAddr + srcPort + dstPort);
  }
}
