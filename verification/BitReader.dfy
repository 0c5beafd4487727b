/** Reading bits from a byte stream, and the Exp-Golomb codes of section 9.1 of ITU-T H.264. */
module BitReader {
  import Arithmetic
  import opened BitMask
  import opened Common

  /** The outcome of reading from the front of a bit string: a value and the bits behind it. */
  datatype Parse<+T> = Fail | Ok(value: T, rest: seq<bool>) {
    predicate IsFailure() { Fail? }
    function PropagateFailure<U>(): Parse<U>
      requires Fail?
    {
      Fail
    }
    function Extract(): (T, seq<bool>)
      requires Ok?
    {
      (value, rest)
    }
  }

  // ---------------------------------------------------------------- fixed-length fields

  /** The number a bit string denotes, most significant bit first. */
  function Number(bits: seq<bool>): (v: nat)
    ensures v < Pow2(|bits|)
  {
    if bits == [] then 0
    else 2 * Number(bits[..|bits| - 1]) + if bits[|bits| - 1] then 1 else 0
  }

  /** The n-bit representation of a number. */
  function ToBits(v: nat, n: nat): (r: seq<bool>)
    ensures |r| == n
  {
    if n == 0 then [] else ToBits(v / 2, n - 1) + [v % 2 == 1]
  }

  lemma {:induction false} NumberOfToBits(v: nat, n: nat)
    requires v < Pow2(n)
    ensures Number(ToBits(v, n)) == v
  {
    if n > 0 {
      NumberOfToBits(v / 2, n - 1);
      assert ToBits(v, n)[..n - 1] == ToBits(v / 2, n - 1);
    }
  }

  lemma {:induction false} ToBitsOfNumber(bits: seq<bool>)
    ensures ToBits(Number(bits), |bits|) == bits
  {
    if bits != [] {
      var n := |bits| - 1;
      ToBitsOfNumber(bits[..n]);
      assert bits == bits[..n] + [bits[n]];
    }
  }

  /** Bit j of the representation is worth 2 to the n - 1 - j. */
  lemma {:induction false} ToBitsAt(v: nat, n: nat, j: nat)
    requires j < n
    ensures ToBits(v, n)[j] <==> v / Pow2(n - 1 - j) % 2 == 1
  {
    if j < n - 1 {
      ToBitsAt(v / 2, n - 1, j);
      HalfThenDivide(v, Pow2(n - 2 - j));
    }
  }

  lemma HalfThenDivide(v: nat, m: nat)
    requires m > 0
    ensures v / 2 / m == v / (2 * m)
  {
    var h := v / 2;
    var q, r := h / m, h % m;
    assert h == q * m + r;
    assert v == q * (2 * m) + (2 * r + v % 2);
    Arithmetic.DivModUnique(v, q, 2 * r + v % 2, 2 * m);
  }

  function ReadBits(bits: seq<bool>, n: nat): Parse<nat> {
    if n > |bits| then Fail else Ok(Number(bits[..n]), bits[n..])
  }

  lemma ReadBitsBack(v: nat, n: nat, rest: seq<bool>)
    requires v < Pow2(n)
    ensures ReadBits(ToBits(v, n) + rest, n) == Ok(v, rest)
  {
    NumberOfToBits(v, n);
    assert (ToBits(v, n) + rest)[..n] == ToBits(v, n);
    assert (ToBits(v, n) + rest)[n..] == rest;
  }

  lemma ReadFlagBack(b: bool, rest: seq<bool>)
    ensures ReadBits([b] + rest, 1) == Ok(if b then 1 else 0, rest)
  {
    assert ([b] + rest)[..1] == [b] && ([b] + rest)[1..] == rest;
    var one := [b];
    assert one[..|one| - 1] == [] && Number(one) == if b then 1 else 0;
  }

  // ---------------------------------------------------------------- Exp-Golomb codes

  const MAX_ZEROS := 31

  /** The largest value an unsigned code of at most 31 leading zeros denotes, plus one. */
  const UE_LIMIT := 0xFFFF_FFFF

  function LeadingZeros(bits: seq<bool>): (z: nat)
    ensures z <= |bits|
    ensures z < |bits| ==> bits[z]
    ensures forall i :: 0 <= i < z ==> !bits[i]
  {
    if bits == [] || bits[0] then 0 else 1 + LeadingZeros(bits[1..])
  }

  /** ue(v): codeNum = 2^z - 1 + read_bits(z) behind z zeros and a one. */
  function ReadUE(bits: seq<bool>): Parse<nat> {
    var z := LeadingZeros(bits);
    if z == |bits| || z > MAX_ZEROS then Fail
    else
      var (x, rest) :- ReadBits(bits[z + 1..], z);
      Ok(x + Pow2(z) - 1, rest)
  }

  /** se(v): code numbers alternate between positive and negative values. */
  function SignedOf(k: nat): int {
    if k % 2 == 1 then (k + 1) / 2 else -(k / 2)
  }

  function CodeOf(v: int): nat {
    if v > 0 then 2 * v - 1 else -2 * v
  }

  lemma SignedOfCode(v: int)
    ensures SignedOf(CodeOf(v)) == v
  {
  }

  function ReadSE(bits: seq<bool>): Parse<int> {
    var (k, rest) :- ReadUE(bits);
    Ok(SignedOf(k), rest)
  }

  function Zeros(n: nat): (r: seq<bool>)
    ensures |r| == n && forall i :: 0 <= i < n ==> !r[i]
  {
    if n == 0 then [] else [false] + Zeros(n - 1)
  }

  /** The number of bits behind the leading one of a positive number. */
  function Log2(v: nat): (z: nat)
    requires v > 0
    ensures Pow2(z) <= v < 2 * Pow2(z)
  {
    if v == 1 then 0 else 1 + Log2(v / 2)
  }

  function WriteUE(v: nat): seq<bool> {
    var z := Log2(v + 1);
    Zeros(z) + [true] + ToBits(v + 1 - Pow2(z), z)
  }

  function WriteSE(v: int): seq<bool> {
    WriteUE(CodeOf(v))
  }

  lemma {:induction false} LeadingZerosOf(z: nat, rest: seq<bool>)
    ensures LeadingZeros(Zeros(z) + ([true] + rest)) == z
  {
    var bits := Zeros(z) + ([true] + rest);
    assert bits[z];
    if z > 0 {
      LeadingZerosOf(z - 1, rest);
      assert bits[1..] == Zeros(z - 1) + ([true] + rest);
    }
  }

  lemma {:induction false} Pow2Monotone(a: nat, b: nat)
    requires a <= b
    ensures Pow2(a) <= Pow2(b)
  {
    if a < b {
      Pow2Monotone(a, b - 1);
    }
  }

  lemma ShortCode(v: nat)
    requires v < UE_LIMIT
    ensures Log2(v + 1) <= MAX_ZEROS
  {
    if Log2(v + 1) > MAX_ZEROS {
      Pow2Monotone(32, Log2(v + 1));
      Pow2At32();
    }
  }

  /** Reading undoes writing, and stays in step with what follows. */
  lemma ReadUEBack(v: nat, rest: seq<bool>)
    requires v < UE_LIMIT
    ensures ReadUE(WriteUE(v) + rest) == Ok(v, rest)
  {
    var z := Log2(v + 1);
    var x := v + 1 - Pow2(z);
    var bits := WriteUE(v) + rest;
    assert bits == Zeros(z) + ([true] + (ToBits(x, z) + rest));
    ShortCode(v);
    LeadingZerosOf(z, ToBits(x, z) + rest);
    assert bits[z + 1..] == ToBits(x, z) + rest;
    ReadBitsBack(x, z, rest);
  }

  lemma ReadSEBack(v: int, rest: seq<bool>)
    requires CodeOf(v) < UE_LIMIT
    ensures ReadSE(WriteSE(v) + rest) == Ok(v, rest)
    ensures ReadUE(WriteSE(v) + rest) == Ok(CodeOf(v), rest)
  {
    ReadUEBack(CodeOf(v), rest);
    SignedOfCode(v);
  }

  /** The first codes of tables 9-2 and 9-3. */
  lemma FirstCodes()
    ensures WriteUE(0) == [true] && WriteUE(1) == [false, true, false] && WriteUE(2) == [false, true, true]
    ensures WriteUE(3) == [false, false, true, false, false]
    ensures SignedOf(0) == 0 && SignedOf(1) == 1 && SignedOf(2) == -1 && SignedOf(3) == 2 && SignedOf(4) == -2
  {
    assert Log2(1) == 0 && Log2(2) == 1 && Log2(3) == 1 && Log2(4) == 2;
    assert ToBits(0, 1) == [false] && ToBits(1, 1) == [true] && ToBits(0, 2) == [false, false];
    assert Zeros(1) == [false] && Zeros(2) == [false, false];
  }

  // ---------------------------------------------------------------- bits and bytes

  /** The bits of a byte string, most significant bit of each byte first. */
  function BitsOf(data: seq<byte>): (r: seq<bool>)
    ensures |r| == 8 * |data|
  {
    if data == [] then [] else ToBits(data[0], 8) + BitsOf(data[1..])
  }

  /** Eight bits from bit 8i on are byte i. */
  lemma {:induction false} ByteInBits(data: seq<byte>, i: nat)
    requires i < |data|
    ensures BitsOf(data)[8 * i..8 * i + 8] == ToBits(data[i], 8)
  {
    if i > 0 {
      ByteInBits(data[1..], i - 1);
      assert BitsOf(data)[8 * i..8 * i + 8] == BitsOf(data[1..])[8 * (i - 1)..8 * (i - 1) + 8];
    }
  }

  /** Bit j of byte i, counted from the most significant one, is bit 8i + j. */
  lemma BitOfByte(data: seq<byte>, i: nat, j: nat)
    requires i < |data| && j < 8
    ensures BitsOf(data)[8 * i + j] <==> data[i] as nat / Pow2(7 - j) % 2 == 1
  {
    ByteInBits(data, i);
    ToBitsAt(data[i], 8, j);
    assert BitsOf(data)[8 * i + j] == BitsOf(data)[8 * i..8 * i + 8][j];
  }

  /** Packs bits into bytes. */
  function BytesOf(bits: seq<bool>): (r: seq<byte>)
    requires |bits| % 8 == 0
    ensures 8 * |r| == |bits|
  {
    if bits == [] then []
    else
      assert Pow2(8) == 256;
      [Number(bits[..8])] + BytesOf(bits[8..])
  }

  lemma {:induction false} BitsOfBytes(bits: seq<bool>)
    requires |bits| % 8 == 0
    ensures BitsOf(BytesOf(bits)) == bits
  {
    if bits != [] {
      BitsOfBytes(bits[8..]);
      ToBitsOfNumber(bits[..8]);
      assert BytesOf(bits)[1..] == BytesOf(bits[8..]);
    }
  }

  /** The bits that end a parameter set: a one, and zeros up to the next byte. */
  function TrailingBits(n: nat): (r: seq<bool>)
    ensures r != [] && r[0] && (n + |r|) % 8 == 0 && |r| <= 8
  {
    [true] + Zeros(7 - n % 8)
  }

  // ---------------------------------------------------------------- the reader

  /** A cursor over the bits of a buffer. */
  class Reader {
    const bits: seq<bool>
    var pos: nat

    ghost predicate Valid()
      reads this
    {
      pos <= |bits|
    }

    function Remaining(): seq<bool>
      reads this
      requires Valid()
    {
      bits[pos..]
    }

    constructor (data: seq<byte>)
      ensures Valid() && Remaining() == BitsOf(data)
    {
      bits := BitsOf(data);
      pos := 0;
    }

    /** An operation did what a reading function says: the value and the cursor agree with it. */
    ghost predicate Did<T(!new)>(parse: Parse<T>, r: Option<T>)
      reads this
    {
      && Valid()
      && match parse
         case Ok(v, rest) => r == Some(v) && Remaining() == rest
         case Fail => r.None?
    }

    method GetBits(n: nat) returns (r: Option<nat>)
      requires Valid()
      modifies this
      ensures r.None? ==> pos == old(pos)
      ensures Did(ReadBits(old(Remaining()), n), r)
    {
      if n > |bits| - pos {
        return None;
      }
      ghost var start := Remaining();
      var value := 0;
      for i := 0 to n
        invariant Valid() && pos == old(pos) + i && pos + (n - i) <= |bits|
        invariant value == Number(start[..i])
      {
        assert start[..i + 1][..i] == start[..i];
        value := 2 * value + if bits[pos] then 1 else 0;
        pos := pos + 1;
      }
      r := Some(value);
    }

    method GetBit() returns (r: Option<nat>)
      requires Valid()
      modifies this
      ensures Valid()
      ensures if old(pos) == |bits| then r.None? && pos == old(pos)
              else r == Some(if bits[old(pos)] then 1 else 0) && pos == old(pos) + 1
    {
      if pos < |bits| {
        ReadFlagBack(bits[pos], bits[pos + 1..]);
        assert Remaining() == [bits[pos]] + bits[pos + 1..];
      }
      hide Number, Pow2;
      r := GetBits(1);
      if r.Some? {
        assert |Remaining()| == |bits| - old(pos) - 1;
      }
    }

    method ParseUE() returns (r: Option<nat>)
      requires Valid()
      modifies this
      ensures Did(ReadUE(old(Remaining())), r)
    {
      hide Number, Pow2, LeadingZeros, ReadBits;
      ghost var start := Remaining();
      ghost var z := LeadingZeros(start);
      var numZeroes := 0;
      var b :- GetBit();
      while b == 0
        invariant Valid() && numZeroes <= z
        invariant pos == old(pos) + numZeroes + 1
        invariant b == if start[numZeroes] then 1 else 0
        decreases |bits| - pos
      {
        numZeroes := numZeroes + 1;
        b :- GetBit();
      }
      assert numZeroes == z;
      if numZeroes > MAX_ZEROS {
        return None;
      }
      assert Remaining() == start[numZeroes + 1..];
      var x :- GetBits(numZeroes);
      r := Some(x + Pow2(numZeroes) - 1);
    }

    method ParseSE() returns (r: Option<int>)
      requires Valid()
      modifies this
      ensures Did(ReadSE(old(Remaining())), r)
    {
      var k :- ParseUE();
      var codeNum: int := k;
      r := Some(if codeNum % 2 == 1 then (codeNum + 1) / 2 else -(codeNum / 2));
    }
  }
}
