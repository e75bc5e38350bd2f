/** Bits packed into bytes, most significant bit first, and the writer and reader that move one bit at a time. */
module BitStreams {

  type Byte = b: nat | b < 256

  function Pow2(k: nat): (p: nat)
    ensures p >= 1
  {
    if k == 0 then 1 else 2 * Pow2(k - 1)
  }

  /** The n low bits of v, most significant first. */
  function ToBits(v: nat, n: nat): (s: seq<bool>)
    ensures |s| == n
  {
    if n == 0 then [] else ToBits(v / 2, n - 1) + [v % 2 == 1]
  }

  function FromBits(s: seq<bool>): nat {
    if s == [] then 0 else 2 * FromBits(s[..|s| - 1]) + if s[|s| - 1] then 1 else 0
  }

  lemma {:induction false} FromToBits(v: nat, n: nat)
    requires v < Pow2(n)
    ensures FromBits(ToBits(v, n)) == v
  {
    if n > 0 {
      FromToBits(v / 2, n - 1);
      assert ToBits(v, n)[..n - 1] == ToBits(v / 2, n - 1);
    }
  }

  lemma {:induction false} ToFromBits(s: seq<bool>)
    ensures FromBits(s) < Pow2(|s|) && ToBits(FromBits(s), |s|) == s
  {
    if s != [] {
      ToFromBits(s[..|s| - 1]);
      assert s == s[..|s| - 1] + [s[|s| - 1]];
    }
  }

  lemma HalveShift(v: nat, k: nat)
    ensures v / 2 / Pow2(k) == v / Pow2(k + 1)
  {
    var p := Pow2(k);
    var q, r := v / 2 / p, v / 2 % p;
    DivideUnique(v, 2 * p, q, 2 * r + v % 2);
  }

  lemma DivideUnique(v: nat, d: nat, q: nat, r: nat)
    requires d > 0 && v == q * d + r && r < d
    ensures v / d == q
  {
    var e := v / d;
    if e < q {
      SmallerQuotient(e, q, d);
    } else if q < e {
      SmallerQuotient(q, e, d);
    }
  }

  lemma {:induction false} SmallerQuotient(a: nat, b: nat, d: nat)
    requires a < b
    ensures a * d + d <= b * d
  {
    assert (b - 1) * d + d == b * d;
    if a + 1 < b {
      SmallerQuotient(a, b - 1, d);
    }
  }

  /** Shifting right by k and masking reads bit n - 1 - k of the n-bit expansion. */
  lemma {:induction false} ShiftReadsBit(v: nat, n: nat, k: nat)
    requires k < n
    ensures (v / Pow2(k) % 2 == 1) == ToBits(v, n)[n - 1 - k]
  {
    if k > 0 {
      ShiftReadsBit(v / 2, n - 1, k - 1);
      HalveShift(v, k - 1);
    }
  }

  /** The top bit comes first. */
  lemma {:induction false} TopBit(v: nat, n: nat)
    requires v < Pow2(n)
    ensures ToBits(v, n + 1) == [false] + ToBits(v, n) && ToBits(v + Pow2(n), n + 1) == [true] + ToBits(v, n)
  {
    if n > 0 {
      TopBit(v / 2, n - 1);
      assert (v + Pow2(n)) / 2 == v / 2 + Pow2(n - 1);
    } else {
      assert ToBits(0, 0) == [] && ToBits(1, 0) == [];
    }
  }

  /** Adding a power of two where the bit is clear sets exactly that bit. */
  lemma {:induction false} SetBit(v: nat, n: nat, i: nat)
    requires i < n && !ToBits(v, n)[i]
    ensures ToBits(v + Pow2(n - 1 - i), n) == ToBits(v, n)[i := true]
    ensures v < Pow2(n) ==> v + Pow2(n - 1 - i) < Pow2(n)
  {
    if i < n - 1 {
      SetBit(v / 2, n - 1, i);
      assert (v + Pow2(n - 1 - i)) / 2 == v / 2 + Pow2(n - 2 - i);
    }
  }

  /** A byte string as a bit string. */
  function Unpack(bytes: seq<Byte>): (s: seq<bool>)
    ensures |s| == 8 * |bytes|
  {
    if bytes == [] then [] else ToBits(bytes[0], 8) + Unpack(bytes[1..])
  }

  lemma {:induction false} UnpackAppend(a: seq<Byte>, b: seq<Byte>)
    ensures Unpack(a + b) == Unpack(a) + Unpack(b)
  {
    if a == [] {
      assert a + b == b;
    } else {
      UnpackAppend(a[1..], b);
      assert (a + b)[1..] == a[1..] + b;
    }
  }

  ghost predicate AllFalse(s: seq<bool>) {
    forall i :: 0 <= i < |s| ==> !s[i]
  }

  class BitWriter {
    var out: seq<Byte>
    var buffer: Byte
    var bitCount: nat
    var totalBytesWritten: nat

    /** The unused low bits of the buffer are clear. */
    ghost predicate Valid()
      reads this
    {
      bitCount < 8 && totalBytesWritten == |out| && AllFalse(ToBits(buffer, 8)[bitCount..])
    }

    /** Every bit written since the start. */
    ghost function Bits(): seq<bool>
      requires Valid()
      reads this
    {
      Unpack(out) + ToBits(buffer, 8)[..bitCount]
    }

    constructor ()
      ensures Valid() && Bits() == [] && out == []
    {
      out, buffer, bitCount, totalBytesWritten := [], 0, 0, 0;
      new;
      ZeroBits(8);
    }

    method WriteBit(bit: bool)
      requires Valid()
      modifies this
      ensures Valid() && Bits() == old(Bits()) + [bit]
    {
      ghost var before := ToBits(buffer, 8);
      if bit {
        SetBit(buffer, 8, bitCount);
        assert Pow2(8) == 256;
        buffer := buffer + Pow2(7 - bitCount);
      }
      assert ToBits(buffer, 8)[..bitCount + 1] == before[..bitCount] + [bit];
      bitCount := bitCount + 1;
      if bitCount == 8 {
        Store();
      }
    }

    /** Appends the buffer to the output and empties it. */
    method Store()
      requires totalBytesWritten == |out|
      modifies this
      ensures Valid() && bitCount == 0 && Bits() == Unpack(old(out)) + ToBits(old(buffer), 8)
      ensures out == old(out) + [old(buffer)]
    {
      UnpackAppend(out, [buffer]);
      assert Unpack([buffer]) == ToBits(buffer, 8);
      out := out + [buffer];
      totalBytesWritten := totalBytesWritten + 1;
      buffer, bitCount := 0, 0;
      ZeroBits(8);
    }

    method WriteBits(val: nat, numBits: nat)
      requires Valid()
      modifies this
      ensures Valid() && Bits() == old(Bits()) + ToBits(val, numBits)
    {
      var i := numBits;
      while i > 0
        invariant 0 <= i <= numBits
        invariant Valid() && Bits() == old(Bits()) + ToBits(val, numBits)[..numBits - i]
      {
        i := i - 1;
        ShiftReadsBit(val, numBits, i);
        WriteBit(val / Pow2(i) % 2 == 1);
      }
    }

    /** Pads the last byte with zero bits. */
    method Flush()
      requires Valid()
      modifies this
      ensures Valid() && bitCount == 0
      ensures IsPacked(old(Bits()), out)
    {
      ghost var bits := Bits();
      if bitCount > 0 {
        ghost var used := bitCount;
        Store();
        assert Unpack(out) == Bits();
        assert Unpack(out)[..|bits|] == bits;
      } else {
        assert Unpack(out) == bits;
      }
    }
  }

  class BitReader {
    const input: seq<Byte>
    var pos: nat
    var buffer: Byte
    var bitCount: nat

    ghost predicate Valid()
      reads this
    {
      bitCount <= 8 && pos <= |input|
    }

    /** Every bit still to be read. */
    ghost function Remaining(): seq<bool>
      requires Valid()
      reads this
    {
      ToBits(buffer, 8)[8 - bitCount..] + Unpack(input[pos..])
    }

    constructor (bytes: seq<Byte>)
      ensures Valid() && Remaining() == Unpack(bytes)
    {
      input, pos, buffer, bitCount := bytes, 0, 0, 0;
      new;
      assert input[0..] == bytes;
    }

    /** The next bit, or -1 at the end of the file. */
    method ReadBit() returns (bit: int)
      requires Valid()
      modifies this
      ensures Valid()
      ensures old(Remaining()) == [] ==> bit == -1 && Remaining() == []
      ensures old(Remaining()) != [] ==>
        bit == (if old(Remaining())[0] then 1 else 0) && Remaining() == old(Remaining())[1..]
    {
      if bitCount == 0 {
        if pos == |input| {
          return -1;
        }
        buffer, bitCount, pos := input[pos], 8, pos + 1;
        assert input[pos - 1..][1..] == input[pos..];
      }
      ghost var unread := ToBits(buffer, 8)[8 - bitCount..];
      assert unread + Unpack(input[pos..]) == old(Remaining());
      ShiftReadsBit(buffer, 8, bitCount - 1);
      bit := buffer / Pow2(bitCount - 1) % 2;
      bitCount := bitCount - 1;
      assert bit == if unread[0] then 1 else 0;
      assert ToBits(buffer, 8)[8 - bitCount..] == unread[1..];
    }

    /** The number that the next numBits bits spell, or failure at the end of the file. */
    method ReadBits(numBits: nat) returns (ok: bool, val: nat)
      requires Valid()
      modifies this
      ensures Valid()
      ensures ok == (numBits <= |old(Remaining())|)
      ensures ok ==> val == FromBits(old(Remaining())[..numBits]) && Remaining() == old(Remaining())[numBits..]
      ensures !ok ==> Remaining() == []
    {
      ghost var bits := Remaining();
      var res, i := 0, 0;
      while i < numBits
        invariant Valid() && i <= numBits && i <= |bits|
        invariant Remaining() == bits[i..] && res == FromBits(bits[..i])
      {
        var b := ReadBit();
        if b == -1 {
          return false, 0;
        }
        res := 2 * res + b;
        i := i + 1;
        assert bits[..i][..i - 1] == bits[..i - 1];
      }
      return true, res;
    }
  }

  /** The bytes hold the bits, followed by fewer than eight zero bits. */
  ghost predicate IsPacked(bits: seq<bool>, bytes: seq<Byte>) {
    && |bits| <= 8 * |bytes| < |bits| + 8
    && Unpack(bytes)[..|bits|] == bits
    && AllFalse(Unpack(bytes)[|bits|..])
  }

  lemma {:induction false} ZeroBits(n: nat)
    ensures AllFalse(ToBits(0, n))
  {
    if n > 0 {
      ZeroBits(n - 1);
    }
  }
}
