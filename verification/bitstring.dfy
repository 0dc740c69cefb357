/** Bytes, bits and the MSB-first correspondence between them. A byte
    buffer is read as the concatenation of its bytes' 8-bit big-endian
    representations; `Bits` encodes a number, `ValueOf` decodes a bit
    string, and `Pack` builds a buffer holding a given bit string. */
module BitString {
  import opened Arith

  type Byte = x: int | 0 <= x < 256
  newtype Bit = b: int | 0 <= b < 2

  function Zeros(n: nat): (bs: seq<Bit>)
    ensures |bs| == n
    ensures forall i :: 0 <= i < n ==> bs[i] == 0
  {
    if n == 0 then [] else [0] + Zeros(n - 1)
  }

  /** The n-bit MSB-first representation of x (of x mod 2^n in general):
      the representation of x / 2 in n - 1 bits, then the low bit of x. */
  function Bits(x: nat, n: nat): (bs: seq<Bit>)
    ensures |bs| == n
  {
    if n == 0 then [] else Bits(x / 2, n - 1) + [(x % 2) as Bit]
  }

  /** The value of an MSB-first bit string: the sum of bs[i] * 2^(|bs|-1-i). */
  function ValueOf(bs: seq<Bit>): (v: nat)
    ensures v < Pow2(|bs|)
  {
    if |bs| == 0 then 0
    else (if bs[0] == 1 then Pow2(|bs| - 1) else 0) + ValueOf(bs[1..])
  }

  /** Bit j of the n-bit representation is bit n-1-j of the number. */
  lemma {:induction false} BitsIndex(x: nat, n: nat, j: nat)
    requires j < n
    ensures Bits(x, n)[j] as int == (x / Pow2(n - 1 - j)) % 2
    decreases n
  {
    if j < n - 1 {
      var k := n - 2 - j;
      assert Bits(x, n)[j] == Bits(x / 2, n - 1)[j];
      BitsIndex(x / 2, n - 1, j);
      HalfDiv(x, Pow2(k));
      assert Pow2(n - 1 - j) == 2 * Pow2(k);
    }
  }

  /** Decoding an encoded number gives it back. */
  lemma {:induction false} ValueOfBits(x: nat, n: nat)
    requires x < Pow2(n)
    ensures ValueOf(Bits(x, n)) == x
    decreases n
  {
    if n > 0 {
      var hi, lo := Bits(x / 2, n - 1), [(x % 2) as Bit];
      ValueOfBits(x / 2, n - 1);
      ValueOfAppend(hi, lo);
      assert ValueOf(lo) == x % 2 by {
        assert lo[1..] == [];
      }
    }
  }

  /** Encoding the value of a bit string gives the bit string back. */
  lemma {:induction false} BitsOfValue(bs: seq<Bit>)
    ensures Bits(ValueOf(bs), |bs|) == bs
    decreases |bs|
  {
    if |bs| > 0 {
      var n := |bs| - 1;
      var init, last := bs[..n], bs[n..];
      assert bs == init + last;
      assert last == [bs[n]];
      assert ValueOf(last) == bs[n] as nat by {
        assert last[1..] == [];
      }
      ValueOfAppend(init, last);
      var v := ValueOf(bs);
      assert v == 2 * ValueOf(init) + bs[n] as nat;
      assert v / 2 == ValueOf(init) && v % 2 == bs[n] as nat;
      BitsOfValue(init);
    }
  }

  lemma SliceSplit<T>(s: seq<T>, i: nat, j: nat, k: nat)
    requires i <= j <= k <= |s|
    ensures s[i..k] == s[i..j] + s[j..k]
  {
  }

  lemma Distribute(u: int, v: int, w: int)
    ensures (u + v) * w == u * w + v * w
  {
  }

  /** The value of a concatenation: the first part supplies the high-order bits. */
  lemma {:induction false} ValueOfAppend(a: seq<Bit>, b: seq<Bit>)
    ensures ValueOf(a + b) == ValueOf(a) * Pow2(|b|) + ValueOf(b)
  {
    if |a| == 0 {
      assert a + b == b;
    } else {
      var hi := if a[0] == 1 then Pow2(|a| - 1) else 0;
      var hi' := if a[0] == 1 then Pow2(|a| + |b| - 1) else 0;
      assert (a + b)[1..] == a[1..] + b;
      ValueOfAppend(a[1..], b);
      assert ValueOf(a + b) == hi' + (ValueOf(a[1..]) * Pow2(|b|) + ValueOf(b));
      assert hi' == hi * Pow2(|b|) by {
        Pow2Add(|a| - 1, |b|);
      }
      Distribute(hi, ValueOf(a[1..]), Pow2(|b|));
    }
  }

  /** The bit string of a byte buffer, byte after byte, MSB first. */
  function BitsOfBytes(d: seq<Byte>): (bs: seq<Bit>)
    ensures |bs| == 8 * |d|
  {
    if |d| == 0 then [] else Bits(d[0], 8) + BitsOfBytes(d[1..])
  }

  /** Bit i of byte k sits at position 8k + i of the buffer's bit string. */
  lemma {:induction false} BitsOfBytesAt(d: seq<Byte>, k: nat, i: nat)
    requires k < |d| && i < 8
    ensures BitsOfBytes(d)[8 * k + i] == Bits(d[k], 8)[i]
  {
    var all := BitsOfBytes(d);
    assert all == Bits(d[0], 8) + BitsOfBytes(d[1..]);
    if k > 0 {
      BitsOfBytesAt(d[1..], k - 1, i);
      assert all[8 * k + i] == BitsOfBytes(d[1..])[8 * (k - 1) + i];
    }
  }

  /** Bits 8k..8k+7 of a buffer are the representation of byte k. */
  lemma {:induction false} BitsOfBytesSlice(d: seq<Byte>, k: nat)
    requires k < |d|
    ensures BitsOfBytes(d)[8 * k .. 8 * k + 8] == Bits(d[k], 8)
  {
    var head, tail := Bits(d[0], 8), BitsOfBytes(d[1..]);
    assert BitsOfBytes(d) == head + tail;
    if k == 0 {
      assert (head + tail)[0 .. 8] == head;
    } else {
      BitsOfBytesSlice(d[1..], k - 1);
      assert (head + tail)[8 * k .. 8 * k + 8] == tail[8 * (k - 1) .. 8 * (k - 1) + 8];
    }
  }

  lemma {:induction false} BitsOfBytesAppend(a: seq<Byte>, b: seq<Byte>)
    ensures BitsOfBytes(a + b) == BitsOfBytes(a) + BitsOfBytes(b)
  {
    if |a| == 0 {
      assert a + b == b;
    } else {
      assert (a + b)[0] == a[0];
      assert (a + b)[1..] == a[1..] + b;
      BitsOfBytesAppend(a[1..], b);
    }
  }

  /** The buffer whose bit string is bs (bs must fill whole bytes). */
  function Pack(bs: seq<Bit>): (d: seq<Byte>)
    requires |bs| % 8 == 0
    ensures 8 * |d| == |bs|
  {
    if |bs| == 0 then [] else [ValueOf(bs[..8])] + Pack(bs[8..])
  }

  /** Pack is a right inverse of BitsOfBytes. */
  lemma {:induction false} PackBits(bs: seq<Bit>)
    requires |bs| % 8 == 0
    ensures BitsOfBytes(Pack(bs)) == bs
  {
    if |bs| > 0 {
      var d := Pack(bs);
      BitsOfValue(bs[..8]);
      assert d[1..] == Pack(bs[8..]);
      PackBits(bs[8..]);
      assert bs == bs[..8] + bs[8..];
    }
  }

  /** bs followed by zero bits up to the next byte boundary. */
  function PadToByte(bs: seq<Bit>): (padded: seq<Bit>)
    ensures |padded| % 8 == 0
    ensures |bs| <= |padded| < |bs| + 8
    ensures padded[..|bs|] == bs
  {
    bs + Zeros((8 - |bs| % 8) % 8)
  }
}
