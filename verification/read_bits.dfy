/** The MSB-first bit cursor shared by the SPS parser and the stand-alone
    bit reader: a byte buffer with a bit position, advanced by every read.
    A read past the last bit fails with None. */
module BitReader {
  import opened Wrappers
  import opened Arith
  import opened BitString

  datatype Cursor = Cursor(data: seq<Byte>, pos: nat) {

    function Advance(n: nat): Cursor {
      Cursor(data, pos + n)
    }

    /** The bits of the buffer from the cursor on begin with bs. */
    predicate Sees(bs: seq<Bit>) {
      pos + |bs| <= 8 * |data| && BitsOfBytes(data)[pos .. pos + |bs|] == bs
    }
  }

  /** A decoded value together with the cursor just past it. */
  datatype Read<+T> = Read(value: T, next: Cursor)

  /** One bit: bit 7 - pos % 8 of byte pos / 8. */
  function ReadBit(c: Cursor): (r: Option<Read<Bit>>)
    ensures r.Some? <==> c.pos < 8 * |c.data|
    ensures r.Some? ==> r.value.next == c.Advance(1)
  {
    if c.pos < 8 * |c.data| then
      var index := c.pos / 8;
      var offset := c.pos % 8 + 1;
      Some(Read((ShiftRight(c.data[index], 8 - offset) % 2) as Bit, c.Advance(1)))
    else
      None
  }

  /** The shift-and-mask formula picks exactly bit pos of the buffer's
      MSB-first bit string. */
  lemma ReadBitIsBitString(c: Cursor)
    requires c.pos < 8 * |c.data|
    ensures ReadBit(c) == Some(Read(BitsOfBytes(c.data)[c.pos], c.Advance(1)))
  {
    var k := c.pos / 8;
    var i := c.pos % 8;
    assert c.pos == 8 * k + i;
    BitsOfBytesAt(c.data, k, i);
    BitsIndex(c.data[k], 8, i);
    ShiftRightDiv(c.data[k], 7 - i);
  }

  lemma ReadBitSees(c: Cursor, b: Bit)
    ensures ReadBit(c) == Some(Read(b, c.Advance(1))) <==> c.Sees([b])
  {
    if c.pos < 8 * |c.data| {
      var all := BitsOfBytes(c.data);
      ReadBitIsBitString(c);
      assert all[c.pos .. c.pos + 1] == [all[c.pos]];
    }
  }

  /** What a cursor sees past the first n bits of bs is the rest of bs. */
  lemma SeesSuffix(c: Cursor, bs: seq<Bit>, n: nat, rest: seq<Bit>)
    requires c.Sees(bs) && c.Advance(n).Sees(rest) && n + |rest| == |bs|
    ensures bs[n..] == rest
  {
    assert bs[..n] + bs[n..] == bs;
    SeesAppend(c, bs[..n], bs[n..]);
  }

  lemma SeesAppend(c: Cursor, a: seq<Bit>, b: seq<Bit>)
    ensures c.Sees(a + b) <==> c.Sees(a) && c.Advance(|a|).Sees(b)
  {
    var all := BitsOfBytes(c.data);
    if c.pos + |a| + |b| <= 8 * |c.data| {
      var s := all[c.pos .. c.pos + |a| + |b|];
      assert s[..|a|] == all[c.pos .. c.pos + |a|];
      assert s[|a|..] == all[c.pos + |a| .. c.pos + |a| + |b|];
      assert s == s[..|a|] + s[|a|..];
      if c.Sees(a + b) {
        assert s[..|a|] == (a + b)[..|a|] == a;
        assert s[|a|..] == (a + b)[|a|..] == b;
      }
    }
  }

  /** n bits as an unsigned number, first bit most significant: each bit
      read at step i is shifted left by n - 1 - i. */
  function ReadBits(c: Cursor, n: nat): (r: Option<Read<nat>>)
    ensures r.Some? <==> n == 0 || c.pos + n <= 8 * |c.data|
    ensures r.Some? ==> r.value.value < Pow2(n) && r.value.next == c.Advance(n)
    ensures n == 0 ==> r == Some(Read(0, c))
    decreases n
  {
    if n == 0 then
      Some(Read(0, c))
    else
      var bit :- ReadBit(c);
      var rest :- ReadBits(bit.next, n - 1);
      Some(Read((if bit.value == 1 then Pow2(n - 1) else 0) + rest.value, rest.next))
  }

  /** The number read is the value of the next n bits of the buffer. */
  lemma {:induction false} ReadBitsValue(c: Cursor, n: nat)
    requires c.pos + n <= 8 * |c.data|
    ensures ReadBits(c, n).value.value == ValueOf(BitsOfBytes(c.data)[c.pos .. c.pos + n])
    decreases n
  {
    if n > 0 {
      var all := BitsOfBytes(c.data);
      var s := all[c.pos .. c.pos + n];
      ReadBitIsBitString(c);
      ReadBitsValue(c.Advance(1), n - 1);
      assert s[1..] == all[c.pos + 1 .. c.pos + n];
    }
  }

  /** Reading n bits yields x exactly when the buffer holds the n-bit
      representation of x at the cursor. */
  lemma ReadBitsSees(c: Cursor, x: nat, n: nat)
    requires c.pos <= 8 * |c.data| && x < Pow2(n)
    ensures ReadBits(c, n) == Some(Read(x, c.Advance(n))) <==> c.Sees(Bits(x, n))
  {
    if c.pos + n <= 8 * |c.data| {
      var s := BitsOfBytes(c.data)[c.pos .. c.pos + n];
      ReadBitsValue(c, n);
      assert ReadBits(c, n) == Some(Read(ValueOf(s), c.Advance(n)));
      if c.Sees(Bits(x, n)) {
        assert s == Bits(x, n);
        ValueOfBits(x, n);
      }
      if ValueOf(s) == x {
        BitsOfValue(s);
      }
    }
  }

  /** Reading a bits then b bits is reading a + b bits: the first number
      supplies the high-order part. */
  lemma ReadBitsSplit(c: Cursor, a: nat, b: nat)
    requires c.pos + a + b <= 8 * |c.data|
    ensures ReadBits(c, a).value.next == c.Advance(a)
    ensures ReadBits(c, a + b).value.value
         == ReadBits(c, a).value.value * Pow2(b) + ReadBits(c.Advance(a), b).value.value
  {
    var all := BitsOfBytes(c.data);
    var mid, end := c.pos + a, c.pos + (a + b);
    var v1, v2 := ReadBits(c, a).value.value, ReadBits(c.Advance(a), b).value.value;
    var v := ReadBits(c, a + b).value.value;
    ReadBitsValueAt(c, a, c.pos, mid);
    ReadBitsValueAt(c.Advance(a), b, mid, end);
    ReadBitsValueAt(c, a + b, c.pos, end);
    JoinValue(all, c.pos, mid, end, b, v1, v2, v);
  }

  /** ReadBitsValue with the slice bounds given by name. */
  lemma ReadBitsValueAt(c: Cursor, n: nat, lo: nat, hi: nat)
    requires lo == c.pos && hi == c.pos + n && hi <= 8 * |c.data|
    ensures ReadBits(c, n).Some? && ReadBits(c, n).value.value == ValueOf(BitsOfBytes(c.data)[lo .. hi])
  {
    ReadBitsValue(c, n);
  }

  /** The value of two adjoining slices, stated on names so the solver sees no other arithmetic. */
  lemma JoinValue(s: seq<Bit>, lo: nat, mid: nat, hi: nat, n: nat, v1: nat, v2: nat, v: nat)
    requires lo <= mid <= hi <= |s| && n == hi - mid
    requires v1 == ValueOf(s[lo .. mid]) && v2 == ValueOf(s[mid .. hi]) && v == ValueOf(s[lo .. hi])
    ensures v == v1 * Pow2(n) + v2
  {
    SliceSplit(s, lo, mid, hi);
    ValueOfAppend(s[lo .. mid], s[mid .. hi]);
  }

  /** At a byte boundary, eight bits are the byte itself. */
  lemma ReadBitsByte(d: seq<Byte>, k: nat)
    requires k < |d|
    ensures ReadBits(Cursor(d, 8 * k), 8) == Some(Read(d[k] as nat, Cursor(d, 8 * k + 8)))
  {
    var c := Cursor(d, 8 * k);
    assert c.Sees(Bits(d[k], 8)) by {
      BitsOfBytesSlice(d, k);
    }
    ReadBitsSees(c, d[k], 8);
  }
}
