/** Exp-Golomb codes, section 9.1 of ITU-T H.264: ue(v) is a run of lz
    zero bits, a one bit and an lz-bit suffix, with value
    2^lz - 1 + suffix; se(v) maps that code number onto the integers as in
    Table 9-3 of section 9.1.1. */
module ExpGolomb {
  import opened Wrappers
  import opened Arith
  import opened BitString
  import opened BitReader

  /** The leading-zero counter caps its count here. */
  const MaxLeadingZeros: nat := 32

  /** Reads bits while they are zero and fewer than 32 have been counted;
      `room` is how many more may still be counted, 32 minus the loop
      counter. The bit that ends the loop (the one bit, or the zero read
      once the count is full) is consumed as well. */
  function CountLeadingZeros(c: Cursor, room: nat): (r: Option<Read<nat>>)
    ensures r.Some? ==> r.value.value <= room
    ensures r.Some? ==> r.value.next == c.Advance(r.value.value + 1)
    decreases room
  {
    var bit :- ReadBit(c);
    if bit.value == 0 && room > 0 then
      var rest :- CountLeadingZeros(bit.next, room - 1);
      Some(Read(rest.value + 1, rest.next))
    else
      Some(Read(0, bit.next))
  }

  /** The number of leading zero bits in the ue(v) code word of v. */
  function UeZeros(v: nat): nat {
    Log2(v + 1)
  }

  /** v's code word has lz leading zeros exactly when 2^lz <= v + 1 < 2^(lz+1). */
  lemma UeZerosUnique(v: nat, lz: nat)
    requires Pow2(lz) <= v + 1 < Pow2(lz + 1)
    ensures UeZeros(v) == lz
  {
    Log2Unique(v + 1, lz);
  }

  /** The length of v's ue(v) code word. */
  function UeLength(v: nat): nat {
    2 * UeZeros(v) + 1
  }

  /** ue(v). A count that reaches the cap would shift a 32-bit integer by
      32, which C leaves undefined; the model fails there. */
  function ReadUe(c: Cursor): (r: Option<Read<nat>>)
    ensures r.Some? ==> UeZeros(r.value.value) < MaxLeadingZeros
    ensures r.Some? ==> r.value.next == c.Advance(UeLength(r.value.value))
  {
    var lz :- CountLeadingZeros(c, MaxLeadingZeros);
    if lz.value == MaxLeadingZeros then None else UeSuffix(lz.next, lz.value)
  }

  /** The lz-bit suffix behind a run of lz zeros and a one bit, read into
      the value whose code word has that many leading zeros. */
  function UeSuffix(c: Cursor, lz: nat): (r: Option<Read<nat>>)
    ensures r.Some? ==> UeZeros(r.value.value) == lz
    ensures r.Some? ==> r.value.next == c.Advance(lz)
  {
    var suffix :- ReadBits(c, lz);
    var v := suffix.value + Pow2(lz) - 1;
    UeZerosUnique(v, lz);
    Some(Read(v, suffix.next))
  }

  /** The ue(v) code word of v: UeZeros(v) zero bits, a one bit, and the
      low UeZeros(v) bits of v + 1. */
  function UeCode(v: nat): (bs: seq<Bit>)
    ensures |bs| == UeLength(v)
  {
    var lz := UeZeros(v);
    Log2Bounds(v + 1);
    Zeros(lz) + [1] + Bits(v + 1 - Pow2(lz), lz)
  }

  /** The signed value of code number k, Table 9-3: 0, 1, 2, 3, 4 become
      0, 1, -1, 2, -2. */
  function SeMap(k: nat): (v: int)
    ensures k == if v > 0 then 2 * v - 1 else -2 * v
  {
    if k % 2 == 1 then (k + 1) / 2 else -(k / 2)
  }

  /** The code number of a signed value. */
  function SeCode(v: int): (k: nat)
    ensures SeMap(k) == v
  {
    if v > 0 then 2 * v - 1 else -2 * v
  }

  /** se(v). */
  function ReadSe(c: Cursor): (r: Option<Read<int>>)
    ensures r.Some? ==> r.value.next == c.Advance(UeLength(SeCode(r.value.value)))
  {
    var k :- ReadUe(c);
    SeCodeOfMap(k.value);
    Some(Read(SeMap(k.value), k.next))
  }

  lemma {:induction false} ZerosCons(n: nat)
    requires n > 0
    ensures Zeros(n) == [0] + Zeros(n - 1)
  {
  }

  /** Below the cap, the counter returns k exactly when k zero bits and a
      one bit follow the cursor. */
  lemma {:induction false} CountLeadingZerosSees(c: Cursor, room: nat, k: nat)
    requires k < room
    ensures CountLeadingZeros(c, room) == Some(Read(k, c.Advance(k + 1)))
        <==> c.Sees(Zeros(k) + [1])
    decreases k
  {
    ReadBitSees(c, 1);
    ReadBitSees(c, 0);
    if k == 0 {
      assert Zeros(0) + [1] == [1];
    } else {
      var next := c.Advance(1);
      var j := k - 1;
      CountLeadingZerosSees(next, room - 1, j);
      SeesZeroRun(c, k, j);
      CountLeadingZerosStep(c, room, k, j, next);
    }
  }

  /** A run of k zeros and a one bit is a zero bit, then a run of k - 1. */
  lemma SeesZeroRun(c: Cursor, k: nat, j: nat)
    requires k == j + 1
    ensures c.Sees(Zeros(k) + [1]) <==> c.Sees([0]) && c.Advance(1).Sees(Zeros(j) + [1])
  {
    ZerosCons(k);
    assert Zeros(k) + [1] == [0] + (Zeros(j) + [1]);
    SeesAppend(c, [0], Zeros(j) + [1]);
  }

  /** Past a zero bit the count goes on one higher; past a one bit it stops. */
  lemma CountLeadingZerosStep(c: Cursor, room: nat, k: nat, j: nat, next: Cursor)
    requires k == j + 1 && k < room && next == c.Advance(1)
    ensures CountLeadingZeros(c, room) == Some(Read(k, c.Advance(k + 1)))
        <==> ReadBit(c) == Some(Read(0, next)) && CountLeadingZeros(next, room - 1) == Some(Read(j, next.Advance(j + 1)))
  {
    assert next.Advance(j + 1) == c.Advance(k + 1);
  }

  lemma UeZerosBounds(v: nat)
    ensures Pow2(UeZeros(v)) <= v + 1 < Pow2(UeZeros(v) + 1)
  {
    Log2Bounds(v + 1);
  }

  /** The code word of v is its zero run and one bit, then its suffix. */
  lemma UeCodeSplit(v: nat)
    ensures Pow2(UeZeros(v)) <= v + 1
    ensures UeCode(v) == (Zeros(UeZeros(v)) + [1]) + Bits(v + 1 - Pow2(UeZeros(v)), UeZeros(v))
  {
    UeZerosBounds(v);
  }

  /** A code word with fewer than 32 leading zeros decodes to its value. */
  lemma UeDecodes(c: Cursor, v: nat)
    requires UeZeros(v) < MaxLeadingZeros && c.Sees(UeCode(v))
    ensures ReadUe(c) == Some(Read(v, c.Advance(UeLength(v))))
  {
    var lz := UeZeros(v);
    UeZerosBounds(v);
    var s := v + 1 - Pow2(lz);
    var mid := c.Advance(lz + 1);
    var next := mid.Advance(lz);
    assert c.Sees(Zeros(lz) + [1]) && mid.Sees(Bits(s, lz)) by {
      UeCodeSplit(v);
      SeesAppend(c, Zeros(lz) + [1], Bits(s, lz));
    }
    assert CountLeadingZeros(c, MaxLeadingZeros) == Some(Read(lz, mid)) by {
      CountLeadingZerosSees(c, MaxLeadingZeros, lz);
    }
    assert ReadBits(mid, lz) == Some(Read(s, next)) by {
      ReadBitsSees(mid, s, lz);
    }
    assert next == c.Advance(UeLength(v));
    UeSuffixSteps(mid, lz, s, next);
    ReadUeSteps(c, lz, mid, v, next);
  }

  /** ReadUe is the zero count followed by the suffix read. */
  lemma ReadUeSteps(c: Cursor, lz: nat, mid: Cursor, v: nat, next: Cursor)
    requires lz < MaxLeadingZeros
    requires CountLeadingZeros(c, MaxLeadingZeros) == Some(Read(lz, mid))
    requires UeSuffix(mid, lz) == Some(Read(v, next))
    ensures ReadUe(c) == Some(Read(v, next))
  {
  }

  /** The suffix s is read into 2^lz - 1 + s. */
  lemma UeSuffixSteps(c: Cursor, lz: nat, s: nat, next: Cursor)
    requires ReadBits(c, lz) == Some(Read(s, next))
    ensures UeSuffix(c, lz) == Some(Read(s + Pow2(lz) - 1, next))
  {
  }

  /** Whatever ue(v) decodes was read from that value's code word. */
  lemma UeCanonical(c: Cursor)
    requires ReadUe(c).Some?
    ensures c.Sees(UeCode(ReadUe(c).value.value))
  {
    var v := ReadUe(c).value.value;
    var z := CountLeadingZeros(c, MaxLeadingZeros).value;
    var lz, mid := z.value, z.next;
    var x := ReadBits(mid, lz).value.value;
    assert v == x + Pow2(lz) - 1 && x < Pow2(lz);
    assert UeZeros(v) == lz by {
      UeZerosUnique(v, lz);
    }
    assert c.Sees(Zeros(lz) + [1]) by {
      CountLeadingZerosSees(c, MaxLeadingZeros, lz);
    }
    assert mid.Sees(Bits(x, lz)) by {
      ReadBitsSees(mid, x, lz);
    }
    UeCodeSees(c, v, lz, x, mid);
  }

  /** A zero run, a one bit and the suffix, seen one after the other, are
      the code word. */
  lemma UeCodeSees(c: Cursor, v: nat, lz: nat, x: nat, mid: Cursor)
    requires UeZeros(v) == lz && x + Pow2(lz) == v + 1 && mid == c.Advance(lz + 1)
    requires c.Sees(Zeros(lz) + [1]) && mid.Sees(Bits(x, lz))
    ensures c.Sees(UeCode(v))
  {
    var run := Zeros(lz) + [1];
    assert UeCode(v) == run + Bits(x, lz) by {
      UeCodeSplit(v);
    }
    assert c.Advance(|run|) == mid;
    SeesAppend(c, run, Bits(x, lz));
  }

  /** ue(v) decodes v exactly when v's code word follows the cursor and has
      fewer than 32 leading zeros. */
  lemma UeRoundTrip(c: Cursor, v: nat)
    ensures ReadUe(c) == Some(Read(v, c.Advance(UeLength(v))))
        <==> UeZeros(v) < MaxLeadingZeros && c.Sees(UeCode(v))
  {
    if UeZeros(v) < MaxLeadingZeros && c.Sees(UeCode(v)) {
      UeDecodes(c, v);
    }
    if ReadUe(c) == Some(Read(v, c.Advance(UeLength(v)))) {
      UeCanonical(c);
    }
  }

  /** se(v) decodes v exactly when the ue(v) code word of v's code number
      follows the cursor. */
  lemma SeRoundTrip(c: Cursor, v: int)
    ensures ReadSe(c) == Some(Read(v, c.Advance(UeLength(SeCode(v)))))
        <==> UeZeros(SeCode(v)) < MaxLeadingZeros && c.Sees(UeCode(SeCode(v)))
  {
    var k := SeCode(v);
    UeRoundTrip(c, k);
    if ReadSe(c) == Some(Read(v, c.Advance(UeLength(k)))) {
      var u := ReadUe(c).value;
      assert SeMap(u.value) == v;
      assert u.value == k;
    }
  }

  lemma SeCodeOfMap(k: nat)
    ensures SeCode(SeMap(k)) == k
  {
  }

  /** se(v)'s mapping is a bijection between code numbers and integers. */
  lemma SeBijection(k: nat, v: int)
    ensures SeMap(k) == v <==> SeCode(v) == k
  {
  }
}
