/** Reading syntax elements one after another: each lemma here says that
    when a field's code word is followed by the rest of a bit string, the
    field's reader returns the field and leaves the cursor on the rest. */
module Fields {
  import opened Wrappers
  import opened Arith
  import opened BitString
  import opened BitReader
  import opened ExpGolomb
  import opened Repeat

  /** n one-bit flags read one after another. */
  function ReadFlags(c: Cursor, n: nat): (r: Option<Read<seq<Bit>>>)
    ensures r.Some? ==> |r.value.value| == n && r.value.next == c.Advance(n)
    decreases n
  {
    if n == 0 then
      Some(Read([], c))
    else
      var bit :- ReadBit(c);
      var rest :- ReadFlags(bit.next, n - 1);
      Some(Read([bit.value] + rest.value, rest.next))
  }

  lemma FlagThen(c: Cursor, b: Bit, rest: seq<Bit>)
    requires c.Sees([b] + rest)
    ensures ReadBit(c) == Some(Read(b, c.Advance(1)))
    ensures c.Advance(1).Sees(rest)
  {
    SeesAppend(c, [b], rest);
    ReadBitSees(c, b);
  }

  lemma {:induction false} FlagsThen(c: Cursor, flags: seq<Bit>, rest: seq<Bit>)
    requires c.Sees(flags + rest)
    ensures ReadFlags(c, |flags|) == Some(Read(flags, c.Advance(|flags|)))
    ensures c.Advance(|flags|).Sees(rest)
    decreases |flags|
  {
    SeesAppend(c, flags, rest);
    if |flags| > 0 {
      assert flags + rest == [flags[0]] + (flags[1..] + rest);
      FlagThen(c, flags[0], flags[1..] + rest);
      FlagsThen(c.Advance(1), flags[1..], rest);
      assert c.Advance(1).Advance(|flags[1..]|) == c.Advance(|flags|);
      assert [flags[0]] + flags[1..] == flags;
    }
  }

  lemma BitsThen(c: Cursor, x: nat, n: nat, rest: seq<Bit>)
    requires x < Pow2(n) && c.Sees(Bits(x, n) + rest)
    ensures ReadBits(c, n) == Some(Read(x, c.Advance(n)))
    ensures c.Advance(n).Sees(rest)
  {
    SeesAppend(c, Bits(x, n), rest);
    ReadBitsSees(c, x, n);
  }

  lemma UeThen(c: Cursor, v: nat, rest: seq<Bit>)
    requires UeZeros(v) < MaxLeadingZeros && c.Sees(UeCode(v) + rest)
    ensures ReadUe(c) == Some(Read(v, c.Advance(UeLength(v))))
    ensures c.Advance(UeLength(v)).Sees(rest)
  {
    SeesAppend(c, UeCode(v), rest);
    UeDecodes(c, v);
  }

  /** A flag the syntax reads only under a condition: its bit when it was
      read, nothing otherwise. */
  function OptionalFlagBits(f: Option<Bit>, rest: seq<Bit>): (bs: seq<Bit>)
    ensures |bs| == OptionalFlagLength(f) + |rest|
  {
    if f.Some? then [f.value] + rest else rest
  }

  function OptionalFlagLength(f: Option<Bit>): nat {
    if f.Some? then 1 else 0
  }

  /** The se(v) code word of v. */
  function SeBits(v: int): (bs: seq<Bit>)
    ensures |bs| == SeLength(v)
  {
    UeCode(SeCode(v))
  }

  function SeLength(v: int): nat {
    UeLength(SeCode(v))
  }

  /** se(v) fits the 32-zero cap. */
  predicate SeFits(v: int) {
    UeZeros(SeCode(v)) < MaxLeadingZeros
  }

  lemma SeThen(c: Cursor, v: int, rest: seq<Bit>)
    requires SeFits(v) && c.Sees(SeBits(v) + rest)
    ensures ReadSe(c) == Some(Read(v, c.Advance(SeLength(v))))
    ensures c.Advance(SeLength(v)).Sees(rest)
  {
    SeesAppend(c, SeBits(v), rest);
    SeRoundTrip(c, v);
  }

  /** se(v) decodes every code word below the cap. */
  lemma SeDecodes()
    ensures Decodes(ReadSe, SeBits, SeFits)
  {
    forall c: Cursor, v: int | SeFits(v) && c.Sees(SeBits(v))
      ensures ReadSe(c) == Some(Read(v, c.Advance(|SeBits(v)|)))
    {
      assert SeBits(v) + [] == SeBits(v);
      SeThen(c, v, []);
    }
  }

  /** se(v) consumes exactly the code word of the value it returns. */
  lemma SeConsumes()
    ensures Consumes(ReadSe, SeBits)
  {
  }
}
