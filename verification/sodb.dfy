/** rbsp_to_sodb: the string of data bits is taken to be the RBSP bytes in
    front of the last non-zero byte, so the byte holding the stop bit of
    rbsp_trailing_bits (section 7.3.2.11 of ITU-T H.264) is dropped whole
    together with the zero bytes after it. The scan tests the bits of each
    byte from the end of the RBSP down. */
module TrailingBits {
  import opened Wrappers
  import opened Arith
  import opened BitString

  /** x & (1 << bit) is non-zero. */
  predicate BitSet(x: Byte, bit: nat) {
    (x / Pow2(bit)) % 2 == 1
  }

  /** A byte is zero exactly when none of its eight bits is set. */
  lemma ByteZeroBits(x: Byte)
    ensures x == 0 <==> forall b :: 0 <= b < 8 ==> !BitSet(x, b)
  {
    if x != 0 {
      var top := Log2(x);
      Log2Bounds(x);
      assert Pow2(8) == 256;
      if top >= 8 {
        Pow2Monotone(8, top);
      }
      assert Pow2(top + 1) == 2 * Pow2(top);
      DivModUnique(x, Pow2(top), 1, x - Pow2(top));
      assert BitSet(x, top);
    }
  }

  /** The index of the last non-zero byte, if any. */
  function LastNonZero(rbsp: seq<Byte>): (r: Option<nat>)
    ensures r.Some? ==> r.value < |rbsp| && rbsp[r.value] != 0
    ensures r.Some? ==> forall j :: r.value < j < |rbsp| ==> rbsp[j] == 0
    ensures r.None? ==> forall j :: 0 <= j < |rbsp| ==> rbsp[j] == 0
    decreases |rbsp|
  {
    if |rbsp| == 0 then None
    else if rbsp[|rbsp| - 1] != 0 then Some(|rbsp| - 1)
    else LastNonZero(rbsp[..|rbsp| - 1])
  }

  /** The bytes before the last non-zero one; none when all are zero. */
  function Sodb(rbsp: seq<Byte>): (sodb: seq<Byte>)
    ensures |sodb| < |rbsp| || |rbsp| == 0
  {
    match LastNonZero(rbsp)
    case None => []
    case Some(k) => rbsp[..k]
  }

  /** The last non-zero byte is at k when it is non-zero and only zeros
      follow it. */
  lemma {:induction false} LastNonZeroIs(rbsp: seq<Byte>, k: nat)
    requires k < |rbsp| && rbsp[k] != 0
    requires forall j :: k < j < |rbsp| ==> rbsp[j] == 0
    ensures LastNonZero(rbsp) == Some(k)
    decreases |rbsp|
  {
    if k < |rbsp| - 1 {
      var init := rbsp[..|rbsp| - 1];
      assert forall j :: k < j < |init| ==> init[j] == 0;
      LastNonZeroIs(init, k);
    }
  }

  /** rbsp_to_sodb, scanning from the last byte. rbsp_to_sodb starts at
      `rbsp[rbsp.size()]`, one past the end; the scan here starts at the last
      byte instead. Like rbsp_to_sodb, it gives up with nothing once byte 1
      has no bit set (the `pos <= 1` test). A one-byte RBSP has only byte 0
      to scan, and gives nothing whatever that byte holds. */
  method RbspToSodb(rbsp: seq<Byte>) returns (sodb: seq<Byte>)
    ensures sodb == Sodb(rbsp)
  {
    if |rbsp| == 0 {
      return [];
    }
    var pos: nat := |rbsp| - 1;
    var bit: nat := 0;
    while !BitSet(rbsp[pos], bit)
      invariant pos < |rbsp| && bit < 8
      invariant forall j :: pos < j < |rbsp| ==> rbsp[j] == 0
      invariant forall b :: 0 <= b < bit ==> !BitSet(rbsp[pos], b)
      decreases pos, 8 - bit
    {
      bit := bit + 1;
      if bit == 8 {
        ByteZeroBits(rbsp[pos]);
        if pos <= 1 {
          return [];
        }
        pos := pos - 1;
        bit := 0;
      }
    }
    ByteZeroBits(rbsp[pos]);
    LastNonZeroIs(rbsp, pos);
    sodb := rbsp[..pos];
  }

  /** Zero bytes appended to the RBSP change nothing. */
  lemma SodbAppendZeros(rbsp: seq<Byte>, zeros: seq<Byte>)
    requires forall j :: 0 <= j < |zeros| ==> zeros[j] == 0
    ensures Sodb(rbsp + zeros) == Sodb(rbsp)
  {
    var all := rbsp + zeros;
    match LastNonZero(rbsp)
    case None =>
      assert forall j :: 0 <= j < |all| ==> all[j] == 0 by {
        forall j | 0 <= j < |all|
          ensures all[j] == 0
        {
          if j >= |rbsp| {
            assert all[j] == zeros[j - |rbsp|];
          }
        }
      }
    case Some(k) =>
      forall j | k < j < |all|
        ensures all[j] == 0
      {
        if j >= |rbsp| {
          assert all[j] == zeros[j - |rbsp|];
        }
      }
      LastNonZeroIs(all, k);
      assert all[..k] == rbsp[..k];
  }

  /** Data bytes followed by a non-zero byte and zero bytes give back the
      data bytes. */
  lemma SodbOfTrailing(data: seq<Byte>, stop: Byte, zeros: seq<Byte>)
    requires stop != 0 && forall j :: 0 <= j < |zeros| ==> zeros[j] == 0
    ensures Sodb(data + [stop] + zeros) == data
  {
    var all := data + [stop] + zeros;
    forall j | |data| < j < |all|
      ensures all[j] == 0
    {
      assert all[j] == zeros[j - |data| - 1];
    }
    LastNonZeroIs(all, |data|);
    assert all[..|data|] == data;
  }

  /** Some data is left exactly when a byte after the first is non-zero. */
  lemma SodbNonEmpty(rbsp: seq<Byte>)
    ensures |Sodb(rbsp)| > 0 <==> exists k :: 1 <= k < |rbsp| && rbsp[k] != 0
  {
    if k :| 1 <= k < |rbsp| && rbsp[k] != 0 {
      var last := LastNonZero(rbsp).value;
      assert k <= last;
    }
  }
}
