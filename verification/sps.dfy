/** The sequence parameter set walk of section 7.3.2.1.1 of ITU-T H.264, as
    far as the frame size: every field up to vui_parameters_present_flag is
    read in order, and the picture width and height are derived from the
    macroblock counts and the crop offsets. Each block of the walk has an
    encoder that writes its fields back as bits, followed by whatever comes
    next, so that reading an encoded block is proved to return it. */
module H264Sps {
  import opened Wrappers
  import opened Arith
  import opened BitString
  import opened BitReader
  import opened ExpGolomb
  import opened Fields
  import opened Repeat

  /* ---------------- The fields before the profile-dependent block ---------------- */

  datatype SpsHead = SpsHead(
    profileIdc: nat,
    constraintFlags: seq<Bit>,
    reservedZero2Bits: nat,
    levelIdc: nat,
    seqParameterSetId: nat)

  const ConstraintFlagCount: nat := 6

  /** profile_idc u(8), constraint_set0..5_flag, reserved_zero_2bits u(2),
      level_idc u(8), seq_parameter_set_id ue(v). */
  function ReadHead(c: Cursor): (r: Option<Read<SpsHead>>)
    ensures r.Some? ==> HeadFits(r.value.value)
    ensures r.Some? ==> r.value.next == c.Advance(HeadLength(r.value.value))
  {
    Pow2Small();
    var profile :- ReadBits(c, 8);
    var flags :- ReadFlags(profile.next, ConstraintFlagCount);
    var reserved :- ReadBits(flags.next, 2);
    var level :- ReadBits(reserved.next, 8);
    var id :- ReadUe(level.next);
    Some(Read(SpsHead(profile.value, flags.value, reserved.value, level.value, id.value), id.next))
  }

  predicate HeadFits(h: SpsHead) {
    && h.profileIdc < 256
    && |h.constraintFlags| == ConstraintFlagCount
    && h.reservedZero2Bits < 4
    && h.levelIdc < 256
    && UeZeros(h.seqParameterSetId) < MaxLeadingZeros
  }

  function HeadLength(h: SpsHead): nat {
    8 + |h.constraintFlags| + 2 + 8 + UeLength(h.seqParameterSetId)
  }

  /** The head's bits followed by rest. */
  function HeadBits(h: SpsHead, rest: seq<Bit>): (bs: seq<Bit>)
    ensures |bs| == HeadLength(h) + |rest|
  {
    Bits(h.profileIdc, 8) + (h.constraintFlags + (Bits(h.reservedZero2Bits, 2)
      + (Bits(h.levelIdc, 8) + (UeCode(h.seqParameterSetId) + rest))))
  }

  lemma Pow2Small()
    ensures Pow2(2) == 4 && Pow2(8) == 256
  {
    assert Pow2(2) == 4;
  }

  /** Reading encoded head fields returns them and stops where rest begins. */
  lemma ReadHeadThen(c: Cursor, h: SpsHead, rest: seq<Bit>)
    requires HeadFits(h) && c.Sees(HeadBits(h, rest))
    ensures ReadHead(c) == Some(Read(h, c.Advance(HeadLength(h))))
    ensures c.Advance(HeadLength(h)).Sees(rest)
  {
    Pow2Small();
    var r4 := UeCode(h.seqParameterSetId) + rest;
    var r3 := Bits(h.levelIdc, 8) + r4;
    var r2 := Bits(h.reservedZero2Bits, 2) + r3;
    var r1 := h.constraintFlags + r2;
    var c1 := c.Advance(8);
    var c2 := c1.Advance(6);
    var c3 := c2.Advance(2);
    var c4 := c3.Advance(8);
    var c5 := c4.Advance(UeLength(h.seqParameterSetId));
    BitsThen(c, h.profileIdc, 8, r1);
    FlagsThen(c1, h.constraintFlags, r2);
    BitsThen(c2, h.reservedZero2Bits, 2, r3);
    BitsThen(c3, h.levelIdc, 8, r4);
    UeThen(c4, h.seqParameterSetId, rest);
    ReadHeadSteps(c, h, c1, c2, c3, c4, c5);
    assert c5 == c.Advance(HeadLength(h));
  }

  /** ReadHead is its five reads in a row. */
  lemma ReadHeadSteps(c: Cursor, h: SpsHead, c1: Cursor, c2: Cursor, c3: Cursor, c4: Cursor, c5: Cursor)
    requires ReadBits(c, 8) == Some(Read(h.profileIdc, c1))
    requires ReadFlags(c1, ConstraintFlagCount) == Some(Read(h.constraintFlags, c2))
    requires ReadBits(c2, 2) == Some(Read(h.reservedZero2Bits, c3))
    requires ReadBits(c3, 8) == Some(Read(h.levelIdc, c4))
    requires ReadUe(c4) == Some(Read(h.seqParameterSetId, c5))
    ensures ReadHead(c) == Some(Read(h, c5))
  {
  }

  /* ---------------- Scaling lists, section 7.3.2.1.1.1 ---------------- */

  /** C's `%`: the quotient is truncated toward zero, so the remainder takes
      the sign of the dividend. */
  function CRem(a: int, m: int): (r: int)
    requires m > 0
    ensures -m < r < m
    ensures a >= 0 ==> 0 <= r && r == a % m
    ensures a < 0 ==> r <= 0
    ensures (a - r) % m == 0
  {
    var r := if a >= 0 then a % m else -((-a) % m);
    CRemMultiple(a, m, r);
    r
  }

  /** a less its remainder is a multiple of m. */
  lemma CRemMultiple(a: int, m: int, r: int)
    requires m > 0 && r == (if a >= 0 then a % m else -((-a) % m))
    ensures (a - r) % m == 0
  {
    if a >= 0 {
      var q := a / m;
      assert a == q * m + a % m;
      DivModUnique(a - r, m, q, 0);
    } else {
      var q := (-a) / m;
      assert -a == q * m + (-a) % m;
      assert a - r == (-q) * m + 0;
      DivModUnique(a - r, m, -q, 0);
    }
  }

  /** The truncating remainder parts from the Euclidean one for negative
      dividends. */
  lemma CRemDiffers()
    ensures CRem(-1, 256) == -1 && -1 % 256 == 255
  {
  }

  /** nextScale after a delta: (lastScale + delta_scale + 256) % 256 in C. */
  function NextScale(lastScale: int, delta: int): (n: int)
    ensures lastScale + delta + 256 >= 0 ==> n == (lastScale + delta + 256) % 256
  {
    CRem(lastScale + delta + 256, 256)
  }

  /** The lastScale update that ends every iteration. */
  function LastScale(lastScale: int, nextScale: int): int {
    if nextScale == 0 then lastScale else nextScale
  }

  /** With a delta in the range section 7.4.2.1.1.1 allows, one iteration
      keeps nextScale in [0, 255] and lastScale in [1, 255]. */
  lemma ScaleStepInRange(lastScale: int, delta: int)
    requires 1 <= lastScale <= 255 && -128 <= delta <= 127
    ensures 0 <= NextScale(lastScale, delta) <= 255
    ensures 1 <= LastScale(lastScale, NextScale(lastScale, delta)) <= 255
  {
  }

  const InitialScale: int := 8

  /** sizeOfScalingList: 16 for the six 4x4 lists, 64 for the 8x8 ones. */
  function ScalingListSize(i: nat): (size: nat)
    ensures i < 6 ==> size == 16
    ensures i >= 6 ==> size == 64
  {
    if i < 6 then 16 else 64
  }

  /** The delta loop with `remaining` iterations left: a delta_scale se(v)
      is read only while nextScale is not zero. The result is the deltas
      read, in order. */
  function ScalingListLoop(c: Cursor, remaining: nat, lastScale: int, nextScale: int): (r: Option<Read<seq<int>>>)
    ensures nextScale == 0 ==> r == Some(Read([], c))
    ensures r.Some? ==> |r.value.value| <= remaining
    ensures r.Some? ==> DeltasFit(remaining, lastScale, nextScale, r.value.value)
    ensures r.Some? ==> r.value.next == c.Advance(SeListLength(r.value.value))
    decreases remaining, 1
  {
    if remaining == 0 then
      Some(Read([], c))
    else if nextScale != 0 then
      var delta :- ReadSe(c);
      ScalingListNext(delta.value, delta.next, remaining, lastScale)
    else
      ScalingListLoop(c, remaining - 1, lastScale, nextScale)
  }

  /** The rest of an iteration that has read delta d, leaving the cursor at
      next, followed by the remaining - 1 iterations after it. */
  function ScalingListNext(d: int, next: Cursor, remaining: nat, lastScale: int): (r: Option<Read<seq<int>>>)
    requires remaining > 0
    ensures r.Some? ==> 1 <= |r.value.value| <= remaining && r.value.value[0] == d
    ensures r.Some? ==> DeltasFit(remaining - 1, LastScale(lastScale, NextScale(lastScale, d)),
                                  NextScale(lastScale, d), r.value.value[1..])
    ensures r.Some? ==> r.value.next == next.Advance(SeListLength(r.value.value[1..]))
    decreases remaining, 0
  {
    var n := NextScale(lastScale, d);
    var rest :- ScalingListLoop(next, remaining - 1, LastScale(lastScale, n), n);
    assert ([d] + rest.value)[1..] == rest.value;
    Some(Read([d] + rest.value, rest.next))
  }

  /** ds is exactly the list of deltas the loop reads: one per iteration
      until the iterations run out or nextScale becomes zero. */
  predicate DeltasFit(remaining: nat, lastScale: int, nextScale: int, ds: seq<int>)
    decreases remaining
  {
    if remaining == 0 || nextScale == 0 then
      ds == []
    else
      |ds| > 0 &&
      var n := NextScale(lastScale, ds[0]);
      DeltasFit(remaining - 1, LastScale(lastScale, n), n, ds[1..])
  }

  /** The se(v) code words of a list of values, followed by rest. */
  function SeListBits(vs: seq<int>, rest: seq<Bit>): seq<Bit> {
    Codes(SeBits, vs, rest)
  }

  function SeListLength(vs: seq<int>): nat {
    CodesLength(SeBits, vs)
  }

  predicate AllSeFit(vs: seq<int>) {
    AllFit(SeFits, vs)
  }

  lemma AllSeFitTail(vs: seq<int>)
    requires |vs| > 0 && AllSeFit(vs)
    ensures SeFits(vs[0]) && AllSeFit(vs[1..])
  {
    forall k | 0 <= k < |vs| - 1
      ensures SeFits(vs[1..][k])
    {
      assert vs[1..][k] == vs[k + 1];
    }
  }

  /** Reading encoded deltas returns them, provided they are exactly the
      deltas the loop asks for. */
  lemma {:induction false} ScalingListLoopThen(c: Cursor, remaining: nat, lastScale: int, nextScale: int,
                                               ds: seq<int>, rest: seq<Bit>)
    requires DeltasFit(remaining, lastScale, nextScale, ds) && AllSeFit(ds)
    requires c.Sees(SeListBits(ds, rest))
    ensures ScalingListLoop(c, remaining, lastScale, nextScale) == Some(Read(ds, c.Advance(SeListLength(ds))))
    ensures c.Advance(SeListLength(ds)).Sees(rest)
    decreases remaining, 2
  {
    if remaining == 0 {
    } else if nextScale != 0 {
      var next := ScalingListLoopFirst(c, remaining, lastScale, nextScale, ds, rest);
      ScalingListLoopThenRead(c, remaining, lastScale, nextScale, ds, next, rest);
    } else {
      ScalingListLoopThen(c, remaining - 1, lastScale, nextScale, ds, rest);
    }
  }

  /** The case of ScalingListLoopThen where a delta is read, the first
      one leaving the cursor at next. */
  lemma {:induction false} ScalingListLoopThenRead(c: Cursor, remaining: nat, lastScale: int, nextScale: int,
                                                   ds: seq<int>, next: Cursor, rest: seq<Bit>)
    requires remaining > 0 && nextScale != 0
    requires |ds| > 0 && ReadSe(c) == Some(Read(ds[0], next))
    requires next.Sees(SeListBits(ds[1..], rest)) && AllSeFit(ds[1..])
    requires DeltasFit(remaining - 1, LastScale(lastScale, NextScale(lastScale, ds[0])), NextScale(lastScale, ds[0]), ds[1..])
    requires next.Advance(SeListLength(ds[1..])) == c.Advance(SeListLength(ds))
    ensures ScalingListLoop(c, remaining, lastScale, nextScale) == Some(Read(ds, c.Advance(SeListLength(ds))))
    ensures c.Advance(SeListLength(ds)).Sees(rest)
    decreases remaining, 1
  {
    ScalingListNextThen(next, remaining, lastScale, ds, rest);
    ScalingListLoopStep(c, remaining, lastScale, nextScale, ds, next);
  }

  /** The rest of an iteration returns its delta ds[0] and the deltas
      after it. */
  lemma {:induction false} ScalingListNextThen(next: Cursor, remaining: nat, lastScale: int,
                                               ds: seq<int>, rest: seq<Bit>)
    requires remaining > 0 && |ds| > 0
    requires DeltasFit(remaining - 1, LastScale(lastScale, NextScale(lastScale, ds[0])), NextScale(lastScale, ds[0]), ds[1..])
    requires AllSeFit(ds[1..]) && next.Sees(SeListBits(ds[1..], rest))
    ensures ScalingListNext(ds[0], next, remaining, lastScale) == Some(Read(ds, next.Advance(SeListLength(ds[1..]))))
    ensures next.Advance(SeListLength(ds[1..])).Sees(rest)
    decreases remaining, 0
  {
    ScalingListLoopThen(next, remaining - 1, LastScale(lastScale, NextScale(lastScale, ds[0])), NextScale(lastScale, ds[0]),
                        ds[1..], rest);
    assert [ds[0]] + ds[1..] == ds;
  }

  /** An iteration that reads a delta goes on with the rest of it. */
  lemma ScalingListLoopStep(c: Cursor, remaining: nat, lastScale: int, nextScale: int, ds: seq<int>, next: Cursor)
    requires remaining > 0 && nextScale != 0 && |ds| > 0
    requires ReadSe(c) == Some(Read(ds[0], next))
    ensures ScalingListLoop(c, remaining, lastScale, nextScale) == ScalingListNext(ds[0], next, remaining, lastScale)
  {
  }

  /** Reading the first delta of an encoded list leaves the cursor `next`
      in front of the encoding of the others. */
  lemma ScalingListLoopFirst(c: Cursor, remaining: nat, lastScale: int, nextScale: int,
                             ds: seq<int>, rest: seq<Bit>) returns (next: Cursor)
    requires remaining > 0 && nextScale != 0
    requires DeltasFit(remaining, lastScale, nextScale, ds) && AllSeFit(ds)
    requires c.Sees(SeListBits(ds, rest))
    ensures |ds| > 0 && ReadSe(c) == Some(Read(ds[0], next))
    ensures next.Sees(SeListBits(ds[1..], rest)) && AllSeFit(ds[1..])
    ensures DeltasFit(remaining - 1, LastScale(lastScale, NextScale(lastScale, ds[0])), NextScale(lastScale, ds[0]), ds[1..])
    ensures next.Advance(SeListLength(ds[1..])) == c.Advance(SeListLength(ds))
  {
    next := c.Advance(SeLength(ds[0]));
    SeThen(c, ds[0], SeListBits(ds[1..], rest));
    AllSeFitTail(ds);
  }

  /** One scaling_list(): its deltas, starting from lastScale = nextScale = 8. */
  function ReadScalingList(c: Cursor, size: nat): (r: Option<Read<seq<int>>>)
    ensures r.Some? ==> |r.value.value| <= size
    ensures r.Some? ==> DeltasFit(size, InitialScale, InitialScale, r.value.value)
    ensures r.Some? ==> r.value.next == c.Advance(SeListLength(r.value.value))
  {
    ScalingListLoop(c, size, InitialScale, InitialScale)
  }

  /** A seq_scaling_list_present_flag and, when it is set, the list. */
  datatype ScalingList = NotPresent | Present(deltas: seq<int>)

  const ScalingListCount: nat := 8

  /** The lists from index i to the last: a presence flag, then list i when
      the flag is set, then the lists after it. */
  function ReadScalingLists(c: Cursor, i: nat): (r: Option<Read<seq<ScalingList>>>)
    requires i <= ScalingListCount
    ensures r.Some? ==> |r.value.value| == ScalingListCount - i
    ensures r.Some? ==> ListsFit(i, r.value.value)
    ensures r.Some? ==> r.value.next == c.Advance(ListsLength(r.value.value))
    decreases ScalingListCount - i
  {
    if i == ScalingListCount then
      Some(Read([], c))
    else
      var flag :- ReadBit(c);
      var list :- ReadOneList(flag.next, flag.value, ScalingListSize(i));
      var rest :- ReadScalingLists(list.next, i + 1);
      var lists := [list.value] + rest.value;
      assert lists[1..] == rest.value;
      Some(Read(lists, rest.next))
  }

  /** The list behind one presence flag. */
  function ReadOneList(c: Cursor, flag: Bit, size: nat): (r: Option<Read<ScalingList>>)
    ensures r.Some? ==> (flag == 0 <==> r.value.value == NotPresent)
    ensures r.Some? && r.value.value.Present? ==> DeltasFit(size, InitialScale, InitialScale, r.value.value.deltas)
    ensures r.Some? ==> r.value.next == c.Advance(ListBodyLength(r.value.value))
  {
    if flag == 1 then
      var l :- ReadScalingList(c, size);
      Some(Read(Present(l.value), l.next))
    else
      Some(Read(NotPresent, c))
  }

  /** Lists from index i on: each present list is exactly what its loop reads. */
  predicate ListsFit(i: nat, lists: seq<ScalingList>)
    decreases |lists|
  {
    |lists| == 0 ||
    ((lists[0].Present? ==> DeltasFit(ScalingListSize(i), InitialScale, InitialScale, lists[0].deltas))
     && ListsFit(i + 1, lists[1..]))
  }

  /** The presence flag of a list. */
  function ListFlag(l: ScalingList): Bit {
    if l.Present? then 1 else 0
  }

  /** The deltas' code words, when the list is present. */
  function ListBodyLength(l: ScalingList): nat {
    if l.Present? then SeListLength(l.deltas) else 0
  }

  /** The flag bit and the deltas' code words. */
  function ListLength(l: ScalingList): nat {
    1 + ListBodyLength(l)
  }

  function ListsLength(lists: seq<ScalingList>): nat {
    if |lists| == 0 then 0 else ListLength(lists[0]) + ListsLength(lists[1..])
  }

  /** Every delta of a present list has a code word the reader accepts. */
  predicate ListSeFit(l: ScalingList) {
    l.Present? ==> AllSeFit(l.deltas)
  }

  predicate ListsSeFit(lists: seq<ScalingList>) {
    forall i :: 0 <= i < |lists| ==> ListSeFit(lists[i])
  }

  /** The code words of a list after its flag, followed by rest. */
  function ListBodyBits(l: ScalingList, rest: seq<Bit>): (bs: seq<Bit>)
    ensures |bs| == ListBodyLength(l) + |rest|
  {
    if l.Present? then SeListBits(l.deltas, rest) else rest
  }

  /** Each list's flag and code words, in order, followed by rest. */
  function ListsBits(lists: seq<ScalingList>, rest: seq<Bit>): (bs: seq<Bit>)
    ensures |bs| == ListsLength(lists) + |rest|
  {
    if |lists| == 0 then rest else [ListFlag(lists[0])] + ListBodyBits(lists[0], ListsBits(lists[1..], rest))
  }

  /** Reading the encoding of a list after its flag returns the list. */
  lemma ReadOneListThen(c: Cursor, l: ScalingList, size: nat, rest: seq<Bit>)
    requires l.Present? ==> DeltasFit(size, InitialScale, InitialScale, l.deltas)
    requires ListSeFit(l) && c.Sees(ListBodyBits(l, rest))
    ensures ReadOneList(c, ListFlag(l), size) == Some(Read(l, c.Advance(ListBodyLength(l))))
    ensures c.Advance(ListBodyLength(l)).Sees(rest)
  {
    if l.Present? {
      ScalingListLoopThen(c, size, InitialScale, InitialScale, l.deltas, rest);
    }
  }

  /** Reading encoded lists from index i on returns them, provided each
      present list is exactly what its loop reads. */
  lemma {:induction false} ReadScalingListsThen(c: Cursor, i: nat, lists: seq<ScalingList>, rest: seq<Bit>)
    requires i <= ScalingListCount && |lists| == ScalingListCount - i
    requires ListsFit(i, lists) && ListsSeFit(lists) && c.Sees(ListsBits(lists, rest))
    ensures ReadScalingLists(c, i) == Some(Read(lists, c.Advance(ListsLength(lists))))
    ensures c.Advance(ListsLength(lists)).Sees(rest)
    decreases ScalingListCount - i
  {
    if i < ScalingListCount {
      var tail := lists[1..];
      var c2 := c.Advance(1).Advance(ListBodyLength(lists[0]));
      var c3 := c2.Advance(ListsLength(tail));
      assert c2.Sees(ListsBits(tail, rest)) && ListsFit(i + 1, tail) && ListsSeFit(tail) by {
        ReadFirstListThen(c, i, lists, rest);
      }
      assert ReadScalingLists(c2, i + 1) == Some(Read(tail, c3)) && c3.Sees(rest) by {
        ReadScalingListsThen(c2, i + 1, tail, rest);
      }
      ReadScalingListsCons(c, i, lists, rest, c2, c3);
    }
  }

  /** Lists from index i on are read off their encoding once the lists
      after the first one are. */
  lemma ReadScalingListsCons(c: Cursor, i: nat, lists: seq<ScalingList>, rest: seq<Bit>, c2: Cursor, c3: Cursor)
    requires i < ScalingListCount && |lists| == ScalingListCount - i
    requires ListsFit(i, lists) && ListsSeFit(lists) && c.Sees(ListsBits(lists, rest))
    requires c2 == c.Advance(1).Advance(ListBodyLength(lists[0])) && c3 == c2.Advance(ListsLength(lists[1..]))
    requires ReadScalingLists(c2, i + 1) == Some(Read(lists[1..], c3))
    ensures ReadScalingLists(c, i) == Some(Read(lists, c3)) && c3 == c.Advance(ListsLength(lists))
  {
    ReadFirstListThen(c, i, lists, rest);
    ReadScalingListsStep(c, i, lists, c.Advance(1), c2, c3);
  }

  /** The first flag and list, read off the encoding of lists from index i
      on, leave the encoding of the others. */
  lemma ReadFirstListThen(c: Cursor, i: nat, lists: seq<ScalingList>, rest: seq<Bit>)
    requires i < ScalingListCount && |lists| == ScalingListCount - i
    requires ListsFit(i, lists) && ListsSeFit(lists) && c.Sees(ListsBits(lists, rest))
    ensures ReadBit(c) == Some(Read(ListFlag(lists[0]), c.Advance(1)))
    ensures ReadOneList(c.Advance(1), ListFlag(lists[0]), ScalingListSize(i))
        == Some(Read(lists[0], c.Advance(1).Advance(ListBodyLength(lists[0]))))
    ensures c.Advance(1).Advance(ListBodyLength(lists[0])).Sees(ListsBits(lists[1..], rest))
    ensures ListsFit(i + 1, lists[1..]) && ListsSeFit(lists[1..])
  {
    ListsSeFitSplit(lists);
    assert ListsBits(lists, rest) == [ListFlag(lists[0])] + ListBodyBits(lists[0], ListsBits(lists[1..], rest));
    ReadListHeadThen(c, i, lists[0], ListsBits(lists[1..], rest));
  }

  /** A flag and its list, read off their encoding. */
  lemma ReadListHeadThen(c: Cursor, i: nat, l: ScalingList, after: seq<Bit>)
    requires l.Present? ==> DeltasFit(ScalingListSize(i), InitialScale, InitialScale, l.deltas)
    requires ListSeFit(l) && c.Sees([ListFlag(l)] + ListBodyBits(l, after))
    ensures ReadBit(c) == Some(Read(ListFlag(l), c.Advance(1)))
    ensures ReadOneList(c.Advance(1), ListFlag(l), ScalingListSize(i))
        == Some(Read(l, c.Advance(1).Advance(ListBodyLength(l))))
    ensures c.Advance(1).Advance(ListBodyLength(l)).Sees(after)
  {
    FlagThen(c, ListFlag(l), ListBodyBits(l, after));
    ReadOneListThen(c.Advance(1), l, ScalingListSize(i), after);
  }

  lemma ListsSeFitSplit(lists: seq<ScalingList>)
    requires |lists| > 0 && ListsSeFit(lists)
    ensures ListSeFit(lists[0]) && ListsSeFit(lists[1..])
  {
    assert ListSeFit(lists[0]);
    forall k | 0 <= k < |lists| - 1
      ensures ListSeFit(lists[1..][k])
    {
      assert lists[1..][k] == lists[k + 1];
    }
  }

  /** An index below the last reads one flag and list, then the others. */
  lemma ReadScalingListsStep(c: Cursor, i: nat, lists: seq<ScalingList>, c1: Cursor, c2: Cursor, c3: Cursor)
    requires i < ScalingListCount && |lists| > 0
    requires ReadBit(c) == Some(Read(ListFlag(lists[0]), c1))
    requires ReadOneList(c1, ListFlag(lists[0]), ScalingListSize(i)) == Some(Read(lists[0], c2))
    requires ReadScalingLists(c2, i + 1) == Some(Read(lists[1..], c3))
    requires c3 == c2.Advance(ListsLength(lists[1..])) && c2 == c1.Advance(ListBodyLength(lists[0])) && c1 == c.Advance(1)
    ensures ReadScalingLists(c, i) == Some(Read(lists, c3))
    ensures c3 == c.Advance(ListsLength(lists))
  {
    assert [lists[0]] + lists[1..] == lists;
  }

  /* ---------------- The profile-dependent block ---------------- */

  /** The profiles whose sequence parameter sets carry chroma format, bit
      depths and scaling matrices. */
  predicate HasChromaInfo(profileIdc: nat) {
    profileIdc in {100, 110, 122, 244, 44, 83, 86, 118}
  }

  datatype ChromaInfo = ChromaInfo(
    chromaFormatIdc: nat,
    residualColourTransformFlag: Option<Bit>,
    bitDepthLumaMinus8: nat,
    bitDepthChromaMinus8: nat,
    qpprimeYZeroTransformBypassFlag: Bit,
    scalingMatrix: Option<seq<ScalingList>>)

  /** For the profiles above: chroma_format_idc ue(v), the colour transform
      flag only when chroma_format_idc is 3, both bit depths ue(v), the
      bypass flag and seq_scaling_matrix_present_flag, then the eight lists
      when that flag is set. Other profiles read nothing here. */
  function ReadChromaInfo(c: Cursor, profileIdc: nat): (r: Option<Read<Option<ChromaInfo>>>)
    ensures !HasChromaInfo(profileIdc) ==> r == Some(Read(None, c))
    ensures r.Some? && HasChromaInfo(profileIdc) ==> r.value.value.Some?
    ensures r.Some? ==> r.value.next == c.Advance(ChromaLength(r.value.value))
  {
    if !HasChromaInfo(profileIdc) then
      Some(Read(None, c))
    else
      var format :- ReadUe(c);
      var residual :- ReadResidualFlag(format.next, format.value);
      var luma :- ReadUe(residual.next);
      var chroma :- ReadUe(luma.next);
      var bypass :- ReadBit(chroma.next);
      var matrix :- ReadScalingMatrix(bypass.next);
      var info := ChromaInfo(format.value, residual.value, luma.value, chroma.value, bypass.value, matrix.value);
      Some(Read(Some(info), matrix.next))
  }

  /** residual_colour_transform_flag, present only for 4:4:4 (chroma_format_idc 3). */
  function ReadResidualFlag(c: Cursor, chromaFormatIdc: nat): (r: Option<Read<Option<Bit>>>)
    ensures r.Some? ==> (r.value.value.Some? <==> chromaFormatIdc == 3)
    ensures r.Some? ==> r.value.next == c.Advance(if chromaFormatIdc == 3 then 1 else 0)
  {
    if chromaFormatIdc == 3 then
      var b :- ReadBit(c);
      Some(Read(Some(b.value), b.next))
    else
      Some(Read(None, c))
  }

  /** seq_scaling_matrix_present_flag and, when set, the eight lists. */
  function ReadScalingMatrix(c: Cursor): (r: Option<Read<Option<seq<ScalingList>>>>)
    ensures r.Some? && r.value.value.Some? ==> |r.value.value.value| == ScalingListCount
    ensures r.Some? ==> r.value.next == c.Advance(MatrixLength(r.value.value))
  {
    var present :- ReadBit(c);
    if present.value == 1 then
      var lists :- ReadScalingLists(present.next, 0);
      Some(Read(Some(lists.value), lists.next))
    else
      Some(Read(None, present.next))
  }

  function MatrixLength(m: Option<seq<ScalingList>>): nat {
    1 + (if m.Some? then ListsLength(m.value) else 0)
  }

  function ChromaLength(info: Option<ChromaInfo>): nat {
    match info
    case None => 0
    case Some(i) =>
      UeLength(i.chromaFormatIdc) + OptionalFlagLength(i.residualColourTransformFlag)
      + UeLength(i.bitDepthLumaMinus8) + UeLength(i.bitDepthChromaMinus8) + 1
      + MatrixLength(i.scalingMatrix)
  }

  /** A scaling matrix the reader accepts: eight lists, each exactly what
      its loop reads. */
  predicate MatrixFits(m: Option<seq<ScalingList>>) {
    m.Some? ==> |m.value| == ScalingListCount && ListsFit(0, m.value) && ListsSeFit(m.value)
  }

  /** seq_scaling_matrix_present_flag, then the lists when it is set. */
  function MatrixBits(m: Option<seq<ScalingList>>, rest: seq<Bit>): (bs: seq<Bit>)
    ensures |bs| == MatrixLength(m) + |rest|
  {
    if m.Some? then [1] + ListsBits(m.value, rest) else [0] + rest
  }

  lemma ReadScalingMatrixThen(c: Cursor, m: Option<seq<ScalingList>>, rest: seq<Bit>)
    requires MatrixFits(m) && c.Sees(MatrixBits(m, rest))
    ensures ReadScalingMatrix(c) == Some(Read(m, c.Advance(MatrixLength(m))))
    ensures c.Advance(MatrixLength(m)).Sees(rest)
  {
    var c1 := c.Advance(1);
    if m.Some? {
      FlagThen(c, 1, ListsBits(m.value, rest));
      ReadScalingListsThen(c1, 0, m.value, rest);
      assert c1.Advance(ListsLength(m.value)) == c.Advance(MatrixLength(m));
    } else {
      FlagThen(c, 0, rest);
    }
  }

  /** The block a profile carries: present exactly for the profiles that
      have it, with the colour transform flag exactly for 4:4:4, and every
      field in the reader's range. */
  predicate ChromaFits(profileIdc: nat, info: Option<ChromaInfo>) {
    && (info.Some? <==> HasChromaInfo(profileIdc))
    && (info.Some? ==>
         var i := info.value;
         && UeZeros(i.chromaFormatIdc) < MaxLeadingZeros
         && (i.residualColourTransformFlag.Some? <==> i.chromaFormatIdc == 3)
         && UeZeros(i.bitDepthLumaMinus8) < MaxLeadingZeros
         && UeZeros(i.bitDepthChromaMinus8) < MaxLeadingZeros
         && MatrixFits(i.scalingMatrix))
  }

  /** The block's fields in order, followed by rest; nothing when absent. */
  function ChromaBits(info: Option<ChromaInfo>, rest: seq<Bit>): (bs: seq<Bit>)
    ensures |bs| == ChromaLength(info) + |rest|
  {
    match info
    case None => rest
    case Some(i) =>
      UeCode(i.chromaFormatIdc) + OptionalFlagBits(i.residualColourTransformFlag,
        UeCode(i.bitDepthLumaMinus8) + (UeCode(i.bitDepthChromaMinus8)
          + ([i.qpprimeYZeroTransformBypassFlag] + MatrixBits(i.scalingMatrix, rest))))
  }

  lemma ReadResidualFlagThen(c: Cursor, chromaFormatIdc: nat, f: Option<Bit>, rest: seq<Bit>)
    requires (f.Some? <==> chromaFormatIdc == 3) && c.Sees(OptionalFlagBits(f, rest))
    ensures ReadResidualFlag(c, chromaFormatIdc) == Some(Read(f, c.Advance(OptionalFlagLength(f))))
    ensures c.Advance(OptionalFlagLength(f)).Sees(rest)
  {
    if f.Some? {
      FlagThen(c, f.value, rest);
    }
  }

  /** Reading an encoded block returns it and stops where rest begins. */
  lemma ReadChromaInfoThen(c: Cursor, profileIdc: nat, info: Option<ChromaInfo>, rest: seq<Bit>)
    requires ChromaFits(profileIdc, info) && c.Sees(ChromaBits(info, rest))
    ensures ReadChromaInfo(c, profileIdc) == Some(Read(info, c.Advance(ChromaLength(info))))
    ensures c.Advance(ChromaLength(info)).Sees(rest)
  {
    if info.Some? {
      var i := info.value;
      var r5 := MatrixBits(i.scalingMatrix, rest);
      var r4 := [i.qpprimeYZeroTransformBypassFlag] + r5;
      var r3 := UeCode(i.bitDepthChromaMinus8) + r4;
      var r2 := UeCode(i.bitDepthLumaMinus8) + r3;
      var r1 := OptionalFlagBits(i.residualColourTransformFlag, r2);
      var c1 := c.Advance(UeLength(i.chromaFormatIdc));
      var c2 := c1.Advance(OptionalFlagLength(i.residualColourTransformFlag));
      var c3 := c2.Advance(UeLength(i.bitDepthLumaMinus8));
      var c4 := c3.Advance(UeLength(i.bitDepthChromaMinus8));
      var c5 := c4.Advance(1);
      var c6 := c5.Advance(MatrixLength(i.scalingMatrix));
      UeThen(c, i.chromaFormatIdc, r1);
      ReadResidualFlagThen(c1, i.chromaFormatIdc, i.residualColourTransformFlag, r2);
      UeThen(c2, i.bitDepthLumaMinus8, r3);
      UeThen(c3, i.bitDepthChromaMinus8, r4);
      FlagThen(c4, i.qpprimeYZeroTransformBypassFlag, r5);
      ReadScalingMatrixThen(c5, i.scalingMatrix, rest);
      ReadChromaInfoSteps(c, profileIdc, i, c1, c2, c3, c4, c5, c6);
      assert c6 == c.Advance(ChromaLength(info));
    }
  }

  /** For a profile with the block, ReadChromaInfo is its six reads in a row. */
  lemma ReadChromaInfoSteps(c: Cursor, profileIdc: nat, i: ChromaInfo,
                            c1: Cursor, c2: Cursor, c3: Cursor, c4: Cursor, c5: Cursor, c6: Cursor)
    requires HasChromaInfo(profileIdc)
    requires ReadUe(c) == Some(Read(i.chromaFormatIdc, c1))
    requires ReadResidualFlag(c1, i.chromaFormatIdc) == Some(Read(i.residualColourTransformFlag, c2))
    requires ReadUe(c2) == Some(Read(i.bitDepthLumaMinus8, c3))
    requires ReadUe(c3) == Some(Read(i.bitDepthChromaMinus8, c4))
    requires ReadBit(c4) == Some(Read(i.qpprimeYZeroTransformBypassFlag, c5))
    requires ReadScalingMatrix(c5) == Some(Read(i.scalingMatrix, c6))
    ensures ReadChromaInfo(c, profileIdc) == Some(Read(Some(i), c6))
  {
  }

  /* ---------------- Picture order count ---------------- */

  datatype PocInfo =
    | PocType0(log2MaxPicOrderCntLsbMinus4: nat)
    | PocType1(deltaPicOrderAlwaysZeroFlag: Bit, offsetForNonRefPic: int,
               offsetForTopToBottomField: int, offsetForRefFrame: seq<int>)
    | PocOther(picOrderCntType: nat)

  /** pic_order_cnt_type ue(v) and the fields of types 0 and 1; any other
      type has none. For type 1 the cycle length is read as ue(v) and that
      many se(v) offsets follow. */
  function ReadPoc(c: Cursor): (r: Option<Read<PocInfo>>)
    ensures r.Some? && r.value.value.PocOther? ==> r.value.value.picOrderCntType >= 2
    ensures r.Some? ==> r.value.next == c.Advance(PocLength(r.value.value))
  {
    var pocType :- ReadUe(c);
    if pocType.value == 0 then
      var lsb :- ReadUe(pocType.next);
      Some(Read(PocType0(lsb.value), lsb.next))
    else if pocType.value == 1 then
      var always :- ReadBit(pocType.next);
      var nonRef :- ReadSe(always.next);
      var topBottom :- ReadSe(nonRef.next);
      var cycle :- ReadUe(topBottom.next);
      var offsets :- ReadSeList(cycle.next, cycle.value);
      Some(Read(PocType1(always.value, nonRef.value, topBottom.value, offsets.value), offsets.next))
    else
      Some(Read(PocOther(pocType.value), pocType.next))
  }

  /** The n se(v) values of offset_for_ref_frame. */
  function ReadSeList(c: Cursor, n: nat): (r: Option<Read<seq<int>>>)
    ensures r.Some? ==> |r.value.value| == n
    ensures r.Some? ==> r.value.next == c.Advance(SeListLength(r.value.value))
  {
    SeConsumes();
    ReadEachConsumes(ReadSe, SeBits, c, 0, n);
    ReadEach(ReadSe, c, 0, n)
  }

  function PocLength(p: PocInfo): nat {
    match p
    case PocType0(lsb) => UeLength(0) + UeLength(lsb)
    case PocType1(_, nonRef, topBottom, offsets) =>
      UeLength(1) + 1 + SeLength(nonRef) + SeLength(topBottom) + UeLength(|offsets|) + SeListLength(offsets)
    case PocOther(t) => UeLength(t)
  }

  /** A picture order count block the reader accepts: every field in range,
      and a type without fields only for types 2 and up. */
  predicate PocFits(p: PocInfo) {
    match p
    case PocType0(lsb) => UeZeros(lsb) < MaxLeadingZeros
    case PocType1(_, nonRef, topBottom, offsets) =>
      SeFits(nonRef) && SeFits(topBottom) && UeZeros(|offsets|) < MaxLeadingZeros && AllSeFit(offsets)
    case PocOther(t) => t >= 2 && UeZeros(t) < MaxLeadingZeros
  }

  /** The block's fields in order, followed by rest. */
  function PocBits(p: PocInfo, rest: seq<Bit>): (bs: seq<Bit>)
    ensures |bs| == PocLength(p) + |rest|
  {
    match p
    case PocType0(lsb) => UeCode(0) + (UeCode(lsb) + rest)
    case PocType1(always, nonRef, topBottom, offsets) =>
      UeCode(1) + ([always] + (SeBits(nonRef) + (SeBits(topBottom)
        + (UeCode(|offsets|) + SeListBits(offsets, rest)))))
    case PocOther(t) => UeCode(t) + rest
  }

  lemma UeZerosSmall()
    ensures UeZeros(0) == 0 && UeZeros(1) == 1
  {
    UeZerosUnique(0, 0);
    UeZerosUnique(1, 1);
  }

  /** Reading an encoded block returns it and stops where rest begins. */
  lemma ReadPocThen(c: Cursor, p: PocInfo, rest: seq<Bit>)
    requires PocFits(p) && c.Sees(PocBits(p, rest))
    ensures ReadPoc(c) == Some(Read(p, c.Advance(PocLength(p))))
    ensures c.Advance(PocLength(p)).Sees(rest)
  {
    UeZerosSmall();
    match p
    case PocType0(lsb) =>
      var c1 := c.Advance(UeLength(0));
      UeThen(c, 0, UeCode(lsb) + rest);
      UeThen(c1, lsb, rest);
      assert c1.Advance(UeLength(lsb)) == c.Advance(PocLength(p));
    case PocType1(always, nonRef, topBottom, offsets) =>
      ReadPocType1Then(c, always, nonRef, topBottom, offsets, rest);
    case PocOther(t) =>
      UeThen(c, t, rest);
  }

  lemma ReadPocType1Then(c: Cursor, always: Bit, nonRef: int, topBottom: int, offsets: seq<int>, rest: seq<Bit>)
    requires PocFits(PocType1(always, nonRef, topBottom, offsets))
    requires c.Sees(PocBits(PocType1(always, nonRef, topBottom, offsets), rest))
    ensures ReadPoc(c) == Some(Read(PocType1(always, nonRef, topBottom, offsets),
                                    c.Advance(PocLength(PocType1(always, nonRef, topBottom, offsets)))))
    ensures c.Advance(PocLength(PocType1(always, nonRef, topBottom, offsets))).Sees(rest)
  {
    UeZerosSmall();
    var r5 := SeListBits(offsets, rest);
    var r4 := UeCode(|offsets|) + r5;
    var r3 := SeBits(topBottom) + r4;
    var r2 := SeBits(nonRef) + r3;
    var r1 := [always] + r2;
    var c1 := c.Advance(UeLength(1));
    var c2 := c1.Advance(1);
    var c3 := c2.Advance(SeLength(nonRef));
    var c4 := c3.Advance(SeLength(topBottom));
    var c5 := c4.Advance(UeLength(|offsets|));
    var c6 := c5.Advance(SeListLength(offsets));
    UeThen(c, 1, r1);
    FlagThen(c1, always, r2);
    SeThen(c2, nonRef, r3);
    SeThen(c3, topBottom, r4);
    UeThen(c4, |offsets|, r5);
    SeDecodes();
    ReadEachThen(ReadSe, SeBits, SeFits, c5, 0, |offsets|, offsets, rest);
    ReadPocType1Steps(c, always, nonRef, topBottom, offsets, c1, c2, c3, c4, c5, c6);
    assert c6 == c.Advance(PocLength(PocType1(always, nonRef, topBottom, offsets)));
  }

  /** Type 1 is five reads after the type. */
  lemma ReadPocType1Steps(c: Cursor, always: Bit, nonRef: int, topBottom: int, offsets: seq<int>,
                          c1: Cursor, c2: Cursor, c3: Cursor, c4: Cursor, c5: Cursor, c6: Cursor)
    requires ReadUe(c) == Some(Read(1, c1))
    requires ReadBit(c1) == Some(Read(always, c2))
    requires ReadSe(c2) == Some(Read(nonRef, c3))
    requires ReadSe(c3) == Some(Read(topBottom, c4))
    requires ReadUe(c4) == Some(Read(|offsets|, c5))
    requires ReadSeList(c5, |offsets|) == Some(Read(offsets, c6))
    ensures ReadPoc(c) == Some(Read(PocType1(always, nonRef, topBottom, offsets), c6))
  {
  }

  /* ---------------- Frame size and cropping ---------------- */

  datatype CropOffsets = CropOffsets(left: nat, right: nat, top: nat, bottom: nat)

  datatype FrameInfo = FrameInfo(
    maxNumRefFrames: nat,
    gapsInFrameNumValueAllowedFlag: Bit,
    picWidthInMbsMinus1: nat,
    picHeightInMapUnitsMinus1: nat,
    frameMbsOnlyFlag: Bit,
    mbAdaptiveFrameFieldFlag: Option<Bit>,
    direct8x8InferenceFlag: Bit,
    frameCropping: Option<CropOffsets>,
    vuiParametersPresentFlag: Bit)

  /** max_num_ref_frames through vui_parameters_present_flag.
      mb_adaptive_frame_field_flag is read only when frame_mbs_only_flag is
      clear, and the four crop offsets only when frame_cropping_flag is set. */
  function ReadFrameInfo(c: Cursor): (r: Option<Read<FrameInfo>>)
    ensures r.Some? ==> (r.value.value.mbAdaptiveFrameFieldFlag.Some? <==> r.value.value.frameMbsOnlyFlag == 0)
    ensures r.Some? ==> r.value.next == c.Advance(FrameLength(r.value.value))
  {
    var maxRef :- ReadUe(c);
    var gaps :- ReadBit(maxRef.next);
    var width :- ReadUe(gaps.next);
    var height :- ReadUe(width.next);
    var mbsOnly :- ReadBit(height.next);
    var adaptive :- ReadAdaptiveFlag(mbsOnly.next, mbsOnly.value);
    var direct :- ReadBit(adaptive.next);
    var crop :- ReadCrop(direct.next);
    var vui :- ReadBit(crop.next);
    Some(Read(FrameInfo(maxRef.value, gaps.value, width.value, height.value, mbsOnly.value,
                        adaptive.value, direct.value, crop.value, vui.value), vui.next))
  }

  function ReadAdaptiveFlag(c: Cursor, frameMbsOnlyFlag: Bit): (r: Option<Read<Option<Bit>>>)
    ensures r.Some? ==> (r.value.value.Some? <==> frameMbsOnlyFlag == 0)
    ensures r.Some? ==> r.value.next == c.Advance(if frameMbsOnlyFlag == 0 then 1 else 0)
  {
    if frameMbsOnlyFlag == 0 then
      var b :- ReadBit(c);
      Some(Read(Some(b.value), b.next))
    else
      Some(Read(None, c))
  }

  /** frame_cropping_flag and, when it is set, left, right, top and bottom
      offsets, each ue(v). */
  function ReadCrop(c: Cursor): (r: Option<Read<Option<CropOffsets>>>)
    ensures r.Some? ==> r.value.next == c.Advance(CropLength(r.value.value))
  {
    var flag :- ReadBit(c);
    if flag.value == 1 then
      var left :- ReadUe(flag.next);
      var right :- ReadUe(left.next);
      var top :- ReadUe(right.next);
      var bottom :- ReadUe(top.next);
      Some(Read(Some(CropOffsets(left.value, right.value, top.value, bottom.value)), bottom.next))
    else
      Some(Read(None, flag.next))
  }

  function CropLength(crop: Option<CropOffsets>): nat {
    match crop
    case None => 1
    case Some(o) => 1 + UeLength(o.left) + UeLength(o.right) + UeLength(o.top) + UeLength(o.bottom)
  }

  function FrameLength(f: FrameInfo): nat {
    UeLength(f.maxNumRefFrames) + 1 + UeLength(f.picWidthInMbsMinus1) + UeLength(f.picHeightInMapUnitsMinus1)
    + 1 + OptionalFlagLength(f.mbAdaptiveFrameFieldFlag) + 1 + CropLength(f.frameCropping) + 1
  }

  lemma ReadAdaptiveFlagThen(c: Cursor, frameMbsOnlyFlag: Bit, f: Option<Bit>, rest: seq<Bit>)
    requires (f.Some? <==> frameMbsOnlyFlag == 0) && c.Sees(OptionalFlagBits(f, rest))
    ensures ReadAdaptiveFlag(c, frameMbsOnlyFlag) == Some(Read(f, c.Advance(OptionalFlagLength(f))))
    ensures c.Advance(OptionalFlagLength(f)).Sees(rest)
  {
    if f.Some? {
      FlagThen(c, f.value, rest);
    }
  }

  /** Crop offsets the reader accepts: each one's code word has fewer than
      32 leading zeros. */
  predicate CropFits(crop: Option<CropOffsets>) {
    crop.Some? ==>
      var o := crop.value;
      && UeZeros(o.left) < MaxLeadingZeros && UeZeros(o.right) < MaxLeadingZeros
      && UeZeros(o.top) < MaxLeadingZeros && UeZeros(o.bottom) < MaxLeadingZeros
  }

  /** frame_cropping_flag and, when set, the four offsets, followed by rest. */
  function CropBits(crop: Option<CropOffsets>, rest: seq<Bit>): (bs: seq<Bit>)
    ensures |bs| == CropLength(crop) + |rest|
  {
    match crop
    case None => [0] + rest
    case Some(o) => [1] + (UeCode(o.left) + (UeCode(o.right) + (UeCode(o.top) + (UeCode(o.bottom) + rest))))
  }

  /** Reading encoded crop fields returns them and stops where rest begins. */
  lemma ReadCropThen(c: Cursor, crop: Option<CropOffsets>, rest: seq<Bit>)
    requires CropFits(crop) && c.Sees(CropBits(crop, rest))
    ensures ReadCrop(c) == Some(Read(crop, c.Advance(CropLength(crop))))
    ensures c.Advance(CropLength(crop)).Sees(rest)
  {
    match crop
    case None =>
      FlagThen(c, 0, rest);
    case Some(o) =>
      var r3 := UeCode(o.bottom) + rest;
      var r2 := UeCode(o.top) + r3;
      var r1 := UeCode(o.right) + r2;
      var c1 := c.Advance(1);
      var c2 := c1.Advance(UeLength(o.left));
      var c3 := c2.Advance(UeLength(o.right));
      var c4 := c3.Advance(UeLength(o.top));
      var c5 := c4.Advance(UeLength(o.bottom));
      FlagThen(c, 1, UeCode(o.left) + r1);
      UeThen(c1, o.left, r1);
      UeThen(c2, o.right, r2);
      UeThen(c3, o.top, r3);
      UeThen(c4, o.bottom, rest);
      ReadCropSteps(c, o, c1, c2, c3, c4, c5);
      assert c5 == c.Advance(CropLength(crop));
  }

  /** With the flag set, ReadCrop is the flag and four ue(v) reads. */
  lemma ReadCropSteps(c: Cursor, o: CropOffsets, c1: Cursor, c2: Cursor, c3: Cursor, c4: Cursor, c5: Cursor)
    requires ReadBit(c) == Some(Read(1, c1))
    requires ReadUe(c1) == Some(Read(o.left, c2))
    requires ReadUe(c2) == Some(Read(o.right, c3))
    requires ReadUe(c3) == Some(Read(o.top, c4))
    requires ReadUe(c4) == Some(Read(o.bottom, c5))
    ensures ReadCrop(c) == Some(Read(Some(o), c5))
  {
  }

  /** Frame fields the reader accepts: ue(v) fields in range, and the
      adaptive flag present exactly when frame_mbs_only_flag is clear. */
  predicate FrameFits(f: FrameInfo) {
    && UeZeros(f.maxNumRefFrames) < MaxLeadingZeros
    && UeZeros(f.picWidthInMbsMinus1) < MaxLeadingZeros
    && UeZeros(f.picHeightInMapUnitsMinus1) < MaxLeadingZeros
    && (f.mbAdaptiveFrameFieldFlag.Some? <==> f.frameMbsOnlyFlag == 0)
    && CropFits(f.frameCropping)
  }

  /** The frame fields in order, followed by rest. */
  function FrameBits(f: FrameInfo, rest: seq<Bit>): (bs: seq<Bit>)
    ensures |bs| == FrameLength(f) + |rest|
  {
    UeCode(f.maxNumRefFrames) + ([f.gapsInFrameNumValueAllowedFlag] + (UeCode(f.picWidthInMbsMinus1)
      + (UeCode(f.picHeightInMapUnitsMinus1) + ([f.frameMbsOnlyFlag] + OptionalFlagBits(f.mbAdaptiveFrameFieldFlag,
        [f.direct8x8InferenceFlag] + CropBits(f.frameCropping, [f.vuiParametersPresentFlag] + rest))))))
  }

  /** Reading encoded frame fields returns them and stops where rest begins. */
  lemma ReadFrameInfoThen(c: Cursor, f: FrameInfo, rest: seq<Bit>)
    requires FrameFits(f) && c.Sees(FrameBits(f, rest))
    ensures ReadFrameInfo(c) == Some(Read(f, c.Advance(FrameLength(f))))
    ensures c.Advance(FrameLength(f)).Sees(rest)
  {
    var r8 := [f.vuiParametersPresentFlag] + rest;
    var r7 := CropBits(f.frameCropping, r8);
    var r6 := [f.direct8x8InferenceFlag] + r7;
    var r5 := OptionalFlagBits(f.mbAdaptiveFrameFieldFlag, r6);
    var r4 := [f.frameMbsOnlyFlag] + r5;
    var r3 := UeCode(f.picHeightInMapUnitsMinus1) + r4;
    var r2 := UeCode(f.picWidthInMbsMinus1) + r3;
    var r1 := [f.gapsInFrameNumValueAllowedFlag] + r2;
    var c1 := c.Advance(UeLength(f.maxNumRefFrames));
    var c2 := c1.Advance(1);
    var c3 := c2.Advance(UeLength(f.picWidthInMbsMinus1));
    var c4 := c3.Advance(UeLength(f.picHeightInMapUnitsMinus1));
    var c5 := c4.Advance(1);
    var c6 := c5.Advance(OptionalFlagLength(f.mbAdaptiveFrameFieldFlag));
    var c7 := c6.Advance(1);
    var c8 := c7.Advance(CropLength(f.frameCropping));
    var c9 := c8.Advance(1);
    UeThen(c, f.maxNumRefFrames, r1);
    FlagThen(c1, f.gapsInFrameNumValueAllowedFlag, r2);
    UeThen(c2, f.picWidthInMbsMinus1, r3);
    UeThen(c3, f.picHeightInMapUnitsMinus1, r4);
    FlagThen(c4, f.frameMbsOnlyFlag, r5);
    ReadAdaptiveFlagThen(c5, f.frameMbsOnlyFlag, f.mbAdaptiveFrameFieldFlag, r6);
    FlagThen(c6, f.direct8x8InferenceFlag, r7);
    ReadCropThen(c7, f.frameCropping, r8);
    FlagThen(c8, f.vuiParametersPresentFlag, rest);
    ReadFrameInfoSteps(c, f, c1, c2, c3, c4, c5, c6, c7, c8, c9);
    assert c9 == c.Advance(FrameLength(f));
  }

  /** ReadFrameInfo is its nine reads in a row. */
  lemma ReadFrameInfoSteps(c: Cursor, f: FrameInfo, c1: Cursor, c2: Cursor, c3: Cursor, c4: Cursor,
                           c5: Cursor, c6: Cursor, c7: Cursor, c8: Cursor, c9: Cursor)
    requires ReadUe(c) == Some(Read(f.maxNumRefFrames, c1))
    requires ReadBit(c1) == Some(Read(f.gapsInFrameNumValueAllowedFlag, c2))
    requires ReadUe(c2) == Some(Read(f.picWidthInMbsMinus1, c3))
    requires ReadUe(c3) == Some(Read(f.picHeightInMapUnitsMinus1, c4))
    requires ReadBit(c4) == Some(Read(f.frameMbsOnlyFlag, c5))
    requires ReadAdaptiveFlag(c5, f.frameMbsOnlyFlag) == Some(Read(f.mbAdaptiveFrameFieldFlag, c6))
    requires ReadBit(c6) == Some(Read(f.direct8x8InferenceFlag, c7))
    requires ReadCrop(c7) == Some(Read(f.frameCropping, c8))
    requires ReadBit(c8) == Some(Read(f.vuiParametersPresentFlag, c9))
    ensures ReadFrameInfo(c) == Some(Read(f, c9))
  {
  }

  /* ---------------- The whole walk ---------------- */

  datatype Sps = Sps(
    head: SpsHead,
    chroma: Option<ChromaInfo>,
    log2MaxFrameNumMinus4: nat,
    poc: PocInfo,
    frame: FrameInfo)

  function ReadSps(c: Cursor): (r: Option<Read<Sps>>)
    ensures r.Some? ==> (r.value.value.chroma.Some? <==> HasChromaInfo(r.value.value.head.profileIdc))
    ensures r.Some? ==> r.value.next == c.Advance(SpsLength(r.value.value))
  {
    var head :- ReadHead(c);
    var chroma :- ReadChromaInfo(head.next, head.value.profileIdc);
    var frameNum :- ReadUe(chroma.next);
    var poc :- ReadPoc(frameNum.next);
    var frame :- ReadFrameInfo(poc.next);
    Some(Read(Sps(head.value, chroma.value, frameNum.value, poc.value, frame.value), frame.next))
  }

  function SpsLength(s: Sps): nat {
    HeadLength(s.head) + ChromaLength(s.chroma) + UeLength(s.log2MaxFrameNumMinus4)
    + PocLength(s.poc) + FrameLength(s.frame)
  }

  /** A parameter set the reader accepts: every block in range, and the
      profile-dependent block present exactly for the profiles that carry it. */
  predicate SpsFits(s: Sps) {
    && HeadFits(s.head)
    && ChromaFits(s.head.profileIdc, s.chroma)
    && UeZeros(s.log2MaxFrameNumMinus4) < MaxLeadingZeros
    && PocFits(s.poc)
    && FrameFits(s.frame)
  }

  /** The parameter set's fields in syntax order, followed by rest. */
  function SpsBits(s: Sps, rest: seq<Bit>): (bs: seq<Bit>)
    ensures |bs| == SpsLength(s) + |rest|
  {
    HeadBits(s.head, ChromaBits(s.chroma, UeCode(s.log2MaxFrameNumMinus4)
      + PocBits(s.poc, FrameBits(s.frame, rest))))
  }

  /** Reading an encoded parameter set returns it and stops where rest begins. */
  lemma ReadSpsThen(c: Cursor, s: Sps, rest: seq<Bit>)
    requires SpsFits(s) && c.Sees(SpsBits(s, rest))
    ensures ReadSps(c) == Some(Read(s, c.Advance(SpsLength(s))))
    ensures c.Advance(SpsLength(s)).Sees(rest)
  {
    var r3 := FrameBits(s.frame, rest);
    var r2 := PocBits(s.poc, r3);
    var r1 := UeCode(s.log2MaxFrameNumMinus4) + r2;
    var c1 := c.Advance(HeadLength(s.head));
    var c2 := c1.Advance(ChromaLength(s.chroma));
    var c3 := c2.Advance(UeLength(s.log2MaxFrameNumMinus4));
    var c4 := c3.Advance(PocLength(s.poc));
    var c5 := c4.Advance(FrameLength(s.frame));
    assert ReadHead(c) == Some(Read(s.head, c1)) && c1.Sees(ChromaBits(s.chroma, r1)) by {
      ReadHeadThen(c, s.head, ChromaBits(s.chroma, r1));
    }
    assert ReadChromaInfo(c1, s.head.profileIdc) == Some(Read(s.chroma, c2)) && c2.Sees(r1) by {
      ReadChromaInfoThen(c1, s.head.profileIdc, s.chroma, r1);
    }
    assert ReadUe(c2) == Some(Read(s.log2MaxFrameNumMinus4, c3)) && c3.Sees(r2) by {
      UeThen(c2, s.log2MaxFrameNumMinus4, r2);
    }
    assert ReadPoc(c3) == Some(Read(s.poc, c4)) && c4.Sees(r3) by {
      ReadPocThen(c3, s.poc, r3);
    }
    assert ReadFrameInfo(c4) == Some(Read(s.frame, c5)) && c5.Sees(rest) by {
      ReadFrameInfoThen(c4, s.frame, rest);
    }
    ReadSpsSteps(c, s, c1, c2, c3, c4, c5);
    assert c5 == c.Advance(SpsLength(s));
  }

  /** ReadSps is its five block reads in a row. */
  lemma ReadSpsSteps(c: Cursor, s: Sps, c1: Cursor, c2: Cursor, c3: Cursor, c4: Cursor, c5: Cursor)
    requires ReadHead(c) == Some(Read(s.head, c1))
    requires ReadChromaInfo(c1, s.head.profileIdc) == Some(Read(s.chroma, c2))
    requires ReadUe(c2) == Some(Read(s.log2MaxFrameNumMinus4, c3))
    requires ReadPoc(c3) == Some(Read(s.poc, c4))
    requires ReadFrameInfo(c4) == Some(Read(s.frame, c5))
    ensures ReadSps(c) == Some(Read(s, c5))
  {
  }

  /* ---------------- Width and height ---------------- */

  datatype Dims = Dims(width: int, height: int)

  /** The frame size as the parser computes it: 16 luma samples per
      macroblock, twice as many map-unit rows for field-capable streams,
      and crop offsets doubled. As written, the top and bottom offsets are
      taken off the width and the left and right offsets off the height. */
  function FrameDimensions(f: FrameInfo): (d: Dims)
    ensures f.frameCropping.None? ==> d == UncroppedDimensions(f)
    ensures f.frameCropping.Some? ==>
      var o := f.frameCropping.value;
      d == Dims(UncroppedDimensions(f).width - 2 * (o.top + o.bottom),
                UncroppedDimensions(f).height - 2 * (o.left + o.right))
  {
    var o := if f.frameCropping.Some? then f.frameCropping.value else CropOffsets(0, 0, 0, 0);
    Dims((f.picWidthInMbsMinus1 + 1) * 16 - o.bottom * 2 - o.top * 2,
         (2 - f.frameMbsOnlyFlag as int) * (f.picHeightInMapUnitsMinus1 + 1) * 16 - o.right * 2 - o.left * 2)
  }

  /** PicWidthInMbs * 16 by FrameHeightInMbs * 16 (equations 7-13 and 7-18). */
  function UncroppedDimensions(f: FrameInfo): Dims {
    Dims(16 * (f.picWidthInMbsMinus1 + 1),
         16 * ((2 - f.frameMbsOnlyFlag as int) * (f.picHeightInMapUnitsMinus1 + 1)))
  }

  /** The cropped size of section 7.4.2.1.1 for 4:2:0 video (CropUnitX = 2,
      CropUnitY = 2 * (2 - frame_mbs_only_flag)): left and right come off
      the width, top and bottom off the height. */
  function StandardDimensions(f: FrameInfo): Dims {
    var full := UncroppedDimensions(f);
    match f.frameCropping
    case None => full
    case Some(o) =>
      Dims(full.width - 2 * (o.left + o.right),
           full.height - 2 * (2 - f.frameMbsOnlyFlag as int) * (o.top + o.bottom))
  }

  /** The parser agrees with the standard's cropped size exactly when there
      is no cropping, or the horizontal and vertical crop totals are equal
      and either the stream is frame-only or nothing is cropped. */
  lemma FrameDimensionsVersusStandard(f: FrameInfo)
    ensures FrameDimensions(f) == StandardDimensions(f) <==>
      (f.frameCropping.None? ||
       (var o := f.frameCropping.value;
        o.left + o.right == o.top + o.bottom && (f.frameMbsOnlyFlag == 1 || o.left + o.right == 0)))
  {
    if f.frameCropping.Some? {
      var o := f.frameCropping.value;
      var k := 2 - f.frameMbsOnlyFlag as int;
      var s := o.left + o.right;
      var t := o.top + o.bottom;
      if FrameDimensions(f) == StandardDimensions(f) {
        assert s == t;
        assert 2 * k * t == 2 * s;
        if f.frameMbsOnlyFlag == 0 {
          assert 4 * s == 2 * s;
        }
      }
    }
  }

  /** A 22 by 18 macroblock frame-only stream without cropping is 352x288
      (CIF); cropping two rows of offsets top and bottom narrows it as
      written, where the standard would shorten it. */
  lemma CifExample()
    ensures FrameDimensions(FrameInfo(0, 0, 21, 17, 1, None, 1, None, 0)) == Dims(352, 288)
    ensures FrameDimensions(FrameInfo(0, 0, 21, 17, 1, None, 1, Some(CropOffsets(0, 0, 2, 2)), 0)) == Dims(344, 288)
    ensures StandardDimensions(FrameInfo(0, 0, 21, 17, 1, None, 1, Some(CropOffsets(0, 0, 2, 2)), 0)) == Dims(352, 280)
  {
  }

  /** h264_width_height over a buffer: the walk from its first bit. A buffer
      that begins with the encoding of a parameter set, whatever follows it,
      yields the frame size of that parameter set. */
  function H264WidthHeight(data: seq<Byte>): (d: Option<Dims>)
    ensures forall s: Sps, rest: seq<Bit> {:trigger SpsBits(s, rest)} ::
      SpsFits(s) && Cursor(data, 0).Sees(SpsBits(s, rest)) ==> d == Some(FrameDimensions(s.frame))
  {
    EncodedSpsRead(Cursor(data, 0));
    var sps :- ReadSps(Cursor(data, 0));
    Some(FrameDimensions(sps.value.frame))
  }

  /** Every parameter set whose encoding a cursor sees is the one read there. */
  lemma EncodedSpsRead(c: Cursor)
    ensures forall s: Sps, rest: seq<Bit> {:trigger SpsBits(s, rest)} ::
      SpsFits(s) && c.Sees(SpsBits(s, rest)) ==> ReadSps(c) == Some(Read(s, c.Advance(SpsLength(s))))
  {
    forall s: Sps, rest: seq<Bit> | SpsFits(s) && c.Sees(SpsBits(s, rest))
      ensures ReadSps(c) == Some(Read(s, c.Advance(SpsLength(s))))
    {
      ReadSpsThen(c, s, rest);
    }
  }

  /** An encoded parameter set, followed by any bits and padded with zero
      bits to whole bytes, yields the frame size of its frame fields. */
  lemma WidthHeightOfEncoded(s: Sps, rest: seq<Bit>)
    requires SpsFits(s)
    ensures H264WidthHeight(Pack(PadToByte(SpsBits(s, rest)))) == Some(FrameDimensions(s.frame))
  {
    var bs := SpsBits(s, rest);
    var padded := PadToByte(bs);
    var data := Pack(padded);
    var c := Cursor(data, 0);
    PackBits(padded);
    assert c.Sees(bs) by {
      assert BitsOfBytes(data)[0 .. |bs|] == padded[..|bs|];
    }
    ReadSpsThen(c, s, rest);
  }

  /** The bits after an encoded parameter set are the ones it was followed by. */
  lemma SpsBitsEnd(s: Sps, rest: seq<Bit>)
    requires SpsFits(s)
    ensures SpsBits(s, rest)[SpsLength(s)..] == rest
  {
    var bs := SpsBits(s, rest);
    var padded := PadToByte(bs);
    var data := Pack(padded);
    var c := Cursor(data, 0);
    PackBits(padded);
    assert c.Sees(bs) by {
      assert BitsOfBytes(data)[0 .. |bs|] == padded[..|bs|];
    }
    ReadSpsThen(c, s, rest);
    SeesSuffix(c, bs, SpsLength(s), rest);
  }
}
