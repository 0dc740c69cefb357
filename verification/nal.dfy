/** The NAL unit level of the stream parser: the one-byte NAL unit header
    (section 7.3.1 of ITU-T H.264), the handling of one NAL unit payload,
    and the walk over a whole byte stream. */
module Nal {
  import opened Wrappers
  import opened Arith
  import opened BitString
  import opened AnnexB
  import opened Emulation
  import opened TrailingBits
  import opened BitReader
  import opened H264Sps

  /** The header fields as parse_nalu_header leaves them: the forbidden
      bit is masked but not shifted, so it is 0 or 128. */
  datatype NaluHeader = NaluHeader(forbiddenBit: nat, nalReferenceBit: nat, nalUnitType: nat)

  predicate ValidHeader(h: NaluHeader) {
    (h.forbiddenBit == 0 || h.forbiddenBit == 128) && h.nalReferenceBit < 4 && h.nalUnitType < 32
  }

  /** ch & 0x80, (ch & 0x60) >> 5 and ch & 0x1f. */
  function ParseNaluHeader(ch: Byte): (h: NaluHeader)
    ensures ValidHeader(h)
    ensures ch == h.forbiddenBit + 32 * h.nalReferenceBit + h.nalUnitType
  {
    NaluHeader(ch / 128 * 128, ch / 32 % 4, ch % 32)
  }

  /** The header byte carrying the given fields. */
  function HeaderByte(h: NaluHeader): (ch: Byte)
    requires ValidHeader(h)
  {
    h.forbiddenBit + 32 * h.nalReferenceBit + h.nalUnitType
  }

  /** The header fields are exactly the ones the byte was built from. */
  lemma ParseHeaderByte(h: NaluHeader)
    requires ValidHeader(h)
    ensures ParseNaluHeader(HeaderByte(h)) == h
  {
    var ch := HeaderByte(h);
    var f := h.forbiddenBit / 128;
    var low := 32 * h.nalReferenceBit + h.nalUnitType;
    DivModUnique(ch, 128, f, low);
    DivModUnique(ch, 32, 4 * f + h.nalReferenceBit, h.nalUnitType);
    DivModUnique(4 * f + h.nalReferenceBit, 4, f, h.nalReferenceBit);
  }

  /** The header of an SPS NAL unit with nal_ref_idc 3. */
  const SpsHeaderByte: Byte := 0x67

  /** rbsp_stop_one_bit, which ends the RBSP before the zero padding. */
  const StopBit: seq<Bit> := [1]

  /** What the parser makes of one NAL unit. */
  datatype NalOutcome =
    | Skipped
    | PpsUnit
    | SpsUnit(dims: Option<Dims>)

  /** The RBSP holds a data byte: after removing the trailing bits some
      byte is left. */
  predicate HasData(rbsp: seq<Byte>) {
    exists k :: 1 <= k < |rbsp| && rbsp[k] != 0
  }

  /** process_nal_payload. Only SPS and PPS units are looked at, and only
      when their RBSP keeps some data once the trailing bits are gone; the
      frame size is then read from the escaped bytes after the header. */
  method ProcessNalPayload(buff: seq<Byte>) returns (outcome: NalOutcome)
    ensures outcome != Skipped <==>
      && |buff| > 0
      && ParseNaluHeader(buff[0]).nalUnitType in {7, 8}
      && HasData(Strip(buff[1..], 0))
    ensures outcome.SpsUnit? <==> outcome != Skipped && ParseNaluHeader(buff[0]).nalUnitType == 7
    ensures outcome.SpsUnit? ==> outcome.dims == H264WidthHeight(buff[1..])
    ensures outcome == NalOutcomeOf(buff)
  {
    if |buff| == 0 {
      return Skipped;
    }
    var h := ParseNaluHeader(buff[0]);
    if h.nalUnitType != 7 && h.nalUnitType != 8 {
      return Skipped;
    }
    var ebsp := buff[1..];
    var rbsp := EbspToRbsp(ebsp);
    if |rbsp| == 0 {
      return Skipped;
    }
    var sodb := RbspToSodb(rbsp);
    SodbNonEmpty(rbsp);
    if |sodb| == 0 {
      return Skipped;
    }
    if h.nalUnitType == 7 {
      outcome := SpsUnit(H264WidthHeight(ebsp));
    } else {
      outcome := PpsUnit;
    }
  }

  /** What the parser makes of one payload, as a function. */
  function NalOutcomeOf(buff: seq<Byte>): NalOutcome {
    if |buff| == 0 then Skipped
    else
      var t := ParseNaluHeader(buff[0]).nalUnitType;
      if (t != 7 && t != 8) || !HasData(Strip(buff[1..], 0)) then Skipped
      else if t == 7 then SpsUnit(H264WidthHeight(buff[1..]))
      else PpsUnit
  }

  /** parse_h264_file over the bytes of a file: no outcome without a first
      start code, otherwise one outcome per NAL unit in stream order. */
  method ParseH264File(s: seq<Byte>) returns (found: bool, outcomes: seq<NalOutcome>)
    ensures found <==> exists q :: EndsWithStartCode(s, q)
    ensures found ==> |outcomes| == |SplitStream(s).value|
    ensures found ==> forall i :: 0 <= i < |outcomes| ==> outcomes[i] == NalOutcomeOf(SplitStream(s).value[i])
    ensures !found ==> outcomes == []
  {
    var payloads;
    found, payloads := SplitNalUnits(s);
    outcomes := [];
    if found {
      outcomes := ProcessPayloads(payloads);
    }
  }

  /** The loop of parse_h264_file: each payload handled in turn. */
  method ProcessPayloads(payloads: seq<seq<Byte>>) returns (outcomes: seq<NalOutcome>)
    ensures |outcomes| == |payloads|
    ensures forall i :: 0 <= i < |payloads| ==> outcomes[i] == NalOutcomeOf(payloads[i])
  {
    outcomes := [];
    for i := 0 to |payloads|
      invariant |outcomes| == i
      invariant forall j :: 0 <= j < i ==> outcomes[j] == NalOutcomeOf(payloads[j])
    {
      var outcome := ProcessNalPayload(payloads[i]);
      outcomes := outcomes + [outcome];
    }
  }

  /** An SPS NAL unit whose fields are followed by the stop bit and zero
      padding is reported with the frame size of its frame fields. */
  lemma SpsUnitReportsSize(s: Sps)
    requires SpsFits(s)
    ensures NalOutcomeOf([SpsHeaderByte] + Pack(PadToByte(SpsBits(s, StopBit))))
         == SpsUnit(Some(FrameDimensions(s.frame)))
  {
    var ebsp := Pack(PadToByte(SpsBits(s, StopBit)));
    var dims := FrameDimensions(s.frame);
    assert H264WidthHeight(ebsp) == Some(dims) by {
      WidthHeightOfEncoded(s, StopBit);
    }
    LastByteNonZero(s, ebsp);
    SpsPayload(ebsp, dims);
  }

  /** An SPS header followed by escaped bytes whose last byte is non-zero
      reports the frame size read from those bytes. */
  lemma SpsPayload(ebsp: seq<Byte>, dims: Dims)
    requires |ebsp| >= 2 && ebsp[|ebsp| - 1] != 0
    requires H264WidthHeight(ebsp) == Some(dims)
    ensures NalOutcomeOf([SpsHeaderByte] + ebsp) == SpsUnit(Some(dims))
  {
    LastByteKept(ebsp);
    assert ParseNaluHeader(SpsHeaderByte) == NaluHeader(0, 3, 7);
    var buff := [SpsHeaderByte] + ebsp;
    assert buff[1..] == ebsp;
  }

  /** Escaped bytes of two or more ending in a non-zero byte leave data
      once emulation prevention and trailing bits are removed. */
  lemma LastByteKept(ebsp: seq<Byte>)
    requires |ebsp| >= 2 && ebsp[|ebsp| - 1] != 0
    ensures HasData(Strip(ebsp, 0))
  {
    StripKeepsTwo(ebsp);
    StripKeepsLast(ebsp, 0);
    var rbsp := Strip(ebsp, 0);
    assert 1 <= |rbsp| - 1 && rbsp[|rbsp| - 1] != 0;
  }

  /** The byte holding the stop bit is the last one and is not zero. */
  lemma LastByteNonZero(s: Sps, ebsp: seq<Byte>)
    requires SpsFits(s) && ebsp == Pack(PadToByte(SpsBits(s, StopBit)))
    ensures |ebsp| >= 2 && ebsp[|ebsp| - 1] != 0
  {
    var bs := SpsBits(s, StopBit);
    SpsBitsEnd(s, StopBit);
    assert bs[|bs| - 1] == 1;
    StopBitByte(bs, ebsp);
  }

  /** A bit string of more than one byte that ends in a one bit packs into
      at least two bytes, the last of them non-zero. */
  lemma StopBitByte(bs: seq<Bit>, data: seq<Byte>)
    requires |bs| > 8 && bs[|bs| - 1] == 1 && data == Pack(PadToByte(bs))
    ensures |data| >= 2 && data[|data| - 1] != 0
  {
    var padded := PadToByte(bs);
    PackBits(padded);
    var k := |data| - 1;
    var i := |bs| - 1 - 8 * k;
    assert padded[|bs| - 1] == 1 by {
      assert padded[..|bs|][|bs| - 1] == bs[|bs| - 1];
    }
    BitsOfBytesAt(data, k, i);
    BitsIndex(data[k], 8, i);
  }
}
