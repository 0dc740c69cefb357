# h264_stream in Dafny

A model of the header-metadata pipeline of h264_stream. The program reads an
H.264 Annex B byte stream, cuts it into NAL units at start codes, and looks
at SPS and PPS units only. For each of those it removes emulation
prevention bytes (EBSP to RBSP) and trims the trailing bits (RBSP to SODB).
For an SPS it then walks `seq_parameter_set_data` with an MSB-first bit
cursor and Exp-Golomb decoding, and reports the frame width and height.

The model is functional. Byte buffers are `seq<Byte>`. The bit cursor is a
`(data, pos)` pair threaded through readers that return `None` when they
would run off the buffer. The byte scanners keep an explicit window of the
last three bytes. Every decoder comes with an encoder and a round-trip lemma.
Every loop-based scanner is proved equal to a pure reference definition.

Modules, in dependency order:

- `Wrappers`, `Arith`, `BitString`: `Option` with `:-`, powers of two,
  and bit strings. `BitsOfBytes` is the MSB-first bit string of a buffer,
  `Pack` turns bits back into bytes, and `PadToByte` fills with zero bits.
- `BitReader` (read_bits.dfy): `read_bit` and `read_n_bits`. The two copies
  in `H264Parse` and in class `ReadBit` have the same code, so one model
  serves both.
- `ExpGolomb`: ue(v) and se(v), section 9.1 of ITU-T H.264.
- `Fields`, `Repeat`: round-trip lemmas for single flags, fixed-width
  fields and runs of se(v) values.
- `H264Sps`: `H264Parse::h264_width_height`, field by field. For each block
  there is an encoder (`...Bits`) and a lemma (`Read...Then`) saying the
  reader returns what was encoded.
- `AnnexB`: the start-code scanners and the stream split.
- `Emulation`: `ebsp_code` / `ebsp_to_rbsp`.
- `TrailingBits`: `rbsp_to_sodb`.
- `Nal`: `parse_nalu_header`, `process_nal_payload` and the file loop of
  `parse_h264_file`.

## Model

| member | source | states |
|---|---|---|
| BitReader.ReadBit | h264.hpp:12-20 | a bit is read exactly when the cursor is before the end of the buffer (the model does not allow the assert's `pos == 8*len`), and the cursor moves by exactly one |
| BitReader.ReadBitIsBitString | read_bits.hpp:16-24 | the shift-and-mask formula returns bit `pos` of the buffer's MSB-first bit string, i.e. bit 7 - pos%8 of byte pos/8 |
| BitReader.ReadBitSees | read_bits.hpp:16-24 | reading bit b and moving one on holds exactly when the buffer has b at the cursor |
| BitReader.ReadBits | h264.hpp:21-30 | n bits are read exactly when n is 0 or n bits remain; the value is below 2^n and the cursor moves by n; n = 0 gives 0 without moving |
| BitReader.ReadBitsValue | read_bits.hpp:25-34 | the value read is the big-endian value of the n bits at the cursor |
| BitReader.ReadBitsSees | h264.hpp:21-30 | reading x in n bits holds exactly when the buffer has x's n-bit big-endian code at the cursor |
| BitReader.ReadBitsSplit | read_bits.hpp:25-34 | reading a bits then b bits gives x and y with x * 2^b + y equal to reading a + b bits from the same start |
| BitReader.ReadBitsByte | read_bits.hpp:25-34 | at a byte boundary, reading 8 bits returns that byte |
| ExpGolomb.CountLeadingZeros | h264.hpp:37-40 | the zero count never exceeds the cap, and the count plus the bit that stops the loop are consumed |
| ExpGolomb.CountLeadingZerosSees | h264.hpp:37-40 | a count of k below the cap is returned exactly when k zero bits and then a one bit are at the cursor |
| ExpGolomb.ReadUe | h264.hpp:32-45 | a decoded value has fewer than 32 leading zeros in its code, and exactly 2*lz + 1 bits are consumed |
| ExpGolomb.UeRoundTrip | h264.hpp:32-45 | ue(v) returns v and stops right after its code word exactly when v's code word is at the cursor and has fewer than 32 leading zeros |
| ExpGolomb.UeCanonical | h264.hpp:32-45 | whatever ue(v) returns, the code word of that value was at the cursor |
| ExpGolomb.SeMap | h264.hpp:47-59 | code number k maps to v with k = 2v - 1 for v > 0 and k = -2v otherwise (odd k to (k+1)/2, even k to -(k/2)) |
| ExpGolomb.SeBijection | h264.hpp:47-59 | the code-number-to-integer map and its inverse are a bijection between naturals and integers |
| ExpGolomb.SeRoundTrip | h264.hpp:47-59 | se(v) returns v and stops after its code word exactly when that code word is at the cursor and fits the cap |
| H264Sps.ReadHead | h264.hpp:76-95 | the fixed-width head fields are read in range and consume exactly their encoded length |
| H264Sps.ReadHeadThen | h264.hpp:76-95 | an encoded head is read back field for field, and reading stops where the following bits begin |
| H264Sps.CRem | h264.hpp:133 | C's `%`: the remainder has the sign of the dividend, is smaller than the divisor in magnitude, and differs from the dividend by a multiple of it |
| H264Sps.CRemDiffers | h264.hpp:133 | C's remainder of -1 by 256 is -1, where the Euclidean one is 255 |
| H264Sps.NextScale | h264.hpp:133 | for a non-negative sum the new scale is (lastScale + delta + 256) mod 256 |
| H264Sps.ScaleStepInRange | h264.hpp:130-135 | with lastScale in [1,255] and delta in [-128,127], nextScale stays in [0,255] and lastScale in [1,255] |
| H264Sps.ScalingListLoop | h264.hpp:128-136 | once nextScale is 0 no bits are read; at most `remaining` deltas are read, each while nextScale was non-zero, and exactly their code words are consumed |
| H264Sps.ScalingListLoopThen | h264.hpp:128-136 | an encoded delta list that follows the nextScale rule is read back exactly |
| H264Sps.ReadScalingList | h264.hpp:124-136 | at most `size` deltas are read, starting from scale 8 |
| H264Sps.ReadOneList | h264.hpp:121-137 | a list is present exactly when its flag is set, and only a present list reads deltas |
| H264Sps.ReadScalingLists | h264.hpp:118-138 | lists i to 7 are read, each with its size rule, consuming their flags and deltas |
| H264Sps.ReadScalingListsThen | h264.hpp:116-139 | encoded scaling lists are read back exactly |
| H264Sps.ReadResidualFlag | h264.hpp:102-106 | the colour-transform flag is read exactly when chroma_format_idc is 3 |
| H264Sps.ReadScalingMatrix | h264.hpp:113-139 | a present matrix has 8 lists; the bits consumed are the matrix flag plus the lists |
| H264Sps.ReadChromaInfo | h264.hpp:97-140 | for profiles outside {100,110,122,244,44,83,86,118} nothing is read and the cursor does not move; for those profiles the block is read |
| H264Sps.ReadChromaInfoThen | h264.hpp:97-140 | an encoded chroma block is read back exactly, and only for the listed profiles |
| H264Sps.ReadPoc | h264.hpp:144-165 | a type other than 0 and 1 reads nothing more, and the bits consumed are those of the decoded POC fields |
| H264Sps.ReadSeList | h264.hpp:159-164 | exactly n se(v) values are read |
| H264Sps.ReadPocThen | h264.hpp:144-165 | encoded POC fields of type 0, 1 or other are read back exactly |
| H264Sps.ReadAdaptiveFlag | h264.hpp:172-177 | mb_adaptive_frame_field_flag is read exactly when frame_mbs_only_flag is 0 |
| H264Sps.ReadCropThen | h264.hpp:180-187 | the four crop offsets are read exactly when the cropping flag is set, and an encoded crop block is read back |
| H264Sps.ReadFrameInfo | h264.hpp:166-189 | the adaptive flag is present exactly for field-capable streams, and the bits consumed are those of the decoded fields |
| H264Sps.ReadFrameInfoThen | h264.hpp:166-189 | encoded frame fields up to the VUI flag are read back exactly |
| H264Sps.ReadSps | h264.hpp:68-195 | the chroma block is present exactly for the listed profiles, and the walk consumes exactly the encoded length of what it returns |
| H264Sps.ReadSpsThen | h264.hpp:68-195 | an encoded SPS is read back field for field and the walk stops where the following bits begin |
| H264Sps.FrameDimensions | h264.hpp:191-194 | without cropping: width 16*(mbs+1), height (2 - frame_mbs_only_flag)*16*(map units+1); with cropping, as written, top+bottom come off the width and left+right off the height |
| H264Sps.FrameDimensionsVersusStandard | h264.hpp:191-194 | the size as written equals the cropped size of section 7.4.2.1.1 exactly when there is no cropping, or both crop totals are equal and the stream is frame-only or crops nothing |
| H264Sps.H264WidthHeight | h264.hpp:204-208 | a buffer that begins with the encoding of any well-formed SPS, whatever bits follow it, reports the frame size of that SPS |
| H264Sps.EncodedSpsRead | h264.hpp:68-189 | at a cursor that sees the encoding of an SPS, the walk returns that SPS and stops right after its encoding |
| H264Sps.WidthHeightOfEncoded | h264.hpp:68-208 | any encoded SPS, followed by any bits and padded to bytes, yields the size of its frame fields |
| AnnexB.PopThree | main.cc:15-21 | three bytes come off the end, and what remains plus them is the buffer |
| AnnexB.WindowStartCode3 | main.cc:23-30 | the window test holds exactly when the bytes read so far end with 00 00 01 |
| AnnexB.WindowStartCode4 | main.cc:32-39 | the window-and-next-byte test holds exactly when the bytes up to that one end with 00 00 00 01 |
| AnnexB.FirstStartCodeEnd | main.cc:121-145 | the least position just past a 00 00 01, or None when the stream has none |
| AnnexB.FindFirstStartCode | main.cc:121-145 | fails exactly when the stream has no 00 00 01 (so any stream under 3 bytes fails); otherwise stops just past the first one |
| AnnexB.FindNalPayload | main.cc:201-224 | without a further start code the payload is the rest of the stream; otherwise the scan stops just past the first start code and the payload is the bytes before it, minus 3 or 4 start-code bytes |
| AnnexB.SplitStream | main.cc:225-247 | no payloads exactly when the stream has no start code |
| AnnexB.SplitNalUnits | main.cc:234-245 | the scan loop yields the payloads of the reference split |
| AnnexB.PayloadsHaveNoStartCode | main.cc:201-224 | no payload contains 00 00 01 |
| AnnexB.SplitJoin | main.cc:225-247 | payloads free of start codes, each written after 00 00 00 01 with the last one non-empty, split back into the same payloads |
| Emulation.EbspToRbsp | main.cc:106-119 | the pop_back loop over a three-byte window equals the look-ahead removal `Strip`: a 03 after two zeros is dropped when the next byte is at most 03 |
| Emulation.StripIdentity | main.cc:40-57 | the bytes are returned unchanged exactly when no 00 00 03 is followed by a byte at most 03 |
| Emulation.StripUnchanged | main.cc:106-119 | from any zero-run state, removal changes nothing exactly when no removable 03 occurs |
| Emulation.StripLength | main.cc:106-119 | the RBSP is never longer than the EBSP |
| Emulation.StripSubsequence | main.cc:106-119 | the RBSP is a subsequence of the EBSP |
| Emulation.StripKeepsLast | main.cc:106-119 | the last byte is never removed, so a trailing 00 00 03 stays |
| Emulation.TrailingEmulationKept | main.cc:106-119 | a final 00 00 03 is kept; 00 00 03 01 loses its 03; the zero count restarts after a removal |
| Emulation.StripEscape | main.cc:106-119 | inserting 03 before each byte at most 03 that follows two zeros, then removing, gives back the original bytes |
| TrailingBits.ByteZeroBits | main.cc:87-92 | a byte is zero exactly when none of its eight bits tests set |
| TrailingBits.LastNonZero | main.cc:85-102 | the index of the last non-zero byte, with only zeros after it, or None when all bytes are zero |
| TrailingBits.RbspToSodb | main.cc:81-104 | the bit scan from the end returns the bytes strictly before the last non-zero byte, or nothing for all-zero input |
| TrailingBits.SodbAppendZeros | main.cc:81-104 | appending zero bytes to the RBSP does not change the result |
| TrailingBits.SodbOfTrailing | main.cc:81-104 | data bytes followed by a non-zero stop byte and zero bytes give back the data bytes |
| TrailingBits.SodbNonEmpty | main.cc:184-188 | the result is non-empty exactly when some byte after the first is non-zero |
| Nal.ParseNaluHeader | main.cc:66-72 | forbidden_bit is 0 or 128, nal_ref_idc is in [0,3], the type is in [0,31], and the byte is their sum forbidden + 32*ref + type |
| Nal.ParseHeaderByte | main.cc:66-72 | the fields are recovered from the byte built from them |
| Nal.ProcessNalPayload | main.cc:157-199 | an outcome other than skipped happens exactly for a non-empty unit of type 7 or 8 whose RBSP keeps data after the trailing bits; it is an SPS exactly for type 7; the size is read from the EBSP after the header, not the RBSP |
| Nal.ProcessPayloads | main.cc:240-245 | one outcome per payload, in order, each the outcome of that payload alone |
| Nal.ParseH264File | main.cc:225-247 | no outcome without a start code; otherwise one outcome per NAL unit of the reference split, in stream order |
| Nal.SpsPayload | main.cc:192-198 | an SPS header followed by escaped bytes that end in a non-zero byte reports the size read from those bytes |
| Nal.SpsUnitReportsSize | main.cc:157-199 | an SPS NAL unit built from any encoded SPS, its stop bit and zero padding reports the size of its frame fields |

## Left out

- File I/O. `fopen`, `getc`, `feof` and `fclose` are not modelled. The scanners work on an in-memory byte sequence, and end of file is the end of the sequence.
- End of file in `find_nal_payload` and `parse_h264_file` is not modelled. `feof` turns true only after `getc` has failed, and the failed `getc` yields the byte `0xFF`, which the source pushes into the buffer. When the stream ends inside a payload, the source appends that `0xFF` to the last payload; the model does not. When the stream ends right after a start code, `feof` is still false, so the source runs `find_nal_payload` once more and gets a payload of the single byte `0xFF`. Its header has type 31, so it is skipped. Nal.ParseH264File has no such payload and so yields one outcome fewer, a skipped one, than the source in that case.
- Printing and the command line. `log_nalu_header`, `show_bytes`, the `printf` calls and `main` produce no model output. `ProcessNalPayload` returns its outcome instead of printing it.
- `scoped_exit.hpp` and `noncopyable.hpp` have no behaviour to model.
- `boost::circular_buffer` becomes an explicit sequence of at most three bytes.
- ExpGolomb.ReadUe: a run of 32 leading zeros fails with None. The source shifts a 32-bit `int` by 32 there, which C leaves undefined.
- ExpGolomb.ReadUe: decoded values are unbounded naturals. The source stores them in an `int` and adds `(1 << i) - 1`, which can wrap for codes with 31 leading zeros; the model does not wrap.
- H264Sps.FrameDimensions: width and height are unbounded integers. The 32-bit `int` products and the `int64_t` results are not bounded, and crop offsets larger than the frame give negative sizes, as in the source.
- H264Sps.H264WidthHeight: a walk that would read past the buffer returns None. In the source, the assert in `read_bit` (h264.hpp:14) admits one read at bit 8·len, which reads `start_[len]`, and aborts the program on the read after it. When assertions are compiled out, the source keeps reading past the buffer and still writes a width and height. The model promises neither behaviour.
- BitReader.ReadBit: at a cursor at or past bit 8·len it returns None; it has no precondition. In the source, the assert in `read_bit` admits the cursor at exactly 8·len and then reads `start_[len]`, one byte past the buffer. The model does not read that byte.
- TrailingBits.RbspToSodb: the scan starts at the last byte. The source first tests `rbsp[rbsp.size()]`, one past the end, and the model does not. Once that byte has no bit set, the two agree.
- The VUI parameters are not modelled, because only the `vui_parameters_present_flag` bit is read. PPS contents are not modelled either: a type 8 unit only goes through the byte pipeline.
- The SPS fields that `h264_width_height` reads and discards are kept in the `Sps` datatype. This lets the round-trip lemmas state exactly which bits are consumed.
