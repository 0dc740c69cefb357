/** Splitting an Annex-B byte stream (section B.2 of ITU-T H.264) into NAL
    unit payloads. The scanners keep the last three bytes they pushed in a
    window of capacity three and stop on a three-byte start code 00 00 01,
    or on 00 00 00 in the window with 01 as the byte just read. The file is
    a byte sequence here and the end of the file is the end of the
    sequence. */
module AnnexB {
  import opened Wrappers
  import opened BitString

  /** The capacity of the window of recent bytes. */
  const WindowSize: nat := 3

  /** Appending to a full window drops its oldest byte. */
  function Push(w: seq<Byte>, ch: Byte): (w': seq<Byte>)
    requires |w| <= WindowSize
    ensures 0 < |w'| <= WindowSize && w'[|w'| - 1] == ch
  {
    if |w| < WindowSize then w + [ch] else w[1..] + [ch]
  }

  /** The window after pushing the bytes of b into an empty one. */
  function LastThree(b: seq<Byte>): (w: seq<Byte>)
    ensures |w| <= WindowSize
  {
    if |b| <= WindowSize then b else b[|b| - WindowSize..]
  }

  /** start_code_3_bytes: the window holds 00 00 01. */
  predicate StartCode3(w: seq<Byte>) {
    |w| >= 3 && w[0] == 0 && w[1] == 0 && w[2] == 1
  }

  /** start_code_4_bytes: the window holds 00 00 00 and ch is 01. */
  predicate StartCode4(w: seq<Byte>, ch: Byte) {
    |w| >= 3 && w[0] == 0 && w[1] == 0 && w[2] == 0 && ch == 1
  }

  /** pop_3_item: the buffer without its last three bytes. */
  function PopThree(b: seq<Byte>): (r: seq<Byte>)
    requires |b| >= 3
    ensures |r| + 3 == |b| && r + b[|b| - 3..] == b
  {
    b[..|b| - 3]
  }

  /** A 00 00 01 ends right before index p. */
  predicate EndsWithStartCode(s: seq<Byte>, p: nat) {
    3 <= p <= |s| && s[p - 3] == 0 && s[p - 2] == 0 && s[p - 1] == 1
  }

  /** A 00 00 00 01 ends right before index p. */
  predicate EndsWithLongStartCode(s: seq<Byte>, p: nat) {
    4 <= p <= |s| && s[p - 4] == 0 && EndsWithStartCode(s, p)
  }

  /** The first index p >= from that a 00 00 01 ends before. */
  function FirstStartCodeEnd(s: seq<Byte>, from: nat): (r: Option<nat>)
    ensures r.Some? ==> from <= r.value && EndsWithStartCode(s, r.value)
    ensures r.Some? ==> forall q :: from <= q < r.value ==> !EndsWithStartCode(s, q)
    ensures r.None? ==> forall q :: from <= q ==> !EndsWithStartCode(s, q)
    decreases |s| + 1 - from
  {
    if from > |s| then None
    else if EndsWithStartCode(s, from) then Some(from)
    else FirstStartCodeEnd(s, from + 1)
  }

  /** How many bytes of the start code ending before p a scanner drops
      from its payload: four when a zero byte precedes the 00 00 01. */
  function StartCodeLength(s: seq<Byte>, p: nat): (n: nat)
    requires EndsWithStartCode(s, p)
    ensures n <= p && (n == 4 <==> EndsWithLongStartCode(s, p))
  {
    if EndsWithLongStartCode(s, p) then 4 else 3
  }

  lemma FirstStartCodeEndHere(s: seq<Byte>, p: nat)
    requires EndsWithStartCode(s, p)
    ensures FirstStartCodeEnd(s, p) == Some(p)
  {
  }

  lemma FirstStartCodeEndNext(s: seq<Byte>, p: nat)
    requires p <= |s| && !EndsWithStartCode(s, p)
    ensures FirstStartCodeEnd(s, p) == FirstStartCodeEnd(s, p + 1)
    ensures p == |s| ==> FirstStartCodeEnd(s, p).None?
  {
  }

  /** The window holds 00 00 01 exactly when the bytes pushed end with it. */
  lemma WindowStartCode3(s: seq<Byte>, p: nat)
    requires p <= |s|
    ensures StartCode3(LastThree(s[..p])) <==> EndsWithStartCode(s, p)
  {
  }

  /** The window holds 00 00 00 and the next byte is 01 exactly when the
      bytes up to that one end with 00 00 00 01. */
  lemma WindowStartCode4(s: seq<Byte>, p: nat)
    requires p < |s|
    ensures StartCode4(LastThree(s[..p]), s[p]) <==> EndsWithLongStartCode(s, p + 1)
  {
  }

  /** Pushing the next byte keeps the window the last three bytes read. */
  lemma WindowPush(s: seq<Byte>, p: nat)
    requires p < |s|
    ensures s[..p + 1] == s[..p] + [s[p]]
    ensures Push(LastThree(s[..p]), s[p]) == LastThree(s[..p + 1])
  {
    assert s[..p + 1] == s[..p] + [s[p]];
  }

  /** find_first_start_code: reads until the window holds a start code.
      On success pos is just past the first 00 00 01 in s; it fails
      exactly when s has none. */
  method FindFirstStartCode(s: seq<Byte>) returns (found: bool, pos: nat)
    ensures pos <= |s|
    ensures found <==> FirstStartCodeEnd(s, 0).Some?
    ensures found ==> FirstStartCodeEnd(s, 0) == Some(pos)
  {
    var w: seq<Byte> := [];
    pos := 0;
    while true
      invariant pos <= |s| && w == LastThree(s[..pos])
      invariant FirstStartCodeEnd(s, 0) == FirstStartCodeEnd(s, pos)
      decreases |s| - pos
    {
      WindowStartCode3(s, pos);
      if StartCode3(w) {
        FirstStartCodeEndHere(s, pos);
        return true, pos;
      }
      FirstStartCodeEndNext(s, pos);
      if pos == |s| {
        return false, pos;
      }
      var ch := s[pos];
      WindowStartCode4(s, pos);
      if StartCode4(w, ch) {
        FirstStartCodeEndHere(s, pos + 1);
        return true, pos + 1;
      }
      WindowPush(s, pos);
      w := Push(w, ch);
      pos := pos + 1;
    }
  }

  /** find_nal_payload: reads into a buffer until the window holds a start
      code, then drops that code's bytes from the buffer. Without a start
      code the rest of s is the payload. */
  method FindNalPayload(s: seq<Byte>) returns (payload: seq<Byte>, used: nat)
    ensures used <= |s|
    ensures FirstStartCodeEnd(s, 0).None? ==> payload == s && used == |s|
    ensures FirstStartCodeEnd(s, 0).Some? ==>
      used == FirstStartCodeEnd(s, 0).value && payload == s[..used - StartCodeLength(s, used)]
  {
    var w: seq<Byte> := [];
    var buffer: seq<Byte> := [];
    used := 0;
    while true
      invariant used <= |s| && buffer == s[..used] && w == LastThree(buffer)
      invariant FirstStartCodeEnd(s, 0) == FirstStartCodeEnd(s, used)
      invariant !EndsWithLongStartCode(s, used)
      decreases |s| - used
    {
      WindowStartCode3(s, used);
      if StartCode3(w) {
        ShortCodePayload(s, used);
        payload := PopThree(buffer);
        return;
      }
      FirstStartCodeEndNext(s, used);
      if used == |s| {
        payload := buffer;
        return;
      }
      var ch := s[used];
      WindowStartCode4(s, used);
      if StartCode4(w, ch) {
        LongCodePayload(s, used);
        payload := PopThree(buffer);
        used := used + 1;
        return;
      }
      WindowPush(s, used);
      w := Push(w, ch);
      buffer := buffer + [ch];
      used := used + 1;
    }
  }

  /** A 00 00 01 without a zero before it ends the payload three bytes early. */
  lemma ShortCodePayload(s: seq<Byte>, p: nat)
    requires EndsWithStartCode(s, p) && !EndsWithLongStartCode(s, p)
    ensures FirstStartCodeEnd(s, p) == Some(p)
    ensures PopThree(s[..p]) == s[..p - StartCodeLength(s, p)]
  {
  }

  /** A 00 00 00 01 ends the payload four bytes early; its 01 was read
      but not pushed. */
  lemma LongCodePayload(s: seq<Byte>, p: nat)
    requires EndsWithLongStartCode(s, p + 1)
    ensures FirstStartCodeEnd(s, p + 1) == Some(p + 1)
    ensures PopThree(s[..p]) == s[..p + 1 - StartCodeLength(s, p + 1)]
  {
  }

  /** The payloads of the NAL units in s, which follows a start code: each
      runs up to the next start code, the last one to the end of s. */
  function NalPayloads(s: seq<Byte>): (ps: seq<seq<Byte>>)
    decreases |s|
  {
    if |s| == 0 then []
    else match FirstStartCodeEnd(s, 0)
      case None => [s]
      case Some(p) => [s[..p - StartCodeLength(s, p)]] + NalPayloads(s[p..])
  }

  /** The payloads after the first start code, or None without one. */
  function SplitStream(s: seq<Byte>): (r: Option<seq<seq<Byte>>>)
    ensures r.None? <==> forall q :: !EndsWithStartCode(s, q)
  {
    match FirstStartCodeEnd(s, 0)
    case None => None
    case Some(p) => Some(NalPayloads(s[p..]))
  }

  /** The loop of parse_h264_file without the payload processing: the
      first start code, then one payload after another to the end. */
  method SplitNalUnits(s: seq<Byte>) returns (found: bool, payloads: seq<seq<Byte>>)
    ensures found <==> SplitStream(s).Some?
    ensures found ==> SplitStream(s) == Some(payloads)
  {
    var pos;
    found, pos := FindFirstStartCode(s);
    payloads := [];
    if !found {
      return;
    }
    assert SplitStream(s) == Some(NalPayloads(s[pos..]));
    while pos < |s|
      invariant pos <= |s| && SplitStream(s).Some?
      invariant payloads + NalPayloads(s[pos..]) == SplitStream(s).value
      decreases |s| - pos
    {
      var rest := s[pos..];
      var payload, used := FindNalPayload(rest);
      assert used > 0 && (payloads + [payload]) + NalPayloads(s[pos + used..]) == SplitStream(s).value by {
        NalPayloadsStep(rest, payload, used);
        assert rest[used..] == s[pos + used..];
        AppendOne(payloads, payload, NalPayloads(s[pos + used..]));
      }
      payloads := payloads + [payload];
      pos := pos + used;
    }
    assert NalPayloads(s[pos..]) == [];
    assert payloads + [] == payloads;
  }

  lemma AppendOne<T>(done: seq<T>, x: T, todo: seq<T>)
    ensures (done + [x]) + todo == done + ([x] + todo)
  {
  }

  /** One scan takes the first payload off a non-empty stream and moves
      past its start code, or to the end. */
  lemma NalPayloadsStep(t: seq<Byte>, payload: seq<Byte>, used: nat)
    requires |t| > 0 && used <= |t|
    requires FirstStartCodeEnd(t, 0).None? ==> payload == t && used == |t|
    requires FirstStartCodeEnd(t, 0).Some? ==>
      used == FirstStartCodeEnd(t, 0).value && payload == t[..used - StartCodeLength(t, used)]
    ensures used > 0
    ensures NalPayloads(t) == [payload] + NalPayloads(t[used..])
  {
    if FirstStartCodeEnd(t, 0).None? {
      assert t[used..] == [];
    }
  }

  /** No payload contains a start code. */
  lemma {:induction false} PayloadsHaveNoStartCode(s: seq<Byte>)
    ensures forall i, q :: 0 <= i < |NalPayloads(s)| ==> !EndsWithStartCode(NalPayloads(s)[i], q)
    decreases |s|
  {
    if |s| > 0 {
      var ps := NalPayloads(s);
      match FirstStartCodeEnd(s, 0)
      case None =>
      case Some(p) =>
        var head := s[..p - StartCodeLength(s, p)];
        PayloadsHaveNoStartCode(s[p..]);
        forall q | EndsWithStartCode(head, q)
          ensures false
        {
          assert EndsWithStartCode(s, q);
        }
        forall i, q | 0 < i < |ps|
          ensures !EndsWithStartCode(ps[i], q)
        {
          assert ps[i] == NalPayloads(s[p..])[i - 1];
        }
    }
  }

  /** The bytes of an Annex-B stream that puts a four-byte start code in
      front of every payload. */
  function JoinPayloads(ps: seq<seq<Byte>>): (s: seq<Byte>) {
    if |ps| == 0 then [] else [0, 0, 0, 1] + ps[0] + JoinPayloads(ps[1..])
  }

  /** Payloads free of start codes, the last one not empty, are split back
      out of the stream that joins them. */
  lemma SplitJoin(ps: seq<seq<Byte>>)
    requires |ps| > 0 && |ps[|ps| - 1]| > 0
    requires forall i, q :: 0 <= i < |ps| ==> !EndsWithStartCode(ps[i], q)
    ensures SplitStream(JoinPayloads(ps)) == Some(ps)
  {
    var s := JoinPayloads(ps);
    var t := ps[0] + JoinPayloads(ps[1..]);
    assert s == [0, 0, 0, 1] + t;
    StartCodeFirst(t);
    assert s[4..] == t;
    PayloadsOfJoin(ps);
    SplitAfterFirst(s, 4, t);
  }

  /** The split of a stream whose first start code ends at p is the
      payloads of what follows p. */
  lemma SplitAfterFirst(s: seq<Byte>, p: nat, rest: seq<Byte>)
    requires FirstStartCodeEnd(s, 0) == Some(p) && p <= |s| && s[p..] == rest
    ensures SplitStream(s) == Some(NalPayloads(rest))
  {
  }

  /** A stream beginning with 00 00 00 01 has its first start code there. */
  lemma StartCodeFirst(rest: seq<Byte>)
    ensures FirstStartCodeEnd([0, 0, 0, 1] + rest, 0) == Some(4)
  {
    var s := [0, 0, 0, 1] + rest;
    assert EndsWithStartCode(s, 4);
    assert !EndsWithStartCode(s, 3);
  }

  /** The payloads of ps[0] followed by the joined rest. */
  lemma {:induction false} PayloadsOfJoin(ps: seq<seq<Byte>>)
    requires |ps| > 0 && |ps[|ps| - 1]| > 0
    requires forall i, q :: 0 <= i < |ps| ==> !EndsWithStartCode(ps[i], q)
    ensures NalPayloads(ps[0] + JoinPayloads(ps[1..])) == ps
    decreases |ps|
  {
    var t := ps[0] + JoinPayloads(ps[1..]);
    if |ps| == 1 {
      assert JoinPayloads(ps[1..]) == [];
      assert t == ps[0];
      NoStartCodeFirst(t);
    } else {
      var tail := ps[1..];
      var rest := tail[0] + JoinPayloads(tail[1..]);
      assert JoinPayloads(tail) == [0, 0, 0, 1] + rest;
      NoStartCodesTail(ps);
      PayloadsOfJoin(tail);
      PayloadsOfJoinStep(ps[0], rest, tail);
      assert [ps[0]] + tail == ps;
    }
  }

  lemma NoStartCodesTail(ps: seq<seq<Byte>>)
    requires |ps| > 0 && forall i, q :: 0 <= i < |ps| ==> !EndsWithStartCode(ps[i], q)
    ensures forall i, q :: 0 <= i < |ps| - 1 ==> !EndsWithStartCode(ps[1..][i], q)
  {
    forall i, q | 0 <= i < |ps| - 1
      ensures !EndsWithStartCode(ps[1..][i], q)
    {
      assert ps[1..][i] == ps[i + 1];
    }
  }

  /** A payload free of start codes, a four-byte start code and the rest:
      the payload comes off first. */
  lemma PayloadsOfJoinStep(a: seq<Byte>, rest: seq<Byte>, tail: seq<seq<Byte>>)
    requires forall q :: !EndsWithStartCode(a, q)
    requires NalPayloads(rest) == tail
    ensures NalPayloads(a + ([0, 0, 0, 1] + rest)) == [a] + tail
  {
    var t := a + ([0, 0, 0, 1] + rest);
    var p := |a| + 4;
    StartCodeAfter(a, rest);
    assert NalPayloads(t) == [t[..p - 4]] + NalPayloads(t[p..]);
    assert t[p..] == rest && t[..p - 4] == a;
  }

  lemma NoStartCodeFirst(t: seq<Byte>)
    requires |t| > 0 && forall q :: !EndsWithStartCode(t, q)
    ensures NalPayloads(t) == [t]
  {
  }

  /** In a payload free of start codes followed by 00 00 00 01, the first
      start code is that one, and it counts four bytes. */
  lemma StartCodeAfter(a: seq<Byte>, rest: seq<Byte>)
    requires forall q :: !EndsWithStartCode(a, q)
    ensures var t := a + ([0, 0, 0, 1] + rest);
      FirstStartCodeEnd(t, 0) == Some(|a| + 4) && StartCodeLength(t, |a| + 4) == 4
  {
    var t := a + ([0, 0, 0, 1] + rest);
    var p := |a| + 4;
    assert t[p - 4] == 0 && t[p - 3] == 0 && t[p - 2] == 0 && t[p - 1] == 1;
    forall q: nat | q < p
      ensures !EndsWithStartCode(t, q)
    {
      if q <= |a| {
        assert EndsWithStartCode(t, q) == EndsWithStartCode(a, q);
      } else {
        assert t[q - 1] == 0;
      }
    }
    FirstStartCodeEndIs(t, 0, p);
  }

  /** The first start code from `from` on is at p when one ends there and
      none ends between. */
  lemma {:induction false} FirstStartCodeEndIs(s: seq<Byte>, from: nat, p: nat)
    requires from <= p && EndsWithStartCode(s, p)
    requires forall q :: from <= q < p ==> !EndsWithStartCode(s, q)
    ensures FirstStartCodeEnd(s, from) == Some(p)
    decreases p - from
  {
    if from < p {
      FirstStartCodeEndIs(s, from + 1, p);
    }
  }
}
