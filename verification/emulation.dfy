/** Removing emulation_prevention_three_byte (sections 7.3.1 and 7.4.1 of
    ITU-T H.264) as ebsp_to_rbsp does it: every byte is copied, and a 03
    already copied is taken back once the next byte shows that 00 00 03
    is followed by a byte of at most 03. The window of recent bytes is
    cleared at each removal, so the zeros before the next 03 are counted
    from there. */
module Emulation {
  import opened BitString
  import opened AnnexB

  /** ebsp_code: the window holds 00 00 03 and ch is at most 03. */
  predicate EbspCode(w: seq<Byte>, ch: Byte) {
    |w| >= 3 && w[0] == 0 && w[1] == 0 && w[2] == 3 && ch <= 3
  }

  /** The zero bytes just seen since the last removal, counted up to two. */
  function ZeroRun(z: nat, x: Byte): (z': nat)
    ensures z' <= 2 && (z' > 0 <==> x == 0)
  {
    if x != 0 then 0 else if z < 2 then z + 1 else 2
  }

  /** The reference removal, looking one byte ahead: a 03 is dropped when z,
      the zeros seen since the last drop, reach two and the byte after it
      is at most 03. */
  function Strip(e: seq<Byte>, z: nat): (r: seq<Byte>)
    decreases |e|
  {
    if |e| == 0 then []
    else if z >= 2 && e[0] == 3 && |e| > 1 && e[1] <= 3 then Strip(e[1..], 0)
    else [e[0]] + Strip(e[1..], ZeroRun(z, e[0]))
  }

  /** The zeros at the end of the window, counted up to two. */
  function WindowZeros(w: seq<Byte>): (z: nat)
    ensures z <= 2
  {
    if |w| == 0 || w[|w| - 1] != 0 then 0
    else if |w| == 1 || w[|w| - 2] != 0 then 1
    else 2
  }

  /** The window holds 00 00 03: the 03 last copied may still be taken back. */
  predicate Pending(w: seq<Byte>) {
    |w| == 3 && w[0] == 0 && w[1] == 0 && w[2] == 3
  }

  /** The loop's state: the window is at most three bytes and is how the
      output so far ends. */
  predicate WindowOf(w: seq<Byte>, out: seq<Byte>) {
    |w| <= WindowSize && |w| <= |out| && out[|out| - |w|..] == w
  }

  /** The output the reference produces from the loop's state on: a pending
      03 is handed back to the reference, which sees two zeros before it. */
  function Resume(w: seq<Byte>, out: seq<Byte>, rest: seq<Byte>): seq<Byte>
    requires WindowOf(w, out)
  {
    if Pending(w) then out[..|out| - 1] + Strip([3] + rest, 2)
    else out + Strip(rest, WindowZeros(w))
  }

  /** ebsp_to_rbsp. */
  method EbspToRbsp(ebsp: seq<Byte>) returns (rbsp: seq<Byte>)
    ensures rbsp == Strip(ebsp, 0)
  {
    var w: seq<Byte> := [];
    rbsp := [];
    for i := 0 to |ebsp|
      invariant WindowOf(w, rbsp)
      invariant Resume(w, rbsp, ebsp[i..]) == Strip(ebsp, 0)
    {
      var ch := ebsp[i];
      assert ebsp[i..] == [ch] + ebsp[i + 1..];
      ResumeStep(w, rbsp, ch, ebsp[i + 1..]);
      if EbspCode(w, ch) {
        w := [];
        rbsp := rbsp[..|rbsp| - 1];
      }
      w := Push(w, ch);
      rbsp := rbsp + [ch];
    }
    ResumeEnd(w, rbsp);
  }

  /** One iteration of the loop keeps the output the reference would give. */
  lemma ResumeStep(w: seq<Byte>, out: seq<Byte>, ch: Byte, rest: seq<Byte>)
    requires WindowOf(w, out)
    ensures EbspCode(w, ch) ==>
      && |out| > 0 && WindowOf([ch], out[..|out| - 1] + [ch])
      && Resume([ch], out[..|out| - 1] + [ch], rest) == Resume(w, out, [ch] + rest)
    ensures !EbspCode(w, ch) ==>
      && WindowOf(Push(w, ch), out + [ch])
      && Resume(Push(w, ch), out + [ch], rest) == Resume(w, out, [ch] + rest)
  {
    if EbspCode(w, ch) {
      ResumeRemove(w, out, ch, rest);
    } else {
      var out' := out + [ch];
      var w' := Push(w, ch);
      assert out'[|out'| - |w'|..] == w';
      if Pending(w) {
        ResumeKeepPending(w, out, ch, rest);
      } else if Pending(w') {
        assert out'[..|out'| - 1] == out;
      } else {
        ResumeKeep(w, out, ch, rest);
      }
    }
  }

  /** The pending 03 is taken back and the window restarts at ch. */
  lemma ResumeRemove(w: seq<Byte>, out: seq<Byte>, ch: Byte, rest: seq<Byte>)
    requires WindowOf(w, out) && EbspCode(w, ch)
    ensures |out| > 0 && WindowOf([ch], out[..|out| - 1] + [ch])
    ensures Resume([ch], out[..|out| - 1] + [ch], rest) == Resume(w, out, [ch] + rest)
  {
    var kept := out[..|out| - 1] + [ch];
    assert kept[|kept| - 1..] == [ch];
    assert Strip([3] + ([ch] + rest), 2) == Strip([ch] + rest, 0) by {
      assert ([3] + ([ch] + rest))[1..] == [ch] + rest;
    }
    StripFirst(ch, rest, 0);
    assert kept + Strip(rest, ZeroRun(0, ch)) == out[..|out| - 1] + ([ch] + Strip(rest, ZeroRun(0, ch)));
  }

  /** A byte above 03 after 00 00 03 settles the 03 as kept. */
  lemma ResumeKeepPending(w: seq<Byte>, out: seq<Byte>, ch: Byte, rest: seq<Byte>)
    requires WindowOf(w, out) && Pending(w) && ch > 3
    ensures Resume(Push(w, ch), out + [ch], rest) == Resume(w, out, [ch] + rest)
  {
    assert ([3] + ([ch] + rest))[1..] == [ch] + rest;
    assert Strip([3] + ([ch] + rest), 2) == [3] + Strip([ch] + rest, 0);
    StripFirst(ch, rest, 0);
    assert out[|out| - 1] == w[2];
    assert out[..|out| - 1] + [3] == out;
    assert !Pending(Push(w, ch)) && WindowZeros(Push(w, ch)) == 0;
  }

  /** Outside a pending 03, a byte that does not complete 00 00 03 is kept
      and extends or ends the zero run. */
  lemma ResumeKeep(w: seq<Byte>, out: seq<Byte>, ch: Byte, rest: seq<Byte>)
    requires WindowOf(w, out) && !Pending(w) && !Pending(Push(w, ch))
    ensures Resume(Push(w, ch), out + [ch], rest) == Resume(w, out, [ch] + rest)
  {
    assert WindowZeros(Push(w, ch)) == ZeroRun(WindowZeros(w), ch);
    StripFirst(ch, rest, WindowZeros(w));
  }

  /** The reference keeps a first byte that is not a droppable 03. */
  lemma StripFirst(x: Byte, rest: seq<Byte>, z: nat)
    requires !(z >= 2 && x == 3 && |rest| > 0 && rest[0] <= 3)
    ensures Strip([x] + rest, z) == [x] + Strip(rest, ZeroRun(z, x))
  {
    assert ([x] + rest)[1..] == rest;
  }

  /** At the end of the input the output is the reference's. */
  lemma ResumeEnd(w: seq<Byte>, out: seq<Byte>)
    requires WindowOf(w, out)
    ensures Resume(w, out, []) == out
  {
    if Pending(w) {
      assert [3][1..] == [];
      assert Strip([3] + [], 2) == [3];
      assert out[|out| - 1] == w[2];
      assert out[..|out| - 1] + [3] == out;
    }
  }

  /** 00 00 03 followed by a byte of at most 03 sits at index i - 2. */
  predicate EmulationAt(e: seq<Byte>, i: nat) {
    2 <= i < |e| - 1 && e[i - 2] == 0 && e[i - 1] == 0 && e[i] == 3 && e[i + 1] <= 3
  }

  /** The reference with z zeros seen before e has nothing to drop: no
      pattern inside e, and none that the zeros before it complete. */
  predicate Clean(e: seq<Byte>, z: nat) {
    && (forall i :: 0 <= i < |e| ==> !EmulationAt(e, i))
    && (z >= 1 ==> !(|e| > 2 && e[0] == 0 && e[1] == 3 && e[2] <= 3))
    && (z >= 2 ==> !(|e| > 1 && e[0] == 3 && e[1] <= 3))
  }

  /** The reference drops nothing exactly when there is nothing to drop. */
  lemma {:induction false} StripUnchanged(e: seq<Byte>, z: nat)
    ensures Strip(e, z) == e <==> Clean(e, z)
    decreases |e|
  {
    if |e| > 0 {
      var x, r := e[0], e[1..];
      var z' := ZeroRun(z, x);
      StripLength(r, 0);
      StripUnchanged(r, z');
      if z >= 2 && x == 3 && |r| > 0 && r[0] <= 3 {
        assert |Strip(e, z)| < |e|;
      } else {
        assert Strip(e, z) == [x] + Strip(r, z');
        assert Strip(e, z) == e <==> Strip(r, z') == r by {
          assert e == [x] + r;
        }
        CleanStep(e, z);
      }
    }
  }

  /** Past a first byte that is kept, e is clean exactly when the rest is. */
  lemma CleanStep(e: seq<Byte>, z: nat)
    requires |e| > 0 && !(z >= 2 && e[0] == 3 && |e| > 1 && e[1] <= 3)
    ensures Clean(e, z) <==> Clean(e[1..], ZeroRun(z, e[0]))
  {
    var x, r := e[0], e[1..];
    var z' := ZeroRun(z, x);
    if Clean(e, z) {
      forall i | 0 <= i < |r|
        ensures !EmulationAt(r, i)
      {
        assert EmulationAt(r, i) ==> EmulationAt(e, i + 1);
      }
      assert z' >= 1 && |r| > 2 && r[0] == 0 && r[1] == 3 && r[2] <= 3 ==> EmulationAt(e, 2);
    }
    if Clean(r, z') {
      forall i | 0 <= i < |e|
        ensures !EmulationAt(e, i)
      {
        assert EmulationAt(e, i) && i >= 3 ==> EmulationAt(r, i - 1);
      }
    }
  }

  /** The reference never lengthens its input. */
  lemma {:induction false} StripLength(e: seq<Byte>, z: nat)
    ensures |Strip(e, z)| <= |e|
    decreases |e|
  {
    if |e| > 0 {
      StripLength(e[1..], 0);
      StripLength(e[1..], ZeroRun(z, e[0]));
    }
  }

  /** An EBSP holds no emulation prevention pattern exactly when its RBSP
      is the same bytes. */
  lemma StripIdentity(e: seq<Byte>)
    ensures Strip(e, 0) == e <==> forall i :: 0 <= i < |e| ==> !EmulationAt(e, i)
  {
    StripUnchanged(e, 0);
  }

  /** a is b with some bytes left out. */
  predicate IsSubsequence(a: seq<Byte>, b: seq<Byte>)
    decreases |b|
  {
    |a| == 0 || (|b| > 0 && ((a[0] == b[0] && IsSubsequence(a[1..], b[1..])) || IsSubsequence(a, b[1..])))
  }

  /** The RBSP is the EBSP with some bytes left out. */
  lemma {:induction false} StripSubsequence(e: seq<Byte>, z: nat)
    ensures IsSubsequence(Strip(e, z), e)
    decreases |e|
  {
    if |e| > 0 {
      var r := e[1..];
      if z >= 2 && e[0] == 3 && |r| > 0 && r[0] <= 3 {
        StripSubsequence(r, 0);
      } else {
        var s := Strip(e, z);
        StripSubsequence(r, ZeroRun(z, e[0]));
        assert s[0] == e[0] && s[1..] == Strip(r, ZeroRun(z, e[0]));
      }
    }
  }

  /** The last byte is never dropped, so a trailing 00 00 03 stays. */
  lemma {:induction false} StripKeepsLast(e: seq<Byte>, z: nat)
    requires |e| > 0
    ensures |Strip(e, z)| > 0 && Strip(e, z)[|Strip(e, z)| - 1] == e[|e| - 1]
    decreases |e|
  {
    var r := e[1..];
    if |r| > 0 {
      StripKeepsLast(r, 0);
      StripKeepsLast(r, ZeroRun(z, e[0]));
    }
  }

  /** A first byte read with no zeros before it is kept, so an EBSP of two
      or more bytes leaves an RBSP of two or more. */
  lemma StripKeepsTwo(e: seq<Byte>)
    requires |e| >= 2
    ensures |Strip(e, 0)| >= 2
  {
    StripKeepsLast(e[1..], ZeroRun(0, e[0]));
  }

  lemma TrailingEmulationKept()
    ensures Strip([0, 0, 3], 0) == [0, 0, 3]
    ensures Strip([0, 0, 3, 1], 0) == [0, 0, 1]
    ensures Strip([0, 0, 3, 0, 0, 3, 2], 0) == [0, 0, 0, 0, 2]
  {
    assert [0, 0, 3][1..] == [0, 3];
    assert [0, 0, 3, 1][1..] == [0, 3, 1];
    assert [0, 0, 3, 0, 0, 3, 2][1..] == [0, 3, 0, 0, 3, 2];
  }

  /** The writer's side: a 03 goes in front of every byte of at most 03
      that follows two zero bytes counted since the last insertion. */
  function Escape(d: seq<Byte>, z: nat): (e: seq<Byte>)
    ensures |e| >= |d|
    decreases |d|
  {
    if |d| == 0 then []
    else if z >= 2 && d[0] <= 3 then [3, d[0]] + Escape(d[1..], ZeroRun(0, d[0]))
    else [d[0]] + Escape(d[1..], ZeroRun(z, d[0]))
  }

  /** Removal undoes insertion. */
  lemma {:induction false} StripEscape(d: seq<Byte>, z: nat)
    ensures Strip(Escape(d, z), z) == d
    decreases |d|
  {
    if |d| > 0 {
      var x, r := d[0], d[1..];
      if z >= 2 && x <= 3 {
        var tail := Escape(r, ZeroRun(0, x));
        StripEscape(r, ZeroRun(0, x));
        assert ([3, x] + tail)[1..] == [x] + tail;
        StripFirst(x, tail, 0);
        assert Strip([3, x] + tail, z) == [x] + r;
      } else {
        var tail := Escape(r, ZeroRun(z, x));
        StripEscape(r, ZeroRun(z, x));
        StripFirst(x, tail, z);
        assert [x] + r == d;
      }
    }
  }
}
