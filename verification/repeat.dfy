/** Reading a counted run of values with one reader, and the bits of such
    a run: each value's code word in turn. The lemmas hold for any reader
    that decodes its own code words, so they are proved once here and
    applied to se(v) lists by the SPS parser. */
module Repeat {
  import opened Wrappers
  import opened BitString
  import opened BitReader

  /** Values i to n - 1, each read where the previous one stopped. */
  function ReadEach<T>(read: Cursor -> Option<Read<T>>, c: Cursor, i: nat, n: nat): (r: Option<Read<seq<T>>>)
    requires i <= n
    ensures r.Some? ==> |r.value.value| == n - i
    decreases n - i
  {
    if i == n then
      Some(Read([], c))
    else
      var v :- read(c);
      var rest :- ReadEach(read, v.next, i + 1, n);
      Some(Read([v.value] + rest.value, rest.next))
  }

  /** The code words of vs, one after the other, followed by rest. */
  function Codes<T>(code: T -> seq<Bit>, vs: seq<T>, rest: seq<Bit>): (bs: seq<Bit>)
    ensures |bs| == CodesLength(code, vs) + |rest|
  {
    if |vs| == 0 then rest else code(vs[0]) + Codes(code, vs[1..], rest)
  }

  function CodesLength<T>(code: T -> seq<Bit>, vs: seq<T>): nat {
    if |vs| == 0 then 0 else |code(vs[0])| + CodesLength(code, vs[1..])
  }

  /** `read` returns every value `fits` admits from its code word `code`,
      stopping right behind it. */
  ghost predicate Decodes<T(!new)>(read: Cursor -> Option<Read<T>>, code: T -> seq<Bit>, fits: T -> bool) {
    forall c: Cursor, v: T :: fits(v) && c.Sees(code(v)) ==> read(c) == Some(Read(v, c.Advance(|code(v)|)))
  }

  /** `read` consumes exactly the code word of whatever it returns. */
  ghost predicate Consumes<T(!new)>(read: Cursor -> Option<Read<T>>, code: T -> seq<Bit>) {
    forall c: Cursor :: read(c).Some? ==> read(c).value.next == c.Advance(|code(read(c).value.value)|)
  }

  predicate AllFit<T>(fits: T -> bool, vs: seq<T>) {
    forall k :: 0 <= k < |vs| ==> fits(vs[k])
  }

  /** A run read with such a reader ends as far past its start as its
      code words are long. */
  lemma {:induction false} ReadEachConsumes<T(!new)>(read: Cursor -> Option<Read<T>>, code: T -> seq<Bit>,
                                                     c: Cursor, i: nat, n: nat)
    requires Consumes(read, code) && i <= n
    ensures ReadEach(read, c, i, n).Some? ==>
      ReadEach(read, c, i, n).value.next == c.Advance(CodesLength(code, ReadEach(read, c, i, n).value.value))
    decreases n - i
  {
    if i < n && ReadEach(read, c, i, n).Some? {
      var v := read(c).value;
      var rest := ReadEach(read, v.next, i + 1, n).value;
      ReadEachConsumes(read, code, v.next, i + 1, n);
      assert ([v.value] + rest.value)[1..] == rest.value;
    }
  }

  /** cs[k] is where value k starts and cs[k + 1] where it ends. */
  ghost predicate Chain<T>(read: Cursor -> Option<Read<T>>, vs: seq<T>, cs: seq<Cursor>) {
    |cs| == |vs| + 1 && forall k :: 0 <= k < |vs| ==> read(cs[k]) == Some(Read(vs[k], cs[k + 1]))
  }

  /** A run of values is read exactly when each value is read where the
      previous one stopped. */
  lemma {:induction false} ReadEachChain<T>(read: Cursor -> Option<Read<T>>, i: nat, n: nat, vs: seq<T>, cs: seq<Cursor>)
    requires i <= n && |vs| == n - i && Chain(read, vs, cs)
    ensures ReadEach(read, cs[0], i, n) == Some(Read(vs, cs[|vs|]))
    decreases n - i
  {
    if i < n {
      assert Chain(read, vs[1..], cs[1..]);
      ReadEachChain(read, i + 1, n, vs[1..], cs[1..]);
      assert [vs[0]] + vs[1..] == vs;
    }
  }

  /** The cursor in front of each code word of vs, and the one past the last. */
  function CodeCursors<T>(code: T -> seq<Bit>, c: Cursor, vs: seq<T>): (cs: seq<Cursor>)
    ensures |cs| == |vs| + 1 && cs[0] == c
    ensures cs[|vs|] == c.Advance(CodesLength(code, vs))
    decreases |vs|
  {
    if |vs| == 0 then [c] else [c] + CodeCursors(code, c.Advance(|code(vs[0])|), vs[1..])
  }

  lemma ChainCons<T>(read: Cursor -> Option<Read<T>>, v: T, vs: seq<T>, c: Cursor, cs: seq<Cursor>)
    requires Chain(read, vs, cs) && read(c) == Some(Read(v, cs[0]))
    ensures Chain(read, [v] + vs, [c] + cs)
  {
    var vs', cs' := [v] + vs, [c] + cs;
    forall k | 0 <= k < |vs'|
      ensures read(cs'[k]) == Some(Read(vs'[k], cs'[k + 1]))
    {
      if k > 0 {
        assert vs'[k] == vs[k - 1] && cs'[k] == cs[k - 1] && cs'[k + 1] == cs[k];
      }
    }
  }

  /** Encoded values are read one after the other, and the bits after them
      follow. */
  lemma {:induction false} CodesChain<T(!new)>(read: Cursor -> Option<Read<T>>, code: T -> seq<Bit>, fits: T -> bool,
                                         c: Cursor, vs: seq<T>, rest: seq<Bit>)
    requires Decodes(read, code, fits) && AllFit(fits, vs)
    requires c.Sees(Codes(code, vs, rest))
    ensures Chain(read, vs, CodeCursors(code, c, vs))
    ensures c.Advance(CodesLength(code, vs)).Sees(rest)
    decreases |vs|
  {
    if |vs| > 0 {
      var next := c.Advance(|code(vs[0])|);
      SeesAppend(c, code(vs[0]), Codes(code, vs[1..], rest));
      assert fits(vs[0]) && AllFit(fits, vs[1..]);
      CodesChain(read, code, fits, next, vs[1..], rest);
      ChainCons(read, vs[0], vs[1..], c, CodeCursors(code, next, vs[1..]));
      assert [vs[0]] + vs[1..] == vs;
      assert next.Advance(CodesLength(code, vs[1..])) == c.Advance(CodesLength(code, vs));
    }
  }

  /** Reading encoded values i to n - 1 returns them and stops in front of
      what followed their code words. */
  lemma ReadEachThen<T(!new)>(read: Cursor -> Option<Read<T>>, code: T -> seq<Bit>, fits: T -> bool,
                        c: Cursor, i: nat, n: nat, vs: seq<T>, rest: seq<Bit>)
    requires Decodes(read, code, fits) && AllFit(fits, vs)
    requires i <= n && |vs| == n - i && c.Sees(Codes(code, vs, rest))
    ensures ReadEach(read, c, i, n) == Some(Read(vs, c.Advance(CodesLength(code, vs))))
    ensures c.Advance(CodesLength(code, vs)).Sees(rest)
  {
    CodesChain(read, code, fits, c, vs, rest);
    ReadEachChain(read, i, n, vs, CodeCursors(code, c, vs));
  }
}
