/** The string-to-colour hash of src/lumen.c (`hash`): a djb2-inspired fold
    over the bytes of a NUL-terminated string, carrying three unsigned 8-bit
    accumulators, whose final values scaled by 1/255 give the colour.

    The string is a byte sequence. The walk stops at the first zero byte;
    a sequence without one is treated as terminated at its end. */
module StringHash {
  import opened BitReverse
  import opened Colour

  /** The three `uint8_t` accumulators. Being `bv8`, every field stays in
      0..255 by construction. */
  datatype Acc = Acc(r: bv8, g: bv8, b: bv8)

  /** The seeds the accumulators start from. */
  const Seed: Acc := Acc(251, 241, 239)

  /** Multiplication by 33 in wrapping 8-bit arithmetic: the reference
      against which the source's shift-and-add is checked. */
  function Times33(x: bv8): bv8 {
    x * 33
  }

  /** The wrapping product is the integer product reduced modulo 256. */
  lemma Times33Mod256(x: bv8)
    ensures Times33(x) as int == (33 * x as int) % 256
  {
  }

  /** One mixing assignment `acc = ((x << 5) + x) ^ c` in 8-bit arithmetic.
      C evaluates the right-hand side in 32-bit `int` and narrows it to
      `uint8_t` on assignment; `MixIsNarrowedIntArithmetic` shows the two
      agree. */
  function Mix(x: bv8, c: bv8): bv8 {
    ((x << 5) + x) ^ c
  }

  /** The shift-and-add multiplies by 33 (modulo 256) before the XOR. */
  lemma MixIsTimes33(x: bv8, c: bv8)
    ensures Mix(x, c) == Times33(x) ^ c
  {
  }

  /** Performing the assignment at C's promoted 32-bit width and keeping
      the low byte gives the same byte as the 8-bit computation. */
  lemma MixIsNarrowedIntArithmetic(x: bv8, c: bv8)
    ensures ((((x as bv32) << 5) + (x as bv32)) ^ (c as bv32)) & 0xFF == Mix(x, c) as bv32
  {
  }

  /** One loop iteration on byte `c`. The three assignments run in order:
      red mixes the old green, green the old blue, and blue the red that
      was just computed, all with the same reversed byte. */
  function Step(a: Acc, c: bv8): (a': Acc)
    ensures var c' := Reverse(c);
      && a'.r == Times33(a.g) ^ c'
      && a'.g == Times33(a.b) ^ c'
      && a'.b == Times33(a'.r) ^ c'
  {
    var c' := Reverse(c);
    var r := Mix(a.g, c');
    var g := Mix(a.b, c');
    var b := Mix(r, c');
    MixIsTimes33(a.g, c');
    MixIsTimes33(a.b, c');
    MixIsTimes33(r, c');
    Acc(r, g, b)
  }

  /** The left fold of `Step` over `s`, starting from `a`. */
  function Fold(a: Acc, s: seq<bv8>): Acc
    decreases |s|
  {
    if |s| == 0 then a else Fold(Step(a, s[0]), s[1..])
  }

  /** The bytes the source's loop visits: those before the first zero. */
  function UntilNul(s: seq<bv8>): (t: seq<bv8>)
    ensures t <= s
    ensures 0 !in t
    ensures |t| < |s| ==> s[|t|] == 0
  {
    if |s| == 0 || s[0] == 0 then [] else [s[0]] + UntilNul(s[1..])
  }

  /** The accumulators after the loop has consumed the string. */
  function HashState(s: seq<bv8>): Acc {
    Fold(Seed, UntilNul(s))
  }

  /** The colour `hash` returns: each accumulator divided by 255. */
  function Hash(s: seq<bv8>): (col: Rgb)
    ensures InUnitCube(col)
    ensures col.r * 255.0 == HashState(s).r as int as real
    ensures col.g * 255.0 == HashState(s).g as int as real
    ensures col.b * 255.0 == HashState(s).b as int as real
  {
    var a := HashState(s);
    Rgb(a.r as int as real / 255.0, a.g as int as real / 255.0, a.b as int as real / 255.0)
  }

  /** Folding over one more byte is one more step: the fold runs left to
      right. */
  lemma {:induction false} FoldSnoc(a: Acc, s: seq<bv8>, c: bv8)
    ensures Fold(a, s + [c]) == Step(Fold(a, s), c)
    decreases |s|
  {
    if |s| == 0 {
      assert s + [c] == [c];
      assert [c][1..] == [];
    } else {
      assert (s + [c])[0] == s[0];
      assert (s + [c])[1..] == s[1..] + [c];
      FoldSnoc(Step(a, s[0]), s[1..], c);
    }
  }

  /** Folding over a concatenation folds the parts in turn. */
  lemma {:induction false} FoldAppend(a: Acc, s: seq<bv8>, t: seq<bv8>)
    ensures Fold(a, s + t) == Fold(Fold(a, s), t)
    decreases |s|
  {
    if |s| == 0 {
      assert s + t == t;
    } else {
      assert (s + t)[0] == s[0];
      assert (s + t)[1..] == s[1..] + t;
      FoldAppend(Step(a, s[0]), s[1..], t);
    }
  }

  /** The visited prefix is determined by its three defining properties. */
  lemma UntilNulUnique(s: seq<bv8>, n: nat)
    requires n <= |s|
    requires 0 !in s[..n]
    requires n == |s| || s[n] == 0
    ensures UntilNul(s) == s[..n]
  {
  }

  /** A string with no zero byte is visited in full. */
  lemma UntilNulNoZero(s: seq<bv8>)
    requires 0 !in s
    ensures UntilNul(s) == s
  {
    UntilNulUnique(s, |s|);
    assert s[..|s|] == s;
  }

  /** Appending a nonzero byte to a string without a zero adds one step. */
  lemma HashStateSnoc(s: seq<bv8>, c: bv8)
    requires 0 !in s
    requires c != 0
    ensures HashState(s + [c]) == Step(HashState(s), c)
  {
    UntilNulNoZero(s);
    UntilNulNoZero(s + [c]);
    FoldSnoc(Seed, s, c);
  }

  /** Bytes after the terminating zero have no effect on the hash. */
  lemma HashStateIgnoresTail(s: seq<bv8>, t: seq<bv8>)
    requires 0 !in s
    ensures HashState(s + [0] + t) == HashState(s)
  {
    var u := s + [0] + t;
    assert u[..|s|] == s;
    UntilNulUnique(u, |s|);
    UntilNulNoZero(s);
  }

  /** The empty string, or any string starting with the terminator, leaves
      the accumulators at the seeds. */
  lemma HashEmpty(t: seq<bv8>)
    ensures HashState([]) == Seed
    ensures HashState([0] + t) == Seed
    ensures Hash([]) == Rgb(251.0 / 255.0, 241.0 / 255.0, 239.0 / 255.0)
  {
    assert UntilNul([0] + t) == [];
  }

  /** The hash is sensitive to byte order: "ab" and "ba" differ. */
  lemma OrderMatters()
    ensures HashState([0x61, 0x62]) != HashState([0x62, 0x61])
  {
    UntilNulNoZero([0x61, 0x62]);
    UntilNulNoZero([0x62, 0x61]);
    assert [0x61, 0x62][1..] == [0x62] && [0x62, 0x61][1..] == [0x61];
  }

  /** Blue mixes the red computed in the same step, not the red the step
      started from: on the seeds and the byte 'a' the two readings differ. */
  lemma BlueUsesNewRed()
    ensures var c' := Reverse(0x61);
      && Step(Seed, 0x61).b == Times33(Step(Seed, 0x61).r) ^ c'
      && Step(Seed, 0x61).b != Times33(Seed.r) ^ c'
  {
    ReverseExamples();
  }

  /** The source's loop, with the three accumulators updated in place:
      it computes exactly the fold. */
  method HashLoop(str: seq<bv8>) returns (col: Rgb)
    ensures col == Hash(str)
  {
    var r: bv8, g: bv8, b: bv8 := 251, 241, 239;
    var i := 0;
    while i < |str| && str[i] != 0
      invariant 0 <= i <= |str|
      invariant 0 !in str[..i]
      invariant Acc(r, g, b) == Fold(Seed, str[..i])
    {
      var c := Reverse(str[i]);
      r := Mix(g, c);
      g := Mix(b, c);
      b := Mix(r, c);
      FoldSnoc(Seed, str[..i], str[i]);
      assert str[..i + 1] == str[..i] + [str[i]];
      i := i + 1;
    }
    UntilNulUnique(str, i);
    col := Rgb(r as int as real / 255.0, g as int as real / 255.0, b as int as real / 255.0);
  }
}
