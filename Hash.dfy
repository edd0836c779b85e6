/**
 The string hash of the sorting hat: a 31-multiplier polynomial hash over the
 UTF-16 code units of a string, kept in signed 32-bit range after every step.
 */
module Hash {

  const Modulus: int := 0x1_0000_0000
  const Half: int := 0x8000_0000

  /** A UTF-16 code unit, as returned by `charCodeAt`. */
  type CodeUnit = c: int | 0 <= c < 0x1_0000

  /** A value in the signed 32-bit range. */
  type Int32 = x: int | -0x8000_0000 <= x < 0x8000_0000

  /** ECMAScript ToInt32: the unique signed 32-bit value congruent to x modulo 2^32. */
  function Wrap32(x: int): (r: Int32)
    ensures (x - r) % Modulus == 0
  {
    var m := x % Modulus;
    if m >= Half then m - Modulus else m
  }

  /** The uniqueness half of ToInt32: any signed 32-bit value congruent to x is Wrap32(x). */
  lemma Wrap32Unique(x: int, r: int)
    requires -Half <= r < Half
    requires (x - r) % Modulus == 0
    ensures Wrap32(x) == r
  {
  }

  /** Adding a multiple of 2^32 does not change the wrapped value. */
  lemma Wrap32Shift(b: int, k: int)
    ensures Wrap32(b + k * 0x1_0000_0000) == Wrap32(b)
  {
    var w := Wrap32(b);
    var j := (b - w) / 0x1_0000_0000;
    assert b - w == j * 0x1_0000_0000;
    assert (b + k * 0x1_0000_0000) - w == (j + k) * 0x1_0000_0000;
    Wrap32Unique(b + k * 0x1_0000_0000, w);
  }

  /** Wrapping an operand of `31 * h + c` first does not change the wrapped result. */
  lemma Wrap32Horner(p: int, c: int)
    ensures Wrap32(31 * Wrap32(p) + c) == Wrap32(31 * p + c)
  {
  }

  /** `h << 5` in JavaScript: ToInt32(h) shifted left by five bits within 32 bits. */
  function ShiftLeft5(h: Int32): Int32
  {
    Wrap32(h * 32)
  }

  /** One iteration of the loop body: `hash = (hash << 5) - hash + c; hash |= 0`. */
  function Step(h: Int32, c: CodeUnit): Int32
  {
    Wrap32(ShiftLeft5(h) - h + c)
  }

  /** The shift-and-subtract step is multiplication by 31 and addition, reduced to 32 bits. */
  lemma StepIsTimes31(h: Int32, c: CodeUnit)
    ensures Step(h, c) == Wrap32(31 * h + c)
  {
    var x := h * 32;
    var k := (x - Wrap32(x)) / 0x1_0000_0000;
    assert x - Wrap32(x) == k * 0x1_0000_0000;
    assert 31 * h + c == (ShiftLeft5(h) - h + c) + k * 0x1_0000_0000;
    Wrap32Shift(ShiftLeft5(h) - h + c, k);
  }

  /** The hash as a left fold of `h, c => Wrap32(31 * h + c)` from the accumulator h. */
  function Fold(h: Int32, s: seq<CodeUnit>): Int32
    decreases |s|
  {
    if s == [] then h else Fold(Wrap32(31 * h + s[0]), s[1..])
  }

  /** hashString as a function: the fold started from 0. */
  function HashOf(s: seq<CodeUnit>): Int32
  {
    Fold(0, s)
  }

  /** An independent reference: the exact (unbounded) Horner value of the code units. */
  function Horner(s: seq<CodeUnit>): int
  {
    if s == [] then 0 else 31 * Horner(s[..|s| - 1]) + s[|s| - 1]
  }

  /** Appending one code unit to the input performs one more 31-step on the hash. */
  lemma {:induction false} FoldAppend(h: Int32, s: seq<CodeUnit>, c: CodeUnit)
    ensures Fold(h, s + [c]) == Wrap32(31 * Fold(h, s) + c)
    decreases |s|
  {
    if s == [] {
      assert s + [c] == [c];
      assert [c][1..] == [];
    } else {
      assert (s + [c])[1..] == s[1..] + [c];
      FoldAppend(Wrap32(31 * h + s[0]), s[1..], c);
    }
  }

  /** The hash of s + [c] from the hash of s. */
  lemma HashAppend(s: seq<CodeUnit>, c: CodeUnit)
    ensures HashOf(s + [c]) == Wrap32(31 * HashOf(s) + c)
  {
    FoldAppend(0, s, c);
  }

  /** The 32-bit hash is the exact polynomial value reduced to signed 32 bits. */
  lemma {:induction false} HashIsWrappedHorner(s: seq<CodeUnit>)
    ensures HashOf(s) == Wrap32(Horner(s))
    decreases |s|
  {
    if s == [] {
    } else {
      var p, c := s[..|s| - 1], s[|s| - 1];
      assert s == p + [c];
      HashIsWrappedHorner(p);
      HashAppend(p, c);
      Wrap32Horner(Horner(p), c);
    }
  }

  /** hashString (lines 27-34): the loop over the code units of str. */
  method HashString(str: seq<CodeUnit>) returns (hash: Int32)
    ensures hash == HashOf(str)
    ensures str == [] ==> hash == 0
  {
    hash := 0;
    for i := 0 to |str|
      invariant hash == HashOf(str[..i])
    {
      var t := ShiftLeft5(hash) - hash + str[i];
      StepIsTimes31(hash, str[i]);
      HashAppend(str[..i], str[i]);
      assert str[..i + 1] == str[..i] + [str[i]];
      hash := Wrap32(t);
    }
    assert str[..|str|] == str;
  }

  /** Pinned value: "XYZ" hashes to 87417. */
  lemma HashOfXYZ()
    ensures HashOf([88, 89, 90]) == 87417
  {
    assert Wrap32(31 * 0 + 88) == 88;
    assert [88, 89, 90][1..] == [89, 90];
    assert Wrap32(31 * 88 + 89) == 2817;
    assert [89, 90][1..] == [90];
    assert Wrap32(31 * 2817 + 90) == 87417;
    assert [90][1..] == [];
  }

  /** Pinned value: "data:," (the data URL of an empty canvas) hashes to a negative value. */
  lemma HashOfEmptyDataUrl()
    ensures HashOf([100, 97, 116, 97, 58, 44]) == -1338919844
  {
    assert Wrap32(31 * 0 + 100) == 100;
    assert [100, 97, 116, 97, 58, 44][1..] == [97, 116, 97, 58, 44];
    assert Wrap32(31 * 100 + 97) == 3197;
    assert [97, 116, 97, 58, 44][1..] == [116, 97, 58, 44];
    assert Wrap32(31 * 3197 + 116) == 99223;
    assert [116, 97, 58, 44][1..] == [97, 58, 44];
    assert Wrap32(31 * 99223 + 97) == 3076010;
    assert [97, 58, 44][1..] == [58, 44];
    assert Wrap32(31 * 3076010 + 58) == 95356368;
    assert [58, 44][1..] == [44];
    assert Wrap32(31 * 95356368 + 44) == -1338919844;
    assert [44][1..] == [];
  }

  /** Pinned value: "hello world" wraps around 2^32 several times. */
  lemma HashOfHelloWorld()
    ensures HashOf([104, 101, 108, 108, 111, 32, 119, 111, 114, 108, 100]) == 1794106052
  {
    assert Wrap32(31 * 0 + 104) == 104;
    assert [104, 101, 108, 108, 111, 32, 119, 111, 114, 108, 100][1..] == [101, 108, 108, 111, 32, 119, 111, 114, 108, 100];
    assert Wrap32(31 * 104 + 101) == 3325;
    assert [101, 108, 108, 111, 32, 119, 111, 114, 108, 100][1..] == [108, 108, 111, 32, 119, 111, 114, 108, 100];
    assert Wrap32(31 * 3325 + 108) == 103183;
    assert [108, 108, 111, 32, 119, 111, 114, 108, 100][1..] == [108, 111, 32, 119, 111, 114, 108, 100];
    assert Wrap32(31 * 103183 + 108) == 3198781;
    assert [108, 111, 32, 119, 111, 114, 108, 100][1..] == [111, 32, 119, 111, 114, 108, 100];
    assert Wrap32(31 * 3198781 + 111) == 99162322;
    assert [111, 32, 119, 111, 114, 108, 100][1..] == [32, 119, 111, 114, 108, 100];
    assert Wrap32(31 * 99162322 + 32) == -1220935282;
    assert [32, 119, 111, 114, 108, 100][1..] == [119, 111, 114, 108, 100];
    assert Wrap32(31 * -1220935282 + 119) == 805712041;
    assert [119, 111, 114, 108, 100][1..] == [111, 114, 108, 100];
    assert Wrap32(31 * 805712041 + 111) == -792730394;
    assert [111, 114, 108, 100][1..] == [114, 108, 100];
    assert Wrap32(31 * -792730394 + 114) == 1195161676;
    assert [114, 108, 100][1..] == [108, 100];
    assert Wrap32(31 * 1195161676 + 108) == -1604693600;
    assert [108, 100][1..] == [100];
    assert Wrap32(31 * -1604693600 + 100) == 1794106052;
    assert [100][1..] == [];
  }
}
