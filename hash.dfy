/**
 * The rolling string hash of the search backend: a 31-multiplier hash over
 * UTF-16 code units, kept in a signed 32-bit accumulator, returned as an
 * absolute value.
 */
module Hash {
  import opened JsStrings

  const TwoTo31: int := 0x8000_0000
  const TwoTo32: int := 0x1_0000_0000

  predicate IsInt32(x: int) {
    -TwoTo31 <= x < TwoTo31
  }

  /** ECMAScript ToInt32: the two's-complement reading of `x` modulo 2^32. */
  function ToInt32(x: int): (r: int)
    ensures IsInt32(r)
    ensures (x - r) % TwoTo32 == 0
    ensures IsInt32(x) ==> r == x
  {
    (x + TwoTo31) % TwoTo32 - TwoTo31
  }

  /** Two integers that agree modulo 2^32 have the same 32-bit reading. */
  lemma ToInt32Congruent(x: int, y: int, k: int)
    requires x == y + k * TwoTo32
    ensures ToInt32(x) == ToInt32(y)
  {
  }

  /** `hash << 5` on a 32-bit accumulator: the low 32 bits of hash * 32, read as signed. */
  function ShiftLeft5(hash: int): (r: int)
    ensures IsInt32(r)
  {
    ToInt32(hash * 32)
  }

  /** One turn of the loop: `hash = ((hash << 5) - hash) + char; hash = hash & hash`. */
  function Step(hash: int, unit: CodeUnit): (r: int)
    ensures IsInt32(r)
  {
    ToInt32(ShiftLeft5(hash) - hash + unit)
  }

  /** The accumulator after the loop has consumed all of `s`. */
  function HashAcc(s: JsString): (h: int)
  {
    if s == [] then 0 else Step(HashAcc(s[..|s| - 1]), s[|s| - 1])
  }

  /** `stringToHash(s)`: the absolute value of the final accumulator. */
  function StringHash(s: JsString): (h: int)
    ensures 0 <= h <= TwoTo31
    ensures s == [] ==> h == 0
  {
    var acc := HashAcc(s);
    assert IsInt32(acc);
    if acc < 0 then -acc else acc
  }

  /** Shift-left-by-5 minus self is multiplication by 31, wrapped to 32 bits. */
  lemma StepIsTimes31(hash: int, unit: CodeUnit)
    ensures Step(hash, unit) == ToInt32(31 * hash + unit)
  {
    var shifted := ToInt32(hash * 32);
    var k := (hash * 32 - shifted) / TwoTo32;
    assert hash * 32 - shifted == k * TwoTo32;
    ToInt32Congruent(31 * hash + unit, shifted - hash + unit, k);
  }

  /** The hash polynomial of `s` in 31, computed over unbounded integers. */
  function Polynomial(s: JsString): int {
    if s == [] then 0 else 31 * Polynomial(s[..|s| - 1]) + s[|s| - 1]
  }

  /**
   * Wrapping after every step gives the same accumulator as evaluating the
   * polynomial exactly and wrapping once at the end.
   */
  lemma {:induction false} HashAccIsWrappedPolynomial(s: JsString)
    ensures HashAcc(s) == ToInt32(Polynomial(s))
  {
    if s != [] {
      var prefix, c := s[..|s| - 1], s[|s| - 1];
      HashAccIsWrappedPolynomial(prefix);
      var p := Polynomial(prefix);
      var acc := HashAcc(prefix);
      StepIsTimes31(acc, c);
      var k := (p - acc) / TwoTo32;
      assert p - acc == k * TwoTo32;
      ToInt32Congruent(31 * p + c, 31 * acc + c, 31 * k);
    }
  }

  /** While the exact polynomial fits in 32 bits, no wrap-around happens at all. */
  lemma NoWrapForSmallPolynomial(s: JsString)
    requires IsInt32(Polynomial(s))
    ensures HashAcc(s) == Polynomial(s)
    ensures StringHash(s) == if Polynomial(s) < 0 then -Polynomial(s) else Polynomial(s)
  {
    HashAccIsWrappedPolynomial(s);
  }

  /** The loop of `stringToHash`, step for step. */
  method StringToHash(str: JsString) returns (h: int)
    ensures h == StringHash(str)
    ensures 0 <= h <= TwoTo31
  {
    var hash := 0;
    for i := 0 to |str|
      invariant hash == HashAcc(str[..i])
    {
      var unit := str[i];
      assert str[..i + 1][..i] == str[..i];
      hash := ShiftLeft5(hash) - hash + unit;
      hash := ToInt32(hash);
    }
    assert str[..|str|] == str;
    h := if hash < 0 then -hash else hash;
  }
}
