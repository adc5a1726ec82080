/**
 * JavaScript strings as the code touched by the similarity engine sees them:
 * sequences of UTF-16 code units (the values `charCodeAt` returns).
 */
module JsStrings {
  /** One UTF-16 code unit. */
  type CodeUnit = c: int | 0 <= c < 0x1_0000

  type JsString = seq<CodeUnit>

  /** Every character of `s` fits in one UTF-16 code unit. */
  predicate InBmp(s: string) {
    forall i | 0 <= i < |s| :: s[i] as int < 0x1_0000
  }

  /** The JavaScript string written as the literal `s`. */
  function Lit(s: string): (r: JsString)
    requires InBmp(s)
    ensures |r| == |s|
    ensures forall i | 0 <= i < |s| :: r[i] == s[i] as int
  {
    seq(|s|, i requires 0 <= i < |s| => s[i] as int)
  }

  predicate IsAsciiUpper(c: CodeUnit) {
    'A' as int <= c <= 'Z' as int
  }

  /** Lower-casing of one code unit; only ASCII letters change. */
  function LowerUnit(c: CodeUnit): (r: CodeUnit)
    ensures !IsAsciiUpper(r)
    ensures !IsAsciiUpper(c) ==> r == c
  {
    if IsAsciiUpper(c) then c + 32 else c
  }

  /** `String.prototype.toLowerCase`, restricted to ASCII letters. */
  function ToLower(s: JsString): (r: JsString)
    ensures |r| == |s|
    ensures forall i | 0 <= i < |s| :: r[i] == LowerUnit(s[i])
  {
    seq(|s|, i requires 0 <= i < |s| => LowerUnit(s[i]))
  }

  /** `k` occurs in `s` starting at index `i`. */
  predicate OccursAt(s: JsString, k: JsString, i: int) {
    0 <= i && i + |k| <= |s| && s[i..i + |k|] == k
  }

  /** `s.includes(k)`: `k` occurs as a contiguous slice of `s`. */
  predicate Includes(s: JsString, k: JsString) {
    exists i | 0 <= i <= |s| - |k| :: OccursAt(s, k, i)
  }

  /** A string that never holds the first code unit of `k` does not include `k`. */
  lemma MissingFirstUnitNotIncluded(s: JsString, k: JsString)
    requires k != []
    requires forall i | 0 <= i < |s| :: s[i] != k[0]
    ensures !Includes(s, k)
  {
    forall i | 0 <= i <= |s| - |k|
      ensures !OccursAt(s, k, i)
    {
      assert s[i..i + |k|][0] == s[i];
    }
  }
}
