/**
 * The synthetic similarity score of the search backend: a base of 50, a bonus
 * of 20 for each keyword/category bias rule that fires, plus the hash of the
 * combined key modulo 51, capped at 100.
 */
module Similarity {
  import opened JsStrings
  import opened Hash

  const Electronics: JsString := Lit("electronics")
  const Fashion: JsString := Lit("fashion")
  const Home: JsString := Lit("home")
  const Sports: JsString := Lit("sports")

  const Separator: JsString := Lit("-")

  const Base: int := 50
  const Bonus: int := 20
  const HashSpan: int := 51
  const Cap: int := 100

  /** A bias rule: an input whose lower-cased form contains `keyword` favours `category`. */
  datatype BiasRule = BiasRule(keyword: JsString, category: JsString)

  const HeadphoneRule: BiasRule := BiasRule(Lit("headphone"), Electronics)
  const ShoeRule: BiasRule := BiasRule(Lit("shoe"), Fashion)
  const LampRule: BiasRule := BiasRule(Lit("lamp"), Home)
  const SportRule: BiasRule := BiasRule(Lit("sport"), Sports)

  /** The four rules, in the order the scorer tests them. */
  const BiasRules: seq<BiasRule> := [HeadphoneRule, ShoeRule, LampRule, SportRule]

  /** `inputString.toLowerCase().includes(keyword) && category === ruleCategory` */
  predicate Fires(rule: BiasRule, input: JsString, category: JsString) {
    Includes(ToLower(input), rule.keyword) && category == rule.category
  }

  predicate AnyRuleFires(input: JsString, category: JsString) {
    exists i | 0 <= i < |BiasRules| :: Fires(BiasRules[i], input, category)
  }

  function BonusOf(rule: BiasRule, input: JsString, category: JsString): int {
    if Fires(rule, input, category) then Bonus else 0
  }

  /** `baseSimilarity` after the four `if` statements. */
  function BaseSimilarity(input: JsString, category: JsString): int {
    Base
    + BonusOf(HeadphoneRule, input, category)
    + BonusOf(ShoeRule, input, category)
    + BonusOf(LampRule, input, category)
    + BonusOf(SportRule, input, category)
  }

  /** The template literal `${inputString}-${productId}-${category}`. */
  function CombinedKey(input: JsString, productId: JsString, category: JsString): JsString {
    input + Separator + productId + Separator + category
  }

  /** `generateSimilarity(inputString, productId, category)`. */
  function GenerateSimilarity(input: JsString, productId: JsString, category: JsString): (r: int)
    ensures Base <= r <= Cap
  {
    var hash := StringHash(CombinedKey(input, productId, category));
    var score := BaseSimilarity(input, category) + hash % HashSpan;
    if score < Cap then score else Cap
  }

  /** The rules name four different categories, so no two of them fire together. */
  lemma AtMostOneRuleFires(input: JsString, category: JsString, i: int, j: int)
    requires 0 <= i < |BiasRules| && 0 <= j < |BiasRules|
    requires Fires(BiasRules[i], input, category) && Fires(BiasRules[j], input, category)
    ensures i == j
  {
    assert BiasRules[i].category[0] == category[0] == BiasRules[j].category[0];
  }

  /** The base is 50 with no rule firing and 70 with one; never anything else. */
  lemma {:induction false} BaseSimilarityCases(input: JsString, category: JsString)
    ensures BaseSimilarity(input, category) == if AnyRuleFires(input, category) then Base + Bonus else Base
  {
    forall i, j | 0 <= i < j < |BiasRules| && Fires(BiasRules[i], input, category)
      ensures !Fires(BiasRules[j], input, category)
    {
      if Fires(BiasRules[j], input, category) {
        AtMostOneRuleFires(input, category, i, j);
      }
    }
    if AnyRuleFires(input, category) {
      var i :| 0 <= i < |BiasRules| && Fires(BiasRules[i], input, category);
      assert BiasRules[i] in BiasRules;
    } else {
      assert !Fires(BiasRules[0], input, category);
      assert !Fires(BiasRules[1], input, category);
      assert !Fires(BiasRules[2], input, category);
      assert !Fires(BiasRules[3], input, category);
    }
  }

  /** With no rule firing the score is 50 plus the hash term, and the cap never bites. */
  lemma UnbiasedScore(input: JsString, productId: JsString, category: JsString)
    requires !AnyRuleFires(input, category)
    ensures GenerateSimilarity(input, productId, category)
         == Base + StringHash(CombinedKey(input, productId, category)) % HashSpan
  {
    BaseSimilarityCases(input, category);
  }

  /** With a rule firing the base is raised by exactly 20 before the cap of 100. */
  lemma BiasedScore(input: JsString, productId: JsString, category: JsString)
    requires AnyRuleFires(input, category)
    ensures var raw := Base + Bonus + StringHash(CombinedKey(input, productId, category)) % HashSpan;
      GenerateSimilarity(input, productId, category) == if raw < Cap then raw else Cap
    ensures GenerateSimilarity(input, productId, category) >= Base + Bonus
  {
    BaseSimilarityCases(input, category);
  }

  /** A category outside the four the rules name never receives a bonus. */
  lemma UnknownCategoryIsUnbiased(input: JsString, productId: JsString, category: JsString)
    requires category != Electronics && category != Fashion && category != Home && category != Sports
    ensures !AnyRuleFires(input, category)
    ensures GenerateSimilarity(input, productId, category)
         == Base + StringHash(CombinedKey(input, productId, category)) % HashSpan
  {
    UnbiasedScore(input, productId, category);
  }

  /** An input that contains none of the four keywords never receives a bonus. */
  lemma NoKeywordIsUnbiased(input: JsString, productId: JsString, category: JsString)
    requires forall i | 0 <= i < |BiasRules| :: !Includes(ToLower(input), BiasRules[i].keyword)
    ensures !AnyRuleFires(input, category)
    ensures GenerateSimilarity(input, productId, category)
         == Base + StringHash(CombinedKey(input, productId, category)) % HashSpan
  {
    UnbiasedScore(input, productId, category);
  }

  /**
   * The query "headphone-photo.jpg" favours an electronics product (base 70)
   * and leaves a fashion product at base 50.
   */
  lemma HeadphoneQueryScenario(productId: JsString)
    ensures var key := Lit("headphone-photo.jpg");
      && BaseSimilarity(key, Electronics) == Base + Bonus
      && BaseSimilarity(key, Fashion) == Base
      && GenerateSimilarity(key, productId, Electronics) >= Base + Bonus
  {
    var key := Lit("headphone-photo.jpg");
    var lower := ToLower(key);
    assert lower[..9] == HeadphoneRule.keyword;
    assert OccursAt(lower, HeadphoneRule.keyword, 0);
    assert Fires(HeadphoneRule, key, Electronics);
    MissingFirstUnitNotIncluded(lower, ShoeRule.keyword);
    BaseSimilarityCases(key, Fashion);
  }
}
