/** The Similarity Judge (`are_items_similar`, main.py:75-91). */
module Similarity {
  import opened Text

  /** `difflib.SequenceMatcher(None, a, b)`, reduced to the number of characters its
      matching blocks cover (the M of `ratio() == 2 * M / (len(a) + len(b))`). The
      library's algorithm is not part of this model, so every operation takes it as a
      parameter. */
  type Matcher = (string, string) -> nat

  /** `SIMILARITY_THRESHOLD = 0.85` (main.py:26) as the fraction 17 / 20. */
  const ThresholdNumerator: nat := 17
  const ThresholdDenominator: nat := 20

  /** `ratio() >= 0.85`, i.e. 2 * M / (|a| + |b|) >= 17 / 20, cleared of fractions. */
  predicate RatioAtLeastThreshold(a: string, b: string, matcher: Matcher) {
    2 * ThresholdDenominator * matcher(a, b) >= ThresholdNumerator * (|a| + |b|)
  }

  /** main.py:75-91: equal lowercase forms, or one contained in the other, or a ratio at
      or above the threshold. */
  predicate AreItemsSimilar(item1: string, item2: string, matcher: Matcher) {
    var a, b := Lower(item1), Lower(item2);
    a == b || Contains(b, a) || Contains(a, b) || RatioAtLeastThreshold(a, b, matcher)
  }

  /** Containment always succeeds: a string contains itself. */
  lemma ContainsSelf(s: string)
    ensures Contains(s, s)
  {
    assert OccursAt(s, s, 0);
  }

  /** A string contains every one of its slices. */
  lemma ContainsSlice(s: string, i: nat, j: nat)
    requires i <= j <= |s|
    ensures Contains(s, s[i..j])
  {
    assert OccursAt(s, s[i..j], i);
  }

  /** Every item is similar to itself, whatever the matcher says. */
  lemma SimilarReflexive(item: string, matcher: Matcher)
    ensures AreItemsSimilar(item, item, matcher)
  {
  }

  /** The first two rules never consult the matcher: equal lowercase forms, or one
      contained in the other, are similar whatever the matcher says. */
  lemma SimilarByContainment(item1: string, item2: string, matcher: Matcher)
    requires Contains(Lower(item1), Lower(item2)) || Contains(Lower(item2), Lower(item1))
    ensures forall other: Matcher :: AreItemsSimilar(item1, item2, other)
    ensures AreItemsSimilar(item1, item2, matcher)
  {
  }

  /** The judgement depends only on the lowercase forms of the two items. */
  lemma SimilarIgnoresCase(item1: string, item2: string, matcher: Matcher)
    ensures AreItemsSimilar(item1, item2, matcher) == AreItemsSimilar(Lower(item1), Lower(item2), matcher)
  {
    LowerIdempotent(item1);
    LowerIdempotent(item2);
  }

  /** `SequenceMatcher` is not promised to be symmetric; when the matcher is, so is the
      judgement. */
  lemma SimilarSymmetric(item1: string, item2: string, matcher: Matcher)
    requires matcher(Lower(item1), Lower(item2)) == matcher(Lower(item2), Lower(item1))
    ensures AreItemsSimilar(item1, item2, matcher) == AreItemsSimilar(item2, item1, matcher)
  {
  }

  /** Without equality or containment, the items are similar exactly when the ratio
      reaches the threshold, so two items whose ratio is below it stay apart. */
  lemma DissimilarBelowThreshold(item1: string, item2: string, matcher: Matcher)
    requires !Contains(Lower(item1), Lower(item2)) && !Contains(Lower(item2), Lower(item1))
    ensures AreItemsSimilar(item1, item2, matcher) <==> RatioAtLeastThreshold(Lower(item1), Lower(item2), matcher)
  {
    if Lower(item1) == Lower(item2) {
      ContainsSelf(Lower(item1));
    }
  }
}
