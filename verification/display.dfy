/** The rules the page uses to present a prediction: the case-insensitive
    correctness check (app.py:104) and the cat/dog banner chosen by an
    ordered substring test on the lowercased label (app.py:148-153). */
module Display {
  import opened Text

  /** The three banners: cat, dog, or the plain label. */
  datatype Category = Cat | Dog | OtherClass

  predicate HasCatMarker(lowered: string) {
    Contains(lowered, "cat") || Contains(lowered, "kucing")
  }

  predicate HasDogMarker(lowered: string) {
    Contains(lowered, "dog") || Contains(lowered, "anjing")
  }

  ghost predicate MentionsCat(s: string) {
    Occurs(s, "cat") || Occurs(s, "kucing")
  }

  ghost predicate MentionsDog(s: string) {
    Occurs(s, "dog") || Occurs(s, "anjing")
  }

  /** The banner for a decoded label. The cat test comes first, so a label
      mentioning both animals is shown as a cat. */
  function Classify(predicted: string): (c: Category)
    ensures c == Cat <==> MentionsCat(Lower(predicted))
    ensures c == Dog <==> !MentionsCat(Lower(predicted)) && MentionsDog(Lower(predicted))
    ensures c == OtherClass <==> !MentionsCat(Lower(predicted)) && !MentionsDog(Lower(predicted))
  {
    var l := Lower(predicted);
    if HasCatMarker(l) then Cat
    else if HasDogMarker(l) then Dog
    else OtherClass
  }

  /** `true_lbl.lower() == pred_lbl.lower()`: the prediction is correct
      exactly when it has the truth's length and matches it letter by
      letter, ASCII capitals folded. */
  predicate IsCorrect(truth: string, predicted: string): (r: bool)
    ensures r <==> |truth| == |predicted|
                   && forall i | 0 <= i < |truth| :: LowerChar(truth[i]) == LowerChar(predicted[i])
  {
    LowerEqualPointwise(truth, predicted);
    Lower(truth) == Lower(predicted)
  }

  /** The banner does not depend on letter case: labels the correctness
      check treats as equal get the same banner. */
  lemma ClassifyRespectsCase(a: string, b: string)
    requires IsCorrect(a, b)
    ensures Classify(a) == Classify(b)
  {
    LowerEqualPointwise(a, b);
  }

  /** The correctness check is an equivalence: reflexive, symmetric and
      transitive. */
  lemma IsCorrectIsEquivalence(a: string, b: string, c: string)
    ensures IsCorrect(a, a)
    ensures IsCorrect(a, b) <==> IsCorrect(b, a)
    ensures IsCorrect(a, b) && IsCorrect(b, c) ==> IsCorrect(a, c)
  {
  }
}
