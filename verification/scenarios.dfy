/** Concrete instances of the rules, as the page would meet them. */
module Scenarios {
  import opened Options
  import opened Utf8
  import opened Text
  import opened Labels
  import opened Audio
  import opened Display

  /** `b"cat"` decodes to `"cat"`, and a `str` stays as it is. */
  lemma DecodeLabelOfCatBytes()
    ensures DecodeLabel(Bytes([99, 97, 116])) == "cat"
    ensures DecodeLabel(Text("dog")) == "dog"
  {
    assert Encode("cat") == [99, 97, 116];
    DecodeLabelOfEncoded("cat");
  }

  /** The single byte `FF`, which is not UTF-8, is shown as its repr
      `b'\xff'`. */
  lemma DecodeLabelOfInvalidByte()
    ensures DecodeLabel(Bytes([0xFF])) == "b'\\xff'"
  {
    var ff: seq<byte> := [0xFF];
    assert !WellFormedPrefix(ff, SequenceLength(ff[0]));
    assert Decode(ff).None?;
    assert QuoteFor(ff) == '\'';
    assert EscapeAll(ff, '\'') == EscapeByte(0xFF, '\'') + EscapeAll([], '\'');
    assert EscapeByte(0xFF, '\'') == "\\xff";
  }

  /** A word whose first letter does not appear in `s` occurs nowhere in it. */
  lemma AbsentFirstLetter(s: string, w: string, i: int)
    requires |w| > 0 && forall j | 0 <= j < |s| :: s[j] != w[0]
    ensures !OccursAt(s, w, i)
  {
    if 0 <= i && i + |w| <= |s| {
      assert s[i..i + |w|][0] == s[i] != w[0];
    }
  }

  /** The cat test comes first: a label naming both animals is a cat,
      whatever the case of its letters. */
  lemma ClassifyCatFirst()
    ensures Classify("CatDog") == Cat
  {
    assert OccursAt(Lower("CatDog"), "cat", 0);
  }

  /** The Indonesian word counts as a dog marker. */
  lemma ClassifyIndonesianDog()
    ensures Classify("Anjing") == Dog
  {
    var a := Lower("Anjing");
    assert a == "anjing";
    assert OccursAt(a, "anjing", 0);
    forall i ensures !OccursAt(a, "cat", i) && !OccursAt(a, "kucing", i) {
      AbsentFirstLetter(a, "cat", i);
      AbsentFirstLetter(a, "kucing", i);
    }
  }

  /** A label naming neither animal gets the plain banner. */
  lemma ClassifyNeither()
    ensures Classify("Lion") == OtherClass
  {
    var b := Lower("Lion");
    assert b == "lion";
    forall i ensures !OccursAt(b, "cat", i) && !OccursAt(b, "dog", i)
                  && !OccursAt(b, "kucing", i) && !OccursAt(b, "anjing", i) {
      AbsentFirstLetter(b, "cat", i);
      AbsentFirstLetter(b, "dog", i);
      AbsentFirstLetter(b, "kucing", i);
      AbsentFirstLetter(b, "anjing", i);
    }
  }

  /** A recording of 10,000 samples against the default width: one row of
      14,773 samples whose tail from index 10,000 on is silence. */
  lemma PadShortRecording<T>(y: seq<T>, zero: T)
    requires |y| == 10000
    ensures var m := ProcessAudioFile(y, (w: seq<T>) => Some(w), zero, DefaultTargetLength);
      && m.Some? && m.value.Shape() == (1, 14773)
      && m.value.Flatten()[..10000] == y
      && forall i | 10000 <= i < 14773 :: m.value.Flatten()[i] == zero
  {
  }
}
