/** Fitting a decoded waveform to the classifier's fixed input width
    (`process_audio_file`, app.py:25-49). Samples are abstract values of a
    type `T` with a distinguished `zero`, the value `np.pad` fills with. */
module Audio {
  import opened Options

  /** The default target length: the feature count of the CatsDogs
      dataset (app.py:25, app.py:69). */
  const DefaultTargetLength: int := 14773

  /** A two-dimensional array as a list of rows. */
  datatype Matrix<T> = Matrix(rows: seq<seq<T>>)
  {
    /** NumPy's `shape` of a matrix whose rows all have the first row's
        length. */
    function Shape(): (nat, nat) {
      (|rows|, if |rows| == 0 then 0 else |rows[0]|)
    }

    /** The samples in row-major order. */
    function Flatten(): seq<T> {
      Concat(rows)
    }
  }

  function Concat<T>(rows: seq<seq<T>>): seq<T> {
    if |rows| == 0 then [] else rows[0] + Concat(rows[1..])
  }

  /** `y[:stop]` for an integer `stop`: a non-negative stop keeps at most
      `stop` samples, a negative one drops `-stop` samples from the end. */
  function SlicePrefix<T>(y: seq<T>, stop: int): (r: seq<T>)
    ensures |r| <= |y| && r == y[..|r|]
    ensures stop >= 0 ==> |r| == if stop < |y| then stop else |y|
    ensures stop < 0 ==> |r| == if |y| + stop > 0 then |y| + stop else 0
  {
    if stop >= 0 then (if stop <= |y| then y[..stop] else y)
    else if |y| + stop >= 0 then y[..|y| + stop]
    else []
  }

  /** `np.pad(y, (0, count), 'constant')`: `count` zeros appended. */
  function PadEnd<T>(y: seq<T>, zero: T, count: nat): (r: seq<T>)
    ensures |r| == |y| + count
    ensures r[..|y|] == y
    ensures forall i | |y| <= i < |r| :: r[i] == zero
  {
    y + seq(count, _ => zero)
  }

  /** Step 2 of `process_audio_file`: truncate to the prefix when the
      waveform is longer than `target`, otherwise pad with zeros at the end. */
  function FitLength<T>(y: seq<T>, zero: T, target: int): (r: seq<T>)
    ensures target >= 0 ==> |r| == target
    ensures |y| > target && target >= 0 ==> r == y[..target]
    ensures target < 0 ==> r == y[..if |y| + target > 0 then |y| + target else 0]
    ensures |y| <= target ==> r[..|y|] == y
    ensures |y| <= target ==> forall i | |y| <= i < |r| :: r[i] == zero
  {
    if |y| > target then SlicePrefix(y, target)
    else PadEnd(y, zero, target - |y|)
  }

  /** Reference definition: sample `i` of the fitted vector is sample `i` of
      the waveform where that exists, and zero beyond its end. */
  function Fitted<T>(y: seq<T>, zero: T, target: nat): seq<T> {
    seq(target, i requires 0 <= i < target => if i < |y| then y[i] else zero)
  }

  /** Fitting agrees with the reference definition for every waveform and
      every non-negative target. */
  lemma FitLengthIsFitted<T>(y: seq<T>, zero: T, target: nat)
    ensures FitLength(y, zero, target) == Fitted(y, zero, target)
  {
    var r := FitLength(y, zero, target);
    if |y| <= target {
      assert forall i | 0 <= i < |y| :: r[i] == r[..|y|][i];
    }
  }

  /** A waveform that already has the target length passes unchanged. */
  lemma FitLengthExact<T>(y: seq<T>, zero: T)
    ensures FitLength(y, zero, |y|) == y
  {
  }

  /** Fitting is idempotent: a fitted vector is not changed by fitting it
      again to the same target. */
  lemma FitLengthIdempotent<T>(y: seq<T>, zero: T, target: nat)
    ensures FitLength(FitLength(y, zero, target), zero, target) == FitLength(y, zero, target)
  {
    FitLengthExact(FitLength(y, zero, target), zero);
  }

  /** The fitted vector depends only on the first `target` samples. */
  lemma FitLengthIgnoresTail<T>(y: seq<T>, tail: seq<T>, zero: T, target: nat)
    requires |y| >= target
    ensures FitLength(y + tail, zero, target) == y[..target]
  {
    assert (y + tail)[..target] == y[..target];
  }

  /** `y.reshape(1, -1)`: a single row holding every sample. */
  function ReshapeRow<T>(y: seq<T>): (m: Matrix<T>)
    ensures m.Shape() == (1, |y|)
    ensures m.Flatten() == y
  {
    assert [y][1..] == [];
    assert Concat([y]) == y + Concat([y][1..]);
    assert y + [] == y;
    Matrix([y])
  }

  /** `process_audio_file`: `load` is the audio decoder (`librosa.load`),
      which returns `None` when the file cannot be decoded. The result is
      `None` exactly when decoding failed; otherwise it is one row of
      `target` samples holding the fitted waveform. */
  function ProcessAudioFile<A, T>(file: A, load: A -> Option<seq<T>>, zero: T, target: int): (r: Option<Matrix<T>>)
    ensures r.None? <==> load(file).None?
    ensures r.Some? && target >= 0 ==> r.value.Shape() == (1, target)
    ensures r.Some? ==> r.value.Shape().0 == 1
    ensures r.Some? && target >= 0 ==> r.value.Flatten() == Fitted(load(file).value, zero, target)
  {
    match load(file)
    case None => None
    case Some(y) =>
      var fitted := FitLength(y, zero, target);
      if target >= 0 then FitLengthIsFitted(y, zero, target); Some(ReshapeRow(fitted))
      else Some(ReshapeRow(fitted))
  }
}
