# Cats vs Dogs audio classifier page: a verified model of its helpers

The page (`app.py`) loads a pre-trained classifier, lets the user replay a
held-out test sample or upload a `.wav` recording, and shows the predicted
label. Around the Streamlit widgets sit a few pure helpers, which this
project models in Dafny and proves properties of:

- `process_audio_file`: the decoded waveform is truncated to its first
  `target_length` samples, or padded with zeros at the end, then reshaped to
  one row. If decoding fails the result is `None`, never a partial vector.
  Samples are an abstract type `T` with a distinguished `zero`. The decoder
  (`librosa.load`) is a function parameter `load: A -> Option<seq<T>>`.
- `decode_label`: `bytes` and `bytearray` labels are decoded as UTF-8
  (RFC 3629, modelled concretely as a strict decoder with an encoder and both
  round trips proved). Every other value is converted with `str()`. Bytes
  that are not UTF-8 fall back to `str()`, i.e. their Python repr
  (`b'...'`), which is also modelled concretely.
- The correctness check of the test-set tab: case-insensitive equality of
  the two decoded labels.
- The banner of the upload tab: Cat when the lowercased label contains
  "cat" or "kucing" (checked first), else Dog when it contains "dog" or
  "anjing", else the plain label.
- `getattr(model, 'n_features_in_', 14773)`: the fitting width, with the
  default 14773.
- The upload flow, with the classifier a parameter `predict` that returns
  `None` when it raises.

Modules: `Options` (optional values), `Utf8` (the codec), `Text` (ASCII
lowercasing, substring search), `Labels` (label values, `str()`,
`decode_label`), `Audio` (fitting and reshaping), `Display` (banner and
correctness rules), `App` (model width, the two flows), `Scenarios`
(concrete instances).

`app.py` fits a waveform by end truncation and end zero-padding only, and
loads audio at the file's native rate (`sr=None`). `target_length` is never
checked, so the model takes any integer and follows Python's slice semantics
for a negative target: `y[:t]` with `t < 0` drops `-t` samples from the end.

## Model

| member | source | states |
|---|---|---|
| `Audio.SlicePrefix` | app.py:37-39 | `y[:stop]` is a prefix of `y`; its length is `min(stop, len(y))` for a non-negative stop, and `max(0, len(y)+stop)` for a negative one |
| `Audio.PadEnd` | app.py:40-43 | end padding keeps the input as the prefix, appends exactly `count` samples, and every appended sample is zero |
| `Audio.FitLength` | app.py:36-43 | for a non-negative target the output has exactly `target` samples; a longer input gives its first `target` samples; a shorter or equal input is the output's prefix and the rest is zeros; a negative target drops that many samples from the end, as a Python slice does |
| `Audio.FitLengthIsFitted` | app.py:36-43 | fitting equals the independent pointwise definition: sample `i` is the input's sample `i` if it exists, else zero |
| `Audio.FitLengthExact` | app.py:40-43 | an input of exactly the target length comes back unchanged |
| `Audio.FitLengthIdempotent` | app.py:36-43 | fitting a fitted vector to the same target changes nothing |
| `Audio.FitLengthIgnoresTail` | app.py:37-39 | samples past the target never influence the result |
| `Audio.ReshapeRow` | app.py:45-46 | `reshape(1, -1)` gives shape `(1, len(y))` and flattens back to `y` |
| `Audio.ProcessAudioFile` | app.py:25-49 | `None` exactly when decoding fails; otherwise one row, of shape `(1, target)` for a non-negative target, holding the pointwise-fitted waveform |
| `Utf8.DecodeFirst` | app.py:54-55 | the first character decoded is the inverse of the shortest encoding: what is accepted is the encoding of the returned character, and input that starts with the encoding of any character decodes to that character |
| `Utf8.Decode` | app.py:54-55 | `x.decode()`: whatever it returns encodes back to the input bytes, so strict decoding loses nothing |
| `Utf8.DecodeEncode` | app.py:54-55 | every string decodes from its UTF-8 encoding |
| `Utf8.DecodableIffEncoding` | app.py:54-55 | `bytes.decode()` succeeds if and only if the bytes are the encoding of some string |
| `Labels.EscapeByte` | app.py:56-58 | in the `str()` of a byte string, each byte becomes 1 to 4 printable ASCII characters, and a printable byte other than the quote or a backslash is shown as itself |
| `Labels.EscapeAllPrintable` | app.py:56-58 | the escaped body of a byte string's repr is printable ASCII, 1 to 4 characters per byte |
| `Labels.EscapeAllReadsBack` | app.py:56-58 | the escaped body of a byte string's repr reads back as exactly the original bytes |
| `Labels.BytesRepr` | app.py:56-58 | `str()` of `bytes` is `b`, a quote, printable ASCII and the same quote, with a double quote only when the bytes hold a single quote and no double quote; it reads back as the original bytes |
| `Labels.Str` | app.py:56-58 | `str(x)` is the text itself for a `str`, the object's own conversion for other values, and for `bytes`/`bytearray` a printable literal (wrapped in `bytearray(...)` for a `bytearray`) that reads back as the bytes |
| `Labels.DecodeLabel` | app.py:51-58 | total; decodable byte strings give text whose encoding is those bytes; undecodable byte strings give `str(x)`; a `str` is returned as it is; other values give their `str()` |
| `Labels.DecodeLabelOfEncoded` | app.py:54-55 | `bytes` or `bytearray` holding the UTF-8 encoding of a text decode to that text |
| `Labels.UndecodableFallsBackToRepr` | app.py:57-58 | undecodable bytes yield `b`, a quote, printable ASCII and the same quote, instead of an error, and the bytes can be read back from it |
| `Text.LowerChar` | app.py:104 | ASCII capitals map to the small letter 32 code points above; every other character is kept; no result is a capital |
| `Text.Lower` | app.py:104 | lowercasing keeps the length and folds each character independently |
| `Text.LowerIdempotent` | app.py:104 | lowercasing twice is the same as lowercasing once |
| `Text.Contains` | app.py:148-150 | the `in` test answers true iff the word occurs at some position of the string |
| `Display.Classify` | app.py:148-153 | Cat iff the lowercased label mentions "cat" or "kucing"; Dog iff it mentions neither but mentions "dog" or "anjing"; the plain label iff it mentions none of the four |
| `Display.ClassifyRespectsCase` | app.py:148-153 | labels equal ignoring case get the same banner |
| `Display.IsCorrect` | app.py:104 | a prediction is correct iff it has the truth's length and matches it letter by letter up to ASCII case |
| `Display.IsCorrectIsEquivalence` | app.py:104 | the correctness check is reflexive, symmetric and transitive |
| `App.ExpectedFeatures` | app.py:66-69 | the model's `n_features_in_` when present, 14773 otherwise |
| `App.AnalyzeUpload` | app.py:132-157 | decode failure is reported iff the audio does not decode; otherwise the classifier is asked about the one row fitted to the model's width, a raise is reported iff it raises, and the banner is that of the decoded label |
| `App.UploadRowHasModelWidth` | app.py:134-141 | a decodable upload always reaches the classifier as shape `(1, n_features_in_)`, or `(1, 14773)` without the attribute |
| `App.TestSampleCorrect` | app.py:93-104 | a label always matches itself; otherwise the verdict is correct iff the two decoded labels have the same length and agree letter by letter up to ASCII case |
| `App.TestSampleCorrectAcrossRepresentations` | app.py:93-104 | a UTF-8 byte label and a text label are judged correct iff their texts are equal ignoring case |
| `Scenarios.DecodeLabelOfCatBytes` | app.py:51-56 | `b"cat"` gives `"cat"` and `"dog"` gives `"dog"` |
| `Scenarios.DecodeLabelOfInvalidByte` | app.py:53-58 | the undecodable `b"\xff"` gives `"b'\\xff'"` |
| `Scenarios.ClassifyCatFirst` | app.py:148-149 | `"CatDog"` is a cat: the cat test wins |
| `Scenarios.ClassifyIndonesianDog` | app.py:148-151 | `"Anjing"` is a dog |
| `Scenarios.ClassifyNeither` | app.py:148-153 | `"Lion"` gets the plain banner |
| `Scenarios.PadShortRecording` | app.py:25-46 | 10,000 samples at the default width give shape `(1, 14773)` with the input as prefix and zeros from index 10,000 |

## Left out

- The Streamlit page: configuration, title, tabs, slider, buttons, metrics, images, info and error messages (app.py:18-22, 76-160). `st.error` on a decoding failure is not modelled; only the `None` result is.
- `librosa.load` and the sample rate: decoding is the parameter `load`, which may fail. The returned sample rate is unused by the code and not modelled.
- `joblib.load`, `np.load` of the test archive, and the file-existence checks (app.py:61-72, 80-83): file I/O and foreign persisted formats. The loaded model is seen only through `ModelInfo`, i.e. whether it has `n_features_in_`. Indexing `X_test`/`y_test` by the slider is not modelled; the test-set verdict takes the two labels directly.
- `model.predict`: an opaque classifier, passed in as `predict`.
- Floating-point samples: samples are an abstract type with a zero element.
- `Text.LowerChar`: folds ASCII capitals only. Python's `str.lower()` also folds non-ASCII letters, and some of them become two characters.
- `str()` of an arbitrary object is abstract (the text carried by `Other`). The case where `str()` itself raises, which `decode_label` would propagate, is not modelled.
- `App.ExpectedFeatures`: `n_features_in_` is taken to be an integer. Any other attribute value is not modelled.
- `Labels.ReadBytesRepr` reads back what `repr` of a byte string produces. It is not a parser for Python's full bytes-literal grammar, which also has octal escapes and escapes of other characters.
