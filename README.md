# manga-ocr core: a verified Dafny model

This project models the sequential core of `manga-ocr`, a Rust program that
reads Japanese text from manga images. An encoder turns the image into hidden
states. A greedy decoder then produces token ids until a repeated-end-token
rule stops it. The ids are detokenised and every space is removed. In
clipboard mode a watcher polls the clipboard, hashes each image's bytes, and
runs this pipeline once for each new image.

Files:

- `wrappers.dfy`: module `Wrappers` with `Option` and `Result`.
- `model.dfy`: module `Model`, for `src/model.rs`. It covers the channel-first
  index permutation of `rgb_to_array`, `last_token_idx` with its argmax, the
  `Decoder` (stopping rule and decoding loop), `ModelDir::new`, and
  `OCRModel::run` with its space stripping.
- `main.dfy`: module `App`, for `src/main.rs`. It covers `Mode` and its
  `Display`, and the clipboard change-detection loop.

How the outside world is modelled:

- The decoder session is an oracle `Session = (Tensor, seq<int>) -> Result<Tensor, Failure>`.
  It takes the encoder's hidden states and the ids so far. Tensor creation and
  extraction failures are part of its `Err` result.
- `Decoder.Greedy` and its lemmas are stated over a `Chooser`, a function from
  the ids so far to the next id or a failure. `GreedyChoice(session, hidden)`
  is the session's greedy choice: run the session, then `last_token_idx`.
- Tensors are a shape plus their elements in logical row-major order. Logits
  and pixel values are integers, not floats.
- The encoder stage and the tokenizer's `decode(ids, true)` are fields of
  `Model.OcrModel`.
- The hasher, `to_dyn_image` and `OCRModel::run` are fields of `App.Watcher`.
  `to_dyn_image` is a partial function to an abstract image type.
- The clipboard is a finite sequence of read results: one read before the
  loop and one per tick. The watcher's visible effects (printing, writing
  text back) form a sequence of `App.Outcome` values.
- A path is its sequence of components. Rust's `Path::ends_with("x")` matches
  whole components only, so `EndsWith` compares the last component.

Where the code decides:

- `last_token_idx` panics on an empty axis: the `[0, -1, ..]` slice and the
  `unwrap` of the argmax both fail. The model turns this into the requirement
  `Indexable` (well-formed, and no empty axis at rank 3).
  `Decoder.Decode` requires `ShapesIndexable(session)`: the session never
  returns logits that would make it panic.
- `argmax` keeps its first maximum and replaces it only with a strictly
  greater value. So `ArgMax` returns the first maximal index.
- The stopping rule is not checked on the initial `[2]`, only after each
  append. The literal start token 2 is hard-coded. With K = 0 the rule stops
  after the first step. With K = 3 and 2 an end token, `[2, e, e]` already
  stops.
- `src/main.rs:60` calls `OCRModel::from_name_or_path` with one argument, but
  `src/model.rs:80-84` declares three. The model takes `maxEndTokenRepeats`
  and the end-token ids as `Decoder` fields and assumes no defaults.
- The watcher hashes only the bytes, not the width and height. Two images with
  the same bytes count as the same image (`AllHashTo` is stated over hashes
  only).

## Model

| member | source | states |
|---|---|---|
| `Model.RgbToArray` | src/model.rs:19-33 | fails (ShapeError) exactly when the buffer is shorter than height*width*3; otherwise shape is [1, 3, height, width] and element [0, c, y, x] is the raw byte at (y*width + x)*3 + c |
| `Model.ArgMax` | src/model.rs:177 | index into the row of a maximal element, and of the first one: every earlier element is strictly smaller |
| `Model.LastTokenIdx` | src/model.rs:169-179 | DecodeError("Expected array to have 3 dimensions") exactly when rank is not 3; otherwise an index below the vocabulary size whose logit at [0, last, idx] is >= every other in that row, and the first such index |
| `Model.Decoder.EndCount` | src/model.rs:211-219 | the count of end tokens in a window is at most its length, and equals it exactly when every token of the window is an end token |
| `Model.Decoder.ShouldStopIffAllEnd` | src/model.rs:207-221 | the stopping rule holds iff the sequence has at least K tokens and its last K are all end tokens; never for fewer than K tokens; always when K = 0 |
| `Model.Decoder.StopDecoding` | src/model.rs:207-221 | the counting loop returns the stopping rule: false below K tokens, otherwise true iff all of the last K are end tokens |
| `Model.Decoder.GreedyExtends` | src/model.rs:224-240 | decoding only appends: the result starts with the initial ids and is between 1 and `steps` tokens longer (0 only when `steps` is 0) |
| `Model.Decoder.GreedyFollowsChoice` | src/model.rs:226-235 | every appended token is the chooser's choice on the sequence just before it |
| `Model.Decoder.GreedyStopsFirst` | src/model.rs:226-239 | the stopping rule fails on every shorter sequence produced on the way, and holds on the result when it is shorter than the step bound allows |
| `Model.Decoder.GreedyCharacterised` | src/model.rs:223-241 | converse: any sequence that extends the ids by the chooser's choices, passes no earlier stopping point, and ends at a stopping point or at the bound is what decoding returns |
| `Model.Decoder.Decode` | src/model.rs:223-241 | the loop computes the greedy recursion from [2]; on success the result starts with 2 and has 1 to maxTokens+1 tokens; it has exactly maxTokens+1 tokens when the rule does not hold at the end; the rule fails at every earlier step; each token is the session's choice |
| `Model.Decoder.DecodedFromStart` | src/model.rs:223-241 | a successful decoding from [2] starts with 2, has 1 to maxTokens+1 tokens, reaches the bound unless the rule holds at the end, passes no earlier stopping point, and each token is `last_token_idx` of the session's logits on the tokens before it |
| `Model.Decoder.AllEndTokensStopAfterThree` | src/model.rs:224-238 | with K = 3, 2 not an end token, and a chooser always choosing end token e, decoding of at least 3 steps returns [2, e, e, e] |
| `Model.Decoder.NoEndTokenRunsToBound` | src/model.rs:226-239 | with K >= 1 and a chooser that never fails and never chooses an end token, decoding runs all `steps` steps |
| `Model.LastEndingInFinds` | src/model.rs:47-57 | the scan finds nothing iff no path ends in the name; what it finds ends in the name and is in the list |
| `Model.LastEndingInLastWins` | src/model.rs:47-57 | a path ending in the name, with no later path ending in it, is the one kept: the last match wins |
| `Model.ModelDir.New` | src/model.rs:42-70 | fails with "Missing encoder, decoder, or tokenizer model" iff one of encoder_model.onnx, decoder_model.onnx, tokenizer.json ends no path; on success each field is the last path ending in its name |
| `Model.StripSpaces` | src/model.rs:121 | the result contains no U+0020 and keeps every other character with its multiplicity |
| `Model.StripSpacesConcat` | src/model.rs:121 | stripping distributes over concatenation, so the characters kept stay in their order |
| `Model.StripSpacesKeepsSpaceFree` | src/model.rs:121 | text without spaces is unchanged, so stripping twice is stripping once |
| `Model.AsU32` | src/model.rs:115 | `as u32` keeps ids in [0, 2^32) and otherwise gives the value congruent modulo 2^32 |
| `Model.OcrModel.Run` | src/model.rs:111-123 | an encoder or decoder error is the run's error; a tokenizer failure is "Failed to decode"; otherwise the detokenised 300-step greedy decoding with all spaces removed; the result never contains a space |
| `App.DisplayParsesBack` | src/main.rs:22-38 | `file` and `clipboard` are the Display texts; each mode's text parses back to that mode and is the only text that does |
| `App.Watcher.InitialHash` | src/main.rs:78-81 | before the loop the hash is Some(hash(bytes)) iff the first read succeeded, else None |
| `App.Watcher.Tick` | src/main.rs:85-107 | a failed read and a read with the recorded hash change nothing and skip the pipeline; any other read records its hash whatever happens next; the pipeline runs only on such a read whose conversion gives Some; text is written only on pipeline success |
| `App.Watcher.Watch` | src/main.rs:76-108 | the polling loop with its `continue`s gives the final recorded hash and one outcome per tick, as the fold of `Tick` from the initial hash |
| `App.Watcher.SeenImageNeverRuns` | src/main.rs:92-95 | once an image's hash is recorded, ticks that fail or read that image never run the pipeline and keep the hash |
| `App.Watcher.SameImageRunsAtMostOnce` | src/main.rs:78-96 | over ticks that fail or read the same image, the pipeline runs at most once, and never if the initial read (or an earlier tick) recorded that image |
| `App.Watcher.NewImageRunsOnce` | src/main.rs:92-107 | the same new, convertible image on one or more consecutive ticks runs the pipeline exactly once, on the first of them |

## Left out

- Float arithmetic: the `* 0.003_921_569 - 0.5) / 0.5` normalisation (src/model.rs:148-150) and float comparison in `argmax`. Logits and pixels are integers, and NaN (which makes `argmax` fail and `unwrap` panic) cannot occur.
- `Encoder::encode`: `resize_exact` and `to_rgb8` are library code, and the session is ONNX Runtime. In `OcrModel` the encoder stage is one oracle. Only the layout step `rgb_to_array` is modelled, by `RgbToArray`.
- `Model.RgbToArray`: models the `ArrayView::from_shape` check as "buffer shorter than the shape needs". ndarray's exact rule and its size-overflow case are library internals. An `RgbImage` buffer always has exactly the right size.
- ONNX Runtime itself (`ort::init`, `Session::run`, tensor extraction) and the `RefCell` borrows. These are foreign calls; the decoder session is the `Session` oracle.
- `OCRModel::from_name_or_path` and `Decoder::new`/`from_path`: these do model download (`src/hf.rs`), tokenizer loading and end-token encoding, all of which are I/O or opaque libraries. `Decoder::new`'s lossless u32-to-i64 widening of the end-token ids is assumed, and the ids are given directly as integers.
- `src/hf.rs` (network download) and `src/config.rs` (JSON configuration, not used by decoding) are not part of this model.
- The tokenizer's `encode`/`decode` (opaque library). `Model.AsU32` models the `as u32` cast, which no lemma shows is lossless: the vocabulary size is not bounded in the model.
- `DefaultHasher` is an uninterpreted deterministic function of the bytes. Hash collisions are possible in the model as in the program.
- Clipboard access, the one-second `sleep`, `println!` and `set_text`: these are OS I/O. A write's result is discarded in the source and is not an input of `Tick`, so it cannot affect the recorded hash.
- `to_dyn_image`'s exact size check in `ImageBuffer::from_raw`, and the `as u32` casts of the dimensions. `to_dyn_image` is a partial function.
- File mode of `main` (src/main.rs:63-75): it opens and decodes a file and prints the result. This is I/O around a single call of `OCRModel::run`, which `Model.OcrModel.Run` models.
- Argument parsing by clap beyond `Mode`'s values. `App.ParseMode` stands for the derived `ValueEnum` parser (kebab-case variant names, case-sensitive).
- The watcher runs forever; the model follows any finite prefix of its ticks.
- A process-aborting panic in `last_token_idx` is excluded by the `Indexable` requirement rather than modelled as an outcome.
