/**
 * The inference core of src/model.rs: the channel-first layout of the
 * preprocessed image, the discovery of the three model artifacts, the greedy
 * decoding loop with its repeated-end-token stopping rule, and the
 * post-processing of the detokenised text.
 *
 * Tensors hold integers: the 32-bit float payload, its normalisation and the
 * ONNX sessions are not modelled; a session is an oracle function.
 */
module Model {
  import opened Wrappers

  newtype byte = x: int | 0 <= x < 256
  type u32 = x: int | 0 <= x < 0x1_0000_0000

  /** The errors an OCR run can end with. */
  datatype Failure =
    | ShapeError                // ndarray refused to view a buffer at a shape
    | InferenceError            // the execution backend failed, or its output could not be extracted
    | DecodeError(message: string)
    | Message(text: string)     // an error made from a message with `anyhow!`

  // ---------------------------------------------------------------------------
  // Tensors
  // ---------------------------------------------------------------------------

  /** An n-dimensional array: its shape and its elements in logical row-major order. */
  datatype Tensor = Tensor(shape: seq<nat>, data: seq<int>)

  /** The number of elements of an array of the given shape. */
  function Size(shape: seq<nat>): nat
  {
    if shape == [] then 1 else shape[0] * Size(shape[1..])
  }

  lemma Size3(a: nat, b: nat, c: nat)
    ensures Size([a, b, c]) == a * b * c
  {
    assert [a, b, c][1..] == [b, c];
    assert [b, c][1..] == [c];
    assert [c][1..] == [];
    assert Size([c]) == c;
    assert Size([b, c]) == b * c;
    assert a * (b * c) == a * b * c;
  }

  /** The ndarray invariant: as many elements as the shape has positions. */
  predicate WellFormed(t: Tensor)
  {
    |t.data| == Size(t.shape)
  }

  // ---------------------------------------------------------------------------
  // rgb_to_array: height x width x channel bytes to a 1 x 3 x height x width tensor
  // ---------------------------------------------------------------------------

  /** The `RgbImage` handed to `rgb_to_array`: its dimensions and raw row-major RGB bytes. */
  datatype RgbImage = RgbImage(width: nat, height: nat, raw: seq<byte>)

  /** Offset of channel `c` of pixel (`x`, `y`) in the channel-last raw buffer. */
  function HwcIndex(c: nat, y: nat, x: nat, height: nat, width: nat): (k: nat)
    requires c < 3 && y < height && x < width
    ensures k < 3 * height * width
  {
    HwcBelow(c, y, x, height, width);
    (y * width + x) * 3 + c
  }

  /** Offset of element [0, `c`, `y`, `x`] in a standard-layout 1 x 3 x height x width array. */
  function ChwIndex(c: nat, y: nat, x: nat, height: nat, width: nat): (k: nat)
    requires c < 3 && y < height && x < width
    ensures k < 3 * height * width
  {
    ChwBelow(c, y, x, height, width);
    (c * height + y) * width + x
  }

  lemma MulMono(a: nat, b: nat, w: nat)
    requires a <= b
    ensures a * w <= b * w
  {
    assert b * w == a * w + (b - a) * w;
  }

  lemma MulStep(a: nat, b: nat, w: nat)
    requires a < b
    ensures a * w + w <= b * w
  {
    MulMono(a + 1, b, w);
    assert (a + 1) * w == a * w + w;
  }

  lemma DivModOf(q: nat, r: nat, w: nat)
    requires r < w
    ensures (q * w + r) / w == q && (q * w + r) % w == r
  {
    var n := q * w + r;
    var q', r' := n / w, n % w;
    assert q' * w + r' == n;
    if q' > q {
      MulStep(q, q', w);
    } else if q' < q {
      MulStep(q', q, w);
    }
  }

  lemma DivBelow(i: nat, a: nat, w: nat)
    requires w > 0 && i < a * w
    ensures i / w < a
  {
    if i / w >= a {
      MulMono(a, i / w, w);
    }
  }

  lemma PositiveDims(i: nat, height: nat, width: nat)
    requires i < 3 * height * width
    ensures height > 0 && width > 0
  {
    ZeroFactor(height, width);
  }

  lemma ZeroFactor(height: nat, width: nat)
    ensures height == 0 || width == 0 ==> 3 * height * width == 0
  {
  }

  lemma HwcBelow(c: nat, y: nat, x: nat, height: nat, width: nat)
    requires c < 3 && y < height && x < width
    ensures (y * width + x) * 3 + c < 3 * height * width
  {
    MulMono(y + 1, height, width);
    assert y * width + x < height * width;
  }

  lemma ChwBelow(c: nat, y: nat, x: nat, height: nat, width: nat)
    requires c < 3 && y < height && x < width
    ensures (c * height + y) * width + x < 3 * height * width
  {
    MulMono(c + 1, 3, height);
    assert c * height + y < 3 * height;
    MulMono(c * height + y + 1, 3 * height, width);
  }

  /** The raw offset that element `i` of the channel-first output is copied from. */
  function SourceIndex(i: nat, height: nat, width: nat): (k: nat)
    requires i < 3 * height * width
    ensures k < 3 * height * width
  {
    PositiveDims(i, height, width);
    DivBelow(i, 3 * height, width);
    DivBelow(i / width, 3, height);
    HwcIndex(i / width / height, i / width % height, i % width, height, width)
  }

  lemma SourceOfChw(c: nat, y: nat, x: nat, height: nat, width: nat)
    requires c < 3 && y < height && x < width
    ensures SourceIndex(ChwIndex(c, y, x, height, width), height, width) == HwcIndex(c, y, x, height, width)
  {
    DivModOf(c * height + y, x, width);
    DivModOf(c, y, height);
  }

  /**
   * Views the raw bytes as a 1 x height x width x 3 array and permutes the axes
   * to 1 x 3 x height x width (src/model.rs:19-33).
   */
  function RgbToArray(img: RgbImage): (r: Result<Tensor, Failure>)
    ensures r.Err? <==> |img.raw| < 3 * img.height * img.width
    ensures r.Err? ==> r.error == ShapeError
    ensures r.Ok? ==> r.value.shape == [1, 3, img.height, img.width] && WellFormed(r.value)
    ensures r.Ok? ==> |r.value.data| == 3 * img.height * img.width
    ensures r.Ok? ==> forall c: nat, y: nat, x: nat
      | c < 3 && y < img.height && x < img.width
      :: r.value.data[ChwIndex(c, y, x, img.height, img.width)] == img.raw[HwcIndex(c, y, x, img.height, img.width)] as int
  {
    var h, w := img.height, img.width;
    if |img.raw| < 3 * h * w then Err(ShapeError)
    else
      var data := ChannelFirst(img.raw, h, w);
      Size4(h, w);
      ChannelFirstPermutes(img.raw, h, w);
      Ok(Tensor([1, 3, h, w], data))
  }

  lemma ChannelFirstPermutes(raw: seq<byte>, height: nat, width: nat)
    requires |raw| >= 3 * height * width
    ensures forall c: nat, y: nat, x: nat | c < 3 && y < height && x < width
      :: ChannelFirst(raw, height, width)[ChwIndex(c, y, x, height, width)] == raw[HwcIndex(c, y, x, height, width)] as int
  {
    forall c: nat, y: nat, x: nat | c < 3 && y < height && x < width
      ensures ChannelFirst(raw, height, width)[ChwIndex(c, y, x, height, width)] == raw[HwcIndex(c, y, x, height, width)] as int
    {
      SourceOfChw(c, y, x, height, width);
    }
  }

  lemma Size4(h: nat, w: nat)
    ensures Size([1, 3, h, w]) == 3 * h * w
  {
    assert [1, 3, h, w][1..] == [3, h, w];
    Size3(3, h, w);
  }

  /** The channel-first copy of a channel-last buffer of at least 3 x height x width bytes. */
  function ChannelFirst(raw: seq<byte>, height: nat, width: nat): (data: seq<int>)
    requires |raw| >= 3 * height * width
    ensures |data| == 3 * height * width
    ensures forall i :: 0 <= i < |data| ==> data[i] == raw[SourceIndex(i, height, width)] as int
  {
    seq(3 * height * width, (i: int) requires 0 <= i < 3 * height * width => raw[SourceIndex(i, height, width)] as int)
  }

  // ---------------------------------------------------------------------------
  // last_token_idx: greedy choice at the last sequence position
  // ---------------------------------------------------------------------------

  const RankMessage: string := "Expected array to have 3 dimensions"

  /**
   * What `last_token_idx` needs of its input so as not to panic: a consistent
   * array and, when it has rank 3, no empty axis (the slice `[0, -1, ..]` and
   * the `unwrap` of the argmax panic otherwise).
   */
  predicate Indexable(t: Tensor)
  {
    WellFormed(t) && (|t.shape| == 3 ==> t.shape[0] > 0 && t.shape[1] > 0 && t.shape[2] > 0)
  }

  /** Element [`i`, `j`, `k`] of a rank-3 array. */
  function At(t: Tensor, i: nat, j: nat, k: nat): int
    requires Indexable(t) && |t.shape| == 3
    requires i < t.shape[0] && j < t.shape[1] && k < t.shape[2]
  {
    var a, b, c := t.shape[0], t.shape[1], t.shape[2];
    assert t.shape == [a, b, c];
    Size3(a, b, c);
    t.data[Offset3(i, j, k, a, b, c)]
  }

  /** Offset of element [`i`, `j`, `k`] in a standard-layout a x b x c array. */
  function Offset3(i: nat, j: nat, k: nat, a: nat, b: nat, c: nat): (o: nat)
    requires i < a && j < b && k < c
    ensures o < a * b * c
  {
    MulMono(i + 1, a, b);
    assert (i + 1) * b == i * b + b;
    MulMono(i * b + j + 1, a * b, c);
    assert (i * b + j + 1) * c == (i * b + j) * c + c;
    (i * b + j) * c + k
  }

  /** The logits of the last sequence position, `input.slice(s![0, -1, ..])`. */
  function LastRow(t: Tensor): (row: seq<int>)
    requires Indexable(t) && |t.shape| == 3
    ensures |row| == t.shape[2]
    ensures forall k :: 0 <= k < |row| ==> row[k] == At(t, 0, t.shape[1] - 1, k)
  {
    seq(t.shape[2], (k: int) requires 0 <= k < t.shape[2] => At(t, 0, t.shape[1] - 1, k))
  }

  /**
   * Index of the first maximum of a non-empty row: the scan keeps its current
   * maximum and replaces it only by a strictly greater element.
   */
  function ArgMax(row: seq<int>): (k: nat)
    requires |row| > 0
    ensures k < |row|
    ensures forall j :: 0 <= j < |row| ==> row[j] <= row[k]
    ensures forall j :: 0 <= j < k ==> row[j] < row[k]
    decreases |row|
  {
    if |row| == 1 then 0
    else
      var k := ArgMax(row[..|row| - 1]);
      if row[|row| - 1] > row[k] then |row| - 1 else k
  }

  /**
   * `last_token_idx`: an error exactly when the logits are not of rank 3,
   * otherwise the position of the first maximum in row [0, last, ..].
   */
  function LastTokenIdx(logits: Tensor): (r: Result<nat, Failure>)
    requires Indexable(logits)
    ensures r.Err? <==> |logits.shape| != 3
    ensures r.Err? ==> r.error == DecodeError(RankMessage)
    ensures r.Ok? ==> r.value < logits.shape[2]
    ensures r.Ok? ==> forall k :: 0 <= k < |LastRow(logits)| ==> LastRow(logits)[k] <= LastRow(logits)[r.value]
    ensures r.Ok? ==> forall k :: 0 <= k < r.value ==> LastRow(logits)[k] < LastRow(logits)[r.value]
  {
    if |logits.shape| != 3 then Err(DecodeError(RankMessage))
    else Ok(ArgMax(LastRow(logits)))
  }

  // ---------------------------------------------------------------------------
  // The decoder
  // ---------------------------------------------------------------------------

  /** The start token every decoded sequence begins with. */
  const StartToken: int := 2

  /** The step bound `OCRModel::run` passes to `decode`. */
  const MaxTokens: nat := 300

  /**
   * One decoder session call from the encoder's hidden states and the ids so
   * far to the logits, with tensor creation and extraction folded in.
   */
  type Session = (Tensor, seq<int>) -> Result<Tensor, Failure>

  /** The session never hands `last_token_idx` an array it would panic on. */
  ghost predicate ShapesIndexable(session: Session)
  {
    forall hidden, ids :: session(hidden, ids).Ok? ==> Indexable(session(hidden, ids).value)
  }

  /** The token one decoding step appends, or the error that aborts the decode. */
  function NextToken(session: Session, hidden: Tensor, ids: seq<int>): (r: Result<int, Failure>)
    requires ShapesIndexable(session)
  {
    match session(hidden, ids)
    case Err(e) => Err(e)
    case Ok(logits) =>
      match LastTokenIdx(logits)
      case Err(e) => Err(e)
      case Ok(idx) => Ok(idx)
  }

  /** The next token as a function of the sequence so far, or the error that aborts decoding. */
  type Chooser = seq<int> -> Result<int, Failure>

  /** The greedy choice of a session with fixed hidden states. */
  function GreedyChoice(session: Session, hidden: Tensor): Chooser
    requires ShapesIndexable(session)
  {
    (ids: seq<int>) => NextToken(session, hidden, ids)
  }

  /** The decoder's configuration: the window size K and the end-token ids. */
  datatype Decoder = Decoder(maxEndTokenRepeats: nat, endTokenIds: seq<int>)
  {
    /** How many tokens of `window` are end tokens. */
    function EndCount(window: seq<int>): (n: nat)
      ensures n <= |window|
      ensures n == |window| <==> forall i :: 0 <= i < |window| ==> window[i] in endTokenIds
      decreases |window|
    {
      if window == [] then 0
      else EndCount(window[..|window| - 1]) + (if window[|window| - 1] in endTokenIds then 1 else 0)
    }

    /** The stopping rule: at least K of the last K tokens are end tokens. */
    predicate ShouldStop(tokens: seq<int>)
    {
      |tokens| >= maxEndTokenRepeats &&
      EndCount(tokens[|tokens| - maxEndTokenRepeats..]) >= maxEndTokenRepeats
    }

    /** The stopping rule holds exactly when the sequence is long enough and its last K tokens are all end tokens. */
    lemma ShouldStopIffAllEnd(tokens: seq<int>)
      ensures ShouldStop(tokens) <==>
        |tokens| >= maxEndTokenRepeats &&
        forall i :: |tokens| - maxEndTokenRepeats <= i < |tokens| ==> tokens[i] in endTokenIds
      ensures |tokens| < maxEndTokenRepeats ==> !ShouldStop(tokens)
      ensures maxEndTokenRepeats == 0 ==> ShouldStop(tokens)
    {
      if |tokens| >= maxEndTokenRepeats {
        var start := |tokens| - maxEndTokenRepeats;
        var window := tokens[start..];
        assert forall i :: start <= i < |tokens| ==> tokens[i] == window[i - start];
        if forall i :: start <= i < |tokens| ==> tokens[i] in endTokenIds {
          assert forall j :: 0 <= j < |window| ==> window[j] == tokens[j + start];
        }
      }
    }

    /** `stop_decoding`: counts the end tokens among the last K (src/model.rs:207-221). */
    method StopDecoding(tokens: seq<int>) returns (stop: bool)
      ensures stop == ShouldStop(tokens)
      ensures |tokens| < maxEndTokenRepeats ==> !stop
      ensures stop <==>
        |tokens| >= maxEndTokenRepeats &&
        forall i :: |tokens| - maxEndTokenRepeats <= i < |tokens| ==> tokens[i] in endTokenIds
    {
      if |tokens| < maxEndTokenRepeats {
        ShouldStopIffAllEnd(tokens);
        return false;
      }
      var start := |tokens| - maxEndTokenRepeats;
      var count := 0;
      var i := start;
      while i < |tokens|
        invariant start <= i <= |tokens|
        invariant count == EndCount(tokens[start..i])
      {
        assert tokens[start..i + 1][..i - start] == tokens[start..i];
        if tokens[i] in endTokenIds {
          count := count + 1;
        }
        i := i + 1;
      }
      assert i == |tokens|;
      assert tokens[start..i] == tokens[start..];
      stop := count >= maxEndTokenRepeats;
      ShouldStopIffAllEnd(tokens);
    }

    /**
     * The decoding loop as a recursion: at most `steps` more steps from `ids`,
     * each appending the chosen token and ending once the stopping rule holds;
     * a failed choice aborts.
     */
    function Greedy(choose: Chooser, ids: seq<int>, steps: nat): Result<seq<int>, Failure>
      decreases steps
    {
      if steps == 0 then Ok(ids)
      else
        match choose(ids)
        case Err(e) => Err(e)
        case Ok(t) =>
          if ShouldStop(ids + [t]) then Ok(ids + [t])
          else Greedy(choose, ids + [t], steps - 1)
    }

    /** Decoding only appends: the result extends `ids` by between one and `steps` tokens. */
    lemma {:induction false} GreedyExtends(choose: Chooser, ids: seq<int>, steps: nat)
      requires Greedy(choose, ids, steps).Ok?
      ensures |ids| <= |Greedy(choose, ids, steps).value| <= |ids| + steps
      ensures Greedy(choose, ids, steps).value[..|ids|] == ids
      ensures steps > 0 ==> |Greedy(choose, ids, steps).value| > |ids|
      decreases steps
    {
      if steps > 0 {
        var t := choose(ids).value;
        if !ShouldStop(ids + [t]) {
          GreedyExtends(choose, ids + [t], steps - 1);
          var out := Greedy(choose, ids, steps).value;
          assert out[..|ids|] == out[..|ids| + 1][..|ids|];
        }
      }
    }

    /** Each appended token is the choice on the sequence before it. */
    lemma {:induction false} GreedyFollowsChoice(choose: Chooser, ids: seq<int>, steps: nat)
      requires Greedy(choose, ids, steps).Ok?
      ensures var out := Greedy(choose, ids, steps).value;
        forall j :: |ids| <= j < |out| ==> choose(out[..j]) == Ok(out[j])
      decreases steps
    {
      if steps > 0 {
        var t := choose(ids).value;
        var next := ids + [t];
        var out := Greedy(choose, ids, steps).value;
        if !ShouldStop(next) {
          assert out == Greedy(choose, next, steps - 1).value;
          GreedyFollowsChoice(choose, next, steps - 1);
          GreedyExtends(choose, next, steps - 1);
        } else {
          assert out == next;
        }
        assert out[..|ids| + 1] == next;
        forall j | |ids| <= j < |out|
          ensures choose(out[..j]) == Ok(out[j])
        {
          if j == |ids| {
            assert out[..j] == ids;
          }
        }
      }
    }

    /**
     * The loop stops at the first stopping point: the rule fails on every
     * shorter sequence produced on the way, and holds on the result unless
     * the step bound was reached.
     */
    lemma {:induction false} GreedyStopsFirst(choose: Chooser, ids: seq<int>, steps: nat)
      requires Greedy(choose, ids, steps).Ok?
      ensures var out := Greedy(choose, ids, steps).value;
        (|out| < |ids| + steps ==> ShouldStop(out)) &&
        (forall j :: |ids| < j < |out| ==> !ShouldStop(out[..j]))
      decreases steps
    {
      if steps > 0 {
        var t := choose(ids).value;
        if !ShouldStop(ids + [t]) {
          GreedyStopsFirst(choose, ids + [t], steps - 1);
          GreedyExtends(choose, ids + [t], steps - 1);
          var out := Greedy(choose, ids, steps).value;
          assert out[..|ids| + 1] == ids + [t];
        }
      }
    }

    /**
     * The converse: a sequence that extends `ids` by the choices made on it,
     * passes no earlier stopping point and ends at a stopping point or at the
     * bound is the one decoding returns.
     */
    lemma {:induction false} GreedyCharacterised(choose: Chooser, ids: seq<int>, steps: nat, out: seq<int>)
      requires |ids| <= |out| <= |ids| + steps && out[..|ids|] == ids
      requires forall j :: |ids| <= j < |out| ==> choose(out[..j]) == Ok(out[j])
      requires forall j :: |ids| < j < |out| ==> !ShouldStop(out[..j])
      requires |out| == |ids| + steps || (|out| > |ids| && ShouldStop(out))
      ensures Greedy(choose, ids, steps) == Ok(out)
      decreases steps
    {
      if steps == 0 {
        assert out == out[..|ids|];
      } else {
        var n := |ids|;
        assert out[..n] == ids;
        var t := out[n];
        assert choose(ids) == Ok(t);
        var next := ids + [t];
        assert out[..n + 1] == next;
        if |out| == n + 1 {
          assert out == next;
        } else {
          assert !ShouldStop(next);
          forall j | |next| <= j < |out|
            ensures choose(out[..j]) == Ok(out[j])
          {
          }
          GreedyCharacterised(choose, next, steps - 1, out);
        }
      }
    }

    /**
     * `decode` (src/model.rs:223-241): start from the literal token 2, append
     * the greedy choice for up to `maxTokens` steps, stop early as soon as the
     * stopping rule holds; any session or shape failure aborts the decode.
     */
    method Decode(session: Session, hidden: Tensor, maxTokens: nat) returns (r: Result<seq<int>, Failure>)
      requires ShapesIndexable(session)
      ensures r == Greedy(GreedyChoice(session, hidden), [StartToken], maxTokens)
      ensures r.Ok? ==> 1 <= |r.value| <= maxTokens + 1 && r.value[0] == StartToken
      ensures r.Ok? ==> (!ShouldStop(r.value) ==> |r.value| == maxTokens + 1)
      ensures r.Ok? ==> forall j :: 1 < j < |r.value| ==> !ShouldStop(r.value[..j])
      ensures r.Ok? ==> forall j :: 1 <= j < |r.value| ==> NextToken(session, hidden, r.value[..j]) == Ok(r.value[j])
    {
      ghost var choose := GreedyChoice(session, hidden);
      var ids := [StartToken];
      var step := 0;
      while step < maxTokens
        invariant step <= maxTokens
        invariant Greedy(choose, [StartToken], maxTokens) == Greedy(choose, ids, maxTokens - step)
      {
        var next := NextToken(session, hidden, ids);
        assert next == choose(ids);
        if next.Err? {
          return Err(next.error);
        }
        ids := ids + [next.value];
        var stop := StopDecoding(ids);
        if stop {
          break;
        }
        step := step + 1;
      }
      r := Ok(ids);
      DecodedFromStart(session, hidden, maxTokens);
    }

    /** What a successful decoding from [2] consists of, in terms of the session's choices. */
    lemma DecodedFromStart(session: Session, hidden: Tensor, maxTokens: nat)
      requires ShapesIndexable(session)
      ensures var r := Greedy(GreedyChoice(session, hidden), [StartToken], maxTokens);
        r.Ok? ==>
          1 <= |r.value| <= maxTokens + 1 && r.value[0] == StartToken &&
          (!ShouldStop(r.value) ==> |r.value| == maxTokens + 1) &&
          (forall j :: 1 < j < |r.value| ==> !ShouldStop(r.value[..j])) &&
          (forall j :: 1 <= j < |r.value| ==> NextToken(session, hidden, r.value[..j]) == Ok(r.value[j]))
    {
      var choose := GreedyChoice(session, hidden);
      var r := Greedy(choose, [StartToken], maxTokens);
      if r.Ok? {
        var out := r.value;
        GreedyExtends(choose, [StartToken], maxTokens);
        assert out[0] == out[..1][0];
        GreedyStopsFirst(choose, [StartToken], maxTokens);
        GreedyFollowsChoice(choose, [StartToken], maxTokens);
        forall j | 1 <= j < |out|
          ensures NextToken(session, hidden, out[..j]) == Ok(out[j])
        {
          assert choose(out[..j]) == Ok(out[j]);
        }
      }
    }

    /**
     * A choice that is always the end token `e` (logits peaking at `e`), with
     * K = 3 and a start token that is not an end token, decodes to [2, e, e, e].
     */
    lemma AllEndTokensStopAfterThree(choose: Chooser, e: int, steps: nat)
      requires maxEndTokenRepeats == 3 && e in endTokenIds && StartToken !in endTokenIds
      requires forall ids :: choose(ids) == Ok(e)
      requires steps >= 3
      ensures Greedy(choose, [StartToken], steps) == Ok([StartToken, e, e, e])
    {
      var s1, s2, s3 := [StartToken, e], [StartToken, e, e], [StartToken, e, e, e];
      ShouldStopIffAllEnd(s1);
      ShouldStopIffAllEnd(s2);
      assert s2[0] !in endTokenIds;
      ShouldStopIffAllEnd(s3);
      assert [StartToken] + [e] == s1 && s1 + [e] == s2 && s2 + [e] == s3;
      assert Greedy(choose, s2, steps - 2) == Ok(s3);
      assert Greedy(choose, s1, steps - 1) == Ok(s3);
    }

    /** With K >= 1, choices that never fail and are never end tokens run to the step bound. */
    lemma {:induction false} NoEndTokenRunsToBound(choose: Chooser, ids: seq<int>, steps: nat)
      requires maxEndTokenRepeats >= 1
      requires forall s :: choose(s).Ok? && choose(s).value !in endTokenIds
      ensures Greedy(choose, ids, steps).Ok?
      ensures |Greedy(choose, ids, steps).value| == |ids| + steps
      decreases steps
    {
      if steps > 0 {
        var t := choose(ids).value;
        var next := ids + [t];
        ShouldStopIffAllEnd(next);
        assert next[|next| - 1] == t;
        NoEndTokenRunsToBound(choose, next, steps - 1);
      }
    }
  }

  // ---------------------------------------------------------------------------
  // ModelDir::new: locating the three artifacts
  // ---------------------------------------------------------------------------

  /** A path as its sequence of components. */
  type Path = seq<string>

  const EncoderName: string := "encoder_model.onnx"
  const DecoderName: string := "decoder_model.onnx"
  const TokenizerName: string := "tokenizer.json"
  const MissingMessage: string := "Missing encoder, decoder, or tokenizer model"
  const DetokenizeMessage: string := "Failed to decode"

  /** `Path::ends_with` for a one-component name: the last component is the name. */
  predicate EndsWith(p: Path, name: string)
  {
    |p| > 0 && p[|p| - 1] == name
  }

  /** No path of the list ends in `name`. */
  predicate Missing(paths: seq<Path>, name: string)
  {
    forall i :: 0 <= i < |paths| ==> !EndsWith(paths[i], name)
  }

  /** The last path of the list that ends in `name`, if any. */
  function LastEndingIn(paths: seq<Path>, name: string): Option<Path>
    decreases |paths|
  {
    if paths == [] then None
    else if EndsWith(paths[|paths| - 1], name) then Some(paths[|paths| - 1])
    else LastEndingIn(paths[..|paths| - 1], name)
  }

  /** A path is found exactly when one ends in the name, and what is found ends in it and is in the list. */
  lemma {:induction false} LastEndingInFinds(paths: seq<Path>, name: string)
    ensures LastEndingIn(paths, name).None? <==> Missing(paths, name)
    ensures LastEndingIn(paths, name).Some? ==>
      EndsWith(LastEndingIn(paths, name).value, name) && LastEndingIn(paths, name).value in paths
    decreases |paths|
  {
    if paths != [] {
      var init := paths[..|paths| - 1];
      LastEndingInFinds(init, name);
      assert forall i :: 0 <= i < |init| ==> init[i] == paths[i];
    }
  }

  /** The last match wins: a path ending in the name with no later match is the one found. */
  lemma {:induction false} LastEndingInLastWins(paths: seq<Path>, name: string, i: nat)
    requires i < |paths| && EndsWith(paths[i], name)
    requires forall j :: i < j < |paths| ==> !EndsWith(paths[j], name)
    ensures LastEndingIn(paths, name) == Some(paths[i])
    decreases |paths|
  {
    if i < |paths| - 1 {
      var init := paths[..|paths| - 1];
      LastEndingInLastWins(init, name, i);
    }
  }

  /** The three artifact locations of a model. */
  datatype ModelDir = ModelDir(encoderPath: Path, decoderPath: Path, tokenizerConfigPath: Path)
  {
    /**
     * `ModelDir::new` (src/model.rs:42-70): one pass over the paths keeping the
     * last one ending in each artifact name; an error when any is missing.
     */
    static method New(paths: seq<Path>) returns (r: Result<ModelDir, Failure>)
      ensures r.Err? <==>
        Missing(paths, EncoderName) || Missing(paths, DecoderName) || Missing(paths, TokenizerName)
      ensures r.Err? ==> r.error == Message(MissingMessage)
      ensures r.Ok? ==>
        Some(r.value.encoderPath) == LastEndingIn(paths, EncoderName) &&
        Some(r.value.decoderPath) == LastEndingIn(paths, DecoderName) &&
        Some(r.value.tokenizerConfigPath) == LastEndingIn(paths, TokenizerName)
      ensures r.Ok? ==>
        EndsWith(r.value.encoderPath, EncoderName) &&
        EndsWith(r.value.decoderPath, DecoderName) &&
        EndsWith(r.value.tokenizerConfigPath, TokenizerName)
    {
      var encoderPath: Option<Path> := None;
      var decoderPath: Option<Path> := None;
      var tokenizerConfigPath: Option<Path> := None;
      var i := 0;
      while i < |paths|
        invariant i <= |paths|
        invariant encoderPath == LastEndingIn(paths[..i], EncoderName)
        invariant decoderPath == LastEndingIn(paths[..i], DecoderName)
        invariant tokenizerConfigPath == LastEndingIn(paths[..i], TokenizerName)
      {
        var p := paths[i];
        assert paths[..i + 1][..i] == paths[..i];
        if EndsWith(p, EncoderName) {
          encoderPath := Some(p);
        }
        if EndsWith(p, DecoderName) {
          decoderPath := Some(p);
        }
        if EndsWith(p, TokenizerName) {
          tokenizerConfigPath := Some(p);
        }
        i := i + 1;
      }
      assert paths[..i] == paths;
      LastEndingInFinds(paths, EncoderName);
      LastEndingInFinds(paths, DecoderName);
      LastEndingInFinds(paths, TokenizerName);
      if encoderPath.None? || decoderPath.None? || tokenizerConfigPath.None? {
        return Err(Message(MissingMessage));
      }
      r := Ok(ModelDir(encoderPath.value, decoderPath.value, tokenizerConfigPath.value));
    }
  }

  // ---------------------------------------------------------------------------
  // OCRModel::run: encode, decode, detokenise, strip spaces
  // ---------------------------------------------------------------------------

  /** `replace(" ", "")`: the text with every U+0020 removed. */
  function StripSpaces(s: string): (r: string)
    ensures ' ' !in r
    ensures forall c :: c != ' ' ==> multiset(r)[c] == multiset(s)[c]
    decreases |s|
  {
    if s == [] then []
    else
      assert s == [s[0]] + s[1..];
      (if s[0] == ' ' then [] else [s[0]]) + StripSpaces(s[1..])
  }

  /** Stripping works piecewise, so the characters kept stay in their order. */
  lemma {:induction false} StripSpacesConcat(a: string, b: string)
    ensures StripSpaces(a + b) == StripSpaces(a) + StripSpaces(b)
    decreases |a|
  {
    if a == [] {
      assert a + b == b;
    } else {
      assert (a + b)[0] == a[0];
      assert (a + b)[1..] == a[1..] + b;
      StripSpacesConcat(a[1..], b);
    }
  }

  /** A text without spaces is left as it is; in particular stripping is idempotent. */
  lemma {:induction false} StripSpacesKeepsSpaceFree(s: string)
    requires ' ' !in s
    ensures StripSpaces(s) == s
    decreases |s|
  {
    if s != [] {
      StripSpacesKeepsSpaceFree(s[1..]);
    }
  }

  /** `*i as u32`: the low 32 bits of a token id. */
  function AsU32(i: int): (r: u32)
    ensures 0 <= i < 0x1_0000_0000 ==> r == i
    ensures (r - i) % 0x1_0000_0000 == 0
  {
    i % 0x1_0000_0000
  }

  function AsU32s(ids: seq<int>): (r: seq<u32>)
    ensures |r| == |ids| && forall k :: 0 <= k < |ids| ==> r[k] == AsU32(ids[k])
  {
    seq(|ids|, (k: int) requires 0 <= k < |ids| => AsU32(ids[k]))
  }

  /**
   * An OCR model: the encoder stage (resize, channel layout, normalisation and
   * session) as an oracle, the decoder with its session, and the tokenizer's
   * `decode(ids, true)` as an oracle.
   */
  datatype OcrModel<!Image> = OcrModel(
    encode: Image -> Result<Tensor, Failure>,
    decoder: Decoder,
    session: Session,
    detokenize: seq<u32> -> Option<string>)
  {
    /**
     * `OCRModel::run` (src/model.rs:111-123): any stage's failure is the run's
     * failure; otherwise the detokenised greedy decoding of at most 300 steps,
     * with every space removed.
     */
    method Run(img: Image) returns (r: Result<string, Failure>)
      requires ShapesIndexable(session)
      ensures encode(img).Err? ==> r == Err(encode(img).error)
      ensures encode(img).Ok? ==>
        var dec := decoder.Greedy(GreedyChoice(session, encode(img).value), [StartToken], MaxTokens);
        (dec.Err? ==> r == Err(dec.error)) &&
        (dec.Ok? ==> r == match detokenize(AsU32s(dec.value))
                          case None => Err(Message(DetokenizeMessage))
                          case Some(text) => Ok(StripSpaces(text)))
      ensures r.Ok? ==> ' ' !in r.value
    {
      var out := encode(img);
      if out.Err? {
        return Err(out.error);
      }
      var decOut := decoder.Decode(session, out.value, MaxTokens);
      if decOut.Err? {
        return Err(decOut.error);
      }
      var decoded := detokenize(AsU32s(decOut.value));
      if decoded.None? {
        return Err(Message(DetokenizeMessage));
      }
      r := Ok(StripSpaces(decoded.value));
    }
  }
}
