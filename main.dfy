/**
 * The entry point of src/main.rs: the `--mode` values and the clipboard
 * watcher, which polls the clipboard, detects a new image by the hash of its
 * bytes and runs the OCR pipeline once per change.
 *
 * The clipboard, the hasher, the image conversion and the pipeline are
 * oracles; the infinite polling loop is observed over a finite sequence of
 * clipboard reads, and its visible effects form a sequence of tick outcomes.
 */
module App {
  import opened Wrappers
  import Model

  type u64 = x: int | 0 <= x < 0x1_0000_0000_0000_0000

  // ---------------------------------------------------------------------------
  // Mode
  // ---------------------------------------------------------------------------

  datatype Mode = File | Clipboard

  /** `Display for Mode` (src/main.rs:31-38). */
  function Display(m: Mode): (s: string)
  {
    match m
    case File => "file"
    case Clipboard => "clipboard"
  }

  /**
   * The values `--mode` accepts: the `ValueEnum` derive names each variant by
   * its kebab-case name and matches case-sensitively.
   */
  function ParseMode(s: string): (m: Option<Mode>)
  {
    if s == "file" then Some(File)
    else if s == "clipboard" then Some(Clipboard)
    else None
  }

  /**
   * `default_value_t = Mode::Clipboard` renders the default with `Display`
   * and parses it back: every mode's text parses to that mode, and the texts
   * are exactly the two accepted values.
   */
  lemma DisplayParsesBack(m: Mode, s: string)
    ensures ParseMode(Display(m)) == Some(m)
    ensures ParseMode(s) == Some(m) <==> s == Display(m)
    ensures Display(File) == "file" && Display(Clipboard) == "clipboard"
  {
  }

  // ---------------------------------------------------------------------------
  // The clipboard watcher
  // ---------------------------------------------------------------------------

  /** arboard's `ImageData`: the dimensions and the raw RGBA bytes. */
  datatype ImageData = ImageData(width: nat, height: nat, bytes: seq<Model.byte>)

  /** The result of one `clipboard.get_image()`. */
  datatype ClipboardRead = ReadFailed | Read(image: ImageData)

  /** What one polling tick does, as seen from outside. */
  datatype Outcome =
    | Skipped              // the read failed
    | Unchanged            // same hash as the last image recorded
    | NotConvertible       // a new image that `to_dyn_image` rejected
    | OcrFailed            // the pipeline ran and its error was printed
    | TextCopied(text: string)  // the pipeline ran; its text was printed and offered to the clipboard

  predicate RanPipeline(o: Outcome)
  {
    o.OcrFailed? || o.TextCopied?
  }

  /** The number of ticks that ran the pipeline. */
  function Runs(outcomes: seq<Outcome>): (n: nat)
    ensures n <= |outcomes|
    decreases |outcomes|
  {
    if outcomes == [] then 0
    else (if RanPipeline(outcomes[0]) then 1 else 0) + Runs(outcomes[1..])
  }

  /**
   * The watcher's collaborators: `hash` over the raw bytes, `to_dyn_image` as
   * a partial conversion, and `OCRModel::run` as the pipeline.
   */
  datatype Watcher<!Image> = Watcher(
    hash: seq<Model.byte> -> u64,
    toImage: ImageData -> Option<Image>,
    ocr: Image -> Result<string, Model.Failure>)
  {
    /** The hash recorded before the loop (src/main.rs:78-81). */
    function InitialHash(read: ClipboardRead): (h: Option<u64>)
      ensures h.Some? <==> read.Read?
      ensures read.Read? ==> h == Some(hash(read.image.bytes))
    {
      match read
      case ReadFailed => None
      case Read(img) => Some(hash(img.bytes))
    }

    /** One polling tick from the recorded hash: the new recorded hash and the outcome. */
    function Tick(oldHash: Option<u64>, read: ClipboardRead): (r: (Option<u64>, Outcome))
      ensures read.ReadFailed? ==> r == (oldHash, Skipped)
      ensures read.Read? && oldHash == Some(hash(read.image.bytes)) ==> r == (oldHash, Unchanged)
      ensures read.Read? && oldHash != Some(hash(read.image.bytes)) ==>
        r.0 == Some(hash(read.image.bytes)) && !r.1.Skipped? && !r.1.Unchanged?
      ensures RanPipeline(r.1) ==>
        read.Read? && oldHash != Some(hash(read.image.bytes)) && toImage(read.image).Some?
      ensures r.1.NotConvertible? <==>
        read.Read? && oldHash != Some(hash(read.image.bytes)) && toImage(read.image).None?
      ensures r.1.TextCopied? ==>
        read.Read? && toImage(read.image).Some? && ocr(toImage(read.image).value) == Ok(r.1.text)
      ensures RanPipeline(r.1) ==> (r.1.TextCopied? <==> ocr(toImage(read.image).value).Ok?)
    {
      match read
      case ReadFailed => (oldHash, Skipped)
      case Read(img) =>
        var newHash := hash(img.bytes);
        if oldHash.Some? && newHash == oldHash.value then (oldHash, Unchanged)
        else
          match toImage(img)
          case None => (Some(newHash), NotConvertible)
          case Some(dynImg) =>
            match ocr(dynImg)
            case Ok(text) => (Some(newHash), TextCopied(text))
            case Err(_) => (Some(newHash), OcrFailed)
    }

    /** The recorded hash after a sequence of ticks, and their outcomes. */
    function Poll(oldHash: Option<u64>, ticks: seq<ClipboardRead>): (r: (Option<u64>, seq<Outcome>))
      ensures |r.1| == |ticks|
      decreases |ticks|
    {
      if ticks == [] then (oldHash, [])
      else
        var (h, o) := Tick(oldHash, ticks[0]);
        var (h', os) := Poll(h, ticks[1..]);
        (h', [o] + os)
    }

    /**
     * The clipboard branch of `main` (src/main.rs:76-108), given the read
     * before the loop, `initial`, and one read per tick, `ticks`.
     */
    method Watch(initial: ClipboardRead, ticks: seq<ClipboardRead>)
      returns (oldHash: Option<u64>, outcomes: seq<Outcome>)
      ensures oldHash == Poll(InitialHash(initial), ticks).0
      ensures outcomes == Poll(InitialHash(initial), ticks).1
      ensures |outcomes| == |ticks|
    {
      oldHash := match initial
        case Read(img) => Some(hash(img.bytes))
        case ReadFailed => None;
      outcomes := [];
      var i := 0;
      assert ticks[i..] == ticks;
      assert outcomes + Poll(oldHash, ticks).1 == Poll(oldHash, ticks).1;
      while i < |ticks|
        invariant i <= |ticks|
        invariant Poll(InitialHash(initial), ticks).0 == Poll(oldHash, ticks[i..]).0
        invariant Poll(InitialHash(initial), ticks).1 == outcomes + Poll(oldHash, ticks[i..]).1
      {
        var read := ticks[i];
        ghost var step := Tick(oldHash, read);
        assert ticks[i..][1..] == ticks[i + 1..];
        assert Poll(oldHash, ticks[i..]) ==
          (Poll(step.0, ticks[i + 1..]).0, [step.1] + Poll(step.0, ticks[i + 1..]).1);
        ghost var rest := Poll(step.0, ticks[i + 1..]).1;
        assert outcomes + ([step.1] + rest) == (outcomes + [step.1]) + rest;
        i := i + 1;
        if read.ReadFailed? {
          outcomes := outcomes + [Skipped];
          continue;
        }
        var img := read.image;
        var newHash := hash(img.bytes);
        if oldHash.Some? && newHash == oldHash.value {
          outcomes := outcomes + [Unchanged];
          continue;
        }
        oldHash := Some(newHash);
        var dynImg := toImage(img);
        if dynImg.Some? {
          var text := ocr(dynImg.value);
          match text {
            case Ok(t) =>
              outcomes := outcomes + [TextCopied(t)];
            case Err(_) =>
              outcomes := outcomes + [OcrFailed];
          }
        } else {
          outcomes := outcomes + [NotConvertible];
        }
      }
      assert ticks[i..] == [];
      assert outcomes + [] == outcomes;
    }

    /** Every successful read in `ticks` hashes to `h`. */
    predicate AllHashTo(ticks: seq<ClipboardRead>, h: u64)
    {
      forall i :: 0 <= i < |ticks| && ticks[i].Read? ==> hash(ticks[i].image.bytes) == h
    }

    /** Once the image's hash is recorded, ticks of that image never run the pipeline, and the hash stays. */
    lemma {:induction false} SeenImageNeverRuns(h: u64, ticks: seq<ClipboardRead>)
      requires AllHashTo(ticks, h)
      ensures Runs(Poll(Some(h), ticks).1) == 0
      ensures Poll(Some(h), ticks).0 == Some(h)
      decreases |ticks|
    {
      if ticks != [] {
        assert AllHashTo(ticks[1..], h) by {
          forall i | 0 <= i < |ticks[1..]| && ticks[1..][i].Read?
            ensures hash(ticks[1..][i].image.bytes) == h
          {
            assert ticks[1..][i] == ticks[i + 1];
          }
        }
        SeenImageNeverRuns(h, ticks[1..]);
      }
    }

    /**
     * Over ticks that each fail or read the same image (by hash), the pipeline
     * runs at most once, and not at all when that image's hash is already
     * recorded (for instance by the read before the loop).
     */
    lemma {:induction false} SameImageRunsAtMostOnce(oldHash: Option<u64>, h: u64, ticks: seq<ClipboardRead>)
      requires AllHashTo(ticks, h)
      ensures Runs(Poll(oldHash, ticks).1) <= 1
      ensures oldHash == Some(h) ==> Runs(Poll(oldHash, ticks).1) == 0
      decreases |ticks|
    {
      if oldHash == Some(h) {
        SeenImageNeverRuns(h, ticks);
      } else if ticks != [] {
        assert AllHashTo(ticks[1..], h) by {
          forall i | 0 <= i < |ticks[1..]| && ticks[1..][i].Read?
            ensures hash(ticks[1..][i].image.bytes) == h
          {
            assert ticks[1..][i] == ticks[i + 1];
          }
        }
        var (h1, o) := Tick(oldHash, ticks[0]);
        if ticks[0].ReadFailed? {
          SameImageRunsAtMostOnce(oldHash, h, ticks[1..]);
        } else {
          assert h1 == Some(h);
          SeenImageNeverRuns(h, ticks[1..]);
        }
      }
    }

    /**
     * The same convertible image read on consecutive ticks, new to the
     * watcher, runs the pipeline exactly once: on the first of those ticks.
     */
    lemma {:induction false} NewImageRunsOnce(oldHash: Option<u64>, img: ImageData, ticks: seq<ClipboardRead>)
      requires |ticks| >= 1
      requires forall i :: 0 <= i < |ticks| ==> ticks[i] == Read(img)
      requires oldHash != Some(hash(img.bytes)) && toImage(img).Some?
      ensures Runs(Poll(oldHash, ticks).1) == 1
      ensures RanPipeline(Poll(oldHash, ticks).1[0])
    {
      var h := hash(img.bytes);
      assert AllHashTo(ticks[1..], h) by {
        forall i | 0 <= i < |ticks[1..]| && ticks[1..][i].Read?
          ensures hash(ticks[1..][i].image.bytes) == h
        {
          assert ticks[1..][i] == ticks[i + 1];
        }
      }
      SeenImageNeverRuns(h, ticks[1..]);
    }
  }
}
