/**
 * image_resizer_cli.py: the directory mode. The listing is filtered by a
 * case-insensitive suffix test, each kept name is mapped to an output name
 * with its last extension replaced by `.jpg`, and every kept file is then
 * processed on its own, an error in one being reported and the loop going on.
 * The filesystem is a parameter: `read` gives a path's contents (or the
 * error opening it raises) and the destination directory is a map from path
 * to contents.
 */
module ImageResizerCli {
  import opened Wrappers
  import opened Strings
  import opened Transform

  /** `image_extensions`, the tuple given to `endswith` */
  const ImageExtensions: seq<string> := [".png", ".jpg", ".jpeg", ".webp", ".tiff"]

  /** `f.lower().endswith(image_extensions)` */
  predicate IsImageFile(f: string)
    ensures IsImageFile(f) ==> '.' in f
  {
    ImageNameHasDot(f);
    EndsWithAny(Lower(f), ImageExtensions)
  }

  /** Every accepted suffix starts with a dot, and lowering neither makes nor removes one. */
  lemma ImageNameHasDot(f: string)
    ensures EndsWithAny(Lower(f), ImageExtensions) ==> '.' in f
  {
    if EndsWithAny(Lower(f), ImageExtensions) {
      var k :| 0 <= k < |ImageExtensions| && EndsWith(Lower(f), ImageExtensions[k]);
      var suffix := ImageExtensions[k];
      assert suffix in ImageExtensions;
      assert suffix[0] == '.';
      DottedSuffixHasDot(f, suffix);
    }
  }

  lemma DottedSuffixHasDot(f: string, suffix: string)
    requires suffix != [] && suffix[0] == '.' && EndsWith(Lower(f), suffix)
    ensures '.' in f
  {
    var j := |f| - |suffix|;
    assert Lower(f)[j] == suffix[0];
    LowerKeepsDot(f, j);
  }

  /** `[f for f in os.listdir(input_dir) if f.lower().endswith(image_extensions)]` */
  function ImageFiles(listing: seq<string>): (r: seq<string>)
    ensures |r| <= |listing|
    ensures forall f :: f in r <==> f in listing && IsImageFile(f)
  {
    if listing == [] then []
    else (if IsImageFile(listing[0]) then [listing[0]] else []) + ImageFiles(listing[1..])
  }

  /**
   * `os.path.splitext(p)` (posix): the extension starts at the last dot when
   * that dot comes after the last `/` and some character between them is not
   * a dot; otherwise there is no extension.
   */
  function SplitExt(p: string): (r: (string, string))
    ensures r.0 + r.1 == p
    ensures r.1 == [] || (r.1[0] == '.' && '.' !in r.1[1..] && '/' !in r.1)
  {
    var sepIndex: int := match LastIndexOf(p, '/') case Some(i) => i case None => -1;
    var dotIndex: int := match LastIndexOf(p, '.') case Some(i) => i case None => -1;
    if dotIndex > sepIndex && exists k :: sepIndex < k < dotIndex && p[k] != '.' then
      assert forall j :: dotIndex < j < |p| ==> p[dotIndex..][j - dotIndex] == p[j];
      (p[..dotIndex], p[dotIndex..])
    else
      (p, [])
  }

  /** `os.path.splitext(image_file)[0] + '.jpg'` */
  function OutputName(name: string): (r: string)
    ensures EndsWith(r, ".jpg")
  {
    SplitExt(name).0 + ".jpg"
  }

  /** `os.path.join(a, b)` (posix, two arguments) */
  function Join(a: string, b: string): (r: string)
    ensures EndsWith(r, b)
  {
    if |b| > 0 && b[0] == '/' then b
    else if a == [] || a[|a| - 1] == '/' then a + b
    else a + "/" + b
  }

  /** What one call of `resize_and_process_image` reports, and what it writes. */
  datatype FileOutcome =
    | Succeeded(inputPath: string, outputPath: string, jpeg: Bytes)  // "Successfully processed: ..."
    | Failed(inputPath: string, message: string)                     // "Error processing ...: ..."
  {
    function Input(): string {
      match this
      case Succeeded(i, _, _) => i
      case Failed(i, _) => i
    }
  }

  /**
   * `resize_and_process_image(input_path, output_path)`: every exception of
   * opening, processing or saving is caught and reported.
   */
  function ResizeAndProcessImage(inputPath: string, outputPath: string, read: string -> Result<Bytes, string>, codec: Codec): (r: FileOutcome)
    ensures r.Input() == inputPath
    ensures r.Succeeded? ==> r.outputPath == outputPath
  {
    match read(inputPath)
    case Failure(e) => Failed(inputPath, e)
    case Success(stream) =>
      match Encoded(stream, codec, false)
      case Success(jpeg) => Succeeded(inputPath, outputPath, jpeg)
      case Failure(e) => Failed(inputPath, e)
  }

  /**
   * One file's report names that file; it is a success exactly when reading,
   * processing and saving all succeed, and then carries the JPEG for the output path.
   */
  lemma ResizeAndProcessImageReports(inputPath: string, outputPath: string, read: string -> Result<Bytes, string>, codec: Codec)
    ensures var r := ResizeAndProcessImage(inputPath, outputPath, read, codec);
      r.Input() == inputPath &&
      (r.Succeeded? <==> read(inputPath).Success? && Encoded(read(inputPath).value, codec, false).Success?) &&
      (r.Succeeded? ==> r.outputPath == outputPath && r.jpeg == Encoded(read(inputPath).value, codec, false).value) &&
      (r.Failed? && read(inputPath).Failure? ==> r.message == read(inputPath).error) &&
      (r.Failed? && read(inputPath).Success? ==> r.message == Encoded(read(inputPath).value, codec, false).error)
  {
  }

  /** The attempt `process_directory` makes for one kept name. */
  function Attempt(inputDir: string, outputDir: string, name: string, read: string -> Result<Bytes, string>, codec: Codec): FileOutcome {
    ResizeAndProcessImage(Join(inputDir, name), Join(outputDir, OutputName(name)), read, codec)
  }

  /** The attempt on a kept name reads `input_dir/name` and, on success, writes a `.jpg` path in `output_dir`. */
  lemma AttemptPaths(inputDir: string, outputDir: string, name: string, read: string -> Result<Bytes, string>, codec: Codec)
    ensures Attempt(inputDir, outputDir, name, read, codec).Input() == Join(inputDir, name)
    ensures Attempt(inputDir, outputDir, name, read, codec).Succeeded? ==>
              Attempt(inputDir, outputDir, name, read, codec).outputPath == Join(outputDir, OutputName(name)) &&
              EndsWith(Attempt(inputDir, outputDir, name, read, codec).outputPath, ".jpg")
  {
    OutputPathIsJpg(outputDir, name);
  }

  /** The destination directory after one file: `save` writes the output path only on success. */
  function Write(dest: map<string, Bytes>, outcome: FileOutcome): (r: map<string, Bytes>)
    ensures outcome.Succeeded? ==> outcome.outputPath in r && r[outcome.outputPath] == outcome.jpeg
    ensures forall p :: p in dest && !(outcome.Succeeded? && p == outcome.outputPath) ==> p in r && r[p] == dest[p]
    ensures forall p :: p in r ==> p in dest || (outcome.Succeeded? && p == outcome.outputPath)
  {
    if outcome.Succeeded? then dest[outcome.outputPath := outcome.jpeg] else dest
  }

  /** The destination directory after the reported writes, in order. */
  function Saved(existing: map<string, Bytes>, log: seq<FileOutcome>): (r: map<string, Bytes>)
    ensures existing.Keys <= r.Keys
    ensures forall p :: p in r && p !in existing ==>
              exists j :: 0 <= j < |log| && log[j].Succeeded? && log[j].outputPath == p
  {
    if log == [] then existing
    else Write(Saved(existing, log[..|log| - 1]), log[|log| - 1])
  }

  /**
   * `process_directory(input_dir, output_dir)`: every kept file is attempted
   * exactly once, in listing order, whatever happened to the files before it,
   * and the destination ends up as the writes of the successful attempts.
   */
  method ProcessDirectory(inputDir: string, outputDir: string, listing: seq<string>,
                          read: string -> Result<Bytes, string>, codec: Codec, existing: map<string, Bytes>)
    returns (log: seq<FileOutcome>, written: map<string, Bytes>)
    ensures |log| == |ImageFiles(listing)|
    ensures forall i :: 0 <= i < |log| ==> log[i] == Attempt(inputDir, outputDir, ImageFiles(listing)[i], read, codec)
    ensures written == Saved(existing, log)
  {
    var imageFiles := ImageFiles(listing);
    ghost var attempts := seq(|imageFiles|, k requires 0 <= k < |imageFiles| =>
                                Attempt(inputDir, outputDir, imageFiles[k], read, codec));
    log, written := [], existing;
    for i := 0 to |imageFiles|
      invariant |log| == i
      invariant forall k :: 0 <= k < i ==> log[k] == attempts[k]
      invariant written == Saved(existing, log)
    {
      var outcome := Attempt(inputDir, outputDir, imageFiles[i], read, codec);
      PrefixAppend(log, attempts);
      SavedAppend(existing, log, outcome);
      log := log + [outcome];
      written := Write(written, outcome);
    }
  }

  /** Extending a prefix of `expected` by its next element gives the next prefix. */
  lemma PrefixAppend<T>(log: seq<T>, expected: seq<T>)
    requires |log| < |expected|
    requires forall k :: 0 <= k < |log| ==> log[k] == expected[k]
    ensures forall k :: 0 <= k < |log| + 1 ==> (log + [expected[|log|]])[k] == expected[k]
  {
  }

  lemma SavedAppend(existing: map<string, Bytes>, log: seq<FileOutcome>, outcome: FileOutcome)
    ensures Saved(existing, log + [outcome]) == Write(Saved(existing, log), outcome)
  {
    assert (log + [outcome])[..|log|] == log;
  }

  /** The filter keeps listing order: filtering a concatenation concatenates the filtered parts. */
  lemma {:induction false} ImageFilesAppend(a: seq<string>, b: seq<string>)
    ensures ImageFiles(a + b) == ImageFiles(a) + ImageFiles(b)
  {
    if a == [] {
      assert a + b == b;
    } else {
      assert (a + b)[1..] == a[1..] + b;
      ImageFilesAppend(a[1..], b);
    }
  }

  /** Only the last extension is replaced: `stem.ext` becomes `stem.jpg` when the stem is not all dots. */
  lemma OutputNameReplacesLast(stem: string, ext: string)
    requires '.' !in ext && '/' !in ext && '/' !in stem
    requires exists k :: 0 <= k < |stem| && stem[k] != '.'
    ensures OutputName(stem + "." + ext) == stem + ".jpg"
  {
    var p := stem + "." + ext;
    assert forall j :: |stem| < j < |p| ==> p[j] == ext[j - |stem| - 1];
    assert p[|stem|] == '.';
    assert LastIndexOf(p, '.') == Some(|stem|);
    assert forall j :: 0 <= j < |p| ==> p[j] != '/' by {
      forall j | 0 <= j < |p| ensures p[j] != '/' {
        if j < |stem| { assert p[j] == stem[j]; }
        else if j > |stem| { assert p[j] == ext[j - |stem| - 1]; }
      }
    }
    assert LastIndexOf(p, '/') == None;
    var k :| 0 <= k < |stem| && stem[k] != '.';
    assert p[k] == stem[k];
    assert p[..|stem|] == stem;
  }

  /** A name whose stem is only dots (`.png`, `..jpg`) has no extension: `.png` becomes `.png.jpg`. */
  lemma OutputNameLeadingDots(stem: string, ext: string)
    requires '.' !in ext && '/' !in ext
    requires forall k :: 0 <= k < |stem| ==> stem[k] == '.'
    ensures OutputName(stem + "." + ext) == stem + "." + ext + ".jpg"
  {
    var p := stem + "." + ext;
    assert forall j :: |stem| < j < |p| ==> p[j] == ext[j - |stem| - 1];
    assert p[|stem|] == '.';
    assert LastIndexOf(p, '.') == Some(|stem|);
    assert forall k :: 0 <= k < |stem| ==> p[k] == '.';
  }

  /** `a.b.PNG` becomes `a.b.jpg`. */
  lemma OutputNameDottedStem()
    ensures OutputName("a.b.PNG") == "a.b.jpg"
  {
    assert "a.b"[0] != '.';
    OutputNameReplacesLast("a.b", "PNG");
    assert "a.b" + "." + "PNG" == "a.b.PNG";
    assert "a.b" + ".jpg" == "a.b.jpg";
  }

  /** `.png` is a name without an extension and becomes `.png.jpg`. */
  lemma OutputNameHidden()
    ensures IsImageFile(".png")
    ensures OutputName(".png") == ".png.jpg"
  {
    assert IsImageFile(".png") by {
      assert EndsWith(Lower(".png"), ImageExtensions[0]);
    }
    assert OutputName(".png") == ".png.jpg" by {
      OutputNameLeadingDots("", "png");
      assert "" + "." + "png" == ".png";
      assert ".png" + ".jpg" == ".png.jpg";
    }
  }

  /** Two kept files can share an output name, so the later one's output replaces the earlier one's. */
  lemma OutputNamesCollide()
    ensures IsImageFile("a.png") && IsImageFile("a.jpg")
    ensures OutputName("a.png") == OutputName("a.jpg") == "a.jpg"
  {
    assert EndsWith(Lower("a.png"), ImageExtensions[0]);
    assert EndsWith(Lower("a.jpg"), ImageExtensions[1]);
    assert "a" + "." + "png" == "a.png";
    assert "a" + "." + "jpg" == "a.jpg";
    assert "a"[0] != '.';
    OutputNameReplacesLast("a", "png");
    OutputNameReplacesLast("a", "jpg");
  }

  /**
   * The destination after the batch: a path holds the output of the last
   * successful attempt written to it, and every other path is as it was.
   */
  lemma {:induction false} SavedLast(existing: map<string, Bytes>, log: seq<FileOutcome>, i: nat)
    requires i < |log| && log[i].Succeeded?
    requires forall j :: i < j < |log| && log[j].Succeeded? ==> log[j].outputPath != log[i].outputPath
    ensures log[i].outputPath in Saved(existing, log)
    ensures Saved(existing, log)[log[i].outputPath] == log[i].jpeg
  {
    if i < |log| - 1 {
      SavedLast(existing, log[..|log| - 1], i);
    }
  }

  /** A path no successful attempt writes keeps its previous contents, or stays absent. */
  lemma {:induction false} SavedUntouched(existing: map<string, Bytes>, log: seq<FileOutcome>, path: string)
    requires forall j :: 0 <= j < |log| && log[j].Succeeded? ==> log[j].outputPath != path
    ensures path in Saved(existing, log) <==> path in existing
    ensures path in existing ==> Saved(existing, log)[path] == existing[path]
  {
    if log != [] {
      SavedUntouched(existing, log[..|log| - 1], path);
    }
  }

  /** Every path the batch writes ends in `.jpg`. */
  lemma OutputPathIsJpg(outputDir: string, name: string)
    ensures EndsWith(Join(outputDir, OutputName(name)), ".jpg")
  {
    var n := OutputName(name);
    var p := Join(outputDir, n);
    assert p[|p| - |n|..] == n;
    assert p[|p| - 4..] == n[|n| - 4..];
  }
}
