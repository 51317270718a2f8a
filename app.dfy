/**
 * app.py: a single-file upload endpoint taking the part `file`, with a
 * five-extension allow-list and `add_border` after the resize.
 */
module App {
  import opened Transform
  import opened Http
  import opened Strings
  import Extensions

  const AllowedExtensions: set<string> := {"png", "jpg", "jpeg", "webp", "tiff"}

  predicate AllowedFile(filename: string)
    ensures AllowedFile(filename) <==>
            exists i: nat, ext :: ext in AllowedExtensions && Extensions.LastExtensionIs(filename, i, ext)
  {
    Extensions.AllowedFileIff(filename, AllowedExtensions);
    Extensions.AllowedFile(filename, AllowedExtensions)
  }

  /** `upload_file`: an ordered chain of early returns ending in the processing `try` block. */
  function UploadFile(request: Request, codec: Codec, secureFilename: string -> string): (r: Response)
    ensures r.JsonError? ==> r.status == 400 || r.status == 500
    ensures r.SendFile? || (r.JsonError? && r.status == 500) ==>
              Contains(request, "file") && AllowedFile(Get(request, "file").filename)
  {
    if !Contains(request, "file") then JsonError(400, "No file part")
    else
      var file := Get(request, "file");
      if file.filename == "" then JsonError(400, "No selected file")
      else if Truthy(file) && AllowedFile(file.filename) then
        Respond(file.filename, Encoded(file.stream, codec, false), secureFilename)
      else JsonError(400, "Invalid file type")
  }

  /**
   * `if file` is werkzeug's `bool(file.filename)`: once the empty-name guard
   * has passed it always holds, so `allowed_file` alone decides.
   */
  lemma FileTestRedundant(request: Request)
    requires Contains(request, "file") && Get(request, "file").filename != ""
    ensures Truthy(Get(request, "file"))
  {
  }

  /** A name without a dot is refused. */
  lemma RejectsNoDot()
    ensures !AllowedFile("photo")
  {
    Extensions.NoDotRejected("photo", AllowedExtensions);
  }

  /** A name ending in a bare dot has the empty extension, which is refused. */
  lemma RejectsBareDot()
    ensures !AllowedFile("photo.")
  {
    assert "photo" + "." + "" == "photo.";
    Extensions.LastExtensionDecides("photo", "", AllowedExtensions);
  }

  /** Only the last extension counts: `x.png.exe` is refused... */
  lemma RejectsDoubleExtension()
    ensures !AllowedFile("x.png.exe")
  {
    assert Lower("exe") == "exe" by { assert Lower("xe") == "xe"; }
    assert "exe" !in AllowedExtensions;
    Extensions.LastExtensionDecides("x.png", "exe", AllowedExtensions);
    assert "x.png" + "." + "exe" == "x.png.exe";
  }

  /** ...and `a.b.Jpeg` is accepted. */
  lemma AcceptsDottedStem()
    ensures AllowedFile("a.b.Jpeg")
  {
    assert "a.b" + "." + "Jpeg" == "a.b.Jpeg";
    assert Lower("Jpeg") == "jpeg" by { assert Lower("peg") == "peg"; }
    Extensions.LastExtensionDecides("a.b", "Jpeg", AllowedExtensions);
  }

  /** The comparison ignores case: `x.PNG` is accepted, `x.GIF` is not. */
  lemma CaseInsensitive()
    ensures AllowedFile("x.PNG")
    ensures !AllowedFile("x.GIF")
  {
    AcceptsUpperPng();
    RejectsUpperGif();
  }

  lemma AcceptsUpperPng()
    ensures Extensions.AllowedFile("x.PNG", AllowedExtensions)
  {
    assert "x" + "." + "PNG" == "x.PNG";
    assert Lower("PNG") == "png" by { assert Lower("NG") == "ng"; }
    Extensions.LastExtensionDecides("x", "PNG", AllowedExtensions);
  }

  lemma RejectsUpperGif()
    ensures !Extensions.AllowedFile("x.GIF", AllowedExtensions)
  {
    assert "x" + "." + "GIF" == "x.GIF";
    assert Lower("GIF") == "gif" by { assert Lower("IF") == "if"; }
    Extensions.LastExtensionDecides("x", "GIF", AllowedExtensions);
  }

  /**
   * The guards in their order: a missing `file` part is reported before
   * anything else, then an empty name, then a refused type; none of the three
   * depends on the codec, so nothing is decoded for them.
   */
  lemma GuardOrder(request: Request, codec: Codec, secureFilename: string -> string)
    ensures !Contains(request, "file") ==> UploadFile(request, codec, secureFilename) == JsonError(400, "No file part")
    ensures Contains(request, "file") && Get(request, "file").filename == "" ==>
              UploadFile(request, codec, secureFilename) == JsonError(400, "No selected file")
    ensures Contains(request, "file") && Get(request, "file").filename != "" && !AllowedFile(Get(request, "file").filename) ==>
              UploadFile(request, codec, secureFilename) == JsonError(400, "Invalid file type")
    ensures UploadFile(request, codec, secureFilename).JsonError? && UploadFile(request, codec, secureFilename).status == 400 ==>
              forall other: Codec :: UploadFile(request, other, secureFilename) == UploadFile(request, codec, secureFilename)
  {
  }

  /**
   * A download is sent exactly when every guard passes and processing raises
   * nothing; it is named `processed_` + the sanitised name and carries the
   * JPEG the codec produced. A failure in processing gives 500 with its message.
   */
  lemma Outcome(request: Request, codec: Codec, secureFilename: string -> string)
    ensures var r := UploadFile(request, codec, secureFilename);
      r.SendFile? <==>
        (Contains(request, "file") && Get(request, "file").filename != "" && AllowedFile(Get(request, "file").filename) &&
         Encoded(Get(request, "file").stream, codec, false).Success?)
    ensures var r := UploadFile(request, codec, secureFilename);
      r.SendFile? ==>
        r.mimetype == "image/jpeg" &&
        r.downloadName == ProcessedPrefix + secureFilename(Get(request, "file").filename) &&
        r.body == Encoded(Get(request, "file").stream, codec, false).value
    ensures var r := UploadFile(request, codec, secureFilename);
      r.JsonError? && r.status == 500 <==>
        (Contains(request, "file") && Get(request, "file").filename != "" && AllowedFile(Get(request, "file").filename) &&
         Encoded(Get(request, "file").stream, codec, false).Failure?)
    ensures var r := UploadFile(request, codec, secureFilename);
      r.JsonError? && r.status == 500 ==> r.error == Encoded(Get(request, "file").stream, codec, false).error
    ensures var r := UploadFile(request, codec, secureFilename);
      r.JsonError? ==> r.status == 400 || r.status == 500
  {
  }

  /**
   * The image a download carries is saved from a 1202 x (`NewHeight` + 2)
   * picture with a black one-pixel ring around the resampled upload, when the
   * resampler returns the size it is asked for.
   */
  lemma DownloadLayout(request: Request, codec: Codec, secureFilename: string -> string)
    requires ResizeKeepsSize(codec)
    requires UploadFile(request, codec, secureFilename).SendFile?
    ensures Contains(request, "file")
    ensures var stream := Get(request, "file").stream;
      codec.open(stream).Success? && codec.open(stream).value.width > 0 &&
      var image := codec.open(stream).value;
      var newHeight := NewHeight(image.width, image.height);
      Processed(stream, codec, false).Success? &&
      UploadFile(request, codec, secureFilename).body == codec.save(Processed(stream, codec, false).value, JpegQuality).value &&
      BorderedLayout(Processed(stream, codec, false).value, codec.resize(image, TargetWidth, newHeight).value, newHeight)
  {
    var image := codec.open(Get(request, "file").stream).value;
    ResizeAndProcessLayout(image, codec);
  }
}
