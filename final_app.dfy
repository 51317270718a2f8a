/**
 * final_app.py: a single-file upload endpoint taking the part `files`, with a
 * six-extension allow-list (`gif` included) and the border composed inline.
 */
module FinalApp {
  import opened Strings
  import opened Transform
  import opened Http
  import Extensions

  const AllowedExtensions: set<string> := {"png", "jpg", "jpeg", "gif", "webp", "tiff"}

  predicate AllowedFile(filename: string)
    ensures AllowedFile(filename) <==>
            exists i: nat, ext :: ext in AllowedExtensions && Extensions.LastExtensionIs(filename, i, ext)
  {
    Extensions.AllowedFileIff(filename, AllowedExtensions);
    Extensions.AllowedFile(filename, AllowedExtensions)
  }

  /** `upload_file`: three guard returns, then the processing `try` block. */
  function UploadFile(request: Request, codec: Codec, secureFilename: string -> string): (r: Response)
    ensures r.JsonError? ==> r.status == 400 || r.status == 500
    ensures r.SendFile? || (r.JsonError? && r.status == 500) ==>
              Contains(request, "files") && AllowedFile(Get(request, "files").filename)
  {
    if !Contains(request, "files") then JsonError(400, "No file part")
    else
      var file := Get(request, "files");
      if file.filename == "" then JsonError(400, "No selected file")
      else if !AllowedFile(file.filename) then JsonError(400, "Invalid file type")
      else Respond(file.filename, Encoded(file.stream, codec, true), secureFilename)
  }

  /** `x.GIF` is accepted here. */
  lemma AcceptsGif()
    ensures AllowedFile("x.GIF")
  {
    assert Lower("GIF") == "gif" by { assert Lower("IF") == "if"; }
    assert "gif" in AllowedExtensions;
    Extensions.LastExtensionDecides("x", "GIF", AllowedExtensions);
    assert "x" + "." + "GIF" == "x.GIF";
  }

  /**
   * The guards in their order: a missing `files` part first, then an empty
   * name, then a refused type; none of them depends on the codec.
   */
  lemma GuardOrder(request: Request, codec: Codec, secureFilename: string -> string)
    ensures !Contains(request, "files") ==> UploadFile(request, codec, secureFilename) == JsonError(400, "No file part")
    ensures Contains(request, "files") && Get(request, "files").filename == "" ==>
              UploadFile(request, codec, secureFilename) == JsonError(400, "No selected file")
    ensures Contains(request, "files") && Get(request, "files").filename != "" && !AllowedFile(Get(request, "files").filename) ==>
              UploadFile(request, codec, secureFilename) == JsonError(400, "Invalid file type")
    ensures UploadFile(request, codec, secureFilename).JsonError? && UploadFile(request, codec, secureFilename).status == 400 ==>
              forall other: Codec :: UploadFile(request, other, secureFilename) == UploadFile(request, codec, secureFilename)
  {
  }

  /**
   * A download is sent exactly when every guard passes and processing raises
   * nothing, named `processed_` + the sanitised name; a processing failure
   * gives 500 with its message.
   */
  lemma Outcome(request: Request, codec: Codec, secureFilename: string -> string)
    ensures var r := UploadFile(request, codec, secureFilename);
      r.SendFile? <==>
        (Contains(request, "files") && Get(request, "files").filename != "" && AllowedFile(Get(request, "files").filename) &&
         Encoded(Get(request, "files").stream, codec, true).Success?)
    ensures var r := UploadFile(request, codec, secureFilename);
      r.SendFile? ==>
        r.mimetype == "image/jpeg" &&
        r.downloadName == ProcessedPrefix + secureFilename(Get(request, "files").filename) &&
        r.body == Encoded(Get(request, "files").stream, codec, true).value
    ensures var r := UploadFile(request, codec, secureFilename);
      r.JsonError? && r.status == 500 <==>
        (Contains(request, "files") && Get(request, "files").filename != "" && AllowedFile(Get(request, "files").filename) &&
         Encoded(Get(request, "files").stream, codec, true).Failure?)
    ensures var r := UploadFile(request, codec, secureFilename);
      r.JsonError? && r.status == 500 ==> r.error == Encoded(Get(request, "files").stream, codec, true).error
  {
  }

  /**
   * The image a download carries is saved from a 1202 x (`NewHeight` + 2)
   * canvas whatever the resampler returns; it is black around the resampled
   * upload when the resampler returns the size it is asked for.
   */
  lemma DownloadLayout(request: Request, codec: Codec, secureFilename: string -> string)
    requires UploadFile(request, codec, secureFilename).SendFile?
    ensures Contains(request, "files")
    ensures var stream := Get(request, "files").stream;
      codec.open(stream).Success? && codec.open(stream).value.width > 0 &&
      var image := codec.open(stream).value;
      var newHeight := NewHeight(image.width, image.height);
      Processed(stream, codec, true).Success? &&
      UploadFile(request, codec, secureFilename).body == codec.save(Processed(stream, codec, true).value, JpegQuality).value &&
      Processed(stream, codec, true).value.width == TargetWidth + 2 &&
      Processed(stream, codec, true).value.height == newHeight + 2 &&
      (ResizeKeepsSize(codec) ==>
         BorderedLayout(Processed(stream, codec, true).value, codec.resize(image, TargetWidth, newHeight).value, newHeight))
  {
    var image := codec.open(Get(request, "files").stream).value;
    ProcessImageInlineLayout(image, codec);
  }
}
