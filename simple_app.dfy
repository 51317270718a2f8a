/**
 * simple_app.py: an upload endpoint that takes the first of the parts sent as
 * `files`, has no allow-list, and composes the border inline.
 */
module SimpleApp {
  import opened Transform
  import opened Http

  /** `upload_file`: two guard returns over the upload list, then the processing `try` block. */
  function UploadFile(request: Request, codec: Codec, secureFilename: string -> string): (r: Response)
    ensures r.JsonError? ==> r.status == 400 || r.status == 500
    ensures r.SendFile? || (r.JsonError? && r.status == 500) ==>
              GetList(request.files, "files") != [] && GetList(request.files, "files")[0].filename != ""
  {
    var files := GetList(request.files, "files");
    if files == [] then JsonError(400, "No files uploaded")
    else
      var file := files[0];
      if file.filename == "" then JsonError(400, "No selected file")
      else Respond(file.filename, Encoded(file.stream, codec, true), secureFilename)
  }

  /** An upload with no `files` part is refused with 400 before anything is decoded. */
  lemma NoFiles(request: Request, codec: Codec, secureFilename: string -> string)
    ensures UploadFile(request, codec, secureFilename) == JsonError(400, "No files uploaded") <==>
            forall i :: 0 <= i < |request.files| ==> request.files[i].0 != "files"
  {
  }

  /** Only the first uploaded file counts: parts sent after it never change the response. */
  lemma FirstFileOnly(request: Request, more: seq<(string, FileStorage)>, codec: Codec, secureFilename: string -> string)
    requires Contains(request, "files")
    ensures UploadFile(Request(request.files + more), codec, secureFilename) == UploadFile(request, codec, secureFilename)
  {
    GetListAppend(request.files, more, "files");
  }

  /**
   * There is no allow-list: a first file with a non-empty name is always
   * decoded, so the response is a download or a 500, never a 400; the download
   * is named `processed_` + the sanitised name.
   */
  lemma NoAllowList(request: Request, codec: Codec, secureFilename: string -> string)
    requires Contains(request, "files") && Get(request, "files").filename != ""
    ensures var r := UploadFile(request, codec, secureFilename);
      (r.SendFile? <==> Encoded(Get(request, "files").stream, codec, true).Success?) &&
      (r.SendFile? ==> r.downloadName == ProcessedPrefix + secureFilename(Get(request, "files").filename) &&
                       r.body == Encoded(Get(request, "files").stream, codec, true).value) &&
      (r.JsonError? ==> r == JsonError(500, Encoded(Get(request, "files").stream, codec, true).error))
  {
  }

  /** An empty first file name is refused with 400 whatever follows it. */
  lemma EmptyFirstName(request: Request, codec: Codec, secureFilename: string -> string)
    requires Contains(request, "files") && Get(request, "files").filename == ""
    ensures forall other: Codec :: UploadFile(request, other, secureFilename) == JsonError(400, "No selected file")
  {
  }

  /** A download's image is saved from a 1202 x (`NewHeight` + 2) canvas with the inline border. */
  lemma DownloadLayout(request: Request, codec: Codec, secureFilename: string -> string)
    requires UploadFile(request, codec, secureFilename).SendFile?
    ensures Contains(request, "files")
    ensures var stream := Get(request, "files").stream;
      codec.open(stream).Success? && codec.open(stream).value.width > 0 &&
      var image := codec.open(stream).value;
      var newHeight := NewHeight(image.width, image.height);
      Processed(stream, codec, true).Success? &&
      UploadFile(request, codec, secureFilename).body == codec.save(Processed(stream, codec, true).value, JpegQuality).value &&
      Processed(stream, codec, true).value.width == TargetWidth + 2 &&
      Processed(stream, codec, true).value.height == newHeight + 2 &&
      (ResizeKeepsSize(codec) ==>
         BorderedLayout(Processed(stream, codec, true).value, codec.resize(image, TargetWidth, newHeight).value, newHeight))
  {
    var image := codec.open(Get(request, "files").stream).value;
    ProcessImageInlineLayout(image, codec);
  }
}
