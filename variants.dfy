/**
 * How the near-duplicate variants relate: the CLI's suffix filter and app.py's
 * `allowed_file` accept the same names, final_app.py's list differs from
 * app.py's by `gif` alone, and with a size-preserving resampler final_app.py
 * answers every request as app.py does, but for `gif` uploads.
 */
module Variants {
  import opened Strings
  import opened Transform
  import opened Http
  import Extensions
  import App
  import FinalApp
  import ImageResizerCli

  /**
   * With ASCII lowercasing, the CLI keeps a directory entry exactly when
   * app.py's `allowed_file` accepts its name.
   */
  lemma CliFilterIsAllowedFile(name: string)
    ensures ImageResizerCli.IsImageFile(name) <==> App.AllowedFile(name)
  {
    var suffixes := ImageResizerCli.ImageExtensions;
    var exts := ["png", "jpg", "jpeg", "webp", "tiff"];
    assert forall k :: 0 <= k < 5 ==> suffixes[k] == "." + exts[k];
    assert forall k :: 0 <= k < 5 ==> '.' !in exts[k];
    assert forall e :: e in App.AllowedExtensions <==> e in exts;
    forall k | 0 <= k < 5
      ensures EndsWith(Lower(name), suffixes[k]) <==> exists i: nat :: Extensions.LastExtensionIs(name, i, exts[k])
    {
      Extensions.SuffixIsLastExtension(name, exts[k]);
    }
    Extensions.AllowedFileIff(name, App.AllowedExtensions);
    if App.AllowedFile(name) {
      var i: nat, ext :| ext in App.AllowedExtensions && Extensions.LastExtensionIs(name, i, ext);
      var k :| 0 <= k < 5 && exts[k] == ext;
      assert EndsWith(Lower(name), suffixes[k]);
    }
  }

  /**
   * final_app.py accepts what app.py accepts and, besides, exactly the names
   * whose last extension is `gif` in any case.
   */
  lemma FinalAllowsGifToo(name: string)
    ensures FinalApp.AllowedFile(name) <==>
            App.AllowedFile(name) || exists i: nat :: Extensions.LastExtensionIs(name, i, "gif")
  {
    Extensions.AllowedFileIff(name, App.AllowedExtensions);
    Extensions.AllowedFileIff(name, FinalApp.AllowedExtensions);
    assert FinalApp.AllowedExtensions == App.AllowedExtensions + {"gif"};
  }

  /** `x.GIF` is accepted by final_app.py and refused by app.py. */
  lemma GifSplitsTheVariants()
    ensures FinalApp.AllowedFile("x.GIF") && !App.AllowedFile("x.GIF")
  {
    FinalApp.AcceptsGif();
    App.CaseInsensitive();
  }

  /** With a size-preserving resampler both ways of drawing the border encode the same bytes. */
  lemma EncodedAgree(stream: Bytes, codec: Codec)
    requires ResizeKeepsSize(codec)
    ensures Encoded(stream, codec, true) == Encoded(stream, codec, false)
  {
    if codec.open(stream).Success? {
      InlineAgreesWithAddBorder(codec.open(stream).value, codec);
    }
  }

  /**
   * Given the same upload (under `file` for app.py, under `files` for
   * final_app.py) and a size-preserving resampler, the two handlers give the
   * same response unless the upload's last extension is `gif`.
   */
  lemma FinalMatchesApp(appRequest: Request, finalRequest: Request, codec: Codec, secureFilename: string -> string)
    requires Contains(appRequest, "file") == Contains(finalRequest, "files")
    requires Contains(appRequest, "file") ==> Get(appRequest, "file") == Get(finalRequest, "files")
    requires Contains(appRequest, "file") ==>
               !exists i: nat :: Extensions.LastExtensionIs(Get(appRequest, "file").filename, i, "gif")
    requires ResizeKeepsSize(codec)
    ensures App.UploadFile(appRequest, codec, secureFilename) == FinalApp.UploadFile(finalRequest, codec, secureFilename)
  {
    if Contains(appRequest, "file") {
      var file := Get(appRequest, "file");
      FinalAllowsGifToo(file.filename);
      EncodedAgree(file.stream, codec);
    }
  }
}
