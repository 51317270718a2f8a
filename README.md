# Photo image resizer: a Dafny model of its core

The photo image resizer takes raster images and turns each one into a JPEG
1200 pixels wide, with the aspect ratio kept and a one-pixel black border
around it. It exists in four near-identical forms. One is a command-line tool
that works on a file or a whole directory (`image_resizer_cli.py`). The other
three are Flask upload endpoints (`app.py`, `final_app.py`, `simple_app.py`).
This project models the logic these forms share, and where they differ:

- **Border composition as a pixel-grid operation.** `Image.new` allocates a
  canvas filled with one colour. `paste` then overwrites a rectangle of it in
  place. Module `Canvas` does this on an `array2` with a copy loop, clipping as
  PIL does. Module `Pictures` gives the same operations on values. The methods
  are proved to produce the value the functions describe. `add_border`
  (the CLI and `app.py`) and the inline composition (`final_app.py` and
  `simple_app.py`) are both modelled, and are proved to agree when the
  resampler returns the size it is asked for.
- **Target dimensions.** The width is 1200. The height is
  `floor(1200 * H / W)`, an integer idealisation of the source's float
  expression. A zero width fails with Python's `ZeroDivisionError` message,
  because that exception is caught like any other.
- **Extension checks.** `allowed_file` keeps a name only if it has a dot and
  the lowercased text after the last dot is in the allow-list. `final_app.py`
  adds `gif` to the list. The CLI instead tests whether the lowercased name
  ends with one of five suffixes. With ASCII lowercasing, the CLI filter and
  `app.py`'s `allowed_file` are proved to accept exactly the same names.
- **CLI batch.** The directory listing is filtered in order. Each kept name
  gets an output name: `os.path.splitext(name)[0] + '.jpg'`, modelled with
  Python's rule that leading dots do not start an extension. Each file is then
  attempted once, in order. Every error is caught per file, so a failure never
  stops the files after it. The destination directory is a map from path to
  contents.
- **Upload handlers.** Each handler is an ordered chain of early returns,
  followed by a `try` block whose exceptions become a 500 response. Each is a
  pure function from an abstract request to a JSON error or a download named
  `processed_` + `secure_filename(name)`. The request is a multi-dictionary of
  uploaded parts.

The foreign pieces are parameters, not code. PIL's decoder, its Lanczos
resampler and its JPEG encoder are the fields of a `Codec` value
(`Transform.Codec`). Each may fail with a message. Werkzeug's
`secure_filename` is an uninterpreted function argument. The CLI's file-read
step is a function from path to contents. A pixel of an `'RGB'` image is
`Pictures.Rgb`; `Codec.open` is taken to return RGB pixels, so the mode
conversion `paste` performs onto the `'RGB'` canvas is folded into the decoder.
The border operations take any pixel type.

Some details of the code that the model keeps:

- `new_height` is computed with `int(...)`, which truncates toward zero.
- A refused file type is reported as 400 `Invalid file type`.
- `simple_app.py` checks no extension at all: any non-empty name is decoded.
- The CLI's output name is the input's root plus `.jpg`, with no prefix;
  only the web downloads are named `processed_` + the sanitised name.

Two consequences of the code are proved as lemmas:

- Two kept files such as `a.png` and `a.jpg` get the same output name, so the
  later one overwrites the earlier one's output (`ImageResizerCli.OutputNamesCollide`,
  `ImageResizerCli.SavedLast`).
- A hidden file named `.png` passes the filter and is written as `.png.jpg`
  (`ImageResizerCli.OutputNameHidden` proves both).

Files: `wrappers.dfy` (Option/Result), `strings.dfy` (the string
operations used), `pictures.dfy`, `canvas.dfy`, `transform.dfy`,
`extensions.dfy`, `http.dfy`, `app.dfy`, `final_app.dfy`, `simple_app.dfy`,
`cli.dfy` and `variants.dfy` (lemmas relating the variants).

## Model

| member | source | states |
|---|---|---|
| `Pictures.Filled` | image_resizer_cli.py:28 | `Image.new` gives a `w` x `h` picture in which every pixel is the fill colour |
| `Pictures.PastedKeepsSource` | image_resizer_cli.py:29 | pasting a source that fits inside the canvas at the offset clips nothing: every source pixel `(x, y)` appears at `(x + ox, y + oy)` |
| `Pictures.FramedLayout` | image_resizer_cli.py:24-29 | `add_border` output is `w + 2b` by `h + 2b`; every pixel in the outer ring of width `b` is the border colour; the pixel at `(x + b, y + b)` is the source pixel `(x, y)` |
| `Pictures.Pasted` | image_resizer_cli.py:29 | the canvas keeps its size; a pixel the placed source covers takes the source pixel at the offset, every other pixel keeps the canvas pixel |
| `Pictures.Framed` | image_resizer_cli.py:24-29 | the framed picture is `2b` larger than the image in each direction |
| `Canvas.NewImage` | image_resizer_cli.py:28 | allocates a fresh buffer holding the filled picture |
| `Canvas.Paste` | image_resizer_cli.py:29 | the in-place copy loop leaves the canvas holding exactly the value-level paste (copied where covered, unchanged elsewhere, out-of-range source pixels clipped) |
| `Canvas.AddBorder` | app.py:16-23 | the new buffer is `(w + 2b) x (h + 2b)`, holds the framed picture, has the border colour on its outer ring and the image at offset `(b, b)` |
| `Canvas.InlineBorder` | final_app.py:24-25 | the buffer is `(newWidth + 2) x (newHeight + 2)` and holds a black canvas with the resized image pasted at `(1, 1)` |
| `Strings.LastIndexOf` | app.py:40 | the index found holds the character and none follows it; None exactly when the character does not occur |
| `Strings.Lower` | app.py:40 | lowering keeps the length of the string |
| `Strings.LowerResult` | app.py:40 | after lowering no upper-case ASCII letter is left: each `A`-`Z` becomes its own lower-case letter, and every other character is unchanged |
| `Strings.EndsWithIff` | image_resizer_cli.py:76 | `s.endswith(suffix)` holds iff `s` is some string followed by `suffix` |
| `Strings.EndsWithAny` | image_resizer_cli.py:74-76 | `endswith` with a tuple is false for the empty tuple and true whenever the tuple holds the empty suffix |
| `Extensions.AllowedFile` | app.py:39-40 | an allowed name has a dot with no dot after it whose lowercased tail is in the allow-list |
| `Extensions.AllowedFileIff` | app.py:39-40 | a name is allowed iff it has a dot with no dot after it whose lowercased tail is in the allow-list |
| `Extensions.NoDotRejected` | final_app.py:12 | a name without a dot is refused, whatever the allow-list |
| `Extensions.LastExtensionDecides` | final_app.py:11-12 | for `stem.ext` with a dot-free `ext`, the name is allowed iff `lower(ext)` is in the list, whatever the stem |
| `Extensions.SuffixIsLastExtension` | image_resizer_cli.py:74-76 | the lowercased name ends with `.ext` iff the name's last extension, lowercased, is `ext` |
| `App.UploadFile` | app.py:43-72 | the only statuses are 400 and 500, and a download or a 500 happens only for a `file` part whose name the allow-list accepts, so nothing else is decoded |
| `App.AllowedFile` | app.py:39-40 | with the five-entry set, a name is allowed iff it has a last dot, no dot after it, and the lowercased tail is in the set |
| `App.FileTestRedundant` | app.py:51 | `if file` (werkzeug's `bool(file.filename)`) always holds once the empty-name guard has passed |
| `App.RejectsNoDot` | app.py:40 | `photo` is refused |
| `App.RejectsBareDot` | app.py:40 | `photo.` (empty extension) is refused |
| `App.RejectsDoubleExtension` | app.py:39-40 | `x.png.exe` is refused: only the last extension counts |
| `App.AcceptsDottedStem` | app.py:39-40 | `a.b.Jpeg` is accepted |
| `App.CaseInsensitive` | app.py:12 | `x.PNG` is accepted and `x.GIF` refused by the five-entry list |
| `App.GuardOrder` | app.py:44-51 | a missing `file` part gives 400 "No file part" first, then an empty name gives 400 "No selected file", then a refused name gives 400 "Invalid file type"; a 400 response is the same for every codec, so nothing is decoded |
| `App.Outcome` | app.py:51-72 | a download is sent iff every guard passes and processing succeeds; it is `image/jpeg`, named `processed_` + the sanitised name, and carries the encoded bytes; 500 is returned iff processing fails, with its message; no other status occurs |
| `App.DownloadLayout` | app.py:54-67 | with a size-preserving resampler, a download is saved from a 1202 x (`NewHeight` + 2) picture with a black ring around the resized upload |
| `FinalApp.UploadFile` | final_app.py:30-60 | the only statuses are 400 and 500, and a download or a 500 happens only for a `files` part whose name the six-entry allow-list accepts |
| `FinalApp.AllowedFile` | final_app.py:11-12 | with the six-entry set, a name is allowed iff it has a last dot, no dot after it, and the lowercased tail is in the set |
| `FinalApp.AcceptsGif` | final_app.py:9-12 | `x.GIF` is accepted |
| `FinalApp.GuardOrder` | final_app.py:31-39 | missing `files` part, then empty name, then refused type, each 400 with its message, and none depends on the codec |
| `FinalApp.Outcome` | final_app.py:41-60 | download iff guards pass and processing succeeds, named `processed_` + sanitised name; otherwise 500 with the message |
| `FinalApp.DownloadLayout` | final_app.py:14-27 | the saved canvas is 1202 x (`NewHeight` + 2) whatever the resampler returns, and has the black ring around the resized upload when the resampler keeps the size |
| `SimpleApp.UploadFile` | simple_app.py:28-66 | the only statuses are 400 and 500, and a download or a 500 happens only when some `files` part was sent and the first one has a non-empty name |
| `SimpleApp.NoFiles` | simple_app.py:32-35 | the response is 400 "No files uploaded" iff no part is sent as `files` |
| `SimpleApp.FirstFileOnly` | simple_app.py:37 | parts added after the first `files` part never change the response |
| `SimpleApp.EmptyFirstName` | simple_app.py:38-40 | an empty first file name gives 400 "No selected file" for every codec |
| `SimpleApp.NoAllowList` | simple_app.py:42-66 | with a non-empty first name the response is a download (named `processed_` + sanitised name) iff processing succeeds, else 500 with the message; never 400 |
| `SimpleApp.DownloadLayout` | simple_app.py:10-25 | the saved canvas is 1202 x (`NewHeight` + 2), with the black ring and the resized image at `(1, 1)` when the resampler keeps the size |
| `Transform.NewHeight` | image_resizer_cli.py:45-47 | for `W > 0` the height `h` is the floor of `1200 * H / W`: `h * W <= 1200 * H < (h + 1) * W` |
| `Transform.NewHeightExample` | image_resizer_cli.py:46-47 | 2400 x 1600 gives height 800 |
| `Transform.NewHeightSquare` | app.py:28-29 | in the integer idealisation a square image comes out 1200 tall |
| `Transform.Resized` | final_app.py:16-21 | a zero-width image fails with "division by zero"; a result implies a positive width and, with a size-preserving resampler, is 1200 x `NewHeight` |
| `Transform.ResizeAndProcess` | app.py:25-37 | a zero-width image fails with "division by zero"; a result implies a positive width and, with a size-preserving resampler, is 1202 x (`NewHeight` + 2) |
| `Transform.ProcessImageInline` | final_app.py:14-27 | a zero-width image fails with "division by zero"; any result is 1202 x (`NewHeight` + 2) whatever the resampler returns |
| `Transform.Processed` | app.py:54-55 | `Image.open` then processing: a decode failure keeps its own message, a zero width gives "division by zero", a result implies a positive-width decode, and the result is 1202 x (`NewHeight` + 2) for the inline form or a size-preserving resampler |
| `Transform.Encoded` | app.py:54-59 | a decode failure keeps its own message, a zero width gives "division by zero", a success implies a positive-width decode and is the quality-95 JPEG encoding of the processed picture |
| `Transform.ResizeAndProcessLayout` | app.py:25-37 | with a size-preserving resampler a processed image is 1202 x (`NewHeight` + 2), black on its outer ring, the resized image at `(1, 1)` |
| `Transform.ProcessImageInlineLayout` | final_app.py:14-27 | the inline canvas is 1202 x (`NewHeight` + 2) unconditionally and has the bordered layout when the resampler keeps the size |
| `Transform.InlineAgreesWithAddBorder` | simple_app.py:22-23 | with a size-preserving resampler the inline composition equals `add_border` |
| `Http.Respond` | app.py:52-70 | a download is sent iff the `try` block succeeds, its name starts with `processed_` and it carries the encoded bytes; otherwise 500 with the exception's message |
| `Http.GetList` | simple_app.py:32 | `getlist` returns at most as many parts as were sent; it is empty iff no part has the key; its members are exactly the parts sent under the key |
| `Http.GetListAppend` | simple_app.py:32-37 | `getlist` of a concatenation is the concatenation of the `getlist`s, so order is kept |
| `Http.Contains` | app.py:44 | `key in request.files` holds iff some uploaded part was sent under the key |
| `Http.Get` | final_app.py:34 | `request.files[key]` is a part that was sent under the key |
| `Http.GetIsFirst` | final_app.py:34 | `request.files[key]` is the earliest part sent under the key |
| `ImageResizerCli.IsImageFile` | image_resizer_cli.py:74-76 | a name passing the suffix test contains a dot |
| `ImageResizerCli.ImageFiles` | image_resizer_cli.py:74-76 | the kept names are exactly the listed names passing the suffix test, no more of them than were listed |
| `ImageResizerCli.ImageFilesAppend` | image_resizer_cli.py:75-76 | filtering keeps listing order: it distributes over concatenation |
| `ImageResizerCli.SplitExt` | image_resizer_cli.py:80 | root + extension is the name; the extension is empty or a dot followed by text without dots or slashes |
| `ImageResizerCli.OutputName` | image_resizer_cli.py:80 | every output name ends in `.jpg` |
| `ImageResizerCli.Join` | image_resizer_cli.py:79-80 | a joined path ends with its second component |
| `ImageResizerCli.OutputNameReplacesLast` | image_resizer_cli.py:80 | `stem.ext` becomes `stem.jpg` when the stem is not all dots: only the final extension is replaced |
| `ImageResizerCli.OutputNameLeadingDots` | image_resizer_cli.py:80 | a name whose stem is only dots has no extension and just gains `.jpg` |
| `ImageResizerCli.OutputNameDottedStem` | image_resizer_cli.py:80 | `a.b.PNG` becomes `a.b.jpg` |
| `ImageResizerCli.OutputNameHidden` | image_resizer_cli.py:80 | `.png` becomes `.png.jpg` |
| `ImageResizerCli.OutputNamesCollide` | image_resizer_cli.py:74-80 | `a.png` and `a.jpg` both pass the filter and both map to `a.jpg` |
| `ImageResizerCli.OutputPathIsJpg` | image_resizer_cli.py:80 | every output path the batch writes ends in `.jpg` |
| `ImageResizerCli.ResizeAndProcessImage` | image_resizer_cli.py:32-60 | the report names the input path, and a success carries the given output path |
| `ImageResizerCli.AttemptPaths` | image_resizer_cli.py:78-81 | the attempt on a kept name reads `os.path.join(input_dir, name)`, and a success writes `os.path.join(output_dir, root + '.jpg')` (which ends in `.jpg`, by `OutputPathIsJpg`) |
| `ImageResizerCli.ResizeAndProcessImageReports` | image_resizer_cli.py:41-60 | a file's report names it; it is a success iff reading, processing and saving all succeed and then carries the JPEG for the output path; a failure carries the message of the stage that raised |
| `ImageResizerCli.Write` | image_resizer_cli.py:56 | a successful save puts the JPEG at the output path; every other path keeps its contents; no other path appears |
| `ImageResizerCli.Saved` | image_resizer_cli.py:78-81 | the batch never removes a file, and every new path is the output path of some successful attempt |
| `ImageResizerCli.ProcessDirectory` | image_resizer_cli.py:62-81 | one report per kept name, in order, report `i` being the attempt on kept name `i` regardless of earlier failures; the destination is the result of the successful writes in that order |
| `ImageResizerCli.SavedLast` | image_resizer_cli.py:78-81 | a written path holds the output of the last successful attempt that wrote it |
| `ImageResizerCli.SavedUntouched` | image_resizer_cli.py:78-81 | a path no successful attempt writes keeps its previous contents or stays absent |
| `Variants.CliFilterIsAllowedFile` | image_resizer_cli.py:74-76 | the CLI's suffix filter keeps a name iff `app.py`'s `allowed_file` accepts it |
| `Variants.FinalAllowsGifToo` | final_app.py:9-12 | `final_app.py` accepts a name iff `app.py` does or its last extension is `gif` in any case |
| `Variants.GifSplitsTheVariants` | final_app.py:9 | `x.GIF` is accepted by `final_app.py` and refused by `app.py` |
| `Variants.EncodedAgree` | final_app.py:41-48 | with a size-preserving resampler both border styles encode the same bytes |
| `Variants.FinalMatchesApp` | final_app.py:29-60 | given the same upload and a size-preserving resampler, `final_app.py` and `app.py` give the same response unless the upload's last extension is `gif` |

## Left out

- Image decoding, Lanczos resampling and JPEG encoding at quality 95 are PIL library code. They are the fields of `Transform.Codec`, and each may fail with an arbitrary message. The only property assumed of the resampler is that it returns the size it was asked for (`ResizeKeepsSize`), and only in the lemmas that say so.
- Transform.NewHeight: the integer floor of `1200 * H / W` idealises the source's IEEE-754 expression `int((1200 / W) * H)`, which can come out one lower (a square image need not be 1200 tall).
- Canvas.Paste: PIL's conversion between image modes and its alpha handling in `paste` are not modelled. Uploads decode in their own mode (RGBA, palette, L, CMYK); only the canvas is `'RGB'`. `Codec.open` is taken to return RGB pixels, which folds the conversion into the decoder. Pasting an image into itself is excluded by `canvas != src`.
- Strings.Lower: only ASCII letters are lowercased. Python's Unicode `str.lower` maps more characters and can change a string's length.
- ImageResizerCli.SplitExt and ImageResizerCli.Join follow `posixpath` only. The Windows rules of `ntpath` are not modelled.
- The filesystem is left out. `os.listdir` becomes the `listing` argument, and reading or opening a file becomes the `read` argument. `os.makedirs` and the existence test on the output directory are not modelled. The JPEG encoder `Codec.save` is given no path, so the model has no write failure that depends on the output path.
- ImageResizerCli.ProcessDirectory: reads never see the batch's own writes, because `read` is one function for the whole batch; the input and output directories are assumed disjoint. When they are the same directory, `a.png`'s output `a.jpg` replaces the original `a.jpg` before that file is opened, which the model does not capture.
- ImageResizerCli.SavedUntouched: a failed save is modelled as writing nothing and as not depending on the path. Pillow opens the output path for writing before it encodes, so a save that fails afterwards leaves an existing file truncated, and a path that cannot be written (no permission, a directory named `x.jpg`) fails only for that path.
- The CLI's `main` is left out: argparse and the file-or-directory dispatch. Single-file mode is one call of `ResizeAndProcessImage`.
- The `print` logging of the CLI and of `simple_app.py` is not modelled. The CLI's per-file success and error messages become the `FileOutcome` reports.
- Flask is left out: routing, the `/` route serving `index.html`, `jsonify` and `send_file` internals, `app.run` and the temporary upload folder of `app.py`. A response is modelled as a status with an error message, or a download with its mimetype, name and body.
- `werkzeug.utils.secure_filename` is an uninterpreted argument, because its implementation is not part of this model. A `FileStorage` whose filename is `None` is not modelled, since filenames are strings.
- `create_shortcut.py` (Windows shortcut creation) and `minimal_app.py` (a hello-world route) contain no core logic.
