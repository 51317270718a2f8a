/**
 * The part of a Flask request and response the upload handlers look at.
 * `request.files` is a multi-dictionary: the uploaded parts in the order of
 * the multipart body, each under its form-field name.
 */
module Http {
  import opened Wrappers
  import opened Transform

  /** An uploaded part: the client-supplied file name and the raw stream. */
  datatype FileStorage = FileStorage(filename: string, stream: Bytes)

  /** werkzeug's `FileStorage.__bool__` is `bool(self.filename)`. */
  predicate Truthy(file: FileStorage) {
    file.filename != ""
  }

  datatype Request = Request(files: seq<(string, FileStorage)>)

  datatype Response =
    | JsonError(status: nat, error: string)                 // `jsonify({'error': ...}), status`
    | SendFile(mimetype: string, downloadName: string, body: Bytes)  // `send_file(..., as_attachment=True)`

  const ProcessedPrefix: string := "processed_"

  /** `request.files.getlist(key)`: every part sent under `key`, in order. */
  function GetList(parts: seq<(string, FileStorage)>, key: string): (r: seq<FileStorage>)
    ensures |r| <= |parts|
    ensures r == [] <==> forall i :: 0 <= i < |parts| ==> parts[i].0 != key
    ensures forall f :: f in r <==> (key, f) in parts
  {
    if parts == [] then []
    else (if parts[0].0 == key then [parts[0].1] else []) + GetList(parts[1..], key)
  }

  /** `key in request.files` */
  predicate Contains(request: Request, key: string)
    ensures Contains(request, key) <==> exists i :: 0 <= i < |request.files| && request.files[i].0 == key
  {
    GetList(request.files, key) != []
  }

  /** `request.files[key]`: the first part sent under `key`. */
  function Get(request: Request, key: string): (r: FileStorage)
    requires Contains(request, key)
    ensures (key, r) in request.files
  {
    GetList(request.files, key)[0]
  }

  /**
   * The handlers' `try` block and its `except Exception as e` clause: a
   * download named `processed_` + the sanitised name, or 500 with the message.
   */
  function Respond(filename: string, result: Result<Bytes, string>, secureFilename: string -> string): (r: Response)
    ensures r.SendFile? <==> result.Success?
    ensures r.SendFile? ==> ProcessedPrefix <= r.downloadName && r.body == result.value
    ensures r.JsonError? ==> r.status == 500 && r.error == result.error
  {
    match result
    case Success(body) => SendFile("image/jpeg", ProcessedPrefix + secureFilename(filename), body)
    case Failure(e) => JsonError(500, e)
  }

  /** Parts sent after those already present never change what `getlist` returns first. */
  lemma {:induction false} GetListAppend(a: seq<(string, FileStorage)>, b: seq<(string, FileStorage)>, key: string)
    ensures GetList(a + b, key) == GetList(a, key) + GetList(b, key)
  {
    if a == [] {
      assert a + b == b;
    } else {
      assert (a + b)[1..] == a[1..] + b;
      GetListAppend(a[1..], b, key);
    }
  }

  /** The part `request.files[key]` returns is the earliest one sent under `key`. */
  lemma {:induction false} GetIsFirst(parts: seq<(string, FileStorage)>, key: string, i: nat)
    requires i < |parts| && parts[i].0 == key
    requires forall j :: 0 <= j < i ==> parts[j].0 != key
    ensures GetList(parts, key) != [] && GetList(parts, key)[0] == parts[i].1
  {
    if i > 0 {
      GetIsFirst(parts[1..], key, i - 1);
    }
  }
}
