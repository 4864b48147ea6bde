/** The object-store upload endpoints of `backup.py`: `upload_file` (a
    multipart upload spooled through a temporary file) and `upload_binary`
    (a raw request body). Both name the object `<timestamp>_<base name>`.
    The store's `put` is an outside service; its reply is an input here. */
module BlobUpload {
  import opened Common
  import Decimal
  import Paths
  import Naming

  const Uploaded: string := "uploaded"
  const BinaryGet: string := "binary-get"
  const FailurePrefix: string := "Upload failed: "

  /** The name an upload is stored under: the whole-second timestamp, `_`,
      and the last component of the client's file name. */
  function BlobName(timestamp: nat, filename: string): (r: string)
    ensures EndsWith(r, [Naming.Joiner] + Paths.PathName(filename))
    ensures Naming.SplitTimestamped(r) == Some((timestamp, Paths.PathName(filename)))
    ensures Paths.Sep !in r[|r| - |Paths.PathName(filename)|..]
  {
    Naming.SplitTimestampedName(timestamp, Paths.PathName(filename));
    Naming.TimestampedName(timestamp, Paths.PathName(filename))
  }

  /** Whatever directories the client's name carries, the stored name has
      no `/` at all: it cannot address anything outside the flat store. */
  lemma BlobNameHasNoSep(timestamp: nat, filename: string)
    ensures Paths.Sep !in BlobName(timestamp, filename)
  {
    Naming.TimestampedNameAvoids(timestamp, Paths.PathName(filename), Paths.Sep);
  }

  /** The JSON body of a successful upload. `size` and `via` are present
      only in the raw-body endpoint's reply (the latter is its `method`
      field). */
  datatype Reply = Reply(filename: string, url: string, status: string, size: Option<nat>, via: Option<string>)

  /** What the store's `put` does: return the object's URL, or raise. */
  datatype StoreReply = Stored(url: string) | StoreFailed(message: string)

  /** One call of `put(pathname, content, options={"add_random_suffix": False})`. */
  datatype PutCall = PutCall(pathname: string, content: seq<Byte>)

  /** `str(e)` of an `HTTPException` in current Starlette:
      `"<status>: <detail>"`. */
  function Describe(e: HttpError): string
  {
    Decimal.NatToString(e.status) + ": " + e.detail
  }

  /** The handlers' `except Exception as e` clause. */
  function Wrap(message: string): HttpError
  {
    HttpError(500, FailurePrefix + message)
  }

  /** The copy loop `while chunk := await file.read(CHUNK_SIZE): f.write(chunk)`:
      what the temporary file holds afterwards. A read of size 0 returns no
      bytes, so a zero `chunkSize` copies nothing. */
  method Spool(body: seq<Byte>, chunkSize: nat) returns (content: seq<Byte>)
    ensures chunkSize > 0 ==> content == body
    ensures chunkSize == 0 ==> content == []
  {
    content := [];
    var rest := body;
    while true
      invariant content + rest == body
      invariant chunkSize == 0 ==> content == []
      decreases |rest|
    {
      var n := Min(chunkSize, |rest|);
      var chunk := rest[..n];
      if |chunk| == 0 {
        assert chunkSize == 0 || rest == [];
        break;
      }
      content := content + chunk;
      rest := rest[n..];
    }
    assert chunkSize > 0 ==> content == content + rest;
  }

  /** The reply, the store call made (if any) and the temporary directory's
      files afterwards, by name. */
  datatype FileRun = FileRun(response: Result<Reply, HttpError>, put: Option<PutCall>, tempFiles: map<string, seq<Byte>>)

  /** `upload_file(file)` of the `PUT /upload` route. `filename` is the
      multipart file name (`None` when absent), `body` the uploaded bytes,
      `chunkSize` the `CHUNK_SIZE` each `file.read` asks for, `now` the
      clock, `store` what `put` does and `tempFiles` the temporary directory
      before the call. */
  method UploadFile(filename: Option<string>, body: seq<Byte>, chunkSize: nat, now: nat,
                    store: StoreReply, tempFiles: map<string, seq<Byte>>)
    returns (run: FileRun)
    ensures filename.None? || filename.value == "" ==>
              run == FileRun(Err(HttpError(400, "Filename is required")), None, tempFiles)
    ensures filename.Some? && filename.value != "" ==>
              var blob := BlobName(now, filename.value);
              && run.put == Some(PutCall(blob, if chunkSize == 0 then [] else body))
              && run.tempFiles == tempFiles - {blob}
              && (store.Stored? ==> run.response == Ok(Reply(blob, store.url, Uploaded, None, None)))
              && (store.StoreFailed? ==> run.response == Err(Wrap(store.message)))
  {
    if filename.None? || filename.value == "" {
      return FileRun(Err(HttpError(400, "Filename is required")), None, tempFiles);
    }
    var blob := BlobName(now, filename.value);
    // `tmp_path.open("wb")` creates the file, or truncates an existing one.
    var content := Spool(body, chunkSize);
    var temp := tempFiles[blob := content];
    var response: Result<Reply, HttpError>;
    match store {
      case Stored(url) =>
        response := Ok(Reply(blob, url, Uploaded, None, None));
      case StoreFailed(message) =>
        response := Err(Wrap(message));
    }
    // The `finally` clause unlinks the temporary file on every path.
    temp := temp - {blob};
    RemoveUpdated(tempFiles, blob, content);
    return FileRun(response, Some(PutCall(blob, content)), temp);
  }

  /** The reply and the store call made (if any) of the raw-body route. */
  datatype BinaryRun = BinaryRun(response: Result<Reply, HttpError>, put: Option<PutCall>)

  const MissingHeader: HttpError := HttpError(400, "Missing X-Filename header")
  const EmptyBody: HttpError := HttpError(400, "Empty request body")

  /** The raw-body route once its input is valid: name the blob, put it,
      reply with its name, URL and size. */
  function PutBinary(filename: string, body: seq<Byte>, now: nat, store: StoreReply): BinaryRun
  {
    var blob := BlobName(now, filename);
    var response := match store
      case Stored(url) => Ok(Reply(blob, url, Uploaded, Some(|body|), Some(BinaryGet)))
      case StoreFailed(message) => Err(Wrap(message));
    BinaryRun(response, Some(PutCall(blob, body)))
  }

  /** `upload_binary(request)` as written: the two 400 errors are raised
      inside the `try`, so the catch-all turns them into 500 replies whose
      detail is `"Upload failed: 400: ..."`. `header` is the `X-Filename`
      header (looked up case-insensitively), `body` the raw request body. */
  function UploadBinaryAsWritten(header: Option<string>, body: seq<Byte>, now: nat, store: StoreReply): (r: BinaryRun)
    ensures header.None? || header.value == "" ==>
              r == BinaryRun(Err(Wrap(Describe(MissingHeader))), None)
    ensures header.Some? && header.value != "" && |body| == 0 ==>
              r == BinaryRun(Err(Wrap(Describe(EmptyBody))), None)
    ensures r.response.Err? ==> r.response.error.status == 500
    ensures r.put.Some? <==> header.Some? && header.value != "" && |body| > 0
    ensures r.put.Some? ==> r.put.value == PutCall(BlobName(now, header.value), body)
    ensures r.put.Some? ==> (r.response.Ok? <==> store.Stored?)
    ensures r.response.Ok? ==>
              && header.Some? && store.Stored?
              && r.response.value == Reply(BlobName(now, header.value), store.url, Uploaded, Some(|body|), Some(BinaryGet))
    ensures r.put.Some? && store.StoreFailed? ==> r.response == Err(Wrap(store.message))
  {
    if header.None? || header.value == "" then BinaryRun(Err(Wrap(Describe(MissingHeader))), None)
    else if |body| == 0 then BinaryRun(Err(Wrap(Describe(EmptyBody))), None)
    else PutBinary(header.value, body, now, store)
  }

  /** `upload_binary(request)` as its checks evidently intend: a missing
      name or an empty body is the client's error and is answered with 400;
      only a failed store call is a 500. */
  function UploadBinary(header: Option<string>, body: seq<Byte>, now: nat, store: StoreReply): (r: BinaryRun)
    ensures header.None? || header.value == "" ==> r == BinaryRun(Err(MissingHeader), None)
    ensures header.Some? && header.value != "" && |body| == 0 ==> r == BinaryRun(Err(EmptyBody), None)
    ensures r.response.Err? ==> (r.response.error.status == 400 <==> r.put.None?)
    ensures r.put.Some? <==> header.Some? && header.value != "" && |body| > 0
    ensures r.put.Some? ==> r.put.value == PutCall(BlobName(now, header.value), body)
    ensures r.put.Some? ==> (r.response.Ok? <==> store.Stored?)
    ensures r.response.Ok? ==>
              && header.Some? && store.Stored?
              && r.response.value == Reply(BlobName(now, header.value), store.url, Uploaded, Some(|body|), Some(BinaryGet))
    ensures r.put.Some? && store.StoreFailed? ==> r.response == Err(Wrap(store.message))
  {
    if header.None? || header.value == "" then BinaryRun(Err(MissingHeader), None)
    else if |body| == 0 then BinaryRun(Err(EmptyBody), None)
    else PutBinary(header.value, body, now, store)
  }

  /** The two differ exactly on the client errors: as written these come
      back as 500 with the 400 folded into the detail. */
  lemma ClientErrorDiscrepancy(header: Option<string>, body: seq<Byte>, now: nat, store: StoreReply)
    ensures UploadBinaryAsWritten(header, body, now, store).put == UploadBinary(header, body, now, store).put
    ensures UploadBinary(header, body, now, store).put.Some? ==>
              UploadBinaryAsWritten(header, body, now, store) == UploadBinary(header, body, now, store)
    ensures UploadBinary(header, body, now, store).put.None? ==>
              && UploadBinary(header, body, now, store).response.error.status == 400
              && UploadBinaryAsWritten(header, body, now, store).response
                 == Err(Wrap(Describe(UploadBinary(header, body, now, store).response.error)))
  {
  }

  /** `str()` of a 400 error. */
  lemma DescribeClientError(detail: string)
    ensures Describe(HttpError(400, detail)) == "400: " + detail
  {
    assert Decimal.NatToString(4) == "4";
    assert Decimal.NatToString(40) == "40";
    assert Decimal.NatToString(400) == "400";
  }

  /** The input that shows it: no `X-Filename` header at all. */
  lemma MissingHeaderExample(body: seq<Byte>, now: nat, store: StoreReply)
    ensures UploadBinaryAsWritten(None, body, now, store).response
            == Err(HttpError(500, "Upload failed: 400: " + MissingHeader.detail))
    ensures UploadBinary(None, body, now, store).response == Err(HttpError(400, MissingHeader.detail))
  {
    DescribeClientError(MissingHeader.detail);
    assert FailurePrefix + ("400: " + MissingHeader.detail) == "Upload failed: 400: " + MissingHeader.detail;
  }
}
