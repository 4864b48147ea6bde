# Chunked file upload and latest-file download, in Dafny

A model of a small Python file-transfer system and proofs about it.

- **Upload client** (`client_upload.py`). It reads a local file in 100 KiB pieces. Each piece is sent base 64 encoded as a numbered JSON chunk request. The first and last requests are flagged, and the client stops at the first failed post.
- **Download clients** (`client_download.py`, `client/client_download.py`). They fetch a named file or the latest one. The local name comes from the `Content-Disposition` header, with `filename=(.+)` and `strip('"')`, and has a clock fallback. The streamed body goes to `downloaded_<name>` and its bytes are counted.
- **Object-store server** (`backup.py`). `PUT /upload` spools a multipart upload through a temporary file and stores it as `<timestamp>_<base name>`. The raw-body route does the same with a request body.
- **Local server** (`main.py`). It accepts only `.zip` uploads and stores them as `<timestamp>_<filename>`. `GET /latest` serves the `.zip` file with the newest modification time.

Modules:

| module | file | models |
|---|---|---|
| `Common` | `common.dfy` | Bytes, `Option` and `Result`, HTTP errors, `startswith` and `endswith`, `b"".join` |
| `Decimal` | `decimal.dfy` | `str(n)` for a non-negative `int`, and a digit reader used as the inverse of `str(n)` |
| `Base64` | `base64.dfy` | `base64.b64encode` (section 4 of RFC 4648) and a strict decoder as its inverse |
| `Paths` | `paths.dfy` | `os.path.basename` and `PurePosixPath(p).name` |
| `Naming` | `naming.dfy` | the `f"{timestamp}_{name}"` naming scheme and its split |
| `ChunkUpload` | `chunk_upload.dfy` | `client_upload.py` |
| `Disposition` | `disposition.dfy` | `get_filename_from_cd` |
| `Download` | `download.dfy` | `download_latest` of `client_download.py` |
| `ClientDownload` | `client_download.dfy` | `download_file` of `client/client_download.py` |
| `BlobUpload` | `blob_upload.dfy` | `upload_file` and `upload_binary` of `backup.py` |
| `LocalStore` | `local_store.dfy` | `upload_file` and `get_latest_file` of `main.py` |
| `Flow` | `flow.dfy` | a local upload followed by `download_latest` |

Outside effects become parameters:

- The clock is `now` or `clock`.
- File contents and existence are values.
- A server's HTTP response is a `Response` value.
- Which chunk posts fail is a set of chunk numbers.
- What the object store's `put` does is a `StoreReply`.
- The directory listing order is a `seq`.

## Model

| member | source | states |
|---|---|---|
| `Base64.DecodeEncode` | client_upload.py:33 | Every encoded chunk decodes back to exactly its bytes. |
| `Base64.EncodeDecode` | client_upload.py:33 | Any text the strict decoder accepts is the encoding of what it decodes to, so the encoding is canonical. |
| `Base64.DecodeIffEncode` | client_upload.py:33 | Decoding `s` gives `data` if and only if `s` is the encoding of `data`. |
| `Base64.EncodeShape` | client_upload.py:33 | The encoding has four characters per started group of three bytes, all from the alphabet or `=`. |
| `Paths.LastSep` | client_upload.py:18 | The index `basename` cuts at is that of the last `/`: a `/` stands there and none follows, or it is -1 when the path has no `/`. |
| `Paths.BaseName` | client_upload.py:18 | The upload name has no `/`, is a suffix of the path, and is preceded by a `/` when shorter than the path. |
| `Paths.PathName` | backup.py:25 | The safe name has no `/` and is never `.`. |
| `Paths.PathNameIsLastKept` | backup.py:25 | `Path(p).name` is the last component of `p.split("/")` that is neither empty nor `.`, or `""` when there is none. |
| `Paths.PathNameNoSep` | backup.py:25 | A name without `/` is its own safe name, except `.`, which gives the empty name. |
| `Paths.PathNameTrailingSep` | backup.py:79 | A trailing `/` does not change the safe name. |
| `Paths.PathNameAgreesWithBaseName` | backup.py:25 | When the text after the last `/` is a real component, the safe name is that text. |
| `Decimal.NatToString` | main.py:29-30 | The timestamp renders as at least one decimal digit, with no leading zero except for 0. |
| `Decimal.ParseNatToString` | backup.py:24-26 | Reading a rendered timestamp back gives the timestamp. |
| `Naming.SplitTimestampedName` | main.py:29-30 | A stored name splits back into exactly its timestamp and original name, even when the name contains `_`. |
| `Naming.TimestampedNameAvoids` | backup.py:24-26 | A stored name holds only digits, `_` and the name's own characters. |
| `Naming.TimestampedNameInjective` | backup.py:24-26 | Two stored names are equal only when their timestamps and names are both equal. |
| `ChunkUpload.TotalChunks` | client_upload.py:17 | `totalChunks` is the least count of 100 KiB pieces that holds the file. |
| `ChunkUpload.Pieces` | client_upload.py:22-27 | The pieces read before the first empty read, joined in order, are the whole file. |
| `ChunkUpload.PiecesShape` | client_upload.py:22-27 | There are `totalChunks` pieces. Each is non-empty and at most 100 KiB, and all but the last are exactly 100 KiB. |
| `ChunkUpload.PlanShape` | client_upload.py:29-42 | Requests are numbered 1..n with the same total and file name. `isStarted` is set on exactly the first, `isCompleted` on exactly the last, and each `data` decodes to its piece. |
| `ChunkUpload.SinglePiece` | client_upload.py:29-30 | A file of 1 to 102400 bytes is one request that both starts and completes. |
| `ChunkUpload.ReassemblePlan` | client_upload.py:22-59 | Decoding the requests and appending them in chunk order rebuilds the file exactly. |
| `ChunkUpload.SendAll` | client_upload.py:22-59 | The read-and-post loop sends a prefix of the plan. With no failing post it sends the whole plan. Otherwise it stops right after the first failing chunk, which is the last one sent, and every earlier chunk succeeded. |
| `ChunkUpload.UploadFile` | client_upload.py:11-59 | A missing path sends nothing. Otherwise the sent requests are a prefix of the plan. It finishes with the whole plan when no post fails. Otherwise it stops right after the first failing chunk number, having sent that request last. |
| `Disposition.FirstMatch` | client_download.py:13 | The first `re.findall` hit is the leftmost `filename=` followed by a character on its line. |
| `Disposition.FirstMatchIsLeftmost` | client_download.py:13-14 | A match with none before it is the one found. |
| `Disposition.LineEnd` | client_download.py:13 | The greedy `(.+)` runs to the first newline or the end. |
| `Disposition.StripQuotesSlice` | client_download.py:16 | `strip('"')` cuts only quotes, from both ends. What it keeps is a contiguous slice that neither starts nor ends with a quote. |
| `Disposition.StripQuotesIdempotent` | client_download.py:35 | Stripping quotes a second time changes nothing. |
| `Disposition.FilenameFromDispositionSpec` | client_download.py:9-16 | No header or an empty one gives None. Otherwise the result is None if and only if nothing matches. A match gives the leftmost capture with quotes stripped, which neither starts nor ends with a quote. |
| `Disposition.AttachmentRoundTrip` | client_download.py:9-16 | `attachment; filename="<name>"` reads back as `<name>` when the name has no newline and no quote at either end. |
| `Disposition.EmptyQuotedName` | client_download.py:30 | `filename=""` parses to the empty name, which triggers the fallback. |
| `Download.LocalNameSpec` | client_download.py:30-38 | The saved name is `downloaded_` plus the parsed name, or plus the fallback name, and the second strip never changes it. |
| `Download.TotalSizeIsWritten` | client_download.py:42-47 | The reported size is the number of bytes written. |
| `Download.WrittenIsBody` | client_download.py:44-46 | Skipping empty pieces loses nothing: the file receives the whole body. |
| `Download.DownloadLatest` | client_download.py:18-55 | With local file writes assumed to succeed, it fails exactly on a 4xx or 5xx status and saves otherwise. A save writes the whole body and reports its length. The file is `downloaded_` plus the parsed name, or plus the fallback name when the header gives none. |
| `Download.DownloadLatestAsWritten` | client_download.py:18-55 | As written, it saves if and only if the status is not 4xx or 5xx and the header yields a usable name. A save writes the whole body, reports its length, and uses a name starting `downloaded_`. It never reports not-found. |
| `Download.FallbackDiscrepancy` | client_download.py:30-32 | The as-written and intended clients agree except when a fallback name is needed. There the as-written one fails and the intended one saves `downloaded_downloaded_<now>.bin`. |
| `Download.MissingHeaderExample` | client_download.py:27-32 | A 200 response with no header at all shows the difference. |
| `ClientDownload.FilenameFromDisposition` | client/client_download.py:9-15 | The scanning loops compute the same name as the shared definition. |
| `ClientDownload.RequestUrl` | client/client_download.py:18-23 | A non-empty target asks for `/download?filename=<target>`; none or an empty one asks for `/latest`. |
| `ClientDownload.RequestUrlInjective` | client/client_download.py:18-23 | Different targets ask for different URLs, and none of them asks for `/latest`. |
| `ClientDownload.DownloadFile` | client/client_download.py:17-55 | A 404 is reported and nothing is written. Any other 4xx or 5xx fails. Otherwise, with local file writes assumed to succeed, it saves exactly what `download_latest` saves. |
| `ClientDownload.DownloadFileAsWritten` | client/client_download.py:17-55 | As written, it asks for the same URL and reports a 404 the same way. It saves if and only if the status is not 404, 4xx or 5xx and the header yields a usable name, and then writes the whole body, reports its length, and saves exactly what `download_latest` saves: `downloaded_` plus the parsed name. |
| `ClientDownload.FallbackDiscrepancy` | client/client_download.py:35-36 | The two agree on every response except a usable one that needs a fallback name. There the as-written client fails and the intended one saves under the fallback name. |
| `BlobUpload.BlobName` | backup.py:24-26 | The blob name ends in `_` plus the safe name, splits back into timestamp and safe name, and the name part has no `/`. |
| `BlobUpload.BlobNameHasNoSep` | backup.py:25-26 | No blob name contains `/`, whatever directories the client's name carries. |
| `BlobUpload.Spool` | backup.py:31-36 | The copy loop writes the whole upload, or nothing when the read size is 0. |
| `BlobUpload.UploadFile` | backup.py:18-60 | A missing or empty name gives 400 with no store call and no temporary file. Otherwise, with the temporary file's I/O assumed to succeed, the store receives the blob name and the uploaded bytes. The reply is the name and URL, or 500 `Upload failed: <message>`. The temporary file is gone on both paths. |
| `BlobUpload.UploadBinaryAsWritten` | backup.py:63-98 | As written, every error is a 500, including a missing header or an empty body. The store is called exactly when both are present, with the blob name and the body. A store call succeeds in the reply if and only if `put` returns: the reply is the blob name, the URL, `uploaded`, the body's size and `binary-get`. A failed `put` gives 500 `Upload failed: <message>`. |
| `BlobUpload.UploadBinary` | backup.py:63-98 | As intended, a missing header or empty body gives 400 with no store call. A store call gives the same success reply or 500 `Upload failed: <message>` as the code as written, so only a store failure gives 500. |
| `BlobUpload.ClientErrorDiscrepancy` | backup.py:65-75 | The two make the same store call. They differ only on client errors, which as written become 500 `Upload failed: 400: <detail>`. |
| `BlobUpload.MissingHeaderExample` | backup.py:68-69 | A request without `X-Filename` shows the difference. |
| `LocalStore.Upload` | main.py:23-36 | The upload is accepted if and only if the name ends in `.zip` and has no `/`; a non-`.zip` name gives 400, and a `.zip` name containing `/` gives 500 because `open` fails. A rejected upload leaves the directory unchanged. An accepted one replies with the stored name, adds exactly that file, replaces any file of the same name, and keeps every other file. |
| `LocalStore.StoredName` | main.py:29-30 | The stored name keeps the client's name whole and splits back into timestamp and name. |
| `LocalStore.StoredNameIsZip` | main.py:25-40 | Every accepted stored name still ends in `.zip`, so the listing sees it. |
| `LocalStore.WriteSpec` | main.py:33-34 | Writing creates or replaces exactly one file and keeps names distinct. |
| `LocalStore.CandidatesMembers` | main.py:40 | The candidates are exactly the listed `.zip` files. |
| `LocalStore.CandidatesAppend` | main.py:40 | The filter keeps listing order: the candidates of a listing cut anywhere are those of the front followed by those of the back. |
| `LocalStore.LatestPosition` | main.py:40-45 | A candidate that every earlier candidate is strictly older than sits in the listing after only strictly older `.zip` files. |
| `LocalStore.LatestFrom` | main.py:45 | Python's `max` fold keeps the first file of greatest modification time. |
| `LocalStore.LatestUnique` | main.py:45 | That choice is the only index with both properties. |
| `LocalStore.GetLatest` | main.py:38-46 | There is a 404 if and only if no `.zip` file exists. Otherwise the served file is a listed `.zip` file, no `.zip` file is newer, and it appears in the listing after only strictly older `.zip` files. |
| `LocalStore.UploadThenLatest` | main.py:23-46 | After an accepted upload that is newer than every stored `.zip`, the latest file is the one just stored, in any listing order. |
| `LocalStore.ServedNameRoundTrip` | main.py:46 | The download clients read back a URL-safe served name exactly. |
| `Flow.UploadThenDownload` | client_download.py:18-52 | After such an upload, `download_latest` saves exactly the uploaded bytes under `downloaded_<timestamp>_<name>` and reports their count. |

## Left out

- HTTP, FastAPI and `requests` plumbing are not modelled: routing, JSON encoding, streaming and headers. A response is modelled by its status, its `Content-Disposition` header and its body pieces.
- Printing to stdout and the progress output are not modelled. The `Failed(reason)` strings stand in for the printed exception text.
- The server's chunk handler behind `/test1` is not part of this model. `ChunkUpload.Reassemble` is a receiver written as a specification, not the server's code.
- Base64.Decode: the strict canonical decoder is the specification partner of `b64encode`. It is not code from these files.
- ChunkUpload.TotalChunks: `math.ceil(file_size / CHUNK_SIZE)` uses float division. It is modelled as integer ceiling, which is exact for every size below 2^53 bytes.
- ChunkUpload.UploadFile: a path that exists but cannot be read, such as a directory, raises outside the `try`. This is not modelled.
- ChunkUpload.UploadFile: the server's JSON reply is not read; the upload only depends on whether each post raised.
- Paths.BaseName, Paths.PathName: POSIX paths only. Windows separators and drive letters are not modelled.
- Download.DownloadLatest: creating and writing the local file is assumed to succeed. The code's `except Exception` also catches a failed `open`, for example a header name `sub/x.zip` with no `downloaded_sub/` directory, and an error raised by `iter_content` in the middle of the stream. Those failures are not modelled.
- ClientDownload.DownloadFile: creating and writing the local file is assumed to succeed, as for `Download.DownloadLatest`.
- ClientDownload.RequestUrl: the target is inserted into the URL without escaping, as in the source. Percent-encoding is not modelled.
- LocalStore.ServedNameRoundTrip: only names that URL quoting leaves unchanged are covered. For other names Starlette sends `filename*=utf-8''...`, and that quoting is not modelled.
- LocalStore.Upload: a missing multipart file name (`None`) is not modelled; the file name is always a string. A name with `/` is modelled as a 500, because `open` fails on the missing directory. Other operating-system failures are left out.
- LocalStore.GetLatest: modification times are whole seconds. Files other than uploads in the directory are not modelled.
- BlobUpload.UploadFile: `backup.py` uses `app`, `UPLOAD_DIR` and `CHUNK_SIZE` without defining them. The model assumes they exist and takes the chunk size as a parameter. A failure to unlink the temporary file is swallowed and not modelled, and the file is always removed.
- BlobUpload.UploadFile: opening, writing and reading the temporary file are assumed to succeed. A failure there would give 500 with no `put`, and that path is not modelled.
- BlobUpload.UploadFile: the object store is an outside service, modelled by the `put` call it receives and its reply.
- BlobUpload.Describe: the text of `str(HTTPException)` is taken as `"<status>: <detail>"`, as current Starlette produces.
- The root, health and `/stream` routes of `main.py` carry no logic of their own and are not modelled.
- Environment and token loading in `backup.py` are not modelled.
- `verify_partial.py` and `verify_upload.py` are not part of this model.

## Findings

| source | as written | input that shows it | evidently intended | confidence | as-written member | corrected member |
|---|---|---|---|---|---|---|
| client_download.py:32 | `time` is never imported. Building the fallback name raises `NameError`, the outer `except` prints it, and nothing is saved. | A 200 response with no `Content-Disposition` header | Save the body as `downloaded_downloaded_<now>.bin` | high; not executed | `Download.DownloadLatestAsWritten` | `Download.DownloadLatest` |
| client/client_download.py:36 | The same missing `import time`, in the second client | A 200 response for `/latest` with no `Content-Disposition` header | Save the body under the fallback name | high; not executed | `ClientDownload.DownloadFileAsWritten` | `ClientDownload.DownloadFile` |
| backup.py:68-75 | The 400 errors for a missing header or an empty body are raised inside the `try`. The catch-all turns them into 500 `Upload failed: 400: ...`. | A request without an `X-Filename` header | Answer 400 `Missing X-Filename header` | medium; not executed | `BlobUpload.UploadBinaryAsWritten` | `BlobUpload.UploadBinary` |
