/** The upload client (`client_upload.py`): it reads a local file in 100 KiB
    pieces and posts each one, base 64 encoded, as a JSON chunk numbered from
    1, flagging the first and the last, and stops at the first failed post. */
module ChunkUpload {
  import opened Common
  import Base64
  import Paths

  /** Bytes per piece: `100 * 1024`. */
  const ChunkSize: nat := 100 * 1024

  /** The JSON body of one chunk request. */
  datatype Payload = Payload(
    data: string,
    chunkNumber: nat,
    totalChunks: nat,
    fileName: string,
    isStarted: bool,
    isCompleted: bool)

  /** `math.ceil(file_size / CHUNK_SIZE)`: the least number of pieces of at
      most `ChunkSize` bytes that hold `fileSize` bytes. */
  function TotalChunks(fileSize: nat): (n: nat)
    ensures n * ChunkSize >= fileSize
    ensures n > 0 ==> (n - 1) * ChunkSize < fileSize
  {
    (fileSize + ChunkSize - 1) / ChunkSize
  }

  /** What successive `f.read(CHUNK_SIZE)` calls return before the first
      empty read; joined in order they give back the whole file. */
  function Pieces(data: seq<Byte>): (r: seq<seq<Byte>>)
    ensures Concat(r) == data
    decreases |data|
  {
    if |data| == 0 then []
    else
      var n := Min(ChunkSize, |data|);
      assert data == data[..n] + data[n..];
      [data[..n]] + Pieces(data[n..])
  }

  /** Taking one full piece off a file leaves one chunk fewer. */
  lemma TotalChunksStep(m: nat)
    requires m > 0
    ensures m <= ChunkSize ==> TotalChunks(m) == 1
    ensures m > ChunkSize ==> TotalChunks(m) == 1 + TotalChunks(m - ChunkSize)
  {
  }

  /** There are `TotalChunks(|data|)` pieces, none empty, none longer than
      `ChunkSize`, and all but the last exactly `ChunkSize` long. */
  lemma {:induction false} PiecesShape(data: seq<Byte>)
    ensures |Pieces(data)| == TotalChunks(|data|)
    ensures forall i :: 0 <= i < |Pieces(data)| ==> 0 < |Pieces(data)[i]| <= ChunkSize
    ensures forall i :: 0 <= i < |Pieces(data)| - 1 ==> |Pieces(data)[i]| == ChunkSize
    decreases |data|
  {
    if |data| > 0 {
      var n := Min(ChunkSize, |data|);
      var tail := Pieces(data[n..]);
      var r := Pieces(data);
      PiecesShape(data[n..]);
      TotalChunksStep(|data|);
      assert r == [data[..n]] + tail;
      forall i | 0 < i < |r|
        ensures r[i] == tail[i - 1]
      {
      }
    }
  }

  /** The requests for `pieces` when the first of them is numbered `first`:
      each is flagged as started when its number is 1 and as completed when
      its number is `total`, exactly as the client's loop computes them. */
  function Requests(pieces: seq<seq<Byte>>, first: nat, total: nat, fileName: string): (r: seq<Payload>)
    ensures |r| == |pieces|
    decreases |pieces|
  {
    if |pieces| == 0 then []
    else [Payload(Base64.Encode(pieces[0]), first, total, fileName, first == 1, first == total)]
         + Requests(pieces[1..], first + 1, total, fileName)
  }

  /** The chunk requests an upload of `data` under `fileName` posts when
      every post succeeds. */
  function Plan(data: seq<Byte>, fileName: string): seq<Payload>
  {
    Requests(Pieces(data), 1, TotalChunks(|data|), fileName)
  }

  lemma {:induction false} RequestsAt(pieces: seq<seq<Byte>>, first: nat, total: nat, fileName: string, i: nat)
    requires i < |pieces|
    ensures Requests(pieces, first, total, fileName)[i]
         == Payload(Base64.Encode(pieces[i]), first + i, total, fileName, first + i == 1, first + i == total)
    decreases i
  {
    if i > 0 {
      RequestsAt(pieces[1..], first + 1, total, fileName, i - 1);
    }
  }

  /** The request for the piece at index `i`. */
  lemma PlanAt(data: seq<Byte>, fileName: string, i: nat)
    requires i < |Pieces(data)|
    ensures i < |Plan(data, fileName)|
    ensures Plan(data, fileName)[i]
         == Payload(Base64.Encode(Pieces(data)[i]), i + 1, TotalChunks(|data|), fileName,
                    i + 1 == 1, i + 1 == TotalChunks(|data|))
  {
    RequestsAt(Pieces(data), 1, TotalChunks(|data|), fileName, i);
  }

  /** The shape of a complete plan: one request per piece, numbered 1..n,
      every request carrying the same total and file name, `isStarted` on
      exactly the first, `isCompleted` on exactly the last, and `data`
      decoding to exactly that piece. */
  lemma PlanShape(data: seq<Byte>, fileName: string)
    ensures |Plan(data, fileName)| == TotalChunks(|data|)
    ensures |Plan(data, fileName)| == 0 <==> |data| == 0
    ensures forall i :: 0 <= i < |Plan(data, fileName)| ==>
              var p := Plan(data, fileName)[i];
              && p.chunkNumber == i + 1
              && p.totalChunks == |Plan(data, fileName)|
              && p.fileName == fileName
              && (p.isStarted <==> i == 0)
              && (p.isCompleted <==> i == |Plan(data, fileName)| - 1)
              && Base64.Decode(p.data) == Some(Pieces(data)[i])
  {
    var plan := Plan(data, fileName);
    PiecesShape(data);
    forall i | 0 <= i < |plan|
      ensures plan[i] == Payload(Base64.Encode(Pieces(data)[i]), i + 1, |plan|, fileName, i == 0, i == |plan| - 1)
      ensures Base64.Decode(plan[i].data) == Some(Pieces(data)[i])
    {
      PlanAt(data, fileName, i);
      Base64.DecodeEncode(Pieces(data)[i]);
    }
  }

  /** A one-piece file (1 to 102400 bytes) is sent as a single request that
      both starts and completes the upload. */
  lemma SinglePiece(data: seq<Byte>, fileName: string)
    requires 0 < |data| <= ChunkSize
    ensures |Plan(data, fileName)| == 1
    ensures Plan(data, fileName)[0].isStarted && Plan(data, fileName)[0].isCompleted
    ensures Plan(data, fileName)[0].data == Base64.Encode(data)
  {
    PiecesShape(data);
    assert data[..|data|] == data;
    assert Pieces(data[|data|..]) == [];
    assert Pieces(data) == [data];
    PlanAt(data, fileName, 0);
  }

  /** Receiving side, as a specification only (the server's chunk handler is
      not part of this model): decode every `data` field and append the
      results in the order the requests arrive. */
  function Reassemble(payloads: seq<Payload>): Option<seq<Byte>>
  {
    if |payloads| == 0 then Some([])
    else match Base64.Decode(payloads[0].data)
      case None => None
      case Some(head) =>
        match Reassemble(payloads[1..])
        case None => None
        case Some(tail) => Some(head + tail)
  }

  lemma {:induction false} ReassembleEncoded(payloads: seq<Payload>, pieces: seq<seq<Byte>>)
    requires |payloads| == |pieces|
    requires forall i :: 0 <= i < |payloads| ==> payloads[i].data == Base64.Encode(pieces[i])
    ensures Reassemble(payloads) == Some(Concat(pieces))
    decreases |payloads|
  {
    if |payloads| > 0 {
      Base64.DecodeEncode(pieces[0]);
      ReassembleEncoded(payloads[1..], pieces[1..]);
    }
  }

  /** Appending the decoded payloads in `chunkNumber` order rebuilds the file
      exactly: nothing lost, duplicated or reordered. */
  lemma ReassemblePlan(data: seq<Byte>, fileName: string)
    ensures Reassemble(Plan(data, fileName)) == Some(data)
  {
    forall i | 0 <= i < |Pieces(data)|
      ensures Plan(data, fileName)[i].data == Base64.Encode(Pieces(data)[i])
    {
      PlanAt(data, fileName, i);
    }
    ReassembleEncoded(Plan(data, fileName), Pieces(data));
  }

  datatype Outcome =
    | FileMissing              // the path does not exist: nothing is sent
    | Finished                 // every request succeeded
    | Stopped(failed: nat)     // the request for this chunk number failed

  /** No request numbered 1 to `n` fails. */
  predicate NoneFail(failing: set<nat>, n: int)
  {
    forall k :: 1 <= k <= n ==> k !in failing
  }

  /** One more request that does not fail extends the run of successes. */
  lemma NoneFailStep(failing: set<nat>, n: nat)
    requires NoneFail(failing, n - 1) && n !in failing
    ensures NoneFail(failing, n)
  {
  }

  /** The requests posted, in order, and how the run ended. */
  datatype Run = Run(sent: seq<Payload>, outcome: Outcome)

  /** The read-and-post loop of `upload_file` for a file's content `data`,
      with `total` announced in every request. The reads return the pieces
      of `Pieces(data)` in order; the loop posts their requests, numbered
      from 1, and stops right after the first whose number is in `failing`,
      returning that number as `stoppedAt`. */
  method SendAll(data: seq<Byte>, total: nat, name: string, failing: set<nat>)
    returns (sent: seq<Payload>, stoppedAt: Option<nat>)
    ensures StartsWith(Requests(Pieces(data), 1, total, name), sent)
    ensures stoppedAt.None? ==>
              sent == Requests(Pieces(data), 1, total, name) && NoneFail(failing, |sent|)
    ensures stoppedAt.Some? ==>
              && stoppedAt.value in failing
              && stoppedAt.value >= 1
              && |sent| == stoppedAt.value
              && sent[|sent| - 1].chunkNumber == stoppedAt.value
              && NoneFail(failing, stoppedAt.value - 1)
  {
    var pieces := Pieces(data);
    ghost var plan := Requests(pieces, 1, total, name);
    sent := [];
    var i := 0;
    while i < |pieces|
      invariant i <= |pieces|
      invariant sent == plan[..i]
      invariant NoneFail(failing, i)
    {
      var chunkNumber := i + 1;
      var payload := Payload(Base64.Encode(pieces[i]), chunkNumber, total, name,
                             chunkNumber == 1, chunkNumber == total);
      RequestsAt(pieces, 1, total, name, i);
      assert plan[..i + 1] == plan[..i] + [payload];
      sent := sent + [payload];
      if chunkNumber in failing {
        return sent, Some(chunkNumber);
      }
      NoneFailStep(failing, chunkNumber);
      i := i + 1;
    }
    assert plan[..i] == plan;
    return sent, None;
  }

  /** `upload_file(file_path)`. `file` is the file's content, or `None` when
      the path does not exist; `failing` holds the chunk numbers whose post
      raises a `RequestException` (a transport error or an error status). */
  method UploadFile(path: string, file: Option<seq<Byte>>, failing: set<nat>) returns (run: Run)
    ensures file.None? ==> run == Run([], FileMissing)
    ensures file.Some? ==> run.outcome != FileMissing
                           && StartsWith(Plan(file.value, Paths.BaseName(path)), run.sent)
    ensures run.outcome == Finished ==>
              && file.Some?
              && run.sent == Plan(file.value, Paths.BaseName(path))
              && NoneFail(failing, |run.sent|)
    ensures run.outcome.Stopped? ==>
              && run.outcome.failed in failing
              && run.outcome.failed >= 1
              && |run.sent| == run.outcome.failed
              && run.sent[|run.sent| - 1].chunkNumber == run.outcome.failed
              && NoneFail(failing, run.outcome.failed - 1)
  {
    if file.None? {
      run := Run([], FileMissing);
    } else {
      var name := Paths.BaseName(path);
      var sent, stoppedAt := SendAll(file.value, TotalChunks(|file.value|), name, failing);
      assert StartsWith(Plan(file.value, name), sent);
      if stoppedAt.Some? {
        var failed := stoppedAt.value;
        assert |sent| == failed && sent[|sent| - 1].chunkNumber == failed;
        run := Run(sent, Stopped(failed));
      } else {
        assert sent == Plan(file.value, name);
        run := Run(sent, Finished);
      }
    }
  }
}
