/** The per-job downloader (downloadFile). The network and the disk are inputs:
    the response to the GET, whether the destination file could be created,
    and the trace of reads from the body with the outcome of each write. */
module Download {
  import opened Models
  import Decimal

  const StatusOK := 200
  /** The read buffer holds 32 KiB, so no read returns more. */
  const BufferSize := 32 * 1024
  const Mebibyte := 1024 * 1024
  const DownloadDir := "Downloads"

  /** How the destination name is derived from the base of the resolved
      request path: src/download.go prefixes the decimal job ID and a '-',
      the older cmd/main.go uses the base alone. */
  datatype Naming = IdPrefixed | BaseOnly

  /** The base-only name is the base itself. The ID-prefixed name is the
      rendered ID, a '-' and the base, and splits back into those parts. */
  function FileName(naming: Naming, id: int, base: string): (name: string)
    ensures naming == BaseOnly ==> name == base
    ensures naming == IdPrefixed ==>
      var p := Decimal.Itoa(id);
      |name| == |p| + 1 + |base| &&
      name[..|p|] == p && name[|p|] == '-' && name[|p| + 1..] == base
  {
    match naming
    case IdPrefixed => Decimal.Itoa(id) + "-" + base
    case BaseOnly => base
  }

  /** The destination path under the downloads directory; the name can be
      read back from it. */
  function DestPath(name: string): (path: string)
    ensures |path| == |DownloadDir| + 1 + |name|
    ensures path[..|DownloadDir| + 1] == DownloadDir + "/"
    ensures path[|DownloadDir| + 1..] == name
  {
    DownloadDir + "/" + name
  }

  /** The result of http.Get: an error, or a response with its status code,
      the base name of the resolved URL path and the declared ContentLength
      (-1 when the server did not declare one). */
  datatype Response = RequestError | Response(status: int, base: string, contentLength: int)

  type ChunkLength = n: nat | n <= BufferSize

  /** The error a body read returns alongside its byte count. */
  datatype ReadStatus = NoError | EOF | ReadError

  /** One read of the body, and whether writing those n bytes to the
      destination file would succeed (only consulted when the loop writes). */
  datatype Chunk = Chunk(n: ChunkLength, status: ReadStatus, writeOk: bool)

  /** Which return the downloader took. Streaming means the trace ended
      before the body reported its end; the job is still downloading. */
  datatype Outcome =
    | RequestFailed
    | BadStatus(code: int)
    | CreateFailed
    | ReadFailed
    | WriteFailed
    | Completed
    | Streaming

  /** A chunk after which the loop goes on: the read did not fail, it
      returned bytes, and they were written. */
  predicate Continues(c: Chunk) {
    c.status != ReadError && c.n != 0 && c.writeOk
  }

  /** The number of loop iterations that complete: the index of the first
      chunk that ends the loop, or the whole trace. */
  function Stop(body: seq<Chunk>): (k: nat)
    ensures k <= |body|
    ensures forall j :: 0 <= j < k ==> Continues(body[j])
    ensures k < |body| ==> !Continues(body[k])
  {
    if body == [] || !Continues(body[0]) then 0 else 1 + Stop(body[1..])
  }

  /** The bytes of a run of chunks. */
  function Downloaded(chunks: seq<Chunk>): nat {
    if chunks == [] then 0 else Downloaded(chunks[..|chunks| - 1]) + chunks[|chunks| - 1].n
  }

  /** How the loop ends when chunk k is the first that does not continue. */
  function EndOf(body: seq<Chunk>, k: nat): Outcome
    requires k <= |body|
  {
    if k == |body| then Streaming
    else if body[k].status == ReadError then ReadFailed
    else if body[k].n == 0 then Completed
    else WriteFailed
  }

  /** bytes / 1024 / 1024 with Go's truncating division: whole mebibytes. */
  function MegaBytes(bytes: nat): (mb: nat)
    ensures mb * Mebibyte <= bytes < (mb + 1) * Mebibyte
  {
    bytes / 1024 / 1024
  }

  /** The completion percentage, truncated: an integer stand-in for
      int(float64(done) / float64(total) * 100). */
  function Percent(done: nat, total: nat): (p: nat)
    requires total > 0
    ensures p * total <= done * 100 < (p + 1) * total
  {
    done * 100 / total
  }

  /** An outcome together with the job's fields afterwards. */
  datatype Effect = Effect(outcome: Outcome, file: FileRecord)

  /** The job's fields once the chunks `done` have been read, written and
      counted: with a declared length, Size is that length in megabytes and
      Progress the share received; without one, Size is the megabytes
      received so far and Progress is left alone. */
  function Accounted(f: FileRecord, total: int, done: seq<Chunk>): FileRecord {
    var bytes := Downloaded(done);
    if total > 0 then
      f.(size := MegaBytes(total), progress := if done == [] then f.progress else Percent(bytes, total))
    else
      f.(size := if done == [] then f.size else MegaBytes(bytes))
  }

  /** The copy phase, entered once the destination file exists. */
  function Copied(f: FileRecord, total: int, body: seq<Chunk>, now: int): Effect {
    var k := Stop(body);
    var g := Accounted(f, total, body[..k]);
    var outcome := EndOf(body, k);
    if outcome == Completed
    then Effect(Completed, g.(isDone := true, finishedAt := At(now)))
    else Effect(outcome, g)
  }

  /** What downloadFile does to a job whose fields are f. */
  function Expected(naming: Naming, f: FileRecord, resp: Response, created: bool,
                    body: seq<Chunk>, now: int): Effect
  {
    match resp
    case RequestError => Effect(RequestFailed, f)
    case Response(status, base, total) =>
      if status != StatusOK then Effect(BadStatus(status), f)
      else if !created then Effect(CreateFailed, f.(name := FileName(naming, f.id, base)))
      else Copied(f.(name := FileName(naming, f.id, base)), total, body, now)
  }

  lemma DownloadedStep(chunks: seq<Chunk>, i: nat)
    requires i < |chunks|
    ensures Downloaded(chunks[..i + 1]) == Downloaded(chunks[..i]) + chunks[i].n
  {
    assert chunks[..i + 1][..i] == chunks[..i];
  }

  /** downloadFile: fetch, name the job, create the destination, then copy the
      body (CopyBody). `now` is the clock reading taken at completion. */
  method DownloadFile(file: File, naming: Naming, resp: Response, created: bool,
                      body: seq<Chunk>, now: int)
    returns (outcome: Outcome)
    modifies file
    ensures Effect(outcome, file.Record()) == Expected(naming, old(file.Record()), resp, created, body, now)
  {
    if resp.RequestError? {
      return RequestFailed;
    }
    if resp.status != StatusOK {
      return BadStatus(resp.status);
    }
    file.name := FileName(naming, file.id, resp.base);
    if !created {
      return CreateFailed;
    }
    outcome := CopyBody(file, resp.contentLength, body, now);
  }

  /** The copy loop of downloadFile: with a declared length the size is set
      first; then each chunk is read, written and counted, updating Progress
      (declared length) or Size (no declared length), until a read returns no
      bytes, which marks the job done, or a read or write fails. */
  method CopyBody(file: File, total: int, body: seq<Chunk>, now: int) returns (outcome: Outcome)
    modifies file
    ensures Effect(outcome, file.Record()) == Copied(old(file.Record()), total, body, now)
  {
    ghost var named := file.Record();
    var downloaded: nat := 0;
    var sizeKnown := total > 0;
    if sizeKnown {
      file.size := MegaBytes(total);
    }
    var i := 0;
    while i < |body|
      invariant 0 <= i <= |body|
      invariant forall j :: 0 <= j < i ==> Continues(body[j])
      invariant downloaded == Downloaded(body[..i])
      invariant file.Record() == Accounted(named, total, body[..i])
    {
      var chunk := body[i];
      if chunk.status == ReadError {
        assert Stop(body) == i;
        return ReadFailed;
      }
      if chunk.n == 0 {
        break;
      }
      if !chunk.writeOk {
        assert Stop(body) == i;
        return WriteFailed;
      }
      DownloadedStep(body, i);
      downloaded := downloaded + chunk.n;
      if sizeKnown {
        file.progress := Percent(downloaded, total);
      } else {
        file.size := MegaBytes(downloaded);
      }
      i := i + 1;
    }
    assert Stop(body) == i;
    if i == |body| {
      return Streaming;
    }
    file.isDone := true;
    file.finishedAt := At(now);
    outcome := Completed;
  }
}
