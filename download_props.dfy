/** What downloadFile promises, stated about its specification Expected and
    proved for every response, create result and read trace. */
module DownloadProperties {
  import opened Models
  import opened Download
  import Decimal

  // ---------------------------------------------------------------- numbers

  lemma MulStrictCancel(x: int, y: int, d: int)
    requires d > 0 && d * x < d * y
    ensures x < y
  {
  }

  lemma DivMonotone(a: nat, b: nat, d: nat)
    requires a <= b && d > 0
    ensures a / d <= b / d
  {
    assert d * (a / d) <= a;
    assert b < d * (b / d + 1);
    MulStrictCancel(a / d, b / d + 1, d);
  }

  /** Size in megabytes never goes down as bytes arrive. */
  lemma MegaBytesMonotone(a: nat, b: nat)
    requires a <= b
    ensures MegaBytes(a) <= MegaBytes(b)
  {
    DivMonotone(a, b, 1024);
    DivMonotone(a / 1024, b / 1024, 1024);
  }

  /** Progress never goes down as bytes arrive. */
  lemma PercentMonotone(a: nat, b: nat, total: nat)
    requires a <= b && total > 0
    ensures Percent(a, total) <= Percent(b, total)
  {
    DivMonotone(a * 100, b * 100, total);
  }

  /** Progress is 0 with nothing received and 100 with exactly the declared
      length received, and no more than 100 in between. */
  lemma PercentBounds(done: nat, total: nat)
    requires total > 0
    ensures Percent(0, total) == 0
    ensures Percent(total, total) == 100
    ensures done <= total ==> Percent(done, total) <= 100
  {
    var p := Percent(total, total);
    assert total * p < total * 101;
    MulStrictCancel(p, 101, total);
    assert total * 100 < total * (p + 1);
    MulStrictCancel(100, p + 1, total);
    if done <= total {
      PercentMonotone(done, total, total);
    }
  }

  // ------------------------------------------------------------- the trace

  /** The bytes counted grow with the number of chunks counted. */
  lemma {:induction false} DownloadedMonotone(s: seq<Chunk>, i: nat, j: nat)
    requires i <= j <= |s|
    ensures Downloaded(s[..i]) <= Downloaded(s[..j])
  {
    if i < j {
      DownloadedMonotone(s, i, j - 1);
      DownloadedStep(s, j - 1);
    }
  }

  /** Each read returns at most the 32 KiB buffer, so k chunks carry at most
      k * 32 KiB bytes. */
  lemma {:induction false} DownloadedBound(chunks: seq<Chunk>)
    ensures Downloaded(chunks) <= |chunks| * BufferSize
  {
    if chunks != [] {
      DownloadedBound(chunks[..|chunks| - 1]);
    }
  }

  /** Cutting the trace after i completed iterations gives the state the job
      is in at that moment: the loop is still running. */
  lemma StopOfPrefix(body: seq<Chunk>, i: nat)
    requires i <= Stop(body)
    ensures Stop(body[..i]) == i
    ensures EndOf(body[..i], i) == Streaming
  {
  }

  // ------------------------------------------------------------ error paths

  /** A failed request or a status other than 200 returns before touching
      any field. */
  lemma FetchFailureChangesNothing(naming: Naming, f: FileRecord, resp: Response, created: bool,
                                   body: seq<Chunk>, now: int)
    requires resp.RequestError? || resp.status != StatusOK
    ensures Expected(naming, f, resp, created, body, now).file == f
    ensures Expected(naming, f, resp, created, body, now).outcome
            == if resp.RequestError? then RequestFailed else BadStatus(resp.status)
  {
  }

  /** Once the response is 200 the job is named, and its ID, URL and start
      time are never changed. */
  lemma NamedOnSuccess(naming: Naming, f: FileRecord, resp: Response, created: bool,
                       body: seq<Chunk>, now: int)
    requires resp.Response? && resp.status == StatusOK
    ensures var g := Expected(naming, f, resp, created, body, now).file;
      g.name == FileName(naming, f.id, resp.base) &&
      g.id == f.id && g.url == f.url && g.startedAt == f.startedAt
  {
  }

  /** IsDone is set, together with FinishedAt, exactly when the loop leaves
      through a zero-length read; every error return and an unfinished
      stream leave both as they were. */
  lemma DoneExactlyAtEndOfStream(naming: Naming, f: FileRecord, resp: Response, created: bool,
                                 body: seq<Chunk>, now: int)
    ensures var e := Expected(naming, f, resp, created, body, now);
      var k := Stop(body);
      (e.outcome == Completed <==>
         resp.Response? && resp.status == StatusOK && created &&
         k < |body| && body[k].status != ReadError && body[k].n == 0) &&
      e.file.isDone == (f.isDone || e.outcome == Completed) &&
      e.file.finishedAt == (if e.outcome == Completed then At(now) else f.finishedAt)
  {
  }

  /** The outcome is one of the early returns exactly when the matching
      step failed first. */
  lemma ErrorReturns(naming: Naming, f: FileRecord, resp: Response, created: bool,
                     body: seq<Chunk>, now: int)
    requires resp.Response? && resp.status == StatusOK
    ensures var e := Expected(naming, f, resp, created, body, now);
      var k := Stop(body);
      (e.outcome == CreateFailed <==> !created) &&
      (e.outcome == ReadFailed <==> created && k < |body| && body[k].status == ReadError) &&
      (e.outcome == WriteFailed <==>
         created && k < |body| && body[k].status != ReadError && body[k].n != 0 && !body[k].writeOk)
  {
  }

  // ------------------------------------------------------- size and progress

  /** With a declared length (ContentLength > 0) Size is that length in whole
      megabytes whatever the body brings, and Progress is the share of it
      received once a chunk has arrived. */
  lemma KnownSize(naming: Naming, f: FileRecord, resp: Response, body: seq<Chunk>, now: int)
    requires resp.Response? && resp.status == StatusOK && resp.contentLength > 0
    ensures var g := Expected(naming, f, resp, true, body, now).file;
      var k := Stop(body);
      g.size == MegaBytes(resp.contentLength) &&
      g.progress == if k == 0 then f.progress else Percent(Downloaded(body[..k]), resp.contentLength)
  {
  }

  /** Without a declared length (ContentLength 0 or -1) Progress is never
      touched and Size is the megabytes received so far. */
  lemma UnknownSize(naming: Naming, f: FileRecord, resp: Response, body: seq<Chunk>, now: int)
    requires resp.Response? && resp.status == StatusOK && resp.contentLength <= 0
    ensures var g := Expected(naming, f, resp, true, body, now).file;
      var k := Stop(body);
      g.progress == f.progress &&
      g.size == if k == 0 then f.size else MegaBytes(Downloaded(body[..k]))
  {
  }

  /** Observed at any two moments of one run (after i and after j completed
      iterations), a freshly created job's Size and Progress never go down. */
  lemma SizeAndProgressNeverDecrease(naming: Naming, f: FileRecord, resp: Response,
                                     body: seq<Chunk>, now: int, i: nat, j: nat)
    requires f.size == 0 && f.progress == 0
    requires i <= j <= Stop(body)
    ensures var gi := Expected(naming, f, resp, true, body[..i], now).file;
      var gj := Expected(naming, f, resp, true, body[..j], now).file;
      gi.size <= gj.size && gi.progress <= gj.progress
  {
    StopOfPrefix(body, i);
    StopOfPrefix(body, j);
    assert body[..j][..j] == body[..j];
    assert body[..i][..i] == body[..i];
    assert body[..j][..i] == body[..i];
    DownloadedMonotone(body[..j], i, j);
    MegaBytesMonotone(Downloaded(body[..i]), Downloaded(body[..j]));
    if resp.Response? && resp.contentLength > 0 {
      PercentMonotone(Downloaded(body[..i]), Downloaded(body[..j]), resp.contentLength);
    }
  }

  /** With a declared length, a completed job shows 100 percent when the body
      carried exactly that many bytes, and never more than 100 when it
      carried no more. */
  lemma CompletedProgress(naming: Naming, f: FileRecord, resp: Response, body: seq<Chunk>, now: int)
    requires resp.Response? && resp.status == StatusOK && resp.contentLength > 0
    requires Expected(naming, f, resp, true, body, now).outcome == Completed
    requires Stop(body) > 0
    ensures var g := Expected(naming, f, resp, true, body, now).file;
      var bytes := Downloaded(body[..Stop(body)]);
      g.isDone &&
      (bytes == resp.contentLength ==> g.progress == 100) &&
      (bytes <= resp.contentLength ==> g.progress <= 100)
  {
    PercentBounds(Downloaded(body[..Stop(body)]), resp.contentLength);
  }

  /** A body as net/http delivers it for a declared length: a read that
      ends the stream without error comes only once exactly that many bytes
      have been counted (a short body ends in a read error instead). */
  predicate DeclaredLengthBody(total: int, body: seq<Chunk>) {
    var k := Stop(body);
    k < |body| && body[k].status != ReadError && body[k].n == 0 ==>
      Downloaded(body[..k]) == total
  }

  /** With such a body, a completed known-size job shows exactly 100 percent. */
  lemma CompletedDeclaredLengthIsFull(naming: Naming, f: FileRecord, resp: Response,
                                      body: seq<Chunk>, now: int)
    requires resp.Response? && resp.status == StatusOK && resp.contentLength > 0
    requires DeclaredLengthBody(resp.contentLength, body)
    requires Expected(naming, f, resp, true, body, now).outcome == Completed
    ensures Expected(naming, f, resp, true, body, now).file.isDone
    ensures Expected(naming, f, resp, true, body, now).file.progress == 100
  {
    CompletedProgress(naming, f, resp, body, now);
  }

  /** The whole of net/http's Content-Length handling: besides the above,
      the body never yields more than the declared length, and the read
      that follows the last declared byte returns no bytes and no error. */
  predicate CappedDeclaredLengthBody(total: int, body: seq<Chunk>) {
    var k := Stop(body);
    DeclaredLengthBody(total, body) &&
    Downloaded(body[..k]) <= total &&
    (k < |body| && Downloaded(body[..k]) == total ==> body[k].n == 0 && body[k].status != ReadError)
  }

  /** With such a body, a known-size job that starts below 100 percent and not
      done ends its run at exactly 100 percent if and only if it completes,
      and so if and only if it is marked done. */
  lemma FullExactlyWhenCompleted(naming: Naming, f: FileRecord, resp: Response,
                                 body: seq<Chunk>, now: int)
    requires resp.Response? && resp.status == StatusOK && resp.contentLength > 0
    requires CappedDeclaredLengthBody(resp.contentLength, body)
    requires f.progress < 100 && !f.isDone
    requires Expected(naming, f, resp, true, body, now).outcome != Streaming
    ensures var e := Expected(naming, f, resp, true, body, now);
      (e.file.progress == 100) == (e.outcome == Completed)
    ensures var e := Expected(naming, f, resp, true, body, now);
      (e.file.progress == 100) == e.file.isDone
  {
    var e := Expected(naming, f, resp, true, body, now);
    var k := Stop(body);
    var total := resp.contentLength;
    if e.outcome == Completed {
      CompletedDeclaredLengthIsFull(naming, f, resp, body, now);
    } else if k > 0 {
      var bytes := Downloaded(body[..k]);
      assert bytes < total;
      var p := Percent(bytes, total);
      assert total * p < total * 100;
      MulStrictCancel(p, 100, total);
    }
  }

  // -------------------------------------------------------------- scenarios

  /** k full buffers followed by an end-of-stream read. */
  function FullBuffers(k: nat): (body: seq<Chunk>)
    ensures |body| == k + 1
  {
    seq(k, _ => Chunk(BufferSize, NoError, true)) + [Chunk(0, EOF, true)]
  }

  lemma {:induction false} FullBuffersCount(k: nat, i: nat)
    requires i <= k
    ensures Downloaded(FullBuffers(k)[..i]) == i * BufferSize
  {
    if i > 0 {
      FullBuffersCount(k, i - 1);
      DownloadedStep(FullBuffers(k), i - 1);
    }
  }

  lemma FullBuffersStop(k: nat)
    ensures Stop(FullBuffers(k)) == k
  {
    var body := FullBuffers(k);
    assert forall j :: 0 <= j < k ==> Continues(body[j]);
    assert !Continues(body[k]);
  }

  /** A declared length of 1 MiB delivered as 32 reads of 32 KiB and then
      end of stream: Size 1, Progress 100, done. */
  lemma OneMebibyteInThirtyTwoChunks(naming: Naming, f: FileRecord, base: string, now: int)
    ensures var e := Expected(naming, f, Response(200, base, 1048576), true, FullBuffers(32), now);
      e.outcome == Completed && e.file.size == 1 && e.file.progress == 100 &&
      e.file.isDone && e.file.finishedAt == At(now)
  {
    FullBuffersStop(32);
    FullBuffersCount(32, 32);
  }

  /** A 404 leaves a new job unnamed, at 0 percent and not done. */
  lemma NotFoundLeavesJobPending(naming: Naming, id: int, url: string, started: Time,
                                 base: string, body: seq<Chunk>, now: int)
    ensures var e := Expected(naming, FileRecord(id, url, "", started, Zero, 0, 0, false),
                              Response(404, base, -1), true, body, now);
      e.outcome == BadStatus(404) && e.file.name == "" && e.file.progress == 0 && !e.file.isDone
  {
  }

  /** A read that returns bytes together with EOF is still written and
      counted; the next read, returning nothing, ends the download. */
  lemma BytesWithEofAreCounted(naming: Naming, f: FileRecord, base: string, n: ChunkLength, now: int)
    requires n > 0
    ensures var e := Expected(naming, f, Response(200, base, n), true,
                              [Chunk(n, EOF, true), Chunk(0, EOF, true)], now);
      e.outcome == Completed && e.file.progress == 100 && e.file.isDone
  {
    var body := [Chunk(n, EOF, true), Chunk(0, EOF, true)];
    assert Stop(body) == 1;
    assert body[..1] == [Chunk(n, EOF, true)];
    assert Downloaded(body[..1]) == n by {
      assert body[..1][..0] == [];
    }
    PercentBounds(n, n);
  }

  // ----------------------------------------------------------------- naming

  /** An ID-prefixed name determines both the job ID and the base it was
      built from: the first '-' after the optional sign ends the ID. */
  lemma IdPrefixedNameInjective(a: int, b: int, x: string, y: string)
    requires FileName(IdPrefixed, a, x) == FileName(IdPrefixed, b, y)
    ensures a == b && x == y
  {
    var p, q := Decimal.Itoa(a), Decimal.Itoa(b);
    var s := p + "-" + x;
    assert s == q + "-" + y;
    assert |p| == |q| by {
      assert s[|p|] == '-' && s[|q|] == '-';
    }
    assert p == s[..|p|] == q;
    Decimal.ItoaInjective(a, b);
    assert x == s[|p| + 1..] == y;
  }

  /** Distinct names give distinct destination paths. */
  lemma DestPathInjective(n: string, m: string)
    ensures DestPath(n) == DestPath(m) ==> n == m
  {
    var k := |DownloadDir| + 1;
    assert DestPath(n)[k..] == n;
    assert DestPath(m)[k..] == m;
  }

  /** Jobs with distinct IDs never share a name or a destination path. */
  lemma DistinctIdsDistinctNames(a: int, b: int, x: string, y: string)
    requires a != b
    ensures FileName(IdPrefixed, a, x) != FileName(IdPrefixed, b, y)
    ensures DestPath(FileName(IdPrefixed, a, x)) != DestPath(FileName(IdPrefixed, b, y))
  {
    if FileName(IdPrefixed, a, x) == FileName(IdPrefixed, b, y) {
      IdPrefixedNameInjective(a, b, x, y);
    }
    DestPathInjective(FileName(IdPrefixed, a, x), FileName(IdPrefixed, b, y));
  }

  /** With the base-only rule (cmd/main.go), two jobs whose responses resolve
      to the same base end up with the same name and the same destination
      path, whatever their IDs, so the second download overwrites the first. */
  lemma BaseOnlyJobsCollide(f1: FileRecord, f2: FileRecord, base: string,
                            r1: Response, r2: Response, created1: bool, created2: bool,
                            body1: seq<Chunk>, body2: seq<Chunk>, now1: int, now2: int)
    requires r1.Response? && r1.status == StatusOK && r1.base == base
    requires r2.Response? && r2.status == StatusOK && r2.base == base
    ensures var n1 := Expected(BaseOnly, f1, r1, created1, body1, now1).file.name;
      var n2 := Expected(BaseOnly, f2, r2, created2, body2, now2).file.name;
      n1 == n2 == base && DestPath(n1) == DestPath(n2)
  {
    NamedOnSuccess(BaseOnly, f1, r1, created1, body1, now1);
    NamedOnSuccess(BaseOnly, f2, r2, created2, body2, now2);
  }

  /** With the ID-prefixed rule (src/download.go), jobs with different IDs
      never end up with the same name or destination path, even when their
      responses resolve to the same base. */
  lemma IdPrefixedJobsNeverCollide(f1: FileRecord, f2: FileRecord,
                                   r1: Response, r2: Response, created1: bool, created2: bool,
                                   body1: seq<Chunk>, body2: seq<Chunk>, now1: int, now2: int)
    requires f1.id != f2.id
    requires r1.Response? && r1.status == StatusOK
    requires r2.Response? && r2.status == StatusOK
    ensures var n1 := Expected(IdPrefixed, f1, r1, created1, body1, now1).file.name;
      var n2 := Expected(IdPrefixed, f2, r2, created2, body2, now2).file.name;
      n1 != n2 && DestPath(n1) != DestPath(n2)
  {
    NamedOnSuccess(IdPrefixed, f1, r1, created1, body1, now1);
    NamedOnSuccess(IdPrefixed, f2, r2, created2, body2, now2);
    DistinctIdsDistinctNames(f1.id, f2.id, r1.base, r2.base);
  }
}
