# go-file-downloader: job registry and downloader, verified in Dafny

The program is a small download coordinator. `POST /files/add` registers a
URL as a new job (a `File` record with an ID from a global counter) in a
global, ordered list. It then starts `downloadFile` for that job. The
downloader fetches the URL and names the job after the resolved path. It
creates the destination file and copies the body in 32 KiB reads, keeping
`Size` (megabytes) and `Progress` (percent) up to date. It marks the job done
when a read returns no bytes. `GET /files` returns every job's fields.

This project models two sequential cores, with every lock removed:

- **Registry** (`handlers.dfy`, module `Handlers`). The class `Registry` has the
  globals `files` and `nextID`. `AddFile` is `addFile` and `GetFiles` is
  `getFiles`. `Valid()` is the invariant kept from the initial state: entry `i`
  has ID `i + 1`, and `nextID` is one more than the number of entries.
- **Downloader** (`download.dfy`, module `Download`). `DownloadFile` is
  `downloadFile`, a method that updates a `File` object (`models.dfy`) in place.
  It hands the copy loop to the method `CopyBody`. The network and disk are inputs:
  - the outcome of `http.Get`: an error, or a status, the base of the
    resolved path and `ContentLength`;
  - whether `os.Create` succeeds;
  - a finite trace of body reads (byte count, and nil, EOF or another
    error), each with the outcome of the write that follows it.

  The method is proved equal to a closed-form specification, `Expected`,
  built from `Stop`, the number of loop iterations that complete.
  `download_props.dfy` (module `DownloadProperties`) proves the downloader's
  properties about `Expected`.
- `decimal.dfy` (module `Decimal`) renders IDs as `strconv.Itoa` does and
  parses them back. This is what makes ID-prefixed names unique.

`cmd/main.go` is an older copy of the same program. Its registry globals
(cmd/main.go:28-34) match src/main.go:10-16. Its `addFile` (cmd/main.go:48-90)
matches src/handlers.go:20-63 except in response writing: src/handlers.go:60
sets the `Content-Type` header before answering 201 and cmd/main.go:88 does
not. Response writing is not modelled, so `Registry` models both. Its
`downloadFile` (cmd/main.go:166-238) differs in two things. Its name is
`path.Base` alone, with no ID prefix. It takes no per-file lock, and its
`File` (cmd/main.go:17-26) has no `mu` field. Locks are not modelled, so
outside the name the model is the same for both. Its separate `if !sizeKnown`
and `if sizeKnown` updates (cmd/main.go:227-232) do what the if/else of
src/download.go:91-95 does.
`DownloadFile` takes the naming rule as a parameter: `IdPrefixed` for
`src/download.go`, `BaseOnly` for `cmd/main.go`. Every property in
`DownloadProperties` that takes a `naming` argument holds for both copies.

A read trace may end before any read has reported the end of the body. The
outcome is then `Streaming`: the job is still downloading. Cutting a trace after
`i` completed iterations gives the job's fields at that moment of the run.
`SizeAndProgressNeverDecrease` uses this to compare two moments of one run.

Behaviour of the code worth knowing:

- `addFile` accepts any body that decodes; one without `url` gives the URL
  `""` (src/handlers.go:26-34).
- `downloadFile` sets the name as soon as the status is 200, before creating
  the destination, so a job whose file cannot be created keeps its name
  (src/download.go:42-51).
- With no declared length, `downloadFile` never writes `Progress`, which stays
  at the 0 that `addFile` set (src/download.go:91-95).
- `downloadFile` does not compare the bytes received with `ContentLength`
  itself: its loop ends at any zero-length read (src/download.go:76-78). It
  relies on net/http, whose body for a declared length yields at most that
  many bytes and ends a short body with `io.ErrUnexpectedEOF`, a read error
  that returns before `IsDone` is set (src/download.go:72-75). For read
  traces of that shape (`DeclaredLengthBody`) a completed known-size job is
  at exactly 100 percent (`CompletedDeclaredLengthIsFull`).

## Model

| member | source | states |
|---|---|---|
| `Decimal.Digits` | src/download.go:42 | the decimal rendering of a natural number is non-empty, all digits, one character exactly below 10, with no leading zero |
| `Decimal.Itoa` | src/download.go:42 | `strconv.Itoa`: digits only for a non-negative ID; a '-' then digits for a negative one |
| `Decimal.ParseDigitsOfDigits` | src/download.go:42 | parsing the rendered digits gives back the number (round trip) |
| `Decimal.ItoaInjective` | src/download.go:42 | distinct integers have distinct `Itoa` renderings |
| `Models.File.constructor` | src/handlers.go:39-45 | a new File has the given ID, URL and start time, an empty name, progress 0, size 0, not done, zero finish time |
| `Download.Stop` | src/download.go:69-97 | the iterations that complete: every earlier chunk had no read error, brought bytes and was written, and the chunk at the stop index (if any) ends the loop |
| `Download.MegaBytes` | src/download.go:65 | `bytes/1024/1024` is the whole number of mebibytes: `mb*2^20 <= bytes < (mb+1)*2^20` |
| `Download.Percent` | src/download.go:92 | the truncated percentage: `p*total <= done*100 < (p+1)*total` |
| `Download.FileName` | src/download.go:42 | the ID-prefixed name is the `Itoa` rendering of the ID, a '-' and the base, and splits back into those parts; the base-only name (cmd/main.go:184) is the base; `IdPrefixedNameInjective` and `BaseOnlyJobsCollide` state what each rule means for distinct jobs |
| `Download.DestPath` | src/download.go:46 | the path is the downloads directory, a '/' and the name, and the name can be read back from it (`DestPathInjective`); cmd/main.go:186 joins the same way |
| `Download.DownloadFile` | src/download.go:24-104 | the outcome and every field of the File afterwards equal `Expected` of the fields before; with `BaseOnly` naming this is cmd/main.go:166-238 |
| `Download.CopyBody` | src/download.go:54-101 | the copy loop: outcome and every field afterwards equal `Copied` of the fields before (size set first for a declared length, each counted chunk updating Progress or Size, done and finish time at a zero-length read) |
| `DownloadProperties.FetchFailureChangesNothing` | src/download.go:28-39 | a request error or a status other than 200 returns with every field unchanged |
| `DownloadProperties.NamedOnSuccess` | src/download.go:41-45 | after a 200 the name is the naming rule applied to ID and base; ID, URL and start time never change |
| `DownloadProperties.DoneExactlyAtEndOfStream` | src/download.go:69-101 | the run completes iff the response is 200, the file was created and the loop stops at a zero-length read without a read error; IsDone and FinishedAt are set exactly then, every other path leaves both unchanged |
| `DownloadProperties.ErrorReturns` | src/download.go:47-85 | after a 200: create failure, read error and write failure are each the outcome exactly when that step is the first to fail |
| `DownloadProperties.KnownSize` | src/download.go:59-67 | with ContentLength > 0, Size is the declared length in whole megabytes whatever the body brings, and Progress is the percentage of the counted bytes once a chunk has arrived |
| `DownloadProperties.UnknownSize` | src/download.go:88-96 | with ContentLength <= 0 (0 or -1), Progress is untouched and Size is the megabytes of the bytes counted so far |
| `DownloadProperties.SizeAndProgressNeverDecrease` | src/download.go:88-96 | for a fresh job, Size and Progress observed after i iterations are at most those observed after j >= i iterations |
| `DownloadProperties.CompletedProgress` | src/download.go:90-101 | a completed known-size job whose loop counted at least one chunk (with none, Progress stays at its prior value, see `KnownSize`) is done, shows 100 when the body carried exactly ContentLength bytes and at most 100 when it carried no more |
| `DownloadProperties.CompletedDeclaredLengthIsFull` | src/download.go:69-101 | when the read trace has net/http's shape for a declared length, a completed known-size job is done at exactly 100 percent |
| `DownloadProperties.FullExactlyWhenCompleted` | src/download.go:69-101 | with net/http's full Content-Length handling (the body shape above, never more than the declared length, and an error-free empty read right after the last byte), a known-size job that starts below 100 and not done ends its run at 100 percent if and only if it completes, and if and only if it is marked done |
| `DownloadProperties.DownloadedMonotone` | src/download.go:88 | the byte count over the first i chunks is at most that over the first j >= i chunks |
| `DownloadProperties.DownloadedBound` | src/download.go:61 | k chunks of at most 32 KiB carry at most k*32 KiB bytes |
| `DownloadProperties.MegaBytesMonotone` | src/download.go:94 | the megabyte conversion never decreases as bytes grow |
| `DownloadProperties.PercentMonotone` | src/download.go:92 | the percentage never decreases as bytes grow |
| `DownloadProperties.PercentBounds` | src/download.go:92 | 0 percent with no bytes, 100 with exactly the total, at most 100 below it |
| `DownloadProperties.OneMebibyteInThirtyTwoChunks` | src/download.go:55-101 | ContentLength 1 MiB, 32 reads of 32 KiB and then end of stream: completed, Size 1, Progress 100, done, finished now |
| `DownloadProperties.NotFoundLeavesJobPending` | src/download.go:36-39 | a 404 on a new job leaves it unnamed, at 0 percent and not done |
| `DownloadProperties.BytesWithEofAreCounted` | src/download.go:71-88 | a read returning n > 0 bytes with EOF is written and counted; the following empty read completes the job at 100 percent |
| `DownloadProperties.IdPrefixedNameInjective` | src/download.go:42 | an ID-prefixed name determines both the ID and the base it was built from |
| `DownloadProperties.DestPathInjective` | src/download.go:46 | distinct names give distinct destination paths |
| `DownloadProperties.DistinctIdsDistinctNames` | src/download.go:42-46 | distinct IDs give distinct ID-prefixed names and destination paths, whatever the bases |
| `DownloadProperties.BaseOnlyJobsCollide` | cmd/main.go:183-187 | under the base-only rule, two jobs whose responses share a base get the same name and destination path, whatever their IDs |
| `DownloadProperties.IdPrefixedJobsNeverCollide` | src/download.go:41-47 | under the ID-prefixed rule, two jobs with different IDs that both got a 200 never get the same name or destination path |
| `Handlers.Registry.constructor` | src/main.go:10-16 | the process starts with no files and nextID = 1, which satisfies the registry invariant |
| `Handlers.Registry.AddFile` | src/handlers.go:20-63 | non-POST gives 405 and a decode error gives 400, both with files and nextID unchanged; otherwise 201, a fresh File with ID = old nextID, the submitted URL, empty name, progress 0, zero size, not done; nextID up by one; files grown by that file at the end with earlier entries untouched; the invariant is preserved |
| `Handlers.Registry.GetFiles` | src/handlers.go:11-17 | returns the current fields of every file in submission order and changes nothing |
| `Handlers.PositionalIdsIncreasing` | src/handlers.go:39-51 | IDs equal to position + 1 are positive and strictly increasing, hence unique |
| `Handlers.PositionalIdsExtend` | src/handlers.go:47-51 | appending an entry whose ID is the entry count + 1 keeps IDs equal to position + 1 |
| `Handlers.EntriesDistinct` | src/handlers.go:39-51 | in a registry grown from the initial state, later entries have larger IDs and are different objects |
| `Handlers.EntriesGetDistinctNames` | src/handlers.go:39-58 | two different entries never get the same ID-prefixed name or destination path |
| `Handlers.SameUrlTwice` | src/handlers.go:36-58 | submitting one URL twice and downloading both gives IDs 1 and 2 with the same URL but different names and destinations |

## Left out

- Locks and goroutines: `mu`, `File.mu`, `go downloadFile` and the ticker
  goroutine. The model is sequential. `AddFile` returns the new File, and
  running `DownloadFile` on it stands for the goroutine `addFile` starts.
- Network and disk: `http.Get`, `Body.Read`, `os.Create` and `file.Write`
  are replaced by the inputs described above. The bytes themselves are not
  modelled, only their counts.
- `os.MkdirAll` at startup (src/download.go:17, cmd/main.go:159) and the
  deferred `Close` calls are not modelled at all. Their errors do not reach
  any `File` field. A missing directory shows up only as `os.Create`
  failing, which the `created` input covers.
- `path.Base` is a library call. The base of the resolved path is an input.
- `Download.DestPath`: joins with a plain "/". This leaves out `filepath.Join`'s lexical cleaning, which
  only matters for the bases "." , ".." and "/".
- `Download.Percent`: the integer `done*100/total` stands in for
  `int(float64(done)/float64(total)*100)`, so float rounding is not modelled.
  The stated values (0 at no bytes, 100 at the total, monotone) hold for both.
- Integer widths: byte counts are unbounded. The int64 `downloadedBytes` and
  the `int` conversions would only wrap past 2^63 bytes on 64-bit platforms;
  where Go's `int` is 32 bits, `int(totalBytes)` (src/download.go:65) and
  `int(downloadedBytes)` (src/download.go:94) wrap past 2^31 bytes.
- `time.Now()`: the clock readings for StartedAt and FinishedAt are parameters.
- HTTP routing, JSON encoding and decoding, writing status codes, logging,
  and server startup (src/main.go:20-46, cmd/main.go:92-118). `AddFile`
  returns the status code, and the decoded body is an input.
- Terminal rendering: `setupTable`, `printEntries` and `clearTerminal`
  (src/utils.go, cmd/main.go:120-155) are display only.
- The read trace is not constrained by net/http's Content-Length handling: it
  may end early with a clean zero-length read or bring more bytes than
  declared, which net/http does not do. `DeclaredLengthBody` names the shape
  net/http gives, and `CappedDeclaredLengthBody` adds its cap on the length.
  Only `CompletedDeclaredLengthIsFull` and `FullExactlyWhenCompleted` assume
  them.
- A body that never ends cannot be a finite trace. Each finite prefix of
  such a run is modelled and ends with the outcome `Streaming`.

## Findings

| source | as written | input that shows it | evidently intended | confidence | as-written member | corrected member |
|---|---|---|---|---|---|---|
| cmd/main.go:184-187 | the destination name is `path.Base` of the resolved path alone | jobs 1 and 2 for `http://a.example/f.zip` and `http://b.example/f.zip`: both are named `f.zip` and write `Downloads/f.zip` | a name unique per job, as src/download.go:42 makes it by prefixing the ID and '-' | not executed | `DownloadProperties.BaseOnlyJobsCollide` | `DownloadProperties.IdPrefixedJobsNeverCollide` |
