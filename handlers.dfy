/** The job registry behind POST /files/add and GET /files: the ordered list
    of files and the counter that hands out IDs. */
module Handlers {
  import opened Models
  import Download
  import DownloadProperties

  const MethodPost := "POST"
  const StatusCreated := 201
  const StatusBadRequest := 400
  const StatusMethodNotAllowed := 405

  /** The result of decoding the JSON request body {"url": ...}: the URL, or
      a decode error. A body without a "url" member decodes to "". */
  datatype Decoded = DecodeError | Url(url: string)

  /** IDs 1, 2, 3, ... in order: each ID is its position plus one. */
  predicate IdsArePositions(ids: seq<int>) {
    forall i :: 0 <= i < |ids| ==> ids[i] == i + 1
  }

  /** Positional IDs are strictly increasing, hence unique and positive. */
  lemma PositionalIdsIncreasing(ids: seq<int>, i: nat, j: nat)
    requires IdsArePositions(ids)
    requires i < j < |ids|
    ensures 0 < ids[i] < ids[j]
  {
  }

  /** One more entry carrying the next ID keeps the IDs positional. */
  lemma PositionalIdsExtend(ids: seq<int>, next: int)
    requires IdsArePositions(ids) && next == |ids| + 1
    ensures IdsArePositions(ids + [next])
  {
  }

  class Registry {
    var files: seq<File>
    var nextID: int

    /** The IDs of the entries, in order. IDs never change, so this reads
        only the list. */
    function Ids(): (ids: seq<int>)
      reads this
      ensures |ids| == |files|
      ensures forall i :: 0 <= i < |files| ==> ids[i] == files[i].id
    {
      seq(|files|, i requires 0 <= i < |files| reads this => files[i].id)
    }

    /** What the process maintains from its initial state: the entries carry
        IDs 1..n in order and the counter is the next one. */
    predicate Valid()
      reads this
    {
      IdsArePositions(Ids()) && nextID == |files| + 1
    }

    /** The process starts with no files and nextID = 1. */
    constructor ()
      ensures Valid()
      ensures files == [] && nextID == 1
    {
      files := [];
      nextID := 1;
    }

    /** addFile: a request that is not a POST gets 405 and a body that does
        not decode gets 400, both with nothing changed; otherwise a new File
        takes the next ID, the counter advances by one, the file is appended
        and 201 is answered. `now` is the clock reading for StartedAt. */
    method AddFile(httpMethod: string, body: Decoded, now: int) returns (status: int, file: File?)
      modifies this
      ensures old(Valid()) ==> Valid()
      ensures httpMethod != MethodPost ==> status == StatusMethodNotAllowed
      ensures httpMethod == MethodPost && body.DecodeError? ==> status == StatusBadRequest
      ensures httpMethod == MethodPost && body.Url? ==> status == StatusCreated
      ensures status != StatusCreated ==> file == null && files == old(files) && nextID == old(nextID)
      ensures status == StatusCreated ==>
        file != null && fresh(file) &&
        file.Record() == FileRecord(old(nextID), body.url, "", At(now), Zero, 0, 0, false) &&
        nextID == old(nextID) + 1 &&
        files == old(files) + [file]
      ensures forall f :: f in old(files) ==> unchanged(f)
    {
      if httpMethod != MethodPost {
        return StatusMethodNotAllowed, null;
      }
      if body.DecodeError? {
        return StatusBadRequest, null;
      }
      ghost var ids := Ids();
      file := new File(nextID, body.url, At(now));
      nextID := nextID + 1;
      files := files + [file];
      assert Ids() == ids + [file.id];
      if IdsArePositions(ids) && file.id == |ids| + 1 {
        PositionalIdsExtend(ids, file.id);
      }
      status := StatusCreated;
    }

    /** getFiles: the current fields of every file, in submission order;
        nothing changes. */
    method GetFiles() returns (snapshot: seq<FileRecord>)
      ensures |snapshot| == |files|
      ensures forall i :: 0 <= i < |files| ==> snapshot[i] == files[i].Record()
    {
      snapshot := seq(|files|, i requires 0 <= i < |files| reads this, files => files[i].Record());
    }
  }

  /** In a registry grown from the initial state, entries are distinct jobs
      with strictly increasing IDs. */
  lemma EntriesDistinct(r: Registry, i: nat, j: nat)
    requires r.Valid()
    requires i < j < |r.files|
    ensures r.files[i].id < r.files[j].id
    ensures r.files[i] != r.files[j]
  {
    PositionalIdsIncreasing(r.Ids(), i, j);
  }

  /** Two different entries of such a registry never get the same file name
      or destination from the ID-prefixed naming rule, whatever bases their
      URLs resolve to, even for the same URL. */
  lemma EntriesGetDistinctNames(r: Registry, i: nat, j: nat, x: string, y: string)
    requires r.Valid()
    requires i < j < |r.files|
    ensures Download.FileName(Download.IdPrefixed, r.files[i].id, x)
         != Download.FileName(Download.IdPrefixed, r.files[j].id, y)
    ensures Download.DestPath(Download.FileName(Download.IdPrefixed, r.files[i].id, x))
         != Download.DestPath(Download.FileName(Download.IdPrefixed, r.files[j].id, y))
  {
    EntriesDistinct(r, i, j);
    DownloadProperties.DistinctIdsDistinctNames(r.files[i].id, r.files[j].id, x, y);
  }

  /** Two submissions of the same URL, each followed by its download: the
      jobs get IDs 1 and 2 and, once named, different file names and
      destinations, even though the server resolves both to the same base. */
  method SameUrlTwice(url: string, base: string, body: seq<Download.Chunk>, now: int)
    returns (first: File, second: File)
    ensures first.id == 1 && second.id == 2
    ensures first.url == url && second.url == url
    ensures first.name != second.name
    ensures Download.DestPath(first.name) != Download.DestPath(second.name)
  {
    var registry := new Registry();
    var status1, file1 := registry.AddFile(MethodPost, Url(url), now);
    var status2, file2 := registry.AddFile(MethodPost, Url(url), now);
    first, second := file1, file2;
    var response := Download.Response(Download.StatusOK, base, -1);
    var outcome1 := Download.DownloadFile(first, Download.IdPrefixed, response, true, body, now);
    var outcome2 := Download.DownloadFile(second, Download.IdPrefixed, response, true, body, now);
    DownloadProperties.DistinctIdsDistinctNames(1, 2, base, base);
  }
}
