/** The download job record: one File per submitted URL. */
module Models {

  /** A wall-clock reading. Zero is Go's zero time.Time, which the
      terminal display prints as an empty "finished at" cell. */
  datatype Time = Zero | At(instant: int) {
    predicate IsZero() {
      Zero?
    }
  }

  /** The value of every field of a File at one moment: what the
      JSON snapshot of GET /files and the terminal table show. */
  datatype FileRecord = FileRecord(
    id: int,
    url: string,
    name: string,
    startedAt: Time,
    finishedAt: Time,
    progress: int,
    size: int,      // megabytes
    isDone: bool)

  /** A submitted job. The ID and URL never change after creation; the
      downloader updates the other fields in place. */
  class File {
    const id: int
    const url: string
    var name: string
    var startedAt: Time
    var finishedAt: Time
    var progress: int
    var size: int
    var isDone: bool

    /** The File literal that addFile builds: the given ID, URL and start
        time, an empty name, progress 0 and Go's zero values elsewhere. */
    constructor (id: int, url: string, startedAt: Time)
      ensures Record() == FileRecord(id, url, "", startedAt, Zero, 0, 0, false)
    {
      this.id := id;
      this.url := url;
      name := "";
      this.startedAt := startedAt;
      finishedAt := Zero;
      progress := 0;
      size := 0;
      isDone := false;
    }

    /** The current value of every field. */
    function Record(): FileRecord
      reads this
    {
      FileRecord(id, url, name, startedAt, finishedAt, progress, size, isDone)
    }
  }
}
