/**
 * The resume record of a download session: the file's metadata and the byte
 * ranges ("chunks") it is fetched in, each with its progress.
 *
 * `Chunk.Start` and `Chunk.End` are init-only and inclusive; `BytesWritten`
 * is the one field updated in place as data arrives, and `Done` is derived
 * from it on every read. `Done` subtracts and adds in unchecked `long`
 * arithmetic, which is modelled with `Longs.Wrap`.
 */
module Session {
  import opened Wrappers
  import opened Longs

  /** A `DateTimeOffset`: ticks of the local time and the offset from UTC in minutes. */
  datatype Timestamp = Timestamp(ticks: int64, offsetMinutes: int)

  /** `End - Start + 1` as `long` arithmetic computes it. */
  function InclusiveLength(start: int64, end: int64): (n: int64)
    ensures Min <= end as int - start as int + 1 <= Max ==> n as int == end as int - start as int + 1
  {
    Wrap(end as int - start as int + 1)
  }

  /** The `Done` getter on the three values it reads. */
  predicate DoneAt(start: int64, end: int64, bytesWritten: int64) {
    bytesWritten >= InclusiveLength(start, end)
  }

  class Chunk {
    const start: int64
    const end: int64
    /** Bytes of this range already in the output file. */
    var bytesWritten: int64

    /** A chunk as first planned: nothing written yet. */
    constructor (start: int64, end: int64)
      ensures this.start == start && this.end == end && bytesWritten == 0
      ensures start <= end && end as int - start as int + 1 <= Max ==> !Done()
    {
      this.start := start;
      this.end := end;
      bytesWritten := 0;
    }

    /** A chunk read back with its recorded progress. */
    constructor Resumed(start: int64, end: int64, bytesWritten: int64)
      ensures this.start == start && this.end == end && this.bytesWritten == bytesWritten
    {
      this.start := start;
      this.end := end;
      this.bytesWritten := bytesWritten;
    }

    /** Whether every byte of the range has been written. */
    predicate Done()
      reads this
    {
      DoneAt(start, end, bytesWritten)
    }

    /** The `BytesWritten` setter. */
    method SetBytesWritten(n: int64)
      modifies this
      ensures bytesWritten == n
      ensures old(Done()) && old(bytesWritten) <= n ==> Done()
      ensures n < old(bytesWritten) && !old(Done()) ==> !Done()
    {
      bytesWritten := n;
    }
  }

  /** Once `Done`, more progress on the same range keeps it `Done`. */
  lemma DoneMonotone(start: int64, end: int64, w1: int64, w2: int64)
    requires w1 <= w2
    ensures DoneAt(start, end, w1) ==> DoneAt(start, end, w2)
  {
  }

  /** Without overflow, `Done` means at least the inclusive length was written. */
  lemma DoneIsInclusiveLength(start: int64, end: int64, bytesWritten: int64)
    requires Min <= end as int - start as int + 1 <= Max
    ensures DoneAt(start, end, bytesWritten) <==> bytesWritten as int >= end as int - start as int + 1
  {
  }

  /** A range with `End` right before `Start` is empty and `Done` from the start. */
  lemma EmptyRangeDone(start: int64, end: int64)
    requires end as int == start as int - 1
    ensures DoneAt(start, end, 0)
  {
  }

  /**
   * The subtraction wraps for the range [0, long.MaxValue]: its length 2^63
   * becomes long.MinValue, so the chunk reads as `Done` with nothing written.
   */
  lemma DoneWrapsOnFullRange(start: int64, end: int64)
    requires start == 0 && end as int == Max
    ensures InclusiveLength(start, end) as int == Min
    ensures DoneAt(start, end, 0)
  {
  }

  class SessionMeta {
    const url: string
    const outputPath: string
    const etag: Option<string>
    const lastModified: Option<Timestamp>
    const contentLength: int64
    const chunks: seq<Chunk>

    constructor (url: string, outputPath: string, etag: Option<string>,
                 lastModified: Option<Timestamp>, contentLength: int64, chunks: seq<Chunk>)
      ensures this.url == url && this.outputPath == outputPath
      ensures this.etag == etag && this.lastModified == lastModified
      ensures this.contentLength == contentLength && this.chunks == chunks
    {
      this.url := url;
      this.outputPath := outputPath;
      this.etag := etag;
      this.lastModified := lastModified;
      this.contentLength := contentLength;
      this.chunks := chunks;
    }
  }

  // ---------------------------------------------------------------------------
  // Well-formed chunk lists. This is a definition of what a chunk list for a
  // file of `contentLength` bytes should look like; the code that plans and
  // updates the chunks is not part of this model, so nothing here says it
  // produces such a list.

  /** The chunks are non-empty ranges that follow each other and tile [0, contentLength). */
  predicate Tiles(chunks: seq<Chunk>, contentLength: int) {
    (chunks == [] ==> contentLength == 0)
    && (chunks != [] ==> chunks[0].start == 0 && chunks[|chunks| - 1].end as int == contentLength - 1)
    && (forall i :: 0 <= i < |chunks| ==> chunks[i].start <= chunks[i].end)
    && (forall i :: 0 <= i < |chunks| - 1 ==> chunks[i + 1].start as int == chunks[i].end as int + 1)
  }

  /** Total number of bytes the chunks span. */
  function Spanned(chunks: seq<Chunk>): int {
    if chunks == [] then 0
    else
      var last := chunks[|chunks| - 1];
      Spanned(chunks[..|chunks| - 1]) + (last.end as int - last.start as int + 1)
  }

  lemma {:induction false} StartsAtLeastZero(chunks: seq<Chunk>, contentLength: int, i: nat)
    requires Tiles(chunks, contentLength) && i < |chunks|
    ensures 0 <= chunks[i].start
  {
    if i > 0 {
      StartsAtLeastZero(chunks, contentLength, i - 1);
    }
  }

  lemma {:induction false} EndsBeforeLength(chunks: seq<Chunk>, contentLength: int, i: nat)
    requires Tiles(chunks, contentLength) && i < |chunks|
    ensures chunks[i].end as int < contentLength
    decreases |chunks| - i
  {
    if i < |chunks| - 1 {
      EndsBeforeLength(chunks, contentLength, i + 1);
    }
  }

  /** Every chunk lies inside the file. */
  lemma ChunkInFile(chunks: seq<Chunk>, contentLength: int, i: nat)
    requires Tiles(chunks, contentLength) && i < |chunks|
    ensures 0 <= chunks[i].start <= chunks[i].end && chunks[i].end as int < contentLength
  {
    StartsAtLeastZero(chunks, contentLength, i);
    EndsBeforeLength(chunks, contentLength, i);
  }

  /** Earlier chunks end before later ones start. */
  lemma {:induction false} ChunksDisjoint(chunks: seq<Chunk>, contentLength: int, i: nat, j: nat)
    requires Tiles(chunks, contentLength) && i < j < |chunks|
    ensures chunks[i].end < chunks[j].start
  {
    if i + 1 < j {
      ChunksDisjoint(chunks, contentLength, i, j - 1);
    }
  }

  /** No offset lies in two chunks. */
  lemma OffsetInOneChunk(chunks: seq<Chunk>, contentLength: int, i: nat, j: nat, x: int)
    requires Tiles(chunks, contentLength) && i < |chunks| && j < |chunks|
    requires chunks[i].start as int <= x <= chunks[i].end as int
    requires chunks[j].start as int <= x <= chunks[j].end as int
    ensures i == j
  {
    if i < j {
      ChunksDisjoint(chunks, contentLength, i, j);
    } else if j < i {
      ChunksDisjoint(chunks, contentLength, j, i);
    }
  }

  lemma {:induction false} OffsetCoveredFrom(chunks: seq<Chunk>, contentLength: int, k: nat, x: int)
    requires Tiles(chunks, contentLength) && k < |chunks|
    requires chunks[k].start as int <= x < contentLength
    ensures exists i :: k <= i < |chunks| && chunks[i].start as int <= x <= chunks[i].end as int
    decreases |chunks| - k
  {
    if x > chunks[k].end as int {
      OffsetCoveredFrom(chunks, contentLength, k + 1, x);
    }
  }

  /** Every offset of the file lies in some chunk. */
  lemma OffsetCovered(chunks: seq<Chunk>, contentLength: int, x: int)
    requires Tiles(chunks, contentLength) && 0 <= x < contentLength
    ensures exists i :: 0 <= i < |chunks| && chunks[i].start as int <= x <= chunks[i].end as int
  {
    OffsetCoveredFrom(chunks, contentLength, 0, x);
  }

  /** The chunks together span exactly `contentLength` bytes. */
  lemma {:induction false} TilesSpanLength(chunks: seq<Chunk>, contentLength: int)
    requires Tiles(chunks, contentLength)
    ensures Spanned(chunks) == contentLength
  {
    if |chunks| > 1 {
      var prefix := chunks[..|chunks| - 1];
      assert Tiles(prefix, chunks[|chunks| - 1].start as int);
      TilesSpanLength(prefix, chunks[|chunks| - 1].start as int);
    }
  }

  /**
   * In a session whose chunks tile the file, `Done` of any chunk does not
   * overflow and means its whole inclusive range was written.
   */
  lemma DoneInSession(meta: SessionMeta, i: nat)
    requires Tiles(meta.chunks, meta.contentLength as int) && i < |meta.chunks|
    ensures meta.chunks[i].Done() <==>
      meta.chunks[i].bytesWritten as int >= meta.chunks[i].end as int - meta.chunks[i].start as int + 1
  {
    ChunkInFile(meta.chunks, meta.contentLength as int, i);
  }
}
