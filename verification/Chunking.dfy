/** Splitting a file into chunks: the read loop of `sendFile`. */
module Chunking {
  import opened Text

  const CHUNK_SIZE: nat := 10240

  function Start(i: nat): nat { i * CHUNK_SIZE }

  /** The number of chunks announced for a file of `size` bytes. */
  function ChunkCount(size: nat): nat
  {
    size / CHUNK_SIZE + if size % CHUNK_SIZE != 0 then 1 else 0
  }

  /** The count is the ceiling of the quotient: the least number of chunks that cover the file. */
  lemma CountCovers(size: nat, n: nat)
    ensures ChunkCount(size) <= n <==> size <= 10240 * n
    ensures Start(n) == 10240 * n
  {
    assert size == CHUNK_SIZE * (size / CHUNK_SIZE) + size % CHUNK_SIZE;
  }

  lemma NextStart(i: nat)
    ensures Start(0) == 0 && Start(i + 1) == Start(i) + CHUNK_SIZE
  {}

  function ChunkAt(content: seq<byte>, i: nat): seq<byte>
  {
    NextStart(i);
    content[Min(Start(i), |content|)..Min(Start(i + 1), |content|)]
  }

  function Chunks(content: seq<byte>): (chunks: seq<seq<byte>>)
    ensures |chunks| == ChunkCount(|content|)
  {
    seq(ChunkCount(|content|), i requires 0 <= i < ChunkCount(|content|) => ChunkAt(content, i))
  }

  function Flatten(parts: seq<seq<byte>>): seq<byte>
  {
    if parts == [] then [] else Flatten(parts[..|parts| - 1]) + parts[|parts| - 1]
  }

  lemma {:induction false} FlattenPrefix(content: seq<byte>, n: nat)
    requires n <= ChunkCount(|content|)
    ensures Flatten(Chunks(content)[..n]) == content[..Min(Start(n), |content|)]
  {
    NextStart(0);
    if n > 0 {
      var k := n - 1;
      FlattenPrefix(content, k);
      NextStart(k);
      assert Chunks(content)[..n][..k] == Chunks(content)[..k];
    }
  }

  /** The chunks are non-empty, all but the last are full, and together they are the file. */
  lemma ChunksOfFile(content: seq<byte>)
    ensures var chunks := Chunks(content);
      && Flatten(chunks) == content
      && forall i :: 0 <= i < |chunks| ==>
           if i == |chunks| - 1 then 1 <= |chunks[i]| <= 10240 else |chunks[i]| == 10240
  {
    var chunks := Chunks(content);
    CountCovers(|content|, |chunks|);
    FlattenPrefix(content, |chunks|);
    assert chunks[..|chunks|] == chunks;
    forall i | 0 <= i < |chunks|
      ensures if i == |chunks| - 1 then 1 <= |chunks[i]| <= CHUNK_SIZE else |chunks[i]| == CHUNK_SIZE
    {
      NextStart(i);
      CountCovers(|content|, i);
      CountCovers(|content|, i + 1);
    }
  }

  // ----- the read loop

  datatype ReadStatus = Data | Eof | Error

  /** A file open for reading whose reads fill the buffer unless they reach the end, and fail
      from the offset `failsAt` on when there is one. */
  class OpenFile {
    const content: seq<byte>
    const failsAt: Option<nat>
    var pos: nat

    constructor (content: seq<byte>, failsAt: Option<nat>)
      ensures this.content == content && this.failsAt == failsAt && pos == 0
    {
      this.content := content;
      this.failsAt := failsAt;
      pos := 0;
    }

    predicate Fails()
      reads this
    {
      failsAt.Some? && failsAt.value <= pos
    }

    method Read(buffer: array<byte>) returns (n: nat, status: ReadStatus)
      requires pos <= |content| && buffer.Length > 0
      modifies this`pos, buffer
      ensures status == if old(Fails()) then Error else if old(pos) == |content| then Eof else Data
      ensures n == if status.Data? then Min(buffer.Length, |content| - old(pos)) else 0
      ensures pos == old(pos) + n
      ensures buffer[..n] == content[old(pos)..pos]
    {
      n := 0;
      if Fails() {
        return 0, Error;
      }
      if pos == |content| {
        return 0, Eof;
      }
      n := Min(buffer.Length, |content| - pos);
      for i := 0 to n
        invariant pos == old(pos)
        invariant buffer[..i] == content[pos..pos + i]
      {
        buffer[i] := content[pos + i];
      }
      pos := pos + n;
      status := Data;
    }
  }

  /** `IndexPanic` is Go's run-time error for an index out of range. */
  datatype ReadResult = Chunked(chunks: seq<seq<byte>>) | ReadFailed | IndexPanic

  /** The outcome of the loop for `totalChunks` prepared slots: a read that fails ends it after
      the chunks before the failure; more chunks than slots panic; fewer leave slots empty. */
  function ReadOutcome(content: seq<byte>, failsAt: Option<nat>, totalChunks: nat): ReadResult
  {
    var failing := failsAt.Some? && failsAt.value <= |content|;
    var count := if failing then ChunkCount(failsAt.value) else ChunkCount(|content|);
    if count > totalChunks then IndexPanic
    else if failing then ReadFailed
    else Chunked(Chunks(content) + seq(totalChunks - count, _ => []))
  }

  method ReadChunks(file: OpenFile, totalChunks: nat) returns (r: ReadResult)
    requires file.pos == 0
    modifies file`pos
    ensures r == ReadOutcome(file.content, file.failsAt, totalChunks)
  {
    var content := file.content;
    var chunks := new seq<byte>[totalChunks](_ => []);
    var buffer := new byte[CHUNK_SIZE](_ => 0);
    var chunkIndex := 0;
    NextStart(0);
    while true
      invariant file.pos == Min(Start(chunkIndex), |content|)
      invariant chunkIndex <= ChunkCount(|content|) && chunkIndex <= totalChunks
      invariant file.failsAt.Some? ==> chunkIndex <= ChunkCount(file.failsAt.value)
      invariant forall k :: 0 <= k < chunkIndex ==> chunks[k] == ChunkAt(content, k)
      invariant forall k :: chunkIndex <= k < totalChunks ==> chunks[k] == []
      decreases |content| - file.pos
    {
      NextStart(chunkIndex);
      CountCovers(|content|, chunkIndex);
      if file.failsAt.Some? {
        CountCovers(file.failsAt.value, chunkIndex);
      }
      var n, status := file.Read(buffer);
      if status.Eof? {
        break;
      }
      if status.Error? {
        return ReadFailed;
      }
      if chunkIndex >= totalChunks {
        return IndexPanic;
      }
      chunks[chunkIndex] := buffer[..n];
      chunkIndex := chunkIndex + 1;
    }
    assert chunks[..] == Chunks(content) + seq(totalChunks - ChunkCount(|content|), _ => []);
    return Chunked(chunks[..]);
  }

  /** With reads that do not fail, the loop runs past the slots made from the size `statSize`
      exactly when the file has grown by a chunk since then, and it yields the chunks of the
      file, with no empty slot, exactly when the number of chunks is still the same. */
  lemma ReadOutcomeForStatSize(content: seq<byte>, statSize: nat)
    ensures var r := ReadOutcome(content, None, ChunkCount(statSize));
      && (r.IndexPanic? <==> |content| > 10240 * ChunkCount(statSize))
      && (r == Chunked(Chunks(content)) <==> ChunkCount(|content|) == ChunkCount(statSize))
      && (r.Chunked? ==> Flatten(r.chunks) == content)
  {
    var total := ChunkCount(statSize);
    CountCovers(|content|, total);
    var r := ReadOutcome(content, None, total);
    if r.Chunked? {
      var gap := total - ChunkCount(|content|);
      ChunksOfFile(content);
      FlattenPadding(Chunks(content), gap);
      if gap == 0 {
        assert r.chunks == Chunks(content);
      } else {
        assert |r.chunks| > |Chunks(content)|;
      }
    }
  }

  /** With reads that fail from an offset of the file on, the loop fails, or runs past the slots
      first when more chunks than slots begin before that offset. */
  lemma ReadOutcomeForFailure(content: seq<byte>, at: nat, totalChunks: nat)
    requires at <= |content|
    ensures ReadOutcome(content, Some(at), totalChunks)
         == if at > 10240 * totalChunks then IndexPanic else ReadFailed
    ensures ReadOutcome(content, Some(|content| + 1), totalChunks) == ReadOutcome(content, None, totalChunks)
  {
    CountCovers(at, totalChunks);
  }

  /** A file of one byte that was empty when its size was taken. */
  lemma GrownFilePanics()
    ensures ReadOutcome([7], None, ChunkCount(0)).IndexPanic?
  {
    ReadOutcomeForStatSize([7], 0);
  }

  lemma {:induction false} FlattenPadding(parts: seq<seq<byte>>, gap: nat)
    ensures Flatten(parts + seq(gap, _ => [])) == Flatten(parts)
  {
    var padded := parts + seq(gap, _ => []);
    if gap == 0 {
      assert padded == parts;
    } else {
      assert padded[..|padded| - 1] == parts + seq(gap - 1, _ => []);
      FlattenPadding(parts, gap - 1);
      assert Flatten(parts) + [] == Flatten(parts);
    }
  }
}
