/** The measurement channel's buffer cut into records: every 35 bytes starting
    at offset 0 hold one record, a 19-byte first buffer followed by a 16-byte
    second buffer. */
module Chunks {
  import opened Wrappers
  import opened Bytes
  import opened MeasurementRecord

  /** The number of offsets 0, 35, 70, ... below n: `len(range(0, n, 35))`. */
  function ChunkCount(n: nat): (c: nat)
    ensures 35 * c >= n
    ensures c > 0 ==> 35 * (c - 1) < n
  {
    (n + 34) / 35
  }

  /** `data[35k : 35k + 19]`, clipped at the end of the buffer. */
  function FirstHalf(data: seq<byte>, k: nat): seq<byte> {
    Slice(data, 35 * k, 35 * k + 19)
  }

  /** `data[35k + 19 : 35k + 35]`, clipped at the end of the buffer. */
  function SecondHalf(data: seq<byte>, k: nat): seq<byte> {
    Slice(data, 35 * k + 19, 35 * k + 35)
  }

  /** The first c chunks laid end to end again. */
  function Rejoin(data: seq<byte>, c: nat): seq<byte> {
    if c == 0 then [] else Rejoin(data, c - 1) + (FirstHalf(data, c - 1) + SecondHalf(data, c - 1))
  }

  lemma PrefixSplit(s: seq<byte>, i: nat, j: nat)
    requires i <= j <= |s|
    ensures s[..j] == s[..i] + s[i..j]
  {
  }

  lemma SuffixSplit(s: seq<byte>, i: nat)
    requires i <= |s|
    ensures s == s[..i] + s[i..]
  {
  }

  /** A whole chunk is the 35 bytes at its offset. */
  lemma WholeChunk(data: seq<byte>, k: nat)
    requires 35 * k + 35 <= |data|
    ensures FirstHalf(data, k) + SecondHalf(data, k) == data[35 * k..35 * k + 35]
  {
    assert data[35 * k..35 * k + 35] == data[35 * k..35 * k + 19] + data[35 * k + 19..35 * k + 35];
  }

  /** The last chunk runs from its offset to the end of the buffer. */
  lemma LastChunk(data: seq<byte>, k: nat)
    requires 35 * k < |data| <= 35 * k + 35
    ensures FirstHalf(data, k) + SecondHalf(data, k) == data[35 * k..]
  {
    if |data| <= 35 * k + 19 {
      assert SecondHalf(data, k) == [];
    } else {
      assert data[35 * k..] == data[35 * k..35 * k + 19] + data[35 * k + 19..];
    }
  }

  /** The first c chunks are the first 35c bytes. */
  lemma {:induction false} RejoinIsPrefix(data: seq<byte>, c: nat)
    requires 35 * c <= |data|
    ensures Rejoin(data, c) == data[..35 * c]
  {
    if c > 0 {
      RejoinIsPrefix(data, c - 1);
      WholeChunk(data, c - 1);
      PrefixSplit(data, 35 * (c - 1), 35 * c);
    }
  }

  /** c chunks that reach the end of the buffer rebuild all of it. */
  lemma RejoinCovers(data: seq<byte>, c: nat)
    requires c > 0 && 35 * (c - 1) < |data| <= 35 * c
    ensures Rejoin(data, c) == data
  {
    var k := c - 1;
    RejoinIsPrefix(data, k);
    LastChunk(data, k);
    SuffixSplit(data, 35 * k);
  }

  /** Cutting loses and duplicates nothing: the chunks laid end to end are the buffer. */
  lemma ChunksRebuildBuffer(data: seq<byte>)
    ensures Rejoin(data, ChunkCount(|data|)) == data
  {
    var c := ChunkCount(|data|);
    if c > 0 {
      RejoinCovers(data, c);
    }
  }

  /** Every chunk but the last is whole; the last holds at least one byte. */
  lemma ChunkSizes(data: seq<byte>, k: nat)
    requires k < ChunkCount(|data|)
    ensures k + 1 < ChunkCount(|data|) ==> |FirstHalf(data, k)| == 19 && |SecondHalf(data, k)| == 16
    ensures |FirstHalf(data, k)| > 0
  {
  }

  /** The records of the first c chunks, each decoded from its two halves by
      `decode`, in chunk order; the first chunk that fails to decode ends the
      loop with its fault. */
  function DecodeChunks<R>(decode: (seq<byte>, seq<byte>) -> Result<R>, data: seq<byte>, c: nat): Result<seq<R>> {
    if c == 0 then Success([])
    else
      var earlier :- DecodeChunks(decode, data, c - 1);
      var r :- decode(FirstHalf(data, c - 1), SecondHalf(data, c - 1));
      Success(earlier + [r])
  }

  /** The first c chunks decode exactly when each does, into one result per
      chunk, result k from chunk k. */
  lemma {:induction false} DecodeChunksIsPerChunk<R>(decode: (seq<byte>, seq<byte>) -> Result<R>, data: seq<byte>, c: nat)
    ensures DecodeChunks(decode, data, c).Success? <==>
      forall k :: 0 <= k < c ==> decode(FirstHalf(data, k), SecondHalf(data, k)).Success?
    ensures DecodeChunks(decode, data, c).Success? ==>
      && |DecodeChunks(decode, data, c).value| == c
      && forall k :: 0 <= k < c ==>
           DecodeChunks(decode, data, c).value[k] == decode(FirstHalf(data, k), SecondHalf(data, k)).value
  {
    DecodeChunksSucceeds(decode, data, c);
    if DecodeChunks(decode, data, c).Success? {
      DecodeChunksValues(decode, data, c);
    }
  }

  lemma {:induction false} DecodeChunksSucceeds<R>(decode: (seq<byte>, seq<byte>) -> Result<R>, data: seq<byte>, c: nat)
    ensures DecodeChunks(decode, data, c).Success? <==>
      forall k :: 0 <= k < c ==> decode(FirstHalf(data, k), SecondHalf(data, k)).Success?
  {
    if c > 0 {
      DecodeChunksSucceeds(decode, data, c - 1);
      if DecodeChunks(decode, data, c - 1).Failure? {
        var k :| 0 <= k < c - 1 && decode(FirstHalf(data, k), SecondHalf(data, k)).Failure?;
      }
    }
  }

  lemma {:induction false} DecodeChunksValues<R>(decode: (seq<byte>, seq<byte>) -> Result<R>, data: seq<byte>, c: nat)
    requires DecodeChunks(decode, data, c).Success?
    ensures |DecodeChunks(decode, data, c).value| == c
    ensures forall k :: 0 <= k < c ==>
      Success(DecodeChunks(decode, data, c).value[k]) == decode(FirstHalf(data, k), SecondHalf(data, k))
  {
    if c > 0 {
      var earlier := DecodeChunks(decode, data, c - 1);
      var last := decode(FirstHalf(data, c - 1), SecondHalf(data, c - 1));
      DecodeChunksValues(decode, data, c - 1);
      var v := earlier.value + [last.value];
      assert DecodeChunks(decode, data, c) == Success(v);
      forall k | 0 <= k < c
        ensures Success(v[k]) == decode(FirstHalf(data, k), SecondHalf(data, k))
      {
        if k < c - 1 {
          assert v[k] == earlier.value[k];
        }
      }
    }
  }

  /** Every record the buffer holds (`get_records` on channel 2's buffer). */
  function Records(data: seq<byte>): Result<seq<Record>> {
    DecodeChunks(FromBuffers, data, ChunkCount(|data|))
  }

  /** The buffer yields ceil(n / 35) records, record k decoded from
      `data[35k:35k+19]` and `data[35k+19:35k+35]`, or fails when any chunk does. */
  lemma RecordsArePerChunk(data: seq<byte>)
    ensures var decode := FromBuffers;
      Records(data).Success? <==>
        forall k :: 0 <= k < ChunkCount(|data|) ==> decode(FirstHalf(data, k), SecondHalf(data, k)).Success?
    ensures var decode := FromBuffers;
      Records(data).Success? ==>
        && |Records(data).value| == ChunkCount(|data|)
        && forall k :: 0 <= k < ChunkCount(|data|) ==>
             Records(data).value[k] == decode(FirstHalf(data, k), SecondHalf(data, k)).value
  {
    DecodeChunksIsPerChunk(FromBuffers, data, ChunkCount(|data|));
  }

  /** Record buffers laid end to end, each first buffer followed by its
      second buffer: the layout the device sends. */
  function Join(pairs: seq<(seq<byte>, seq<byte>)>): seq<byte> {
    if |pairs| == 0 then []
    else Join(pairs[..|pairs| - 1]) + pairs[|pairs| - 1].0 + pairs[|pairs| - 1].1
  }

  /** Every first buffer is 19 bytes and every second buffer 16. */
  predicate FullPairs(pairs: seq<(seq<byte>, seq<byte>)>) {
    forall k :: 0 <= k < |pairs| ==> |pairs[k].0| == 19 && |pairs[k].1| == 16
  }

  lemma {:induction false} JoinLength(pairs: seq<(seq<byte>, seq<byte>)>)
    requires FullPairs(pairs)
    ensures |Join(pairs)| == 35 * |pairs|
  {
    if |pairs| > 0 {
      JoinLength(pairs[..|pairs| - 1]);
    }
  }

  /** Cutting joined pairs gives back each pair, in order. */
  lemma {:induction false} CutJoin(pairs: seq<(seq<byte>, seq<byte>)>, k: nat)
    requires FullPairs(pairs) && k < |pairs|
    ensures FirstHalf(Join(pairs), k) == pairs[k].0
    ensures SecondHalf(Join(pairs), k) == pairs[k].1
  {
    var n := |pairs| - 1;
    var front := Join(pairs[..n]);
    JoinLength(pairs[..n]);
    var data := Join(pairs);
    assert data == front + pairs[n].0 + pairs[n].1;
    if k < n {
      CutJoin(pairs[..n], k);
      assert data[35 * k..35 * k + 19] == front[35 * k..35 * k + 19];
      assert data[35 * k + 19..35 * k + 35] == front[35 * k + 19..35 * k + 35];
    } else {
      assert data[35 * k..35 * k + 19] == pairs[n].0;
      assert data[35 * k + 19..35 * k + 35] == pairs[n].1;
    }
  }

  /** Joined pairs decode into one record per pair, record k from pair k, or
      fail when any pair does. */
  lemma RecordsOfJoin(pairs: seq<(seq<byte>, seq<byte>)>)
    requires FullPairs(pairs)
    ensures Records(Join(pairs)).Success? <==>
      forall k :: 0 <= k < |pairs| ==> FromBuffers(pairs[k].0, pairs[k].1).Success?
    ensures Records(Join(pairs)).Success? ==>
      && |Records(Join(pairs)).value| == |pairs|
      && forall k :: 0 <= k < |pairs| ==> Records(Join(pairs)).value[k] == FromBuffers(pairs[k].0, pairs[k].1).value
  {
    var data := Join(pairs);
    JoinLength(pairs);
    assert ChunkCount(|data|) == |pairs|;
    RecordsArePerChunk(data);
    forall k | 0 <= k < |pairs|
      ensures FirstHalf(data, k) == pairs[k].0 && SecondHalf(data, k) == pairs[k].1
    {
      CutJoin(pairs, k);
    }
  }
}
