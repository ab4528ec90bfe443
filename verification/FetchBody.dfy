/**
 * The bounded body reader of `net.fetch` (src/native_app.cpp:4318-4327, 4345-4349,
 * 4371-4419). How the network cuts the stream into reads, and whether a read fails, is left
 * open by `NetStream`, so the contracts hold for every way of cutting it.
 */
module FetchBody {
  import opened Lists
  import opened Text

  const CHUNK := 65536

  /** What is left of a response body on the network. */
  class NetStream {
    var rest: Bytes
    /** A read has failed. */
    ghost var failed: bool

    constructor (body: Bytes)
      ensures rest == body && !failed
    {
      rest, failed := body, false;
    }

    /** `g_input_stream_read_finish`: any number of bytes up to `want`, none only at the end, or an error. */
    method Read(want: nat) returns (n: int, chunk: Bytes)
      requires 0 < want
      modifies this
      ensures n < 0 ==> failed && rest == old(rest)
      ensures n >= 0 ==> failed == old(failed) && n == |chunk| <= want && old(rest) == chunk + rest
      ensures n == 0 ==> rest == []
    {
      if * {
        failed := true;
        return -1, [];
      }
      if rest == [] { return 0, []; }
      var k: nat :| 1 <= k <= want && k <= |rest|;
      n, chunk := k, rest[..k];
      rest := rest[k..];
    }
  }

  datatype FetchResult = FetchError | Fetched(body: Bytes, truncated: bool, bytes: nat)

  class AgentFetch {
    const maxBytes: nat
    const contentLength: int
    var body: Bytes
    var truncated: bool
    var bytesTotal: nat

    constructor (maxBytes: nat, contentLength: int)
      ensures this.maxBytes == maxBytes && this.contentLength == contentLength
      ensures body == [] && !truncated && bytesTotal == 0
    {
      this.maxBytes, this.contentLength := maxBytes, contentLength;
      body, truncated, bytesTotal := [], false, 0;
    }

    /** `source` is the whole response; the body is what has been kept of it. */
    ghost predicate Valid(source: Bytes, stream: NetStream)
      reads this, stream
    {
      !truncated && |body| <= maxBytes && bytesTotal == |body| && source == body + stream.rest
    }

    /** What is promised of a finished fetch. */
    ghost predicate Finished(source: Bytes, stream: NetStream, r: FetchResult)
      reads this, stream
    {
      match r
      case FetchError => stream.failed
      case Fetched(kept, cut, bytes) =>
        && kept == source[..Min(|source|, maxBytes)]
        && (cut <==> |source| > maxBytes && !stream.failed)
        && bytes == (if contentLength > 0 then contentLength else |kept|)
        && |source| - |stream.rest| <= maxBytes + 1
    }

    /** All bytes read were kept, or the cap is full and more were read. */
    ghost predicate Counted()
      reads this
    {
      bytesTotal == |body| <= maxBytes || |body| == maxBytes < bytesTotal
    }

    /**
     * The size and body part of `agent_fetch_emit`: without a Content-Length the size is that
     * of the retained body, although it is computed from the bytes read.
     */
    method Emit() returns (r: FetchResult)
      requires Counted()
      ensures r == Fetched(body, truncated, if contentLength > 0 then contentLength else |body|)
    {
      var bytes := if contentLength > 0 then contentLength else Min(bytesTotal, maxBytes);
      r := Fetched(body, truncated, bytes);
    }

    method ReadChunk(stream: NetStream, ghost source: Bytes) returns (r: FetchResult)
      requires Valid(source, stream) && !stream.failed
      modifies this, stream
      ensures Finished(source, stream, r)
      decreases maxBytes - |body|, 1
    {
      if |body| >= maxBytes {
        // The cap is reached: one more byte tells whether the response goes on.
        var probe, more := stream.Read(1);
        truncated := probe > 0;
        r := Emit();
        assert source[..maxBytes] == body;
        return;
      }
      var want := Min(CHUNK, maxBytes - |body| + 1);
      var n, chunk := stream.Read(want);
      r := ReadReady(stream, n, chunk, source);
    }

    method ReadReady(stream: NetStream, n: int, chunk: Bytes, ghost source: Bytes) returns (r: FetchResult)
      requires !truncated && |body| < maxBytes && bytesTotal == |body|
      requires n < 0 ==> stream.failed
      requires n >= 0 ==> !stream.failed && n == |chunk| <= maxBytes - |body| + 1
      requires n >= 0 ==> source == body + chunk + stream.rest
      requires n == 0 ==> stream.rest == []
      modifies this, stream
      ensures Finished(source, stream, r)
      decreases maxBytes - |body|, 0
    {
      if n < 0 { return FetchError; }
      if n == 0 {
        r := Emit();
        assert source == body;
        return;
      }
      bytesTotal := bytesTotal + n;
      var room := maxBytes - |body|;
      var keep := Min(n, room);
      ghost var before := body;
      body := body + chunk[..keep];
      if n > keep {
        truncated := true;
        r := Emit();
        assert source[..maxBytes] == body;
        return;
      }
      assert chunk[..keep] == chunk;
      assert before + chunk + stream.rest == body + stream.rest;
      r := ReadChunk(stream, source);
    }
  }

  /**
   * However the network cuts the response, a fetch in which no read fails reports the same:
   * the longest prefix that the cap allows, and whether there was more.
   */
  method Fetch(source: Bytes, maxBytes: nat, contentLength: int) returns (r: FetchResult, stream: NetStream)
    ensures !stream.failed ==>
              && r.Fetched?
              && r.body == (if |source| <= maxBytes then source else source[..maxBytes])
              && (r.truncated <==> |source| > maxBytes)
              && r.bytes == if contentLength > 0 then contentLength else |r.body|
    ensures r.FetchError? ==> stream.failed
  {
    stream := new NetStream(source);
    var state := new AgentFetch(maxBytes, contentLength);
    assert source == [] + stream.rest;
    r := state.ReadChunk(stream, source);
  }
}
