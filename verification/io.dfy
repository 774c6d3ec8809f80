/** The drain helper: read a chunk reader until it reports an error,
    collecting the chunks in the order they were read. */
module ChunkIO {
  import opened Chunk

  /** What a drain hands back: the chunks read, and the error (None for nil). */
  datatype Drained<T> = Drained(chunks: seq<T>, err: Option<Error>)

  /** Some read in the script reports an error, so a drain of it stops. */
  ghost predicate EventuallyFails<T>(script: seq<ReadResult<T>>)
  {
    exists k | 0 <= k < |script| :: script[k].Err?
  }

  /** The outcomes of reads that hand out the given chunks, in order. */
  function Oks<T>(cs: seq<T>): (r: seq<ReadResult<T>>)
    ensures |r| == |cs|
  {
    if cs == [] then [] else [Ok(cs[0])] + Oks(cs[1..])
  }

  /** ReadAll over any reader, given as the outcomes its successive Reads
      return. A chunk is appended and the loop goes on; EOF stops the loop
      with a nil error; any other error is returned at once, unchanged,
      together with the chunks gathered before it. The contract pins the
      result down completely: the chunks are the reader's first results, in
      order, up to its first error, and that error decides the verdict. */
  function ReadAllSpec<T>(script: seq<ReadResult<T>>): (r: Drained<T>)
    requires EventuallyFails(script)
    ensures |r.chunks| < |script|
    ensures script[..|r.chunks|] == Oks(r.chunks)
    ensures script[|r.chunks|].Err?
    ensures r.err == if script[|r.chunks|].error == EOF then None else Some(script[|r.chunks|].error)
    ensures r.err != Some(EOF)
  {
    match script[0]
    case Err(e) => Drained([], if e == EOF then None else Some(e))
    case Ok(c) =>
      assert EventuallyFails(script[1..]) by {
        var k :| 0 <= k < |script| && script[k].Err?;
        assert script[1..][k - 1] == script[k];
      }
      var rest := ReadAllSpec(script[1..]);
      assert ([c] + rest.chunks)[1..] == rest.chunks;
      assert script[..|rest.chunks| + 1] == [script[0]] + script[1..][..|rest.chunks|];
      Drained([c] + rest.chunks, rest.err)
  }

  /** ReadAll issues no read after the first error: whatever the reader would
      have returned afterwards does not affect the result. */
  lemma {:induction false} ReadAllIgnoresLaterReads<T>(script: seq<ReadResult<T>>, more: seq<ReadResult<T>>)
    requires EventuallyFails(script)
    ensures EventuallyFails(script + more)
    ensures ReadAllSpec(script + more) == ReadAllSpec(script)
  {
    var k :| 0 <= k < |script| && script[k].Err?;
    assert (script + more)[k] == script[k];
    match script[0]
    case Err(_) =>
      assert (script + more)[0] == script[0];
    case Ok(c) =>
      var tail := script[1..];
      assert tail[k - 1] == script[k];
      assert script == [Ok(c)] + tail;
      assert script + more == [Ok(c)] + (tail + more);
      ReadAllIgnoresLaterReads(tail, more);
      ReadAllSpecOk(c, tail);
      ReadAllSpecOk(c, tail + more);
  }

  /** A drain that first reads a chunk hands that chunk out first, followed
      by the drain of the remaining reads. */
  lemma ReadAllSpecOk<T>(c: T, rest: seq<ReadResult<T>>)
    requires EventuallyFails(rest)
    ensures EventuallyFails([Ok(c)] + rest)
    ensures ReadAllSpec([Ok(c)] + rest) == Drained([c] + ReadAllSpec(rest).chunks, ReadAllSpec(rest).err)
  {
    var k :| 0 <= k < |rest| && rest[k].Err?;
    assert ([Ok(c)] + rest)[k + 1] == rest[k];
    assert ([Ok(c)] + rest)[1..] == rest;
  }

  /** Reading a buffer one time more than it has pending chunks ends in EOF. */
  lemma BufferReadsFail<T>(s: seq<T>, i: nat)
    requires i <= |s|
    ensures EventuallyFails(ReadsFrom(s, i, |s| - i + 1))
  {
    ReadsFromAt(s, i, |s| - i + 1, |s| - i);
  }

  /** Draining a buffer with contents s and cursor i yields s[i..] in order
      and a nil error: the buffer's reads are its pending chunks followed by
      EOF. */
  lemma {:induction false} DrainBuffer<T>(s: seq<T>, i: nat)
    requires i <= |s|
    ensures EventuallyFails(ReadsFrom(s, i, |s| - i + 1))
    ensures ReadAllSpec(ReadsFrom(s, i, |s| - i + 1)) == Drained(s[i..], None)
    decreases |s| - i
  {
    BufferReadsFail(s, i);
    if i < |s| {
      var rest := ReadsFrom(s, i + 1, |s| - (i + 1) + 1);
      assert ReadsFrom(s, i, |s| - i + 1) == [Ok(s[i])] + rest;
      DrainBuffer(s, i + 1);
      ReadAllSpecOk(s[i], rest);
      assert s[i..] == [s[i]] + s[i + 1..];
    } else {
      assert ReadsFrom(s, i, 1) == [Err(EOF)];
    }
  }

  /** ReadAll on a buffer: reads until EOF, collecting every chunk from the
      cursor to the end, and leaves the cursor at the end so that any later
      Read reports EOF. */
  method ReadAll<T>(b: Buffer<T>) returns (chunks: seq<T>, err: Option<Error>)
    requires b.Valid()
    modifies b
    ensures b.Valid() && b.s == old(b.s) && b.i == |b.s|
    ensures chunks == old(b.s)[old(b.i)..] && err == None
    ensures EventuallyFails(ReadsFrom(old(b.s), old(b.i), |old(b.s)| - old(b.i) + 1))
    ensures Drained(chunks, err) == ReadAllSpec(ReadsFrom(old(b.s), old(b.i), |old(b.s)| - old(b.i) + 1))
  {
    chunks, err := [], None;
    while true
      invariant b.Valid() && b.s == old(b.s) && old(b.i) <= b.i
      invariant chunks == old(b.s)[old(b.i)..b.i]
      decreases |b.s| - b.i
    {
      var r := b.Read();
      match r
      case Err(e) =>
        if e != EOF {
          return chunks, Some(e);
        }
        break;
      case Ok(c) =>
        chunks := chunks + [c];
    }
    DrainBuffer(b.s, old(b.i));
  }
}
