/** The buffer's documented usage, stated for arbitrary chunks: what a caller
    observes through NewBuffer, Write, Read and ReadAll alone. */
module ChunkScenarios {
  import opened Chunk
  import opened ChunkIO

  /** A buffer seeded with two chunks hands them out one by one, in order,
      and then reports EOF. */
  method ReadOneByOne<T>(x: T, y: T) returns (first: ReadResult<T>, second: ReadResult<T>, third: ReadResult<T>)
    ensures first == Ok(x) && second == Ok(y) && third == Err(EOF)
  {
    var b := new Buffer([x, y]);
    first := b.Read();
    second := b.Read();
    third := b.Read();
  }

  /** A chunk written to an empty buffer is the next chunk read. */
  method WriteThenRead<T>(c: T) returns (written: Option<Error>, r: ReadResult<T>)
    ensures written == None && r == Ok(c)
  {
    var b := new Buffer([]);
    written := b.Write(c);
    r := b.Read();
  }

  /** Draining a freshly seeded buffer returns exactly its chunks, in order,
      with a nil error; every read after that reports EOF. */
  method DrainFresh<T>(chunks: seq<T>) returns (res: seq<T>, err: Option<Error>, after: ReadResult<T>, again: ReadResult<T>)
    ensures res == chunks && err == None
    ensures after == Err(EOF) && again == Err(EOF)
  {
    var b := new Buffer(chunks);
    res, err := ReadAll(b);
    after := b.Read();
    again := b.Read();
  }

  /** Chunks written one after another are drained after the seed chunks,
      in the order they were written, and every read after that reports EOF. */
  method WriteThenDrain<T>(seed: seq<T>, ws: seq<T>) returns (res: seq<T>, err: Option<Error>, after: ReadResult<T>)
    ensures res == seed + ws && err == None
    ensures after == Err(EOF)
  {
    var b := new Buffer(seed);
    var k := 0;
    while k < |ws|
      invariant k <= |ws|
      invariant b.Valid() && b.i == 0 && b.s == seed + ws[..k]
    {
      var _ := b.Write(ws[k]);
      assert ws[..k + 1] == ws[..k] + [ws[k]];
      k := k + 1;
    }
    assert ws[..k] == ws;
    res, err := ReadAll(b);
    after := b.Read();
  }
}
