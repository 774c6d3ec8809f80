/** The sequential chunk buffer: an ordered, append-only store of opaque
    chunks with a read cursor. Chunks are values of an arbitrary type T. */
module Chunk {

  datatype Option<T> = None | Some(value: T)

  /** The errors a read can report. EOF is the end-of-stream sentinel; any
      other error is an opaque cause that callers pass on unchanged. */
  datatype Error = EOF | Cause(reason: string)

  /** What one call of Read hands back: a chunk with a nil error, or an error. */
  datatype ReadResult<T> = Ok(chunk: T) | Err(error: Error)

  /** The outcomes of n successive Reads on a buffer whose contents are s and
      whose cursor is i, with no Write in between. */
  function ReadsFrom<T>(s: seq<T>, i: nat, n: nat): seq<ReadResult<T>>
    decreases n
  {
    if n == 0 then []
    else if i < |s| then [Ok(s[i])] + ReadsFrom(s, i + 1, n - 1)
    else [Err(EOF)] + ReadsFrom(s, i, n - 1)
  }

  /** Successive reads hand out s[i], s[i+1], ... in order, and once the
      cursor has reached the end every further read reports EOF. */
  lemma {:induction false} ReadsFromAt<T>(s: seq<T>, i: nat, n: nat, j: nat)
    requires j < n
    ensures |ReadsFrom(s, i, n)| == n
    ensures ReadsFrom(s, i, n)[j] == if i + j < |s| then Ok(s[i + j]) else Err(EOF)
    decreases n
  {
    if j == 0 {
      ReadsFromLength(s, i, n);
    } else {
      if i < |s| {
        ReadsFromAt(s, i + 1, n - 1, j - 1);
      } else {
        ReadsFromAt(s, i, n - 1, j - 1);
      }
    }
  }

  /** n successive reads yield exactly n outcomes. */
  lemma {:induction false} ReadsFromLength<T>(s: seq<T>, i: nat, n: nat)
    ensures |ReadsFrom(s, i, n)| == n
    decreases n
  {
    if n > 0 {
      if i < |s| { ReadsFromLength(s, i + 1, n - 1); } else { ReadsFromLength(s, i, n - 1); }
    }
  }

  /** Appending a chunk neither removes nor reorders the chunks still to be
      read: the pending reads come first, then the new chunk. */
  lemma {:induction false} AppendKeepsPendingReads<T>(s: seq<T>, i: nat, c: T)
    requires i <= |s|
    ensures ReadsFrom(s + [c], i, |s| - i + 1) == ReadsFrom(s, i, |s| - i) + [Ok(c)]
    decreases |s| - i
  {
    if i < |s| {
      AppendKeepsPendingReads(s, i + 1, c);
      assert (s + [c])[i] == s[i];
    }
  }

  /** The buffer: contents s, written by Write, and the cursor i of the next
      chunk Read hands out. */
  class Buffer<T> {
    var s: seq<T>
    var i: nat

    /** The cursor never runs past the contents. */
    ghost predicate Valid()
      reads this
    {
      i <= |s|
    }

    /** A buffer seeded with the given chunks, cursor at the start. */
    constructor (chunks: seq<T>)
      ensures Valid()
      ensures s == chunks && i == 0
    {
      s := chunks;
      i := 0;
    }

    /** Hands out the chunk under the cursor and advances it, or reports EOF
        and changes nothing when the cursor has reached the end. */
    method Read() returns (r: ReadResult<T>)
      modifies this`i
      ensures old(i) < |s| ==> r == Ok(s[old(i)]) && i == old(i) + 1
      ensures old(i) >= |s| ==> r == Err(EOF) && i == old(i)
      ensures [r] == ReadsFrom(s, old(i), 1)
      ensures old(Valid()) ==> Valid()
    {
      if i >= |s| {
        return Err(EOF);
      }
      r := Ok(s[i]);
      i := i + 1;
    }

    /** Appends a chunk at the end; it never fails. */
    method Write(c: T) returns (err: Option<Error>)
      modifies this`s
      ensures err == None
      ensures s == old(s) + [c] && i == old(i)
      ensures old(Valid()) ==> Valid()
    {
      s := s + [c];
      err := None;
    }
  }

  /** n successive Reads on a buffer return exactly the outcomes ReadsFrom
      predicts, and leave the cursor at the end or n chunks further on. */
  method ReadN<T>(b: Buffer<T>, n: nat) returns (rs: seq<ReadResult<T>>)
    requires b.Valid()
    modifies b
    ensures b.Valid() && b.s == old(b.s)
    ensures b.i == if old(b.i) + n < |b.s| then old(b.i) + n else |b.s|
    ensures rs == ReadsFrom(old(b.s), old(b.i), n)
  {
    rs := [];
    var k := 0;
    while k < n
      invariant k <= n && |rs| == k
      invariant b.Valid() && b.s == old(b.s)
      invariant b.i == if old(b.i) + k < |b.s| then old(b.i) + k else |b.s|
      invariant forall j | 0 <= j < k ::
        rs[j] == if old(b.i) + j < |b.s| then Ok(b.s[old(b.i) + j]) else Err(EOF)
    {
      var r := b.Read();
      rs := rs + [r];
      k := k + 1;
    }
    ReadsFromLength(b.s, old(b.i), n);
    forall j | 0 <= j < n ensures rs[j] == ReadsFrom(b.s, old(b.i), n)[j] {
      ReadsFromAt(b.s, old(b.i), n, j);
    }
  }
}
