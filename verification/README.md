# go-chunk: the sequential chunk buffer and its drain helper

go-chunk generalises a byte pipe to a stream of opaque "chunks". This model
covers its sequential part:

- the **Buffer** (`chunk.go`): an ordered store of chunks with a read
  cursor. `NewBuffer` seeds it. `Write` appends a chunk and never fails.
  `Read` returns the chunk under the cursor and advances the cursor. Once the
  cursor reaches the end, `Read` returns `io.EOF` and changes nothing.
- **ReadAll** (`io.go`): calls `Read` until it reports an error and collects
  the chunks in read order. EOF ends the drain with a nil error, because the
  loop's own `err` shadows the named result. Any other error is returned at
  once, unchanged, with the chunks read before it.

Chunks are a type parameter `T`, since the Go `Chunk` is `interface{}`.
Errors are `Error = EOF | Cause(reason)`. A read returns
`ReadResult = Ok(c) | Err(e)`, which stands for Go's `(c, nil)` and
`(nil, e)`.

Files:

- `chunk.dfy` (module `Chunk`) holds the `Buffer` class. Its fields are `s`,
  a `seq<T>` that `Write` reassigns, and `i`, a `nat` cursor that `Read`
  advances. `Valid()` is the invariant `i <= |s|`. `ReadsFrom(s, i, n)` gives
  the outcomes of `n` successive reads on contents `s` with cursor `i`.
  `Read` is specified against it. The method `ReadN` performs `n` reads on
  a Buffer and is proved to return exactly `ReadsFrom`. Lemmas state what
  those reads hand out.
- `io.dfy` (module `ChunkIO`) holds `ReadAll` in two forms:
  - a method over a `Buffer`, with the Go loop and its invariant;
  - `ReadAllSpec`, a function over any reader, given as the script of
    outcomes its successive reads return. This form covers the non-EOF error
    branch, which a Buffer never takes.

  The lemma `DrainBuffer` connects the two forms. The method's contract also
  states that its result equals `ReadAllSpec` applied to the buffer's reads.
- `scenarios.dfy` (module `ChunkScenarios`) holds the buffer's documented
  usage as client methods over fresh buffers, for arbitrary chunks.

## Model

| member | source | states |
|---|---|---|
| `Chunk.Buffer.constructor` | chunk.go:13-19 | NewBuffer: the contents are exactly the given chunks, the cursor is 0, and the invariant `i <= |s|` holds |
| `Chunk.Buffer.Read` | chunk.go:29-41 | With `i < |s|`: returns `s[i]` with a nil error and advances the cursor by exactly one. With `i >= |s|`: returns EOF and changes nothing. Either way the contents stay the same and the invariant is preserved |
| `Chunk.Buffer.Write` | chunk.go:43-50 | Always returns a nil error. The contents become `old(s) + [c]`, the cursor is unchanged and the invariant is preserved |
| `Chunk.ReadsFrom` | chunk.go:29-41 | The outcomes of n successive Reads on contents `s` from cursor `i`, with no Write between them. It has no ensures of its own: `Chunk.ReadN` ties it to the Buffer, and `Chunk.ReadsFromAt` gives each outcome in closed form |
| `Chunk.ReadN` | chunk.go:29-41 | n successive `Read` calls on a Buffer return exactly `ReadsFrom(old(s), old(i), n)`. The contents stay the same, and the cursor ends n chunks further on or at the end, whichever comes first |
| `Chunk.ReadsFromAt` | chunk.go:33-40 | The j-th of n successive reads from cursor i returns `s[i+j]` while `i + j < |s|`. After that it returns EOF, however many reads follow |
| `Chunk.AppendKeepsPendingReads` | chunk.go:43-50 | A Write neither removes nor reorders the unread chunks. From cursor i, the reads return the pending chunks, then the written chunk |
| `ChunkIO.ReadAllSpec` | io.go:47-59 | For a reader that eventually returns an error, these pin the result down completely. The reader's results before its first error are `Ok` of the chunks, in order (`script[..|chunks|] == Oks(chunks)`). The error is nil if that first error is EOF. Otherwise it is that error, unchanged. The result's error is never EOF |
| `ChunkIO.ReadAllIgnoresLaterReads` | io.go:49-54 | ReadAll issues no read after the first error: appending further outcomes after it does not change the result |
| `ChunkIO.DrainBuffer` | io.go:47-59 | Draining a buffer with contents `s` and cursor `i` returns `s[i..]` in order with a nil error |
| `ChunkIO.ReadAll` | io.go:47-59 | On a Buffer: returns `old(s)[old(i)..]` with a nil error. The contents are unchanged and the cursor ends at `|s|`, so every later Read returns EOF. The result also equals `ReadAllSpec` of the buffer's next `|s| - i + 1` reads. The loop ends, with measure `|s| - i` |
| `ChunkScenarios.ReadOneByOne` | chunk_test.go:26-50 | A buffer seeded with `[x, y]` returns `x`, then `y`, then EOF |
| `ChunkScenarios.WriteThenRead` | chunk_test.go:52-68 | On an empty buffer, `Write(c)` returns nil and the next Read returns `c` |
| `ChunkScenarios.DrainFresh` | io_test.go:10-20 | ReadAll on a freshly seeded buffer returns exactly the seed chunks with a nil error, and the reads that follow return EOF |
| `ChunkScenarios.WriteThenDrain` | chunk.go:43-50 | For any seed and any sequence `ws` written one chunk at a time, ReadAll returns `seed + ws` in order with a nil error, and the next Read returns EOF |

## Left out

- The `Pipe`, its close protocol and first-error-wins propagation. Its implementation is not part of this model, and it is a concurrent, blocking rendezvous between goroutines.
- The `sync.RWMutex` in Buffer (chunk.go:16, 23, 30-31, 44-45), and with it every concurrent behaviour. This includes the concurrent-read and concurrent-write tests in chunk_test.go. `Read` mutates the cursor while holding only the read lock, so no property of concurrent reads is claimed.
- The `Reader`, `Writer`, `Closer` and `Processor` interfaces (io.go:8-44) are declarations only. `ChunkIO.ReadAll` is modelled over a Buffer, and `ChunkIO.ReadAllSpec` stands for an arbitrary Reader through the outcomes its reads return.
- `ChunkIO.ReadAll`: the non-EOF error branch is present in the method but never taken on a Buffer. Its behaviour is stated by `ChunkIO.ReadAllSpec`.
- `ChunkIO.ReadAllSpec` requires the reader to return an error eventually. Against a reader that never does, the Go loop does not terminate.
- The nil chunk that `Read` returns together with EOF is not represented: `Err(e)` carries no chunk. Go's distinction between a nil and an empty result slice is not represented either.
- Go errors are compared by identity. Here, non-EOF errors are values compared by their `reason`.
- The `int64` width of the cursor (chunk.go:25) is not modelled: the cursor is a `nat`, since overflow would need 2^63 reads.
- Aliasing between the caller's slice passed to `NewBuffer` and the buffer's contents (chunk.go:17) is not modelled: the contents are a value sequence.
- The no-op `bytes.NewBufferString("")` call (chunk.go:14) has no effect and is not modelled.
- The JSON marshaling test and the pipeline examples in pipe_test.go exercise `encoding/json` and the Pipe, not the buffer.
