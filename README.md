# IsPdfProtected in Dafny

This project models the Go package `pdfencryption`. The package decides
whether a PDF byte stream is password-protected by searching it for the
keyword `/Encrypt`. It has two parts, and the model has one module for each:

- `Matcher` (`matcher.dfy`) models `containsKeyword`. This is a
  Boyer-Moore-Horspool search that uses only the bad-character rule. The
  256-entry bad-character table is an `array<int>`, filled by two loops as
  in the source. The search is a pair of nested `while` loops over the
  cursor `i` and the match counter `k`. The method is proved against a
  plain existential reference, `Occurs(buffer, keyword)`: "some `p` has
  `buffer[p..p+|keyword|] == keyword`". The key step is Horspool's safety
  argument (`ShiftSkipsNoMatch`): a shift by the table entry of `buffer[i]`
  never jumps over a matching alignment.
- `Scanner` (`scanner.dfy`) models the rest:
  - `calculateChunkSize`;
  - the chunk layout of `IsPasswordProtected`: offsets `0, c, 2c, …` below
    the buffer length, each chunk clipped to the end of the buffer;
  - the any-of aggregation of the per-chunk searches;
  - `IsPasswordProtectedSimple`.

  The lemmas prove four things. The chunks tile the buffer exactly. A hit
  in any chunk is a hit in the whole buffer. An occurrence that lies wholly
  inside one chunk is found. An occurrence that straddles a chunk boundary
  is missed: `"/Encrypt"` on one processor is cut into `"/Enc"` and
  `"rypt"`. The model keeps that last behaviour as the code has it.

Bytes are the subset type `byte = b: int | 0 <= b < 256`. Buffers and the
keyword are `seq<byte>`. `runtime.NumCPU()` becomes the parameter `cpus >= 1`.
The goroutines run one after another, and their boolean results are
combined by logical or.

Two behaviours of the code worth noting:

- **Empty keyword.** The code returns true at once: the compare loop ends
  with `k == keywordLen == 0`. `ContainsKeyword`'s contract,
  `found <==> Occurs(buffer, keyword)`, covers this, because the empty
  keyword occurs at position 0.
- **Table entries.** A byte that occurs only at the keyword's last position
  also gets the full length, because the last position is never written to
  the table. `ShiftBounds` states this.

Because the chunks do not overlap, any chunk shorter than the keyword
misses it. So the chunked scan returns false for every buffer shorter than
16 bytes per processor (`ShortChunksMissKeyword`, `SmallBuffersAlwaysMissed`).

## Model

| member | source | states |
|---|---|---|
| `Matcher.LastBefore` | pdfencryption.go:77-79 | the table's source index for a byte: the last j < n with keyword[j] == b, or -1 when there is none; no later index below n holds b |
| `Matcher.Shift` | pdfencryption.go:73-79 | the entry the two table loops leave for byte b: len-1-j for the last j < len-1 with keyword[j] == b, or len when there is none |
| `Matcher.ShiftBounds` | pdfencryption.go:73-79 | for a non-empty keyword every table entry lies in [1, len]; a byte's entry is exactly len iff the byte does not occur in keyword[0..len-2] |
| `Matcher.ShiftOfLastOccurrence` | pdfencryption.go:77-79 | a byte whose last occurrence before the final position is j gets entry len-1-j: later writes overwrite earlier ones |
| `Matcher.ShiftSkipsNoMatch` | pdfencryption.go:90 | for any cursor i, no alignment ending strictly between i and i + table[buffer[i]] matches |
| `Matcher.AlignmentMatches` | pdfencryption.go:83-88 | an alignment matches exactly when the keyword agrees with the buffer at every one of its positions, which is what k == keywordLen after the compare loop means |
| `Matcher.BuildBadCharTable` | pdfencryption.go:73-79 | the two loops produce a fresh 256-entry table whose entry for every byte b is Shift(keyword, b) |
| `Matcher.ContainsKeyword` | pdfencryption.go:67-94 | returns true iff the keyword occurs in the buffer; on true, the alignment it stops at is the first occurrence; false whenever the buffer is shorter than the keyword; every index stays in bounds and the cursor loop terminates |
| `Scanner.EncryptKeywordIsAscii` | pdfencryption.go:10-14 | the constant `Scanner.EncryptKeyword` (encryptKeywordBytes) holds exactly the characters of "/Encrypt", one byte each |
| `Scanner.CalculateChunkSize` | pdfencryption.go:58-65 | the chunk size is at least 1; it is 1 when the buffer is shorter than cpus*2, and otherwise floor(fileSize / (cpus*2)) |
| `Scanner.Offsets` | pdfencryption.go:23 | the offsets the loop visits: empty iff the start is at or past the end; they begin at the start, all lie in [start, n), and the last one plus c reaches n |
| `Scanner.ChunkOffsets` | pdfencryption.go:23 | the offsets the loop `for offset := 0; offset < fileSize; offset += chunkSize` visits: none for an empty buffer, otherwise starting at 0 |
| `Scanner.ChunkEnd` | pdfencryption.go:28-31 | endOffset: offset + chunkSize clipped to fileSize; it never passes the buffer's end or offset + chunkSize, and is one of the two |
| `Scanner.Chunk` | pdfencryption.go:33 | the slice bytes[offset:endOffset]: c bytes when the chunk fits, otherwise the rest of the buffer, each equal to the buffer's byte at offset + t |
| `Scanner.OffsetsStep` | pdfencryption.go:23 | consecutive offsets differ by exactly the chunk size (offset += chunkSize) |
| `Scanner.OffsetsIncrease` | pdfencryption.go:23 | offsets further apart in the sequence lie at least one chunk size apart |
| `Scanner.OffsetsCover` | pdfencryption.go:23-33 | every position at or after the start offset and below n lies in the clipped chunk of some offset |
| `Scanner.ChunksTile` | pdfencryption.go:23-33 | the chunks tile [0, n) exactly: none for an empty buffer; the first starts at 0; each but the last has length c and ends where the next starts; the last is non-empty and ends at n; every position lies in exactly one chunk |
| `Scanner.OccursInSlice` | pdfencryption.go:33-34 | an occurrence in bytes[lo:hi] is an occurrence in the whole buffer lying inside [lo, hi) |
| `Scanner.ChunkHitImpliesWholeHit` | pdfencryption.go:45-56 | if some chunk contains the keyword, then the whole buffer does, so a parallel true implies a simple true |
| `Scanner.WithinChunkIsFound` | pdfencryption.go:28-34 | an occurrence lying wholly inside one chunk makes that chunk's search succeed |
| `Scanner.BoundaryOccurrenceIsMissed` | pdfencryption.go:23-34 | with cpus = 1 the buffer "/Encrypt" gets chunk size 4; the whole buffer contains the keyword, but no chunk does, so the two entry points differ |
| `Scanner.ShortChunksMissKeyword` | pdfencryption.go:23-34 | with chunk size below the keyword's length, no chunk of any buffer contains "/Encrypt" |
| `Scanner.SmallBuffersAlwaysMissed` | pdfencryption.go:16-34 | for every buffer shorter than 8 * cpus * 2 bytes, the chunked scan finds no chunk containing "/Encrypt", wherever the keyword lies |
| `Scanner.SearchChunk` | pdfencryption.go:25-37 | one task: clip [offset, offset+c) to the buffer and search it; returns true iff that chunk contains the keyword |
| `Scanner.IsPasswordProtected` | pdfencryption.go:16-52 | returns true iff some chunk of the layout contains "/Encrypt"; true implies the whole buffer contains it; an empty buffer gives false |
| `Scanner.IsPasswordProtectedSimple` | pdfencryption.go:54-56 | returns true iff "/Encrypt" occurs in the buffer |

## Left out

- Goroutines, `sync.WaitGroup`, the unbuffered result channel and the goroutine that closes it (pdfencryption.go:20-21, 24-26, 35, 40-49). These are concurrency machinery. The chunks run one after another and their results are or-ed. An or does not depend on the order in which results arrive, so the boolean is the same.
- IsPasswordProtected: does not return as soon as the first true result arrives. The sequential loop searches every chunk and then returns the or. The result is the same; only the amount of work differs.
- The goroutines left blocked on the channel after an early `return true`. They are a runtime effect with no counterpart in a sequential model.
- `runtime.NumCPU()` (pdfencryption.go:59) is a call into the runtime. It becomes the parameter `cpus`, with `cpus >= 1`.
- The unused constant `bufferSize` (pdfencryption.go:9).
- `int64` and `int` overflow. All integers are unbounded. Buffer lengths and processor counts far below 2^63 cannot overflow anyway.
- The generic constraint `containsInputType` is not part of this model. Both arguments of `containsKeyword` are byte sequences.
