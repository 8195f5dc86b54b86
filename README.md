# fast_io line scanner and generic SIMD vector, modelled in Dafny

This project models two pieces of the fast_io C++ library.

- **The incremental line scanner** `basic_line_scanner_buffer`
  (`include/fast_io_freestanding_impl/scanners/line_scanner.h`). A transport feeds it
  chunks of characters. For each chunk the scanner finds the first line feed and
  returns a parse result: **Ok** with the position of the line feed, or **Partial**.
  It exposes the record as a view, either zero-copy into the chunk or into an owned
  staging buffer. The staging buffer collects records that straddle chunks and grows
  by amortised doubling.
  - `LineScanner.Allocator`, `LineScanner.Buffer` and `LineScanner.Scanner` are
    classes whose methods update fields in place, as the header does.
  - Pointers are indices: into the chunk, or into the staging array.
  - Every scanner method is proved against a pure state machine, `LineScanner.Step`
    on `Session` values. The lemmas about feeding whole chunks (`LineScanner.Feed`)
    are stated on that machine.
- **The fixed-width vector** `simd_vector<T,N>`
  (`include/fast_io_core_impl/simd/generic.h`).
  - `Simd.Vector` is an immutable value: N lanes, each the `sizeof(T)` bytes of an
    unsigned element in little-endian order. `Simd.Bytes` lays the lanes end to end.
  - Element values are the unsigned numbers those bytes denote. Arithmetic wraps
    modulo 2^(8·sizeof T).
  - The compound assignments and `swap_endian` reassign `*this`. They are methods of
    the class `Simd.SimdVariable`.

`size_t` is 64 bits wide (`Platform.SIZE_MAX`).

Where the header does not compile as written, the model follows the evident intent:
- `szmxhalf` is initialised from itself (line 57). The model uses SIZE_MAX / 2.
- Line 89 passes the pointer `last` where a size is expected. The model passes the size.
- The deleted copy assignment is split across lines 17-18 in the middle of a token.

Where the header compiles but has undefined behaviour when called, the model also follows the evident intent:
- The move assignment (lines 24-31) falls off its end without `return *this`. The model returns the buffer.

The two defects that survive those fixes are listed under "## Findings".

Two behaviours of the code are kept as written:
- Partial is returned only for an empty chunk. A non-empty chunk without a line feed
  is an Ok record up to its end (`LineScanner.ChunkWithoutLineFeedIsNotPartial`).
- Only `scan_iterative_init_define` clears the continuation flag. Once a record has
  straddled chunks, later records accumulate in the staging buffer
  (`LineScanner.ContinuationIsSticky`, `LineScanner.ContinuedRecordsRunTogether`).

## Model

| member | source | states |
|---|---|---|
| Simd.Size | include/fast_io_core_impl/simd/generic.h:42-45 | N times sizeof(T) is the byte length of the vector's storage |
| Simd.Front | include/fast_io_core_impl/simd/generic.h:61-64 | front() is the first sizeof(T) bytes of storage and equals element 0 |
| Simd.Back | include/fast_io_core_impl/simd/generic.h:65-69 | back() is the last sizeof(T) bytes of storage and equals element N-1 |
| Simd.Empty | include/fast_io_core_impl/simd/generic.h:71-74 | empty() holds exactly when N is 0, that is, when the storage has no bytes |
| Simd.MaxSize | include/fast_io_core_impl/simd/generic.h:75-79 | max_size() is the largest element count whose bytes fit in size_t: m·sizeof(T) ≤ SIZE_MAX < (m+1)·sizeof(T) |
| Simd.SizeWithinMaxSize | include/fast_io_core_impl/simd/generic.h:75-79 | a vector whose storage is addressable has at most max_size() elements |
| Simd.At | include/fast_io_core_impl/simd/generic.h:80-83 | operator[](n) is the storage slice [n·sizeof(T), (n+1)·sizeof(T)) |
| Simd.ArithmeticWraps | include/fast_io_core_impl/simd/generic.h:85-104 | each element of x+y, x-y, x·y, x/y, x<<y, x>>y is the exact result modulo 2^(8·sizeof T) |
| Simd.BitwiseBytes | include/fast_io_core_impl/simd/generic.h:116-127 | each storage byte of x&y, x^y, x\|y is the operator applied to the operands' bytes at that address |
| Simd.SimdVariable.AddAssign | include/fast_io_core_impl/simd/generic.h:85-88 | += replaces the value with value + other and returns the same object |
| Simd.SimdVariable.SubAssign | include/fast_io_core_impl/simd/generic.h:89-92 | -= replaces the value with value - other and returns the same object |
| Simd.SimdVariable.MulAssign | include/fast_io_core_impl/simd/generic.h:97-100 | *= replaces the value with value · other and returns the same object |
| Simd.SimdVariable.DivAssign | include/fast_io_core_impl/simd/generic.h:101-104 | /= replaces the value with value / other, for nonzero divisors, and returns the same object |
| Simd.SimdVariable.AndAssign | include/fast_io_core_impl/simd/generic.h:116-119 | &= replaces the value with value & other and returns the same object |
| Simd.SimdVariable.XorAssign | include/fast_io_core_impl/simd/generic.h:120-123 | ^= replaces the value with value ^ other and returns the same object |
| Simd.SimdVariable.OrAssign | include/fast_io_core_impl/simd/generic.h:124-127 | \|= replaces the value with value \| other and returns the same object |
| Simd.SimdVariable.ShlAssign | include/fast_io_core_impl/simd/generic.h:128-131 | <<= replaces the value with value << other, for counts below the bit width, and returns the same object |
| Simd.SimdVariable.ShrAssign | include/fast_io_core_impl/simd/generic.h:132-135 | >>= replaces the value with value >> other, for counts below the bit width, and returns the same object |
| Simd.Negate | include/fast_io_core_impl/simd/generic.h:105-108 | unary minus is all-zero minus the vector, with the same element type and count |
| Simd.NegateWraps | include/fast_io_core_impl/simd/generic.h:105-108 | each element of -v is (2^(8·sizeof T) - x) mod 2^(8·sizeof T): it wraps and does not saturate |
| Simd.ComplementStrategiesAgree | include/fast_io_core_impl/simd/generic.h:136-151 | the XOR-with-all-ones path and the per-element ~ path give the same vector for every input |
| Simd.NotLaneValue | include/fast_io_core_impl/simd/generic.h:146-149 | the complement of an element of value x has value 2^(8·sizeof T) - 1 - x |
| Simd.Complement | include/fast_io_core_impl/simd/generic.h:136-151 | operator~ gives the per-element complement whatever CPU flags select, and every element x becomes 2^(8·sizeof T) - 1 - x |
| Simd.BitCast | include/fast_io_core_impl/simd/generic.h:110-115 | the conversion to simd_vector<T1,N1> (same total size, different T) keeps every storage byte, with N1 elements of T1 |
| Simd.BitCastRoundTrip | include/fast_io_core_impl/simd/generic.h:110-115 | converting to simd_vector<T1,N1> and back gives the original vector |
| Simd.ByteSwappedSingleByte | include/fast_io_core_impl/simd/generic.h:155-158 | with 1-byte elements, swapping byte order changes nothing |
| Simd.ByteSwappedInvolution | include/fast_io_core_impl/simd/generic.h:153-197 | swapping byte order twice restores the vector |
| Simd.ByteSwappedMemory | include/fast_io_core_impl/simd/generic.h:192-195 | after the per-element swap, storage byte k comes from byte (k div w)·w + (w-1-k mod w): the permutation a byte-reversal shuffle mask would have to encode |
| Simd.SimdVariable.SwapEndian | include/fast_io_core_impl/simd/generic.h:153-197 | swap_endian leaves every element byte-reversed; it needs 16 or 32 bytes of storage |
| LineScanner.FindLf | include/fast_io_freestanding_impl/scanners/line_scanner.h:126 | find_lf returns the first line feed in [first, last), or last when there is none |
| LineScanner.GrowthCapacity | include/fast_io_freestanding_impl/scanners/line_scanner.h:52-71 | the new capacity holds the staged and the new characters, never shrinks, and never exceeds SIZE_MAX |
| LineScanner.GrowthPolicy | include/fast_io_freestanding_impl/scanners/line_scanner.h:56-71 | below SIZE_MAX/2 the capacity doubles, raised to the needed size if that is larger; from SIZE_MAX/2 upwards it becomes SIZE_MAX |
| LineScanner.AppendCapacity | include/fast_io_freestanding_impl/scanners/line_scanner.h:84-91 | after an append the capacity holds everything staged, and it is unchanged when the free space sufficed |
| LineScanner.Step | include/fast_io_freestanding_impl/scanners/line_scanner.h:123-138 | Partial exactly for an empty chunk; the flag is set exactly when it was set or the chunk is empty; Ok stops at the first line feed or at last; capacity never shrinks; LF-free staging stays LF-free and records hold no LF |
| LineScanner.ContinuationIsSticky | include/fast_io_freestanding_impl/scanners/line_scanner.h:101-105 | once the continuation flag is set, no sequence of scan calls clears it |
| LineScanner.ContinuationAccumulates | include/fast_io_freestanding_impl/scanners/line_scanner.h:114-120 | while continuing, non-empty chunks are all Ok, each adds its line to the staged text, and the last record is the whole staged text |
| LineScanner.FreshChunksAreZeroCopy | include/fast_io_freestanding_impl/scanners/line_scanner.h:135-137 | without a continuation, each non-empty chunk yields Ok with its own line as the record and leaves the state unchanged |
| LineScanner.StraddleAfterEmptyChunk | include/fast_io_freestanding_impl/scanners/line_scanner.h:98-107 | an empty chunk starts staging from scratch with Partial at 0; the record emitted for the last following chunk is the concatenation of their lines |
| LineScanner.EmptyChunkIsIdempotent | include/fast_io_freestanding_impl/scanners/line_scanner.h:127-130 | an empty chunk yields Partial at its own position; repeating it changes nothing more |
| LineScanner.InitRestoresZeroCopy | include/fast_io_freestanding_impl/scanners/line_scanner.h:143-147 | after init, a non-empty chunk is a zero-copy Ok record again and the buffer is kept |
| LineScanner.ChunkWithoutLineFeedIsNotPartial | include/fast_io_freestanding_impl/scanners/line_scanner.h:126-137 | the chunks "abc\n", "de", "f\n" give the Ok records "abc", "de", "f" |
| LineScanner.ContinuedRecordsRunTogether | include/fast_io_freestanding_impl/scanners/line_scanner.h:114-120 | after an empty chunk, "de", "f\n", "g\n" are emitted as "de", "def", "defg" |
| LineScanner.AsWrittenGrowMisplacesData | include/fast_io_freestanding_impl/scanners/line_scanner.h:73-74 | as written, with staged characters the second copy leaves a gap of `elements` slots, and overruns the allocation when the capacity is exactly what is needed |
| LineScanner.AsWrittenGrowOverrunExample | include/fast_io_freestanding_impl/scanners/line_scanner.h:73-74 | one staged character in a full one-slot buffer plus two more: as written, capacity 3 but the copy ends at 4 |
| LineScanner.AsWrittenAppendWritesReleasedStorage | include/fast_io_freestanding_impl/scanners/line_scanner.h:84-91 | as written, whenever the append grows the buffer, its last copy writes past the end of the released storage |
| LineScanner.Allocator.Allocate | include/fast_io_freestanding_impl/scanners/line_scanner.h:72 | allocate_iobuf_space returns new storage of the requested size |
| LineScanner.Allocator.Deallocate | include/fast_io_freestanding_impl/scanners/line_scanner.h:75 | deallocate_iobuf_space releases the storage once; releasing null with size 0 does nothing |
| LineScanner.CopyN | include/fast_io_freestanding_impl/scanners/line_scanner.h:73-74 | non_overlapped_copy_n writes the source at the target offset, leaves every other slot unchanged, and returns the end of the copy |
| LineScanner.Buffer.constructor | include/fast_io_freestanding_impl/scanners/line_scanner.h:11-15 | the default buffer owns nothing, and its cursors are null |
| LineScanner.Buffer.Move | include/fast_io_freestanding_impl/scanners/line_scanner.h:19-22 | the move constructor takes the source's storage and cursors and nulls the source |
| LineScanner.Buffer.MoveAssign | include/fast_io_freestanding_impl/scanners/line_scanner.h:24-31 | move assignment releases the old storage exactly once, takes the source's storage and nulls the source |
| LineScanner.Buffer.Destroy | include/fast_io_freestanding_impl/scanners/line_scanner.h:32-35 | the destructor releases the owned storage exactly once, and releases nothing when null |
| LineScanner.Scanner.constructor | include/fast_io_freestanding_impl/scanners/line_scanner.h:37-40 | a new scanner has an empty buffer, no view and the flag cleared |
| LineScanner.Scanner.GrowAndAppend | include/fast_io_freestanding_impl/scanners/line_scanner.h:50-79 | growth moves the staged characters to fresh storage of the policy's capacity, appends the new characters after them and releases the old storage |
| LineScanner.Scanner.Append | include/fast_io_freestanding_impl/scanners/line_scanner.h:82-92 | the staged text becomes the old staged text plus [first, last); storage is replaced only when the free space is short |
| LineScanner.Scanner.NextPartial | include/fast_io_freestanding_impl/scanners/line_scanner.h:98-108 | sets the flag, restarts staging if the flag was clear, appends [first, last) and returns Partial at last |
| LineScanner.Scanner.NextInBuffer | include/fast_io_freestanding_impl/scanners/line_scanner.h:114-120 | appends [first, it), views the whole staged range and returns Ok at it |
| LineScanner.Scanner.Next | include/fast_io_freestanding_impl/scanners/line_scanner.h:123-138 | the new state and the result are Step's; on Ok the view denotes Step's record, zero-copy with the buffer untouched when no continuation is pending |
| LineScanner.Scanner.Init | include/fast_io_freestanding_impl/scanners/line_scanner.h:143-147 | init clears the flag and keeps the buffer |

## Left out

- `data()`, `load` and `store` (generic.h:19-41, 46-60) expose or copy raw memory. They are outside the value model.
- `wrap_add_assign` (generic.h:93-96) calls `wrap_add_common`. That function is not part of this model.
- The vector binary operators are defined outside generic.h. They are modelled as lane-wise unsigned operations that wrap.
- Signed and floating-point T are left out. Element values are read as unsigned. For signed T, `+`, `-`, `*`, `&`, `^`, `|`, `<<`, `~` and unary minus give the same bit patterns as the unsigned model. Signed `/` truncates toward zero and signed `>>` shifts arithmetically; neither is modelled.
- The x86 shuffle paths of `swap_endian` (generic.h:161-190), built on `_mm_shuffle_epi8` and `simd_byte_swap_shuffle_mask`, are not modelled; the mask is not part of this model. `Simd.ByteSwappedMemory` is a lemma about the generic per-element path (generic.h:192-195). It states the byte permutation a byte-reversal mask would have to encode.
- The last x86 branch (generic.h:182-188) is taken by a 32-byte vector when AVX2 is absent. It bit-casts the 32-byte vector to a 64-byte `__m512i`, which is ill-formed. This branch is not modelled.
- `operator~` selects its strategy at compile time from CPU flags. The flags are a parameter (`Simd.CpuFlags`).
- `scan_iterative_next_define` (line_scanner.h:150-154) only forwards to the implementation modelled by `LineScanner.Scanner.Next`.
- `scan_iterative_contiguous_define` (line_scanner.h:156-160) has an empty body that returns no value, so there is nothing to model.
- The deleted copy constructor and copy assignment have no behaviour to model.
- Allocation failure in `allocate_iobuf_space` is not modelled. Allocation always succeeds.
- `char_type` is modelled as `char`.
- LineScanner.Scanner.Next: requires the staged characters plus the chunk to fit in size_t. The header's `elements+sz` would wrap; that overflow is not modelled.
- LineScanner.Step: requires the staged characters plus the chunk to fit in size_t, for the same reason.
- LineScanner.Buffer.MoveAssign: requires the two buffers to be distinct and not to share storage. This is the `__restrict` and exclusive-ownership contract the header assumes; self-move is not modelled.
- LineScanner.Scanner.Next: views into the chunk are index ranges. Their validity after the caller reuses the chunk's memory is not modelled.

## Findings

| source | as written | input that shows it | evidently intended | confidence | as-written member | corrected member |
|---|---|---|---|---|---|---|
| include/fast_io_freestanding_impl/scanners/line_scanner.h:73-74 | the second copy starts at new_curr_ptr + elements, although new_curr_ptr already points `elements` past the start, so new characters land at offset 2·elements | "a" staged in a full one-slot buffer while continuing, then chunk "bc\n": new capacity 3, but the copy writes offsets 2..3 and curr ends at 4 | append right after the staged characters, so curr ends at elements + sz | high; not executed | LineScanner.AsWrittenGrowMisplacesData | LineScanner.Scanner.GrowAndAppend |
| include/fast_io_freestanding_impl/scanners/line_scanner.h:84-91 | after growing, line 91 copies the chunk again through the curr_ptr read at line 84, which points into the released storage | a default scanner fed "" and then "x\n": the buffer grows from null, then line 91 writes one character through the null curr_ptr | copy in place only when no growth happened, because growth already appended | high; not executed | LineScanner.AsWrittenAppendWritesReleasedStorage | LineScanner.Scanner.Append |
