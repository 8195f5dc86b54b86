/**
 * The incremental line scanner basic_line_scanner_buffer
 * (include/fast_io_freestanding_impl/scanners/line_scanner.h).
 *
 * A chunk is a range [first, last) of a character sequence `input`;
 * positions are indices into it. The staging buffer owns an array: begin_ptr
 * is the array, curr_ptr is begin_ptr + cur and end_ptr is begin_ptr +
 * Length, with all three null when no array is owned. A view is an index
 * range into the chunk (zero-copy) or into the staging array.
 *
 * Where the header as written does not compile or breaks memory safety, the
 * model follows the evident intent; each such place is marked DEVIATION.
 */
module LineScanner {
  import opened Platform

  // ---------------------------------------------------------------------
  // Results and views

  datatype ParseCode = Ok | Partial

  /** parse_result<char_type const*>: where scanning stopped, and the outcome. */
  datatype ParseResult = ParseResult(iter: nat, code: ParseCode)

  /** The pair view_begin_ptr / view_end_ptr. */
  datatype View =
    | NoView
    | InChunk(begin: nat, end: nat)
    | InStaging(storage: array?<char>, begin: nat, end: nat)

  function ViewStorage(v: View): set<object>
  {
    if v.InStaging? && v.storage != null then {v.storage} else {}
  }

  /** The characters a view denotes, read from the chunk or the staging array. */
  ghost function ViewText(v: View, input: seq<char>): seq<char>
    reads ViewStorage(v)
  {
    match v
    case NoView => []
    case InChunk(b, e) => if b <= e <= |input| then input[b..e] else []
    case InStaging(p, b, e) => if p != null && b <= e <= p.Length then p[b..e] else []
  }

  // ---------------------------------------------------------------------
  // find_lf (its implementation is not part of this model)

  /** The index of the first line feed in [first, last), or last if there is none. */
  function FindLf(input: seq<char>, first: nat, last: nat): (it: nat)
    requires first <= last <= |input|
    ensures first <= it <= last
    ensures forall k :: first <= k < it ==> input[k] != '\n'
    ensures it < last ==> input[it] == '\n'
    decreases last - first
  {
    if first == last || input[first] == '\n' then first else FindLf(input, first + 1, last)
  }

  // ---------------------------------------------------------------------
  // Growth policy (copy_to_next_line_buffer_internal_impl, lines 52-71)

  /**
   * szmxhalf. DEVIATION: line 57 initialises szmxhalf from itself; the
   * evident intent is half of szmx.
   */
  const SIZE_MAX_HALF: nat := SIZE_MAX / 2

  /** The capacity chosen when `elements` staged characters must be joined by `sz` more. */
  function GrowthCapacity(elements: nat, sz: nat, oldCapacity: nat): (newCapacity: nat)
    requires elements + sz <= SIZE_MAX && oldCapacity <= SIZE_MAX
    ensures elements + sz <= newCapacity <= SIZE_MAX
    ensures oldCapacity <= newCapacity
  {
    var doubled := if oldCapacity >= SIZE_MAX_HALF then SIZE_MAX else oldCapacity * 2;
    if doubled < elements + sz then elements + sz else doubled
  }

  /** Amortised doubling with a sufficiency floor, saturating at SIZE_MAX. */
  lemma GrowthPolicy(elements: nat, sz: nat, oldCapacity: nat)
    requires elements + sz <= SIZE_MAX && oldCapacity <= SIZE_MAX
    ensures oldCapacity < SIZE_MAX_HALF ==>
      GrowthCapacity(elements, sz, oldCapacity) ==
        if 2 * oldCapacity < elements + sz then elements + sz else 2 * oldCapacity
    ensures oldCapacity >= SIZE_MAX_HALF ==> GrowthCapacity(elements, sz, oldCapacity) == SIZE_MAX
  {
  }

  /** The capacity after appending sz characters to `used` staged ones (copy_to_next_line_buffer_impl). */
  function AppendCapacity(used: nat, capacity: nat, sz: nat): (c: nat)
    requires used <= capacity <= SIZE_MAX && used + sz <= SIZE_MAX
    ensures used + sz <= c <= SIZE_MAX && capacity <= c
    ensures capacity - used >= sz ==> c == capacity
  {
    if capacity - used < sz then GrowthCapacity(used, sz, capacity) else capacity
  }

  // ---------------------------------------------------------------------
  // The scanner as a state machine on values

  /** The observable state of a scanner: the continuation flag, the staged characters, the capacity. */
  datatype Session = Session(inbuffer: bool, staged: seq<char>, capacity: nat)

  ghost predicate Sound(s: Session)
  {
    |s.staged| <= s.capacity <= SIZE_MAX
  }

  /** The characters this call may stage fit in size_t. */
  ghost predicate Fits(s: Session, sz: nat)
  {
    (if s.inbuffer then |s.staged| else 0) + sz <= SIZE_MAX
  }

  /** What one call produces: the next state, the parse result and the record its view denotes. */
  datatype Emitted = Emitted(next: Session, result: ParseResult, record: seq<char>)

  /** One call of scan_iterative_next_line_define_impl on [first, last). */
  ghost function Step(s: Session, input: seq<char>, first: nat, last: nat): (e: Emitted)
    requires Sound(s) && first <= last <= |input| && Fits(s, last - first)
    ensures Sound(e.next)
    ensures s.capacity <= e.next.capacity
    ensures |e.next.staged| <= |s.staged| + (last - first)
    ensures e.result.code == Partial <==> first == last
    ensures e.next.inbuffer <==> s.inbuffer || first == last
    ensures first <= e.result.iter <= last
    ensures e.result.iter < last ==> input[e.result.iter] == '\n'
    ensures forall k :: first <= k < e.result.iter ==> input[k] != '\n'
    ensures '\n' !in s.staged ==> '\n' !in e.next.staged && '\n' !in e.record
  {
    if first == last then
      var staged := if s.inbuffer then s.staged else [];
      Emitted(Session(true, staged, s.capacity), ParseResult(last, Partial), [])
    else
      var it := FindLf(input, first, last);
      var line := input[first..it];
      assert '\n' !in line;
      if s.inbuffer then
        assert '\n' !in s.staged ==> '\n' !in s.staged + line;
        var staged := s.staged + line;
        Emitted(Session(true, staged, AppendCapacity(|s.staged|, s.capacity, it - first)),
                ParseResult(it, Ok), staged)
      else
        Emitted(s, ParseResult(it, Ok), line)
  }

  /** scan_iterative_init_define: clears the continuation flag and keeps the buffer. */
  function Reset(s: Session): Session
  {
    s.(inbuffer := false)
  }

  /** The characters of a chunk before its first line feed. */
  function LineOf(c: seq<char>): seq<char>
  {
    c[..FindLf(c, 0, |c|)]
  }

  function Lines(chunks: seq<seq<char>>): seq<char>
  {
    if chunks == [] then [] else LineOf(chunks[0]) + Lines(chunks[1..])
  }

  function TotalLength(chunks: seq<seq<char>>): nat
  {
    if chunks == [] then 0 else |chunks[0]| + TotalLength(chunks[1..])
  }

  predicate AllNonEmpty(chunks: seq<seq<char>>)
  {
    forall i :: 0 <= i < |chunks| ==> chunks[i] != []
  }

  datatype Trace = Trace(final: Session, results: seq<ParseResult>, records: seq<seq<char>>)

  /** Feeding whole chunks one call each. */
  ghost function Feed(s: Session, chunks: seq<seq<char>>): (t: Trace)
    requires Sound(s) && |s.staged| + TotalLength(chunks) <= SIZE_MAX
    ensures Sound(t.final) && |t.results| == |chunks| && |t.records| == |chunks|
    decreases |chunks|
  {
    if chunks == [] then Trace(s, [], [])
    else
      var c := chunks[0];
      var e := Step(s, c, 0, |c|);
      var t := Feed(e.next, chunks[1..]);
      Trace(t.final, [e.result] + t.results, [e.record] + t.records)
  }

  /** Once a record has started to straddle chunks, no further call clears the flag. */
  lemma {:induction false} ContinuationIsSticky(s: Session, chunks: seq<seq<char>>)
    requires Sound(s) && |s.staged| + TotalLength(chunks) <= SIZE_MAX
    requires s.inbuffer
    ensures Feed(s, chunks).final.inbuffer
    decreases |chunks|
  {
    if chunks != [] {
      var e := Step(s, chunks[0], 0, |chunks[0]|);
      ContinuationIsSticky(e.next, chunks[1..]);
    }
  }

  /**
   * While continuing, every non-empty chunk adds its line to the staged
   * characters and emits all of them: records are never separated again.
   */
  lemma {:induction false} ContinuationAccumulates(s: Session, chunks: seq<seq<char>>)
    requires Sound(s) && |s.staged| + TotalLength(chunks) <= SIZE_MAX
    requires s.inbuffer && AllNonEmpty(chunks)
    ensures Feed(s, chunks).final.staged == s.staged + Lines(chunks)
    ensures forall i :: 0 <= i < |chunks| ==> Feed(s, chunks).results[i].code == Ok
    ensures chunks != [] ==> Feed(s, chunks).records[|chunks| - 1] == Feed(s, chunks).final.staged
    decreases |chunks|
  {
    if chunks != [] {
      var c := chunks[0];
      var e := Step(s, c, 0, |c|);
      assert AllNonEmpty(chunks[1..]) by {
        forall i | 0 <= i < |chunks[1..]| ensures chunks[1..][i] != [] {
          assert chunks[1..][i] == chunks[i + 1];
        }
      }
      assert c != [];
      assert e.next.staged == s.staged + LineOf(c);
      ContinuationAccumulates(e.next, chunks[1..]);
      var t := Feed(e.next, chunks[1..]);
      assert s.staged + LineOf(c) + Lines(chunks[1..]) == s.staged + Lines(chunks);
      if chunks[1..] == [] {
        assert t.final == e.next;
      }
    }
  }

  /** Without a continuation, every non-empty chunk is a zero-copy record and the state does not move. */
  lemma {:induction false} FreshChunksAreZeroCopy(s: Session, chunks: seq<seq<char>>)
    requires Sound(s) && |s.staged| + TotalLength(chunks) <= SIZE_MAX
    requires !s.inbuffer && AllNonEmpty(chunks)
    ensures Feed(s, chunks).final == s
    ensures forall i :: 0 <= i < |chunks| ==>
      Feed(s, chunks).records[i] == LineOf(chunks[i]) &&
      Feed(s, chunks).results[i] == ParseResult(FindLf(chunks[i], 0, |chunks[i]|), Ok)
    decreases |chunks|
  {
    if chunks != [] {
      assert AllNonEmpty(chunks[1..]) by {
        forall i | 0 <= i < |chunks[1..]| ensures chunks[1..][i] != [] {
          assert chunks[1..][i] == chunks[i + 1];
        }
      }
      assert chunks[0] != [];
      FreshChunksAreZeroCopy(s, chunks[1..]);
    }
  }

  /**
   * A record split over several chunks is reassembled when the transport
   * signals the split with an empty chunk: the empty chunk yields Partial and
   * starts staging from scratch, and the last call emits the whole record.
   */
  lemma StraddleAfterEmptyChunk(s: Session, chunks: seq<seq<char>>)
    requires Sound(s) && |s.staged| + TotalLength(chunks) <= SIZE_MAX
    requires !s.inbuffer && chunks != [] && AllNonEmpty(chunks)
    ensures TotalLength([[]] + chunks) == TotalLength(chunks)
    ensures Feed(s, [[]] + chunks).results[0] == ParseResult(0, Partial)
    ensures Feed(s, [[]] + chunks).records[|chunks|] == Lines(chunks)
  {
    var all := [[]] + chunks;
    assert all[0] == [] && all[1..] == chunks;
    var e := Step(s, [], 0, 0);
    assert e.next == Session(true, [], s.capacity);
    ContinuationAccumulates(e.next, chunks);
  }

  /** An empty chunk yields Partial at its position, and a second empty chunk changes nothing more. */
  lemma EmptyChunkIsIdempotent(s: Session, input: seq<char>, p: nat)
    requires Sound(s) && p <= |input| && Fits(s, 0)
    ensures Step(s, input, p, p).result == ParseResult(p, Partial)
    ensures Step(s, input, p, p).next.inbuffer
    ensures s.inbuffer ==> Step(s, input, p, p).next == s
    ensures var n := Step(s, input, p, p).next;
      Fits(n, 0) && Step(n, input, p, p).next == n && Step(n, input, p, p).result == ParseResult(p, Partial)
  {
  }

  /** After init, a non-empty chunk is a zero-copy record again and the buffer is retained. */
  lemma InitRestoresZeroCopy(s: Session, input: seq<char>, first: nat, last: nat)
    requires Sound(s) && first < last <= |input| && last - first <= SIZE_MAX
    ensures Fits(Reset(s), last - first)
    ensures Step(Reset(s), input, first, last) ==
      Emitted(Reset(s), ParseResult(FindLf(input, first, last), Ok), input[first..FindLf(input, first, last)])
  {
  }

  /**
   * The chunks "abc\n", "de", "f\n" give three Ok records "abc", "de", "f":
   * the call on "de" is not Partial, because the partial path is taken only
   * for an empty chunk (line 127).
   */
  lemma ChunkWithoutLineFeedIsNotPartial()
    ensures TotalLength(["abc\n", "de", "f\n"]) == 8
    ensures Feed(Session(false, [], 0), ["abc\n", "de", "f\n"]).records == ["abc", "de", "f"]
    ensures Feed(Session(false, [], 0), ["abc\n", "de", "f\n"]).results ==
      [ParseResult(3, Ok), ParseResult(2, Ok), ParseResult(1, Ok)]
  {
    var chunks := ["abc\n", "de", "f\n"];
    assert FindLf("abc\n", 0, 4) == 3;
    assert FindLf("de", 0, 2) == 2;
    assert FindLf("f\n", 0, 2) == 1;
    assert AllNonEmpty(chunks) by {
      assert chunks[0] != [] && chunks[1] != [] && chunks[2] != [];
    }
    FreshChunksAreZeroCopy(Session(false, [], 0), chunks);
    var t := Feed(Session(false, [], 0), chunks);
    assert t.records[0] == "abc" && t.records[1] == "de" && t.records[2] == "f";
  }

  /**
   * With an empty chunk before "de", the scanner stages "de" and then "def";
   * because the flag is never cleared, the next line "g" is emitted as "defg".
   */
  lemma ContinuedRecordsRunTogether()
    ensures TotalLength(["", "de", "f\n", "g\n"]) == 6
    ensures Feed(Session(false, [], 0), ["", "de", "f\n", "g\n"]).records == [[], "de", "def", "defg"]
  {
    var s := Session(true, [], 0);
    assert Step(Session(false, [], 0), "", 0, 0).next == s;
    assert FindLf("de", 0, 2) == 2;
    assert FindLf("f\n", 0, 2) == 1;
    assert FindLf("g\n", 0, 2) == 1;
    var s1 := Step(s, "de", 0, 2).next;
    assert s1.staged == "de";
    var s2 := Step(s1, "f\n", 0, 2).next;
    assert s2.staged == "def";
    var s3 := Step(s2, "g\n", 0, 2).next;
    assert s3.staged == "defg";
  }

  // ---------------------------------------------------------------------
  // Source defects recorded as findings, as the header is written

  /**
   * As written, line 73 leaves new_curr_ptr at new_begin_ptr + elements and
   * line 74 adds `elements` again: the appended characters land at offset
   * 2 * elements and curr_ptr ends at 2 * elements + sz.
   */
  function AsWrittenGrowCursor(elements: nat, sz: nat): nat
  {
    (elements + elements) + sz
  }

  /**
   * With staged characters, the as-written cursor leaves `elements`
   * unwritten slots inside the staged range, and when the sufficiency floor
   * sets the capacity, the copy runs past the new allocation.
   */
  lemma AsWrittenGrowMisplacesData(elements: nat, sz: nat, oldCapacity: nat)
    requires elements + sz <= SIZE_MAX && elements <= oldCapacity <= SIZE_MAX
    requires elements > 0
    ensures AsWrittenGrowCursor(elements, sz) != elements + sz
    ensures GrowthCapacity(elements, sz, oldCapacity) == elements + sz ==>
      AsWrittenGrowCursor(elements, sz) > GrowthCapacity(elements, sz, oldCapacity)
  {
  }

  /** "a" staged in a full one-character buffer, then "bc": the copy ends at 4 in a 3-character allocation. */
  lemma AsWrittenGrowOverrunExample()
    ensures GrowthCapacity(1, 2, 1) == 3 && AsWrittenGrowCursor(1, 2) == 4
  {
  }

  /** Which allocation a write goes to. */
  datatype Storage = OldStorage | NewStorage

  /** One write of the as-written append: target allocation and offsets [lo, hi). */
  datatype Write = Write(target: Storage, lo: nat, hi: nat)

  /**
   * As written (with the size passed at line 89), copy_to_next_line_buffer_impl
   * first grows when the free space is short, then line 91 still copies
   * through the curr_ptr it read at line 84, which points into the storage
   * line 75 released.
   */
  function AsWrittenAppendWrites(used: nat, capacity: nat, sz: nat): seq<Write>
  {
    if capacity - used < sz then
      [Write(NewStorage, 0, used),
       Write(NewStorage, AsWrittenGrowCursor(used, 0), AsWrittenGrowCursor(used, sz)),
       Write(OldStorage, used, used + sz)]
    else [Write(OldStorage, used, used + sz)]
  }

  /** Whenever the append grows the buffer, the as-written final copy writes past the end of the released storage. */
  lemma AsWrittenAppendWritesReleasedStorage(used: nat, capacity: nat, sz: nat)
    requires used <= capacity
    requires capacity - used < sz
    ensures var w := AsWrittenAppendWrites(used, capacity, sz)[2];
      w.target == OldStorage && w.hi > capacity
  {
  }

  // ---------------------------------------------------------------------
  // The allocator (allocate_iobuf_space / deallocate_iobuf_space)

  class Allocator {
    /** Every storage handed back, in order. */
    ghost var released: seq<array<char>>

    constructor ()
      ensures released == []
    {
      released := [];
    }

    method Allocate(n: nat) returns (p: array<char>)
      requires n <= SIZE_MAX
      ensures fresh(p) && p.Length == n
    {
      p := new char[n];
    }

    /** Releasing null with size 0 is a no-op. */
    method Deallocate(p: array?<char>, n: nat)
      requires p == null ==> n == 0
      requires p != null ==> n == p.Length
      modifies this
      ensures released == old(released) + (if p == null then [] else [p])
    {
      if p != null {
        released := released + [p];
      }
    }
  }

  /** non_overlapped_copy_n: copies src to dst[at..], returning the end of the copy. */
  method CopyN(src: seq<char>, dst: array<char>, at: nat) returns (end: nat)
    requires at + |src| <= dst.Length
    modifies dst
    ensures end == at + |src|
    ensures dst[..at] == old(dst[..at])
    ensures dst[at..end] == src
    ensures dst[end..] == old(dst[end..])
  {
    var i := 0;
    while i < |src|
      invariant 0 <= i <= |src|
      invariant forall k :: 0 <= k < at ==> dst[k] == old(dst[k])
      invariant forall k :: 0 <= k < i ==> dst[at + k] == src[k]
      invariant forall k :: at + i <= k < dst.Length ==> dst[k] == old(dst[k])
    {
      dst[at + i] := src[i];
      i := i + 1;
    }
    end := at + |src|;
    assert dst[at..end] == src by {
      forall k | 0 <= k < |src| ensures dst[at..end][k] == src[k] {
        assert dst[at + k] == src[k];
      }
    }
  }

  // ---------------------------------------------------------------------
  // The staging buffer (buffer_type)

  class Buffer {
    /** begin_ptr; end_ptr is begin_ptr + data.Length; null when nothing is owned. */
    var data: array?<char>
    /** curr_ptr - begin_ptr. */
    var cur: nat

    /** begin <= curr <= end. */
    ghost predicate Valid()
      reads this
    {
      if data == null then cur == 0 else cur <= data.Length <= SIZE_MAX
    }

    /** end_ptr - begin_ptr. */
    function Capacity(): nat
      reads this
    {
      if data == null then 0 else data.Length
    }

    /** [begin_ptr, curr_ptr). */
    ghost function Staged(): (s: seq<char>)
      reads this, data
      requires Valid()
      ensures |s| == cur <= Capacity()
    {
      if data == null then [] else data[..cur]
    }

    /** The owned storage has not been released. */
    ghost predicate Live(alloc: Allocator)
      reads this, alloc
    {
      data == null || data !in alloc.released
    }

    /** The defaulted constructor: all three pointers null. */
    constructor ()
      ensures data == null && cur == 0 && Valid()
    {
      data := null;
      cur := 0;
    }

    /** The move constructor: takes the three pointers and nulls the source. */
    constructor Move(other: Buffer)
      requires other.Valid()
      modifies other
      ensures data == old(other.data) && cur == old(other.cur) && Valid()
      ensures other.data == null && other.cur == 0
    {
      data := other.data;
      cur := other.cur;
      other.data := null;
      other.cur := 0;
    }

    /**
     * Move assignment: releases the storage this buffer owns, then takes the
     * source's pointers and nulls the source. DEVIATION: the operator as
     * written (lines 24-31) has no `return *this`; the model returns this.
     */
    method MoveAssign(other: Buffer, alloc: Allocator) returns (self: Buffer)
      requires other != this
      requires Valid() && other.Valid() && Live(alloc) && other.Live(alloc)
      requires other.data == null || other.data != data
      modifies this, other, alloc
      ensures Valid() && Live(alloc) && other.Valid() && self == this
      ensures data == old(other.data) && cur == old(other.cur)
      ensures other.data == null && other.cur == 0
      ensures alloc.released == old(alloc.released) + (if old(data) == null then [] else [old(data)])
      ensures old(data) != null ==> multiset(alloc.released)[old(data)] == 1
    {
      alloc.Deallocate(data, Capacity());
      data := other.data;
      cur := other.cur;
      other.data := null;
      other.cur := 0;
      self := this;
    }

    /** The destructor: releases the owned storage once; a null buffer releases nothing. */
    method Destroy(alloc: Allocator)
      requires Valid() && Live(alloc)
      modifies alloc
      ensures alloc.released == old(alloc.released) + (if data == null then [] else [data])
      ensures data != null ==> multiset(alloc.released)[data] == 1
    {
      alloc.Deallocate(data, Capacity());
    }
  }

  // ---------------------------------------------------------------------
  // The scanner (basic_line_scanner_buffer)

  class Scanner {
    const buffer: Buffer
    var view: View
    var inbuffer: bool

    ghost predicate Valid()
      reads this, buffer
    {
      buffer.Valid()
    }

    ghost function State(): Session
      reads this, buffer, buffer.data
      requires Valid()
    {
      Session(inbuffer, buffer.Staged(), buffer.Capacity())
    }

    constructor ()
      ensures Valid() && fresh(buffer) && buffer.data == null
      ensures view == NoView && State() == Session(false, [], 0)
    {
      buffer := new Buffer();
      view := NoView;
      inbuffer := false;
    }

    /**
     * copy_to_next_line_buffer_internal_impl: allocates the capacity the
     * growth policy picks, copies the staged characters and then
     * input[first..first+sz] into it, releases the old storage and points the
     * cursors at the new one. DEVIATION: line 74 copies to new_curr_ptr +
     * elements, which already includes `elements`; the model appends right
     * after the staged characters.
     */
    method GrowAndAppend(alloc: Allocator, input: seq<char>, first: nat, sz: nat)
      requires Valid() && buffer.Live(alloc)
      requires first + sz <= |input|
      requires buffer.cur + sz <= SIZE_MAX
      modifies buffer, alloc
      ensures Valid() && buffer.Live(alloc) && fresh(buffer.data)
      ensures buffer.Staged() == old(buffer.Staged()) + input[first..first + sz]
      ensures buffer.Capacity() == GrowthCapacity(old(buffer.cur), sz, old(buffer.Capacity()))
      ensures alloc.released ==
        old(alloc.released) + (if old(buffer.data) == null then [] else [old(buffer.data)])
    {
      var bg := buffer.data;
      var elements := buffer.cur;
      var oldCapacity := buffer.Capacity();
      var newCapacity := GrowthCapacity(elements, sz, oldCapacity);
      var newBegin := alloc.Allocate(newCapacity);
      ghost var staged := buffer.Staged();
      var newCurr := CopyN(if bg == null then [] else bg[..elements], newBegin, 0);
      newCurr := CopyN(input[first..first + sz], newBegin, newCurr);
      assert newBegin[..newCurr] == staged + input[first..first + sz] by {
        assert newBegin[..newCurr] == newBegin[..elements] + newBegin[elements..newCurr];
      }
      alloc.Deallocate(bg, oldCapacity);
      buffer.data, buffer.cur := newBegin, newCurr;
    }

    /**
     * copy_to_next_line_buffer_impl: appends input[first..last], growing
     * first when the free space is short. DEVIATION: line 89 passes `last`
     * where the size is expected, and line 91 then copies again through the
     * curr_ptr of the released storage; the model passes the size and lets
     * the growth step do the whole append.
     */
    method Append(alloc: Allocator, input: seq<char>, first: nat, last: nat)
      requires Valid() && buffer.Live(alloc)
      requires first <= last <= |input|
      requires buffer.cur + (last - first) <= SIZE_MAX
      modifies buffer, buffer.data, alloc
      ensures Valid() && buffer.Live(alloc)
      ensures buffer.Staged() == old(buffer.Staged()) + input[first..last]
      ensures buffer.Capacity() == AppendCapacity(old(buffer.cur), old(buffer.Capacity()), last - first)
      ensures old(buffer.Capacity()) - old(buffer.cur) >= last - first ==> buffer.data == old(buffer.data)
      ensures buffer.data == old(buffer.data) ==> alloc.released == old(alloc.released)
      ensures buffer.data != old(buffer.data) ==> (fresh(buffer.data) &&
        alloc.released == old(alloc.released) + (if old(buffer.data) == null then [] else [old(buffer.data)]))
    {
      var curr := buffer.cur;
      var bfsz := buffer.Capacity() - curr;
      var diff := last - first;
      if bfsz < diff {
        GrowAndAppend(alloc, input, first, diff);
      } else if buffer.data != null {
        ghost var staged := buffer.Staged();
        var end := CopyN(input[first..last], buffer.data, curr);
        buffer.cur := end;
        assert buffer.data[..end] == staged + input[first..last] by {
          assert buffer.data[..end] == buffer.data[..curr] + buffer.data[curr..end];
        }
      }
    }

    /** scan_iterative_next_line_define_partial: starts or continues staging, then appends [first, last). */
    method NextPartial(alloc: Allocator, input: seq<char>, first: nat, last: nat) returns (r: ParseResult)
      requires Valid() && buffer.Live(alloc)
      requires first <= last <= |input|
      requires Fits(State(), last - first)
      modifies this, buffer, buffer.data, alloc
      ensures Valid() && buffer.Live(alloc)
      ensures r == ParseResult(last, Partial) && inbuffer && view == old(view)
      ensures first == last ==> buffer.data == old(buffer.data)
      ensures buffer.Staged() == (if old(inbuffer) then old(buffer.Staged()) else []) + input[first..last]
      ensures buffer.Capacity() ==
        AppendCapacity(if old(inbuffer) then old(buffer.cur) else 0, old(buffer.Capacity()), last - first)
      ensures buffer.data == old(buffer.data) ==> alloc.released == old(alloc.released)
      ensures buffer.data != old(buffer.data) ==> (fresh(buffer.data) &&
        alloc.released == old(alloc.released) + (if old(buffer.data) == null then [] else [old(buffer.data)]))
    {
      if !inbuffer {
        inbuffer := true;
        buffer.cur := 0;
      }
      Append(alloc, input, first, last);
      r := ParseResult(last, Partial);
    }

    /** scan_iterative_next_line_define_inbuffer: appends [first, it) and views the whole staged range. */
    method NextInBuffer(alloc: Allocator, input: seq<char>, first: nat, it: nat) returns (r: ParseResult)
      requires Valid() && buffer.Live(alloc)
      requires first <= it <= |input|
      requires buffer.cur + (it - first) <= SIZE_MAX
      modifies this, buffer, buffer.data, alloc
      ensures Valid() && buffer.Live(alloc)
      ensures r == ParseResult(it, Ok) && inbuffer == old(inbuffer)
      ensures buffer.Staged() == old(buffer.Staged()) + input[first..it]
      ensures buffer.Capacity() == AppendCapacity(old(buffer.cur), old(buffer.Capacity()), it - first)
      ensures view == InStaging(buffer.data, 0, buffer.cur)
      ensures buffer.data == old(buffer.data) ==> alloc.released == old(alloc.released)
      ensures buffer.data != old(buffer.data) ==> (fresh(buffer.data) &&
        alloc.released == old(alloc.released) + (if old(buffer.data) == null then [] else [old(buffer.data)]))
    {
      Append(alloc, input, first, it);
      view := InStaging(buffer.data, 0, buffer.cur);
      r := ParseResult(it, Ok);
    }

    /**
     * scan_iterative_next_line_define_impl: one call on the chunk [first, last).
     * The new state is the one Step gives, and the view denotes Step's record:
     * a range of the chunk when no continuation is pending, the whole staged
     * range otherwise.
     */
    method Next(alloc: Allocator, input: seq<char>, first: nat, last: nat) returns (r: ParseResult)
      requires Valid() && buffer.Live(alloc)
      requires first <= last <= |input|
      requires Fits(State(), last - first)
      modifies this, buffer, buffer.data, alloc
      ensures Valid() && buffer.Live(alloc)
      ensures State() == Step(old(State()), input, first, last).next
      ensures r == Step(old(State()), input, first, last).result
      ensures r.code == Ok ==> ViewText(view, input) == Step(old(State()), input, first, last).record
      ensures r.code == Ok && !old(inbuffer) ==>
        view == InChunk(first, r.iter) && unchanged(buffer) && (buffer.data != null ==> unchanged(buffer.data))
      ensures r.code == Ok && old(inbuffer) ==> view == InStaging(buffer.data, 0, buffer.cur)
      ensures r.code == Partial ==> view == old(view) && buffer.data == old(buffer.data)
      ensures buffer.data == old(buffer.data) ==> alloc.released == old(alloc.released)
      ensures buffer.data != old(buffer.data) ==> (fresh(buffer.data) &&
        alloc.released == old(alloc.released) + (if old(buffer.data) == null then [] else [old(buffer.data)]))
    {
      var it := FindLf(input, first, last);
      if first == last {
        r := NextPartial(alloc, input, first, last);
      } else if inbuffer {
        r := NextInBuffer(alloc, input, first, it);
      } else {
        view := InChunk(first, it);
        r := ParseResult(it, Ok);
      }
    }

    /** scan_iterative_init_define: clears the flag; buffer and view are kept. */
    method Init()
      requires Valid()
      modifies this`inbuffer
      ensures Valid() && State() == Reset(old(State())) && !inbuffer
    {
      inbuffer := false;
    }
  }
}
