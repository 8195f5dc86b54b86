/**
 * The fixed-width vector value simd_vector<T,N>
 * (include/fast_io_core_impl/simd/generic.h).
 *
 * A vector is N elements of one unsigned integral type T. Each element is
 * kept as its object representation: sizeof(T) bytes, lowest address first
 * (little-endian, the byte order of the x86-64 targets the header is written
 * for). The bytes of the whole vector are the lanes laid end to end, which
 * is what a bit-cast or a memcpy of `value` sees.
 */
module Simd {
  import opened Platform

  /** The integral element types, by byte width. */
  datatype Scalar = U8 | U16 | U32 | U64

  /** sizeof(T). */
  function SizeOf(t: Scalar): (n: nat)
    ensures n == 1 || n == 2 || n == 4 || n == 8
  {
    match t
    case U8 => 1
    case U16 => 2
    case U32 => 4
    case U64 => 8
  }

  /** The bytes of one element, lowest address first. */
  type Lane = seq<bv8>

  /** simd_vector<T,N>: `elem` is T and |lanes| is N. */
  datatype Vector = Vector(elem: Scalar, lanes: seq<Lane>)

  predicate Uniform(ls: seq<Lane>, w: nat)
  {
    forall i :: 0 <= i < |ls| ==> |ls[i]| == w
  }

  /** Every lane holds exactly sizeof(T) bytes. */
  predicate WellFormed(v: Vector)
  {
    Uniform(v.lanes, SizeOf(v.elem))
  }

  /** Both operands have the type simd_vector<T,N>. */
  predicate SameType(x: Vector, y: Vector)
  {
    x.elem == y.elem && |x.lanes| == |y.lanes|
  }

  // ---------------------------------------------------------------------
  // Object representation

  function Flatten(ls: seq<Lane>): seq<bv8>
  {
    if ls == [] then [] else ls[0] + Flatten(ls[1..])
  }

  /** The N * sizeof(T) bytes of `value`, in memory order. */
  function Bytes(v: Vector): seq<bv8>
  {
    Flatten(v.lanes)
  }

  /** Cuts n * w bytes into n lanes of w bytes each. */
  function Chunk(b: seq<bv8>, w: nat, n: nat): (ls: seq<Lane>)
    requires |b| == n * w
    ensures |ls| == n && Uniform(ls, w)
  {
    if n == 0 then []
    else
      assert |b| == (n - 1) * w + w;
      [b[..w]] + Chunk(b[w..], w, n - 1)
  }

  lemma {:induction false} FlattenLength(ls: seq<Lane>, w: nat)
    requires Uniform(ls, w)
    ensures |Flatten(ls)| == |ls| * w
  {
    if ls != [] {
      FlattenLength(ls[1..], w);
      assert |ls| * w == (|ls| - 1) * w + w;
    }
  }

  lemma SliceFits(n: nat, w: nat, i: nat)
    requires i < n
    ensures i * w + w <= n * w
  {
    assert n * w == i * w + (n - i) * w;
    assert (n - i) * w == (n - i - 1) * w + w;
  }

  /** Lane i occupies bytes [i*w, i*w + w) of the representation. */
  lemma {:induction false} FlattenSlice(ls: seq<Lane>, w: nat, i: nat)
    requires Uniform(ls, w) && i < |ls|
    ensures i * w + w <= |Flatten(ls)|
    ensures Flatten(ls)[i * w..i * w + w] == ls[i]
  {
    FlattenLength(ls, w);
    SliceFits(|ls|, w, i);
    if i > 0 {
      var rest := Flatten(ls[1..]);
      FlattenSlice(ls[1..], w, i - 1);
      var k := (i - 1) * w;
      assert i * w == k + w;
      assert Flatten(ls) == ls[0] + rest;
      assert Flatten(ls)[i * w..i * w + w] == rest[k..k + w];
    }
  }

  /** Byte k of n lanes of w bytes is byte k % w of lane k / w. */
  lemma LanePosition(k: nat, w: nat, n: nat)
    requires w == 1 || w == 2 || w == 4 || w == 8
    requires k < n * w
    ensures k / w < n && k % w < w && k == (k / w) * w + k % w
  {
    if w == 1 {
    } else if w == 2 {
    } else if w == 4 {
    } else {
    }
  }

  /** Byte j of lane i sits at address i*w + j of the representation. */
  lemma FlattenAt(ls: seq<Lane>, w: nat, i: nat, j: nat)
    requires Uniform(ls, w) && i < |ls| && j < w
    ensures i * w + j < |Flatten(ls)|
    ensures Flatten(ls)[i * w + j] == ls[i][j]
  {
    FlattenSlice(ls, w, i);
    assert Flatten(ls)[i * w..i * w + w][j] == Flatten(ls)[i * w + j];
  }

  /** The last lane is the last w bytes of the representation. */
  lemma FlattenLast(ls: seq<Lane>, w: nat)
    requires Uniform(ls, w) && |ls| >= 1
    ensures w <= |Flatten(ls)|
    ensures Flatten(ls)[|Flatten(ls)| - w..] == ls[|ls| - 1]
  {
    FlattenLength(ls, w);
    FlattenSlice(ls, w, |ls| - 1);
    assert (|ls| - 1) * w + w == |ls| * w;
  }

  lemma {:induction false} FlattenChunk(b: seq<bv8>, w: nat, n: nat)
    requires |b| == n * w
    ensures Flatten(Chunk(b, w, n)) == b
  {
    if n > 0 {
      assert |b| == (n - 1) * w + w;
      var ls := Chunk(b, w, n);
      assert ls[0] == b[..w] && ls[1..] == Chunk(b[w..], w, n - 1);
      FlattenChunk(b[w..], w, n - 1);
      assert b == b[..w] + b[w..];
    }
  }

  lemma {:induction false} ChunkFlatten(ls: seq<Lane>, w: nat)
    requires Uniform(ls, w)
    ensures |Flatten(ls)| == |ls| * w
    ensures Chunk(Flatten(ls), w, |ls|) == ls
  {
    FlattenLength(ls, w);
    if ls != [] {
      ChunkFlatten(ls[1..], w);
      var b := Flatten(ls);
      assert b[..w] == ls[0] && b[w..] == Flatten(ls[1..]);
      assert ls == [ls[0]] + ls[1..];
    }
  }

  // ---------------------------------------------------------------------
  // Size queries and element access (generic.h:42-45, 61-83)

  /** size(): N, the number of elements that make up the N * sizeof(T) bytes. */
  function Size(v: Vector): (n: nat)
    requires WellFormed(v)
    ensures n * SizeOf(v.elem) == |Bytes(v)|
  {
    FlattenLength(v.lanes, SizeOf(v.elem));
    |v.lanes|
  }

  /** empty(): `!N`. */
  function Empty(v: Vector): (b: bool)
    requires WellFormed(v)
    ensures b <==> Size(v) == 0
    ensures b <==> Bytes(v) == []
  {
    FlattenLength(v.lanes, SizeOf(v.elem));
    |v.lanes| == 0
  }

  /** max_size(): SIZE_MAX / sizeof(T), the largest element count whose bytes fit in size_t. */
  function MaxSize(t: Scalar): (m: nat)
    ensures m * SizeOf(t) <= SIZE_MAX < (m + 1) * SizeOf(t)
  {
    SIZE_MAX / SizeOf(t)
  }

  /** Every vector whose bytes are addressable has at most max_size() elements. */
  lemma SizeWithinMaxSize(v: Vector)
    requires WellFormed(v) && |Bytes(v)| <= SIZE_MAX
    ensures Size(v) <= MaxSize(v.elem)
  {
  }

  /** operator[](n): the element stored at bytes [n*sizeof(T), (n+1)*sizeof(T)). */
  function At(v: Vector, n: nat): (x: Lane)
    requires WellFormed(v) && n < |v.lanes|
    ensures |x| == SizeOf(v.elem)
    ensures n * SizeOf(v.elem) + SizeOf(v.elem) <= |Bytes(v)|
    ensures x == Bytes(v)[n * SizeOf(v.elem)..n * SizeOf(v.elem) + SizeOf(v.elem)]
  {
    FlattenSlice(v.lanes, SizeOf(v.elem), n);
    v.lanes[n]
  }

  /** front(): the first sizeof(T) bytes. value[0] needs N >= 1. */
  function Front(v: Vector): (x: Lane)
    requires WellFormed(v) && |v.lanes| >= 1
    ensures SizeOf(v.elem) <= |Bytes(v)| && x == Bytes(v)[..SizeOf(v.elem)]
    ensures x == At(v, 0)
  {
    FlattenSlice(v.lanes, SizeOf(v.elem), 0);
    v.lanes[0]
  }

  /** back(): the last sizeof(T) bytes; value[N-1] needs N >= 1. */
  function Back(v: Vector): (x: Lane)
    requires WellFormed(v) && |v.lanes| >= 1
    ensures SizeOf(v.elem) <= |Bytes(v)| && x == Bytes(v)[|Bytes(v)| - SizeOf(v.elem)..]
    ensures x == At(v, Size(v) - 1)
  {
    FlattenLast(v.lanes, SizeOf(v.elem));
    v.lanes[|v.lanes| - 1]
  }

  // ---------------------------------------------------------------------
  // Element values: unsigned, little-endian

  function Pow256(w: nat): (p: nat)
    ensures p >= 1
  {
    if w == 0 then 1 else 256 * Pow256(w - 1)
  }

  function Pow2(s: nat): (p: nat)
    ensures p >= 1
  {
    if s == 0 then 1 else 2 * Pow2(s - 1)
  }

  /** The unsigned value an element's bytes denote. */
  function Value(l: Lane): nat
  {
    if l == [] then 0 else l[0] as nat + 256 * Value(l[1..])
  }

  /** The w-byte element holding n modulo 2^(8w): a conversion to T. */
  function FromNat(n: nat, w: nat): (l: Lane)
    ensures |l| == w
  {
    if w == 0 then [] else [(n % 256) as bv8] + FromNat(n / 256, w - 1)
  }

  lemma MulAtLeast(m: int, k: int)
    requires m > 0 && k >= 1
    ensures m * k >= m
  {
    assert m * k == m * (k - 1) + m;
  }

  lemma DivModUnique(n: int, m: int, q: int, r: int)
    requires m > 0 && 0 <= r < m && n == m * q + r
    ensures n / m == q && n % m == r
  {
    var q', r' := n / m, n % m;
    assert n == m * q' + r';
    assert m * (q - q') == r' - r by {
      assert m * (q - q') == m * q - m * q';
    }
    if q > q' {
      MulAtLeast(m, q - q');
    } else if q < q' {
      MulAtLeast(m, q' - q);
    }
  }

  lemma {:induction false} ModSplit(n: nat, p: nat)
    requires p > 0
    ensures n % (256 * p) == n % 256 + 256 * ((n / 256) % p)
  {
    var q, r := n / 256, n % 256;
    var q2, r2 := q / p, q % p;
    assert n == (256 * p) * q2 + (256 * r2 + r) by {
      assert q == p * q2 + r2;
      assert n == 256 * q + r;
      assert 256 * q == 256 * (p * q2) + 256 * r2;
      assert 256 * (p * q2) == (256 * p) * q2;
    }
    assert 256 * r2 + r < 256 * p by {
      assert r2 <= p - 1;
      assert 256 * r2 <= 256 * (p - 1);
    }
    DivModUnique(n, 256 * p, q2, 256 * r2 + r);
  }

  lemma ByteOfNat(d: nat)
    requires d < 256
    ensures (d as bv8) as nat == d
  {
    var b: bv16 := d as bv16;
    assert b < 256;
    assert (b as bv8) as nat == b as nat;
  }

  lemma NatOfByte(c: bv8)
    ensures (c as nat) as bv8 == c && c as nat < 256
  {
  }

  /** Storing n into a w-byte element keeps n modulo 2^(8w). */
  lemma {:induction false} ValueFromNat(n: nat, w: nat)
    ensures Value(FromNat(n, w)) == n % Pow256(w)
  {
    if w > 0 {
      var l := FromNat(n, w);
      assert l[1..] == FromNat(n / 256, w - 1);
      ByteOfNat(n % 256);
      ValueFromNat(n / 256, w - 1);
      ModSplit(n, Pow256(w - 1));
    }
  }

  /** Every byte pattern is the representation of its own value. */
  lemma {:induction false} FromNatValue(l: Lane)
    ensures FromNat(Value(l), |l|) == l
  {
    if l != [] {
      NatOfByte(l[0]);
      DivModUnique(Value(l), 256, Value(l[1..]), l[0] as nat);
      FromNatValue(l[1..]);
      assert l == [l[0]] + l[1..];
    }
  }

  /** A w-byte element holds a value below 2^(8w), and it is determined by that value. */
  lemma ValueBound(l: Lane)
    ensures Value(l) < Pow256(|l|)
  {
    FromNatValue(l);
    ValueFromNat(Value(l), |l|);
  }

  // ---------------------------------------------------------------------
  // Element-wise operators. The binary operators themselves are defined
  // outside generic.h; they act lane by lane with unsigned wrap-around, as
  // the compiler vector extensions they stand for do.

  datatype BinOp = Add | Sub | Mul | Div | And | Xor | Or | Shl | Shr

  /** Division by zero and shifts by the bit width or more are undefined. */
  predicate LaneDefined(op: BinOp, a: Lane, b: Lane)
  {
    (op == Div ==> Value(b) != 0) &&
    (op == Shl || op == Shr ==> Value(b) < 8 * |a|)
  }

  /** The exact result of an arithmetic or shift operator, before it is stored back into T. */
  function Arith(op: BinOp, x: nat, y: nat): int
    requires op != And && op != Xor && op != Or
    requires op == Div ==> y != 0
  {
    match op
    case Add => x + y
    case Sub => x - y
    case Mul => x * y
    case Div => x / y
    case Shl => x * Pow2(y)
    case Shr => x / Pow2(y)
  }

  /** An exact result reduced into the range of a w-byte unsigned type. */
  function Wrap(i: int, w: nat): nat
  {
    i % Pow256(w)
  }

  /** A bitwise operator on one byte. */
  function ByteOp(op: BinOp, a: bv8, b: bv8): bv8
    requires op == And || op == Xor || op == Or
  {
    match op
    case And => a & b
    case Xor => a ^ b
    case Or => a | b
  }

  function Bitwise(op: BinOp, a: Lane, b: Lane): (r: Lane)
    requires op == And || op == Xor || op == Or
    requires |a| == |b|
    ensures |r| == |a|
  {
    seq(|a|, j requires 0 <= j < |a| => ByteOp(op, a[j], b[j]))
  }

  /** One element of `x op y`. */
  function LaneOp(op: BinOp, a: Lane, b: Lane): (r: Lane)
    requires |a| == |b| && LaneDefined(op, a, b)
    ensures |r| == |a|
  {
    if op == And || op == Xor || op == Or then Bitwise(op, a, b)
    else FromNat(Wrap(Arith(op, Value(a), Value(b)), |a|), |a|)
  }

  predicate Defined(op: BinOp, x: Vector, y: Vector)
    requires WellFormed(x) && WellFormed(y) && SameType(x, y)
  {
    forall i :: 0 <= i < |x.lanes| ==> LaneDefined(op, x.lanes[i], y.lanes[i])
  }

  /** The binary operator `x op y` on simd_vector<T,N>. */
  function Binary(op: BinOp, x: Vector, y: Vector): (r: Vector)
    requires WellFormed(x) && WellFormed(y) && SameType(x, y) && Defined(op, x, y)
    ensures WellFormed(r) && SameType(r, x)
  {
    Vector(x.elem, seq(|x.lanes|, i requires 0 <= i < |x.lanes| => LaneOp(op, x.lanes[i], y.lanes[i])))
  }

  /** Each element of an arithmetic or shift result is the exact result modulo 2^(8 sizeof(T)). */
  lemma ArithmeticWraps(op: BinOp, x: Vector, y: Vector, i: nat)
    requires WellFormed(x) && WellFormed(y) && SameType(x, y) && Defined(op, x, y)
    requires op != And && op != Xor && op != Or && i < |x.lanes|
    ensures Value(Binary(op, x, y).lanes[i]) ==
      Arith(op, Value(x.lanes[i]), Value(y.lanes[i])) % Pow256(SizeOf(x.elem))
  {
    var w := SizeOf(x.elem);
    var n := Wrap(Arith(op, Value(x.lanes[i]), Value(y.lanes[i])), w);
    ValueFromNat(n, w);
    DivModUnique(n, Pow256(w), 0, n);
  }

  /** Each byte of a bitwise result is the operator applied to the two operands' bytes at that address. */
  lemma BitwiseBytes(op: BinOp, x: Vector, y: Vector, k: nat)
    requires WellFormed(x) && WellFormed(y) && SameType(x, y) && Defined(op, x, y)
    requires (op == And || op == Xor || op == Or) && k < |Bytes(x)|
    ensures |Bytes(y)| == |Bytes(x)| == |Bytes(Binary(op, x, y))|
    ensures Bytes(Binary(op, x, y))[k] == ByteOp(op, Bytes(x)[k], Bytes(y)[k])
  {
    var w := SizeOf(x.elem);
    var r := Binary(op, x, y);
    FlattenLength(x.lanes, w);
    FlattenLength(y.lanes, w);
    FlattenLength(r.lanes, w);
    LanePosition(k, w, |x.lanes|);
    var i, j := k / w, k % w;
    FlattenAt(x.lanes, w, i, j);
    FlattenAt(y.lanes, w, i, j);
    FlattenAt(r.lanes, w, i, j);
  }

  /** Subtracting x from zero modulo m is taking m - x modulo m. */
  lemma NegMod(x: int, m: int)
    requires 0 <= x < m
    ensures (0 - x) % m == (m - x) % m
  {
    if x == 0 {
      DivModUnique(0, m, 0, 0);
      DivModUnique(m, m, 1, 0);
    } else {
      DivModUnique(0 - x, m, -1, m - x);
      DivModUnique(m - x, m, 0, m - x);
    }
  }

  /** all_zero_simd_vector_mask<T,N>. */
  function Zero(t: Scalar, n: nat): (r: Vector)
    ensures WellFormed(r) && r.elem == t && |r.lanes| == n
  {
    Vector(t, seq(n, _ => FromNat(0, SizeOf(t))))
  }

  /** all_one_simd_vector_mask<T,N>. */
  function AllOnes(t: Scalar, n: nat): (r: Vector)
    ensures WellFormed(r) && r.elem == t && |r.lanes| == n
  {
    Vector(t, seq(n, _ => seq(SizeOf(t), _ => 0xFF as bv8)))
  }

  /** Unary operator-: wrap_minus_common(all_zero_simd_vector_mask, *this). */
  function Negate(v: Vector): (r: Vector)
    requires WellFormed(v)
    ensures WellFormed(r) && SameType(r, v)
  {
    var z := Zero(v.elem, |v.lanes|);
    assert Defined(Sub, z, v);
    Binary(Sub, z, v)
  }

  /** Each element of -v is 2^(8w) - x modulo 2^(8w): wrap-around, not saturation. */
  lemma NegateWraps(v: Vector, i: nat)
    requires WellFormed(v) && i < |v.lanes|
    ensures Value(Negate(v).lanes[i]) == (Pow256(SizeOf(v.elem)) - Value(v.lanes[i])) % Pow256(SizeOf(v.elem))
  {
    var w := SizeOf(v.elem);
    var m: int, x: int := Pow256(w), Value(v.lanes[i]);
    var z := Zero(v.elem, |v.lanes|);
    assert Negate(v) == Binary(Sub, z, v);
    assert Value(z.lanes[i]) == 0 by {
      ValueFromNat(0, w);
      DivModUnique(0, m, 0, 0);
    }
    ArithmeticWraps(Sub, z, v, i);
    assert Value(Negate(v).lanes[i]) == (0 - x) % m;
    ValueBound(v.lanes[i]);
    NegMod(x, m);
  }

  // ---------------------------------------------------------------------
  // operator~ (generic.h:136-151)

  /** The CPU features operator~ consults. */
  datatype CpuFlags = CpuFlags(avx2: bool, avx512dq: bool, avx512f: bool)

  /** `using_simd`: the XOR-with-all-ones strategy is chosen for this vector size. */
  predicate UsingSimd(bytes: nat, cpu: CpuFlags)
  {
    bytes == 16 || (bytes == 32 && cpu.avx2) || (bytes == 64 && (cpu.avx512dq || cpu.avx512f))
  }

  function NotLane(l: Lane): (r: Lane)
    ensures |r| == |l|
  {
    seq(|l|, j requires 0 <= j < |l| => !l[j])
  }

  /** The fallback: generic_simd_self_create_op_impl applying `~v` to each element. */
  function ComplementEach(v: Vector): (r: Vector)
    requires WellFormed(v)
    ensures WellFormed(r) && SameType(r, v)
  {
    Vector(v.elem, seq(|v.lanes|, i requires 0 <= i < |v.lanes| => NotLane(v.lanes[i])))
  }

  /** The vector strategy: all_one_simd_vector_mask ^ *this. */
  function ComplementByXor(v: Vector): (r: Vector)
    requires WellFormed(v)
    ensures WellFormed(r) && SameType(r, v)
  {
    Binary(Xor, AllOnes(v.elem, |v.lanes|), v)
  }

  lemma XorOnesIsNot(c: bv8)
    ensures 0xFF ^ c == !c
  {
  }

  lemma NotByteValue(c: bv8)
    ensures (!c) as nat == 255 - c as nat
  {
  }

  /** The two strategies of operator~ agree on every vector. */
  lemma ComplementStrategiesAgree(v: Vector)
    requires WellFormed(v)
    ensures ComplementByXor(v) == ComplementEach(v)
  {
    var x, e := ComplementByXor(v), ComplementEach(v);
    forall i | 0 <= i < |v.lanes|
      ensures x.lanes[i] == e.lanes[i]
    {
      forall j | 0 <= j < SizeOf(v.elem)
        ensures x.lanes[i][j] == e.lanes[i][j]
      {
        XorOnesIsNot(v.lanes[i][j]);
      }
    }
  }

  /** The complement of an element's bytes is 2^(8w) - 1 minus its value. */
  lemma {:induction false} NotLaneValue(l: Lane)
    ensures Value(NotLane(l)) == Pow256(|l|) - 1 - Value(l)
  {
    if l != [] {
      var r := NotLane(l);
      assert r[1..] == NotLane(l[1..]);
      NotByteValue(l[0]);
      NotLaneValue(l[1..]);
    }
  }

  /** operator~: whichever strategy `using_simd` selects, each element x becomes 2^(8w) - 1 - x. */
  function Complement(v: Vector, cpu: CpuFlags): (r: Vector)
    requires WellFormed(v)
    ensures r == ComplementEach(v)
    ensures forall i :: 0 <= i < |v.lanes| ==>
      Value(r.lanes[i]) == Pow256(SizeOf(v.elem)) - 1 - Value(v.lanes[i])
  {
    ComplementStrategiesAgree(v);
    assert forall i :: 0 <= i < |v.lanes| ==>
      Value(NotLane(v.lanes[i])) == Pow256(SizeOf(v.elem)) - 1 - Value(v.lanes[i]) by {
      forall i | 0 <= i < |v.lanes| {
        NotLaneValue(v.lanes[i]);
      }
    }
    if UsingSimd(|v.lanes| * SizeOf(v.elem), cpu) then ComplementByXor(v) else ComplementEach(v)
  }

  // ---------------------------------------------------------------------
  // Bit-cast conversion (generic.h:110-115)

  /** The requires-clause of the conversion operator to simd_vector<T1,N1>. */
  predicate CastAllowed(v: Vector, t1: Scalar, n1: nat)
  {
    SizeOf(t1) * n1 == SizeOf(v.elem) * |v.lanes| && t1 != v.elem
  }

  /** explicit operator simd_vector<T1,N1>(): __builtin_bit_cast keeps every byte. */
  function BitCast(v: Vector, t1: Scalar, n1: nat): (r: Vector)
    requires WellFormed(v) && CastAllowed(v, t1, n1)
    ensures WellFormed(r) && r.elem == t1 && |r.lanes| == n1
    ensures Bytes(r) == Bytes(v)
  {
    FlattenLength(v.lanes, SizeOf(v.elem));
    FlattenChunk(Bytes(v), SizeOf(t1), n1);
    Vector(t1, Chunk(Bytes(v), SizeOf(t1), n1))
  }

  /** Converting to simd_vector<T1,N1> and back is the identity. */
  lemma BitCastRoundTrip(v: Vector, t1: Scalar, n1: nat)
    requires WellFormed(v) && CastAllowed(v, t1, n1)
    ensures CastAllowed(BitCast(v, t1, n1), v.elem, |v.lanes|)
    ensures BitCast(BitCast(v, t1, n1), v.elem, |v.lanes|) == v
  {
    ChunkFlatten(v.lanes, SizeOf(v.elem));
  }

  // ---------------------------------------------------------------------
  // swap_endian (generic.h:153-197), generic per-element path

  /** The requires-clause of swap_endian: an integral T with N*sizeof(T) of 16 or 32. */
  predicate SwapEndianAllowed(v: Vector)
  {
    |v.lanes| * SizeOf(v.elem) == 16 || |v.lanes| * SizeOf(v.elem) == 32
  }

  /** fast_io::byte_swap on one element: its bytes in reverse order. */
  function ByteSwap(l: Lane): (r: Lane)
    ensures |r| == |l|
  {
    seq(|l|, j requires 0 <= j < |l| => l[|l| - 1 - j])
  }

  /** The vector after swap_endian: byte_swap applied to each element independently. */
  function ByteSwapped(v: Vector): (r: Vector)
    requires WellFormed(v)
    ensures WellFormed(r) && SameType(r, v)
  {
    Vector(v.elem, seq(|v.lanes|, i requires 0 <= i < |v.lanes| => ByteSwap(v.lanes[i])))
  }

  /** With 1-byte elements there is nothing to swap (generic.h:155-158). */
  lemma ByteSwappedSingleByte(v: Vector)
    requires WellFormed(v) && SizeOf(v.elem) == 1
    ensures ByteSwapped(v) == v
  {
    var r := ByteSwapped(v);
    forall i | 0 <= i < |v.lanes|
      ensures r.lanes[i] == v.lanes[i]
    {
      assert |v.lanes[i]| == 1;
    }
  }

  /** Swapping twice restores the original vector. */
  lemma ByteSwappedInvolution(v: Vector)
    requires WellFormed(v)
    ensures ByteSwapped(ByteSwapped(v)) == v
  {
    var r := ByteSwapped(ByteSwapped(v));
    forall i | 0 <= i < |v.lanes|
      ensures r.lanes[i] == v.lanes[i]
    {
      var l := v.lanes[i];
      assert ByteSwap(ByteSwap(l)) == l;
    }
  }

  /**
   * On the vector's memory, swap_endian moves byte k to the position of the
   * same element whose offset is mirrored: this is the byte permutation a
   * per-(sizeof(T), N) byte-reversal shuffle mask describes.
   */
  lemma ByteSwappedMemory(v: Vector, k: nat)
    requires WellFormed(v) && k < |Bytes(v)|
    ensures |Bytes(ByteSwapped(v))| == |Bytes(v)|
    ensures var w := SizeOf(v.elem);
      (k / w) * w + (w - 1 - k % w) < |Bytes(v)| &&
      Bytes(ByteSwapped(v))[k] == Bytes(v)[(k / w) * w + (w - 1 - k % w)]
  {
    var w := SizeOf(v.elem);
    var r := ByteSwapped(v);
    FlattenLength(v.lanes, w);
    FlattenLength(r.lanes, w);
    LanePosition(k, w, |v.lanes|);
    var i, j := k / w, k % w;
    FlattenAt(r.lanes, w, i, j);
    FlattenAt(v.lanes, w, i, w - 1 - j);
  }

  // ---------------------------------------------------------------------
  // An lvalue of type simd_vector<T,N>: compound assignment and swap_endian
  // reassign *this.

  class SimdVariable {
    var value: Vector

    constructor (v: Vector)
      ensures value == v
    {
      value := v;
    }

    /** operator+=: stores value + other back into value and returns *this. */
    method AddAssign(other: Vector) returns (self: SimdVariable)
      requires WellFormed(value) && WellFormed(other) && SameType(value, other)
      modifies this
      ensures value == Binary(Add, old(value), other) && self == this
    {
      value := Binary(Add, value, other);
      self := this;
    }

    /** operator-=: stores value - other back into value and returns *this. */
    method SubAssign(other: Vector) returns (self: SimdVariable)
      requires WellFormed(value) && WellFormed(other) && SameType(value, other)
      modifies this
      ensures value == Binary(Sub, old(value), other) && self == this
    {
      value := Binary(Sub, value, other);
      self := this;
    }

    /** operator*=: stores value * other back into value and returns *this. */
    method MulAssign(other: Vector) returns (self: SimdVariable)
      requires WellFormed(value) && WellFormed(other) && SameType(value, other)
      modifies this
      ensures value == Binary(Mul, old(value), other) && self == this
    {
      value := Binary(Mul, value, other);
      self := this;
    }

    /** operator/=: stores value / other back into value (no element of other may be zero). */
    method DivAssign(other: Vector) returns (self: SimdVariable)
      requires WellFormed(value) && WellFormed(other) && SameType(value, other)
      requires Defined(Div, value, other)
      modifies this
      ensures value == Binary(Div, old(value), other) && self == this
    {
      value := Binary(Div, value, other);
      self := this;
    }

    /** operator&=. */
    method AndAssign(other: Vector) returns (self: SimdVariable)
      requires WellFormed(value) && WellFormed(other) && SameType(value, other)
      modifies this
      ensures value == Binary(And, old(value), other) && self == this
    {
      value := Binary(And, value, other);
      self := this;
    }

    /** operator^=. */
    method XorAssign(other: Vector) returns (self: SimdVariable)
      requires WellFormed(value) && WellFormed(other) && SameType(value, other)
      modifies this
      ensures value == Binary(Xor, old(value), other) && self == this
    {
      value := Binary(Xor, value, other);
      self := this;
    }

    /** operator|=. */
    method OrAssign(other: Vector) returns (self: SimdVariable)
      requires WellFormed(value) && WellFormed(other) && SameType(value, other)
      modifies this
      ensures value == Binary(Or, old(value), other) && self == this
    {
      value := Binary(Or, value, other);
      self := this;
    }

    /** operator<<= (every shift count below the bit width of T). */
    method ShlAssign(other: Vector) returns (self: SimdVariable)
      requires WellFormed(value) && WellFormed(other) && SameType(value, other)
      requires Defined(Shl, value, other)
      modifies this
      ensures value == Binary(Shl, old(value), other) && self == this
    {
      value := Binary(Shl, value, other);
      self := this;
    }

    /** operator>>= (every shift count below the bit width of T). */
    method ShrAssign(other: Vector) returns (self: SimdVariable)
      requires WellFormed(value) && WellFormed(other) && SameType(value, other)
      requires Defined(Shr, value, other)
      modifies this
      ensures value == Binary(Shr, old(value), other) && self == this
    {
      value := Binary(Shr, value, other);
      self := this;
    }

    /**
     * swap_endian(), generic path: nothing to do for 1-byte elements,
     * otherwise byte_swap each element of `value` in place.
     */
    method SwapEndian()
      requires WellFormed(value) && SwapEndianAllowed(value)
      modifies this
      ensures value == ByteSwapped(old(value))
    {
      if SizeOf(value.elem) == 1 {
        ByteSwappedSingleByte(value);
        return;
      }
      ghost var v0 := value;
      var i := 0;
      while i < |value.lanes|
        invariant value.elem == v0.elem && |value.lanes| == |v0.lanes|
        invariant 0 <= i <= |value.lanes|
        invariant forall k :: 0 <= k < i ==> value.lanes[k] == ByteSwap(v0.lanes[k])
        invariant forall k :: i <= k < |value.lanes| ==> value.lanes[k] == v0.lanes[k]
      {
        value := value.(lanes := value.lanes[i := ByteSwap(value.lanes[i])]);
        i := i + 1;
      }
      assert value.lanes == ByteSwapped(v0).lanes;
    }
  }
}
