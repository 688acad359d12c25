/** Shared vocabulary: optional values, 64-bit addresses, the frozen image of the target's
    memory, and the map of its areas and objects. */
module Target {

  datatype Option<+T> = None | Some(value: T)

  const TWO_TO_32 := 0x1_0000_0000
  const TWO_TO_63 := 0x8000_0000_0000_0000
  const TWO_TO_64 := 0x1_0000_0000_0000_0000

  type byte = x: int | 0 <= x < 256

  type Address = x: int | 0 <= x < TWO_TO_64

  /** `off_t`: a signed 64-bit offset. */
  type Offset = x: int | -TWO_TO_63 <= x < TWO_TO_63

  /** Unsigned 64-bit arithmetic wraps. */
  function Wrap(x: int): Address {
    x % TWO_TO_64
  }

  /** Reinterpretation of an unsigned 64-bit result as `off_t`. */
  function ToOffset(x: int): Offset {
    if Wrap(x) < TWO_TO_63 then Wrap(x) else Wrap(x) - TWO_TO_64
  }

  /** The value in the range of an address, or of an offset, that differs from `x` by a multiple
      of 2^64. */
  lemma WrapExactly(x: int, a: int)
    ensures a == Wrap(x) <==> 0 <= a < 0x1_0000_0000_0000_0000 && (a - x) % 0x1_0000_0000_0000_0000 == 0
  {
  }

  lemma OffsetExactly(x: int, o: int)
    ensures o == ToOffset(x) <==>
            -0x8000_0000_0000_0000 <= o < 0x8000_0000_0000_0000 && (o - x) % 0x1_0000_0000_0000_0000 == 0
  {
  }

  /** The mapped bytes of the target; an address without an entry cannot be read. */
  type Memory = map<int, byte>

  function Peek(mem: Memory, a: int): byte {
    if a in mem then mem[a] else 0
  }

  predicate Mapped(mem: Memory, lo: int, hi: int) {
    forall a :: lo <= a < hi ==> a in mem
  }

  /** The `n` bytes at address `a`. */
  function Bytes(mem: Memory, a: int, n: nat): seq<byte> {
    seq<byte>(n, k => Peek(mem, a + k))
  }

  /** The bytes at an address that can be read are those memory holds. */
  lemma BytesExactly(mem: Memory, a: int, n: nat)
    ensures Mapped(mem, a, a + n) <==> forall x :: a <= x < a + n ==> x in mem
    ensures |Bytes(mem, a, n)| == n
    ensures forall k :: 0 <= k < n ==> a + k in mem ==> Bytes(mem, a, n)[k] == mem[a + k]
  {
    var bytes := Bytes(mem, a, n);
    forall k | 0 <= k < n
      ensures a + k in mem ==> bytes[k] == mem[a + k]
    {
      assert bytes[k] == Peek(mem, a + k);
    }
  }

  /** Memory that holds `b` at `n` addresses from `lo` and nothing elsewhere. */
  function Filled(lo: int, n: nat, b: byte): Memory {
    if n == 0 then map[] else Filled(lo, n - 1, b)[lo + n - 1 := b]
  }

  lemma {:induction false} FilledAt(lo: int, n: nat, b: byte)
    ensures forall a :: a in Filled(lo, n, b) <==> lo <= a < lo + n
    ensures forall a :: a in Filled(lo, n, b) ==> Filled(lo, n, b)[a] == b
  {
    if n != 0 {
      FilledAt(lo, n - 1, b);
    }
  }

  /** Little-endian value of a byte string. */
  function WordValue(bytes: seq<byte>): nat {
    if bytes == [] then 0 else bytes[0] + 256 * WordValue(bytes[1..])
  }

  lemma {:induction false} WordStep(b: seq<byte>)
    requires b != []
    ensures WordValue(b) == (b[0] as int) + 256 * WordValue(b[1..])
  {
  }

  /** The first byte counts least. */
  lemma {:induction false} WordOfFour(b: seq<byte>)
    requires |b| == 4
    ensures WordValue(b) ==
            (b[0] as int) + 0x100 * (b[1] as int) + 0x1_0000 * (b[2] as int) + 0x100_0000 * (b[3] as int)
  {
    WordStep(b);
    WordStep(b[1..]);
    WordStep(b[2..]);
    WordStep(b[3..]);
    assert b[1..][1..] == b[2..] && b[2..][1..] == b[3..] && b[3..][1..] == [];
  }

  lemma {:induction false} WordOfEight(b: seq<byte>)
    requires |b| == 8
    ensures WordValue(b) ==
            (b[0] as int) + 0x100 * (b[1] as int) + 0x1_0000 * (b[2] as int) + 0x100_0000 * (b[3] as int)
            + 0x1_0000_0000 * (b[4] as int) + 0x100_0000_0000 * (b[5] as int) + 0x1_0000_0000_0000 * (b[6] as int)
            + 0x100_0000_0000_0000 * (b[7] as int)
  {
    WordStep(b);
    WordStep(b[1..]);
    WordStep(b[2..]);
    WordStep(b[3..]);
    WordOfFour(b[4..]);
    assert b[1..][1..] == b[2..] && b[2..][1..] == b[3..] && b[3..][1..] == b[4..];
  }

  lemma {:induction false} WordValueBound(bytes: seq<byte>)
    requires |bytes| <= 8
    ensures WordValue(bytes) < TWO_TO_64
  {
    WordValueStep(bytes, 8);
  }

  lemma {:induction false} WordValueStep(bytes: seq<byte>, n: nat)
    requires |bytes| <= n
    ensures WordValue(bytes) < Pow256(n)
    decreases n
  {
    if bytes == [] {
      PowPositive(n);
    } else {
      WordValueStep(bytes[1..], n - 1);
    }
  }

  function Pow256(n: nat): nat {
    if n == 0 then 1 else 256 * Pow256(n - 1)
  }

  lemma {:induction false} PowPositive(n: nat)
    ensures Pow256(n) >= 1
  {
    if n != 0 {
      PowPositive(n - 1);
    }
  }

  lemma CountLast<T>(s: seq<T>, x: T)
    requires s != []
    ensures multiset(s)[x] == multiset(s[..|s| - 1])[x] + if s[|s| - 1] == x then 1 else 0
  {
    assert s == s[..|s| - 1] + [s[|s| - 1]];
  }

  /** An object of the map: a backing file or a pseudo mapping such as a heap. `areas` holds
      the list positions of its areas, in list order. */
  datatype Obj = Obj(pathname: seq<byte>, start: Address, areas: seq<nat>)

  /** An area of the map. `obj` and `lastObj` are positions in the object list. */
  datatype Area = Area(start: Address, end: Address, access: bv8, obj: Option<nat>, lastObj: Option<nat>)
  {
    function Size(): int {
      end - start
    }
  }

  /** An area node or object node is identified by its position in its list. */
  datatype VmMap = VmMap(areas: seq<Area>, objs: seq<Obj>)
}
