/** The byte-cursor printer and parser of result files. */
module FbufUtil {
  import opened Target

  const ARRAY_DELIM: byte := 0x00
  const ARRAY_END: byte := 0xFF
  const FILE_END: byte := 0xBB

  type uint32 = x: int | 0 <= x < TWO_TO_32

  // ----- byte representations -----

  function EncU32(x: uint32): (b: seq<byte>)
    ensures |b| == 4
  {
    [x % 256, x / 256 % 256, x / 65536 % 256, x / 16777216]
  }

  /** Every element is followed by a control byte: a delimiter, or the end byte after the last. */
  function EncArray(xs: seq<uint32>): (b: seq<byte>)
    ensures |b| == 5 * |xs|
  {
    if xs == [] then []
    else EncU32(xs[0]) + [if |xs| == 1 then ARRAY_END else ARRAY_DELIM] + EncArray(xs[1..])
  }

  function EncString(s: seq<byte>): seq<byte> {
    s + [0]
  }

  /** `data` written over `buf` at `off`. */
  function Splice(buf: seq<byte>, off: nat, data: seq<byte>): seq<byte>
    requires off + |data| <= |buf|
  {
    buf[..off] + data + buf[off + |data|..]
  }

  lemma Digits(x: uint32)
    ensures x % 256 + 256 * (x / 256 % 256) + 65536 * (x / 65536 % 256) + 16777216 * (x / 16777216) == x
  {
  }

  lemma WordOfU32(x: uint32)
    ensures WordValue(EncU32(x)) == x
  {
    WordOfFour(EncU32(x));
    Digits(x);
  }

  // ----- printing -----

  method Copy(buf: array<byte>, off: nat, data: seq<byte>)
    requires off + |data| <= buf.Length
    modifies buf
    ensures buf[..] == Splice(old(buf[..]), off, data)
  {
    forall k | 0 <= k < |data| {
      buf[off + k] := data[k];
    }
  }

  /** What a printer does. `Overrun`: the source writes past the end of the buffer here. */
  datatype Packing = Packed | NoRoom | Overrun

  /** The terminator is not written: the byte that stands where it belongs is kept. The space check
      is one byte too generous at either end: a string that leaves no room for its terminator is
      accepted, with the cursor past the end, and so is one that is a byte too long. */
  method PackString(buf: array<byte>, off: nat, str: seq<byte>) returns (r: Packing, next: nat)
    modifies buf
    ensures r == if off + |str| > buf.Length + 1 then NoRoom
                 else if str != [] && off + |str| == buf.Length + 1 then Overrun
                 else Packed
    ensures r == Packed ==> next == off + |str| + 1
    ensures r == Packed && off <= buf.Length ==> buf[..] == Splice(old(buf[..]), off, str)
    ensures r == NoRoom ==> next == off
    ensures r == NoRoom || buf.Length < off ==> buf[..] == old(buf[..])
  {
    var bufLeft := buf.Length - off;
    if bufLeft - |str| + 1 < 0 {
      return NoRoom, off;
    }
    if str != [] {
      if off + |str| > buf.Length {
        return Overrun, off;
      }
      Copy(buf, off, str);
    } else {
      assert off <= buf.Length ==> Splice(buf[..], off, str) == buf[..];
    }
    return Packed, off + |str| + 1;
  }

  /** Write the byte representation of a value. */
  method PackType(buf: array<byte>, off: nat, repr: seq<byte>) returns (r: Packing, next: nat)
    modifies buf
    ensures r == if off + |repr| <= buf.Length then Packed else NoRoom
    ensures r == Packed ==> next == off + |repr| && buf[..] == Splice(old(buf[..]), off, repr)
    ensures r == NoRoom ==> next == off && buf[..] == old(buf[..])
  {
    var bufLeft := buf.Length - off;
    if bufLeft - |repr| < 0 {
      return NoRoom, off;
    }
    Copy(buf, off, repr);
    return Packed, off + |repr|;
  }

  /** One element and its control byte, after the elements written already. */
  method PackElement(buf: array<byte>, next: nat, x: uint32, control: byte, ghost was: seq<byte>, ghost off: nat,
                     ghost done: seq<byte>)
    returns (after: nat)
    requires |was| == buf.Length && next == off + |done| && next + 5 <= buf.Length
    requires buf[..] == Splice(was, off, done)
    modifies buf
    ensures after == next + 5 && buf[..] == Splice(was, off, done + EncU32(x) + [control])
  {
    SpliceMore(was, off, done, EncU32(x));
    SpliceMore(was, off, done + EncU32(x), [control]);
    Copy(buf, next, EncU32(x));
    Copy(buf, next + 4, [control]);
    after := next + 5;
  }

  /** The space check of the source mixes signed and unsigned values and never fires, so an array
      without enough space is written all the same. */
  method PackTypeArray(buf: array<byte>, off: nat, xs: seq<uint32>) returns (r: Packing, next: nat)
    modifies buf
    ensures r == if xs != [] && off + 5 * |xs| > buf.Length then Overrun else Packed
    ensures r == Packed ==> next == off + 5 * |xs|
    ensures r == Packed && off <= buf.Length ==> buf[..] == Splice(old(buf[..]), off, EncArray(xs))
    ensures xs == [] ==> buf[..] == old(buf[..])
  {
    if xs == [] {
      assert off <= buf.Length ==> Splice(buf[..], off, []) == buf[..];
      return Packed, off;
    }
    if off + 5 * |xs| > buf.Length {
      return Overrun, off;
    }
    next := PackElements(buf, off, xs);
    r := Packed;
  }

  method PackElements(buf: array<byte>, off: nat, xs: seq<uint32>) returns (next: nat)
    requires off + 5 * |xs| <= buf.Length
    modifies buf
    ensures next == off + 5 * |xs|
    ensures buf[..] == Splice(old(buf[..]), off, EncArray(xs))
  {
    next := off;
    ghost var was := buf[..];
    ghost var done: seq<byte> := [];
    assert Splice(was, off, done) == was;
    for i := 0 to |xs|
      invariant next == off + |done| && |done| == 5 * i
      invariant buf[..] == Splice(was, off, done)
      invariant done + EncArray(xs[i..]) == EncArray(xs)
    {
      var control := if i == |xs| - 1 then ARRAY_END else ARRAY_DELIM;
      next := PackElement(buf, next, xs[i], control, was, off, done);
      EncArrayStep(xs, i, done);
      done := done + EncU32(xs[i]) + [control];
    }
    assert done == EncArray(xs);
  }

  /** Two adjacent writes are one. */
  lemma SpliceMore(buf: seq<byte>, off: nat, a: seq<byte>, b: seq<byte>)
    requires off + |a| + |b| <= |buf|
    ensures Splice(Splice(buf, off, a), off + |a|, b) == Splice(buf, off, a + b)
  {
  }

  lemma {:induction false} EncArrayStep(xs: seq<uint32>, i: nat, done: seq<byte>)
    requires i < |xs| && done + EncArray(xs[i..]) == EncArray(xs)
    ensures var control := if i == |xs| - 1 then ARRAY_END else ARRAY_DELIM;
            done + EncU32(xs[i]) + [control] + EncArray(xs[i + 1..]) == EncArray(xs)
  {
    assert xs[i..][1..] == xs[i + 1..];
    var control := if i == |xs| - 1 then ARRAY_END else ARRAY_DELIM;
    Concat4(done, EncU32(xs[i]), [control], EncArray(xs[i + 1..]));
  }

  lemma Concat4<T>(a: seq<T>, b: seq<T>, c: seq<T>, d: seq<T>)
    ensures a + (b + c + d) == a + b + c + d
  {
  }

  // ----- parsing -----

  /** The bytes before the first NUL, or all of them. */
  function Leading(b: seq<byte>): (s: seq<byte>)
    ensures |s| <= |b| && s == b[..|s|] && 0 !in s
    ensures |s| < |b| ==> b[|s|] == 0
  {
    if b == [] || b[0] == 0 then [] else [b[0]] + Leading(b[1..])
  }

  lemma LeadingStep(buf: seq<byte>, i: nat, str: seq<byte>)
    requires i < |buf| && buf[i] != 0
    ensures str + Leading(buf[i..]) == str + [buf[i]] + Leading(buf[i + 1..])
  {
    assert buf[i..][1..] == buf[i + 1..];
    assert str + ([buf[i]] + Leading(buf[i + 1..])) == str + [buf[i]] + Leading(buf[i + 1..]);
  }

  lemma LeadingEnds(buf: seq<byte>, i: nat, str: seq<byte>)
    requires i <= |buf| && (i < |buf| ==> buf[i] == 0)
    ensures str + Leading(buf[i..]) == str
  {
    assert Leading(buf[i..]) == [];
  }

  /** What a parser yields. `Outside`: the source reads past the end of the buffer here. */
  datatype Reading<+T> = Got(value: T) | Nothing | Outside

  /** The NUL that ends a non-empty string is left unread. The byte after a non-empty string is looked
      at before the space left is, so one that no NUL ends is read past the end. */
  method UnpackString(buf: seq<byte>, off: nat) returns (r: Reading<seq<byte>>, next: nat)
    ensures off >= |buf| ==> r == Nothing && next == off
    ensures off < |buf| ==>
              var s := Leading(buf[off..]);
              && r == (if s != [] && off + |s| == |buf| then Outside else Got(s))
              && next == if s == [] then off + 1 else off + |s|
  {
    if |buf| - off - 1 < 0 {
      return Nothing, off;
    }
    if buf[off] == 0 {
      return Got([]), off + 1;
    }
    var str: seq<byte> := [buf[off]];
    next := off + 1;
    LeadingStep(buf, off, []);
    while next < |buf| && buf[next] != 0
      invariant off < next <= |buf| && |str| == next - off
      invariant str + Leading(buf[next..]) == Leading(buf[off..])
    {
      LeadingStep(buf, next, str);
      str := str + [buf[next]];
      next := next + 1;
    }
    LeadingEnds(buf, next, str);
    return if next == |buf| then Outside else Got(str), next;
  }

  /** Read the representation of a value of `size` bytes. The space left is compared as an unsigned
      number, so with the cursor past the end there always seems to be enough. */
  method UnpackType(buf: seq<byte>, off: nat, size: nat) returns (r: Reading<seq<byte>>, next: nat)
    ensures r == if |buf| < off then Outside else if off + size <= |buf| then Got(buf[off..off + size]) else Nothing
    ensures r.Got? ==> next == off + size
    ensures r == Nothing ==> next == off
  {
    if |buf| < off {
      return Outside, off;
    }
    if |buf| - off >= size {
      return Got(buf[off..off + size]), off + size;
    }
    return Nothing, off;
  }

  /** What the array parser makes of `b`, the bytes from the cursor on: the elements, none if malformed,
      and the bytes consumed. The byte at the cursor is looked at before the space left is, so an array
      whose last delimiter ends the buffer is read past the end. */
  datatype Parsed = Parsed(xs: Reading<seq<nat>>, used: nat)

  function ParseArray(b: seq<byte>): (p: Parsed)
    ensures p.used <= |b|
  {
    if b == [] then Parsed(Outside, 0)
    else if |b| < 5 || b[0] == ARRAY_END then Parsed(Got([]), 0)
    else if b[4] == ARRAY_END then Parsed(Got([WordValue(b[..4])]), 5)
    else if b[4] == ARRAY_DELIM then
      var rest := ParseArray(b[5..]);
      Parsed(Before([WordValue(b[..4])], rest.xs), 5 + rest.used)
    else Parsed(Nothing, 4)
  }

  /** Elements found before what the rest yields. */
  function Before(xs: seq<nat>, r: Reading<seq<nat>>): Reading<seq<nat>> {
    if r.Got? then Got(xs + r.value) else r
  }

  lemma BeforeBefore(xs: seq<nat>, ys: seq<nat>, r: Reading<seq<nat>>)
    ensures Before(xs, Before(ys, r)) == Before(xs + ys, r)
  {
    if r.Got? {
      assert xs + (ys + r.value) == xs + ys + r.value;
    }
  }

  /** The first `k` elements are complete, with a delimiter after each. */
  predicate Delimited(b: seq<byte>, k: nat) {
    forall i {:trigger Element(b, i)} :: 0 <= i < k ==> Element(b, i) && b[5 * i + 4] == 0
  }

  /** There is an element at position `i`: five bytes of which the first is not the end byte. */
  predicate Element(b: seq<byte>, i: nat) {
    5 * i + 5 <= |b| && b[5 * i] != 0xFF
  }

  function Words(b: seq<byte>, k: nat): (xs: seq<nat>)
    requires 5 * k <= |b|
    ensures |xs| == k && forall i :: 0 <= i < k ==> xs[i] == WordValue(b[5 * i..5 * i + 4])
  {
    seq<nat>(k, i requires 0 <= i < k => WordValue(b[5 * i..5 * i + 4]))
  }

  lemma DelimitedTail(b: seq<byte>, k: nat)
    requires 0 < k && Delimited(b, k)
    ensures 5 * k <= |b| && b[0] != 0xFF && b[4] == 0 && Delimited(b[5..], k - 1)
    ensures Words(b, k) == [WordValue(b[..4])] + Words(b[5..], k - 1)
  {
    assert Element(b, 0) && Element(b, k - 1);
    forall i | 0 <= i < k - 1
      ensures Element(b[5..], i) && b[5..][5 * i + 4] == 0
    {
      assert Element(b, i + 1);
    }
    var xs, ys := Words(b, k), Words(b[5..], k - 1);
    assert b[0..4] == b[..4];
    forall i | 0 < i < k
      ensures xs[i] == ys[i - 1]
    {
      assert b[5 * i..5 * i + 4] == b[5..][5 * (i - 1)..5 * (i - 1) + 4];
    }
  }

  /** The elements in front of the rest. */
  lemma {:induction false} ParsePast(b: seq<byte>, k: nat)
    requires Delimited(b, k)
    ensures 5 * k <= |b|
    ensures ParseArray(b).xs == Before(Words(b, k), ParseArray(b[5 * k..]).xs)
    ensures ParseArray(b).used == 5 * k + ParseArray(b[5 * k..]).used
  {
    if k == 0 {
      assert b[0..] == b && Words(b, 0) == [];
      var r := ParseArray(b).xs;
      assert r.Got? ==> [] + r.value == r.value;
    } else {
      DelimitedTail(b, k);
      ParsePast(b[5..], k - 1);
      assert b[5..][5 * (k - 1)..] == b[5 * k..];
      BeforeBefore([WordValue(b[..4])], Words(b[5..], k - 1), ParseArray(b[5 * k..]).xs);
    }
  }

  /** What the array parser makes of any bytes. Past `k` delimited elements, the end of the bytes is
      overrun; fewer than five more bytes, or an end byte, end the array; another element ends it if an end
      byte follows it, and makes it malformed if neither that nor a delimiter does. */
  lemma {:induction false} ParseExactly(b: seq<byte>, k: nat)
    requires Delimited(b, k)
    ensures 5 * k <= |b|
    ensures 5 * k == |b| ==> ParseArray(b).xs == Outside
    ensures 5 * k < |b| && !Element(b, k) ==> ParseArray(b) == Parsed(Got(Words(b, k)), 5 * k)
    ensures Element(b, k) && b[5 * k + 4] == 0xFF ==> ParseArray(b) == Parsed(Got(Words(b, k + 1)), 5 * k + 5)
    ensures Element(b, k) && b[5 * k + 4] != 0xFF && b[5 * k + 4] != 0 ==> ParseArray(b).xs == Nothing
  {
    ParsePast(b, k);
    var rest := b[5 * k..];
    if rest != [] {
      assert rest[0] == b[5 * k];
      if Element(b, k) {
        assert rest[4] == b[5 * k + 4] && rest[..4] == b[5 * k..5 * k + 4];
        assert Words(b, k + 1) == Words(b, k) + [WordValue(rest[..4])];
      } else {
        assert Words(b, k) + [] == Words(b, k);
      }
    }
  }

  method UnpackTypeArray(buf: seq<byte>, off: nat) returns (r: Reading<seq<nat>>, next: nat)
    ensures off >= |buf| ==> r == Nothing && next == off
    ensures off < |buf| ==>
              var p := ParseArray(buf[off..]);
              && next == off + p.used
              && r == if p.xs == Got([]) then Nothing else p.xs
  {
    if |buf| - off - 1 < 0 {
      return Nothing, off;
    }
    var xs: seq<nat> := [];
    next := off;
    ghost var whole := ParseArray(buf[off..]);
    assert whole.xs.Got? ==> xs + whole.xs.value == whole.xs.value;
    while next < |buf| && buf[next] != ARRAY_END && |buf| - next >= 5
      invariant off <= next <= |buf| && (xs == [] <==> next == off)
      invariant var p := ParseArray(buf[next..]);
                whole.used == next - off + p.used && whole.xs == Before(xs, p.xs)
      decreases |buf| - next
    {
      var b := buf[next..];
      assert b[..4] == buf[next..next + 4] && b[5..] == buf[next + 5..];
      BeforeBefore(xs, [WordValue(b[..4])], ParseArray(b[5..]).xs);
      xs := xs + [WordValue(buf[next..next + 4])];
      next := next + 4;
      if buf[next] == ARRAY_DELIM {
        next := next + 1;
      } else if buf[next] == ARRAY_END {
        next := next + 1;
        return Got(xs), next;
      } else {
        return Nothing, next;
      }
    }
    assert xs + [] == xs;
    return if next == |buf| then Outside else if xs == [] then Nothing else Got(xs), next;
  }

  // ----- what comes back -----

  /** The number of elements before the first whose first stored byte is the end byte. */
  function Readable(xs: seq<uint32>): (k: nat)
    ensures k <= |xs|
    ensures forall i :: 0 <= i < k ==> xs[i] % 256 != ARRAY_END
    ensures k < |xs| ==> xs[k] % 256 == ARRAY_END
  {
    if xs == [] || xs[0] % 256 == ARRAY_END then 0 else 1 + Readable(xs[1..])
  }

  /** Parsing a printed array yields the elements before the first such one, whatever follows
      the array, and stops there. */
  lemma {:induction false} ParsePrinted(xs: seq<uint32>, rest: seq<byte>)
    requires xs != []
    ensures ParseArray(EncArray(xs) + rest) == Parsed(Got(xs[..Readable(xs)]), 5 * Readable(xs))
  {
    var b := EncArray(xs) + rest;
    assert b[..4] == EncU32(xs[0]);
    WordOfU32(xs[0]);
    if xs[0] % 256 != ARRAY_END {
      assert b[5..] == EncArray(xs[1..]) + rest;
      if |xs| > 1 {
        ParsePrinted(xs[1..], rest);
        assert xs[..Readable(xs)] == [xs[0]] + xs[1..][..Readable(xs[1..])];
      } else {
        assert xs[..Readable(xs)] == [xs[0]];
      }
    }
  }

  /** An array comes back, with the cursor just past it, exactly if no element's first stored
      byte is the end byte. */
  lemma {:induction false} ArrayRoundTrip(xs: seq<uint32>, rest: seq<byte>)
    requires xs != []
    ensures ParseArray(EncArray(xs) + rest) == Parsed(Got(xs), 5 * |xs|)
            <==> forall i :: 0 <= i < |xs| ==> xs[i] % 256 != ARRAY_END
  {
    ParsePrinted(xs, rest);
    if Readable(xs) == |xs| {
      assert xs[..|xs|] == xs;
    }
  }

  /** A NUL-free string is found again before its terminator. */
  lemma {:induction false} LeadingOfString(s: seq<byte>, rest: seq<byte>)
    requires 0 !in s
    ensures Leading(s + [0] + rest) == s
  {
    var b := s + [0] + rest;
    if s != [] {
      assert b[1..] == s[1..] + [0] + rest;
      LeadingOfString(s[1..], rest);
    }
  }
}
