/** One scanning thread: the page-sized read buffer that slides over an area, and the loop
    that offers every aligned address of the area to the scanner. */
module ScanWorker {
  import opened Target

  /** One call of the scanner's per-address callback. `word` is the `addr_width` bytes the
      scanner finds at `cur_byte`. */
  datatype Call = Call(node: nat, addr: int, word: seq<byte>)

  /** A half-open range of target addresses requested from the session. */
  datatype Fetch = Fetch(lo: int, hi: int)

  // ----- what the scanner is offered -----

  /** Byte `x` of an area as the sliding buffer presents it. Past the end of the area the
      buffer still holds what was read one slide earlier, `page - width` bytes back. */
  function DeliveredByte(mem: Memory, area: Area, page: nat, width: nat, x: int): byte {
    Peek(mem, area.start + if x < area.Size() then x else x - (page - width))
  }

  function DeliveredWord(mem: Memory, area: Area, page: nat, width: nat, off: int): seq<byte> {
    seq<byte>(width, k => DeliveredByte(mem, area, page, width, off + k))
  }

  function Visit(mem: Memory, node: nat, area: Area, page: nat, width: nat, off: int): Call {
    Call(node, area.start + off, DeliveredWord(mem, area, page, width, off))
  }

  /** The calls made for the addresses of an area below offset `off`, in order. */
  function Visits(mem: Memory, node: nat, area: Area, page: nat, width: nat, step: nat, off: int): seq<Call>
    requires 0 < step
    decreases off
  {
    if off < step then []
    else Visits(mem, node, area, page, width, step, off - step) + [Visit(mem, node, area, page, width, off - step)]
  }

  /** All calls made for an area. */
  function AreaVisits(mem: Memory, node: nat, area: Area, page: nat, width: nat, step: nat): seq<Call>
    requires 0 < step
  {
    Visits(mem, node, area, page, width, step, RoundUp(area.Size(), step))
  }

  /** All calls made for a list of areas. */
  function SetVisits(mem: Memory, vmap: VmMap, nodes: seq<nat>, page: nat, width: nat, step: nat): seq<Call>
    requires 0 < step
    requires forall i :: 0 <= i < |nodes| ==> nodes[i] < |vmap.areas|
  {
    if nodes == [] then []
    else SetVisits(mem, vmap, nodes[..|nodes| - 1], page, width, step)
         + AreaVisits(mem, nodes[|nodes| - 1], vmap.areas[nodes[|nodes| - 1]], page, width, step)
  }

  /** The calls for the areas of a set come in the order of the set. */
  lemma {:induction false} SetVisitsInOrder(mem: Memory, vmap: VmMap, nodes: seq<nat>, more: seq<nat>, page: nat,
                                            width: nat, step: nat)
    requires 0 < step && forall i :: 0 <= i < |nodes| ==> nodes[i] < |vmap.areas|
    requires forall i :: 0 <= i < |more| ==> more[i] < |vmap.areas|
    ensures SetVisits(mem, vmap, nodes + more, page, width, step) ==
            SetVisits(mem, vmap, nodes, page, width, step) + SetVisits(mem, vmap, more, page, width, step)
    ensures |nodes| == 1 ==>
              SetVisits(mem, vmap, nodes, page, width, step) ==
              AreaVisits(mem, nodes[0], vmap.areas[nodes[0]], page, width, step)
    decreases |more|
  {
    if |nodes| == 1 {
      assert SetVisits(mem, vmap, nodes[..0], page, width, step) == [];
    }
    if more == [] {
      assert nodes + more == nodes;
    } else {
      var n := |more| - 1;
      assert (nodes + more)[..|nodes + more| - 1] == nodes + more[..n];
      SetVisitsInOrder(mem, vmap, nodes, more[..n], page, width, step);
    }
  }

  /** The fetches follow one another without gap or overlap from `lo` to `hi`. */
  ghost predicate Tiles(fetches: seq<Fetch>, lo: int, hi: int) {
    if fetches == [] then lo == hi
    else
      var last := fetches[|fetches| - 1];
      lo <= last.lo <= last.hi == hi && Tiles(fetches[..|fetches| - 1], lo, last.lo)
  }

  /** A page is a whole number of words. */
  predicate Geometry(page: nat, width: nat, step: nat) {
    width < page && Multiple(page, width) && 0 < step
  }

  /** The alignment suits an area: it divides what a slide of the buffer moves over, as one that
      divides the width does, or the area ends before the buffer runs out. */
  predicate Suits(area: Area, page: nat, width: nat, step: nat)
    requires 0 < step
  {
    Multiple(page - width, step) || area.Size() <= RoundUp(page - width, step)
  }

  /** An area is at least a page and a whole number of words, and the alignment suits it. */
  predicate Scannable(area: Area, page: nat, width: nat, step: nat)
    requires 0 < step
  {
    page <= area.Size() && Multiple(area.Size(), width) && Suits(area, page, width, step)
  }

  predicate SetScannable(vmap: VmMap, nodes: seq<nat>, page: nat, width: nat, step: nat)
    requires 0 < step
  {
    forall i :: 0 <= i < |nodes| ==> nodes[i] < |vmap.areas| && Scannable(vmap.areas[nodes[i]], page, width, step)
  }

  /** How much of an area is read: all of it, unless the first page is enough. */
  function Extent(area: Area, page: nat, width: nat, step: nat): int {
    if Multiple(page - width, step) then area.Size() else page
  }

  predicate AreaMapped(mem: Memory, area: Area) {
    Mapped(mem, area.start, area.end)
  }

  /** What is read of the area can be read. */
  predicate AreaReadable(mem: Memory, area: Area, page: nat, width: nat, step: nat) {
    Mapped(mem, area.start, area.start + Extent(area, page, width, step))
  }

  // ----- divisibility -----

  /** `x` is `d` added up some number of times. */
  predicate Multiple(x: int, d: int)
    decreases x
  {
    0 < d && 0 <= x && (x == 0 || Multiple(x - d, d))
  }

  lemma {:induction false} MultipleSum(x: int, y: int, d: int)
    requires Multiple(x, d) && Multiple(y, d)
    ensures Multiple(x + y, d)
    decreases y
  {
    if y != 0 {
      MultipleSum(x, y - d, d);
    }
  }

  lemma {:induction false} MultipleDifference(x: int, y: int, d: int)
    requires Multiple(x, d) && Multiple(y, d) && x <= y
    ensures Multiple(y - x, d)
    decreases x
  {
    if x != 0 {
      MultipleDifference(x - d, y - d, d);
    }
  }

  /** Two multiples of `d` that differ, differ by at least `d`. */
  lemma {:induction false} MultipleGap(x: int, y: int, d: int)
    requires Multiple(x, d) && Multiple(y, d) && x < y
    ensures x + d <= y
  {
    MultipleDifference(x, y, d);
  }

  lemma {:induction false} MultipleTrans(x: int, d: int, e: int)
    requires Multiple(x, d) && Multiple(d, e)
    ensures Multiple(x, e)
    decreases x
  {
    if x != 0 {
      MultipleTrans(x - d, d, e);
      MultipleSum(x - d, d, e);
    }
  }

  /** The least multiple of `d` that is not below `x`. */
  function RoundUp(x: int, d: nat): (r: int)
    requires 0 < d
    ensures Multiple(r, d) && x <= r && (0 < x ==> r < x + d)
    decreases x
  {
    if x <= 0 then 0 else RoundUp(x - d, d) + d
  }

  lemma {:induction false} RoundUpUnique(x: int, d: nat, r: int)
    requires 0 < d && 0 < x <= r < x + d && Multiple(r, d)
    ensures RoundUp(x, d) == r
  {
    var s := RoundUp(x, d);
    if s < r {
      MultipleGap(s, r, d);
    } else if r < s {
      MultipleGap(r, s, d);
    }
  }

  lemma {:induction false} RoundUpLeast(x: int, d: nat, m: int)
    requires 0 < d && x <= m && Multiple(m, d)
    ensures RoundUp(x, d) <= m
  {
    if m < RoundUp(x, d) {
      MultipleGap(m, RoundUp(x, d), d);
    }
  }

  /** Alignments that divide the width suit every area. */
  lemma {:induction false} AlignmentDividesWidth(page: nat, width: nat, step: nat)
    requires width < page && Multiple(page, width) && Multiple(width, step)
    ensures Geometry(page, width, step) && Multiple(page - width, step)
  {
    MultipleTrans(page, width, step);
    MultipleDifference(width, page, step);
  }

  /** How many times the divisor is added up. */
  lemma {:induction false} MultipleCount(x: int, d: int) returns (q: nat)
    requires Multiple(x, d)
    ensures x == q * d
    decreases x
  {
    if x == 0 {
      q := 0;
    } else {
      var p := MultipleCount(x - d, d);
      q := p + 1;
    }
  }

  lemma {:induction false} TimesUp(k: nat, q: nat, d: nat)
    requires k <= q
    ensures k * d <= q * d
    decreases q
  {
    if k < q {
      TimesUp(k, q - 1, d);
      assert q * d == (q - 1) * d + d;
    }
  }

  lemma {:induction false} MultipleOf(q: nat, d: nat)
    requires 0 < d
    ensures Multiple(q * d, d)
    decreases q
  {
    if q != 0 {
      MultipleOf(q - 1, d);
      assert q * d - d == (q - 1) * d;
      MultipleSum(q * d - d, d, d);
    }
  }

  lemma ProductSign(d: nat, e: int)
    ensures e >= 1 ==> d * e >= d
    ensures e <= -1 ==> d * e + d <= 0
  {
    if e >= 1 {
      assert d * (e - 1) >= 0;
    } else if e <= -1 {
      assert d * (-1 - e) >= 0;
    }
  }

  lemma ProductModulo(q: int, d: nat)
    requires 0 < d
    ensures q * d % d == 0
  {
    var e := q - q * d / d;
    assert q * d % d == d * e;
    ProductSign(d, e);
  }

  lemma MultipleExactly(x: int, d: nat)
    ensures Multiple(x, d) <==> 0 < d && 0 <= x && x % d == 0
  {
    if Multiple(x, d) {
      var q := MultipleCount(x, d);
      ProductModulo(q, d);
    } else if 0 < d && 0 <= x && x % d == 0 {
      assert x == x / d * d;
      MultipleOf(x / d, d);
      assert false;
    }
  }

  // ----- what the calls carry -----

  /** The calls for an area of `q` aligned addresses are those addresses, each once, in order. */
  lemma {:induction false} VisitsAt(mem: Memory, node: nat, area: Area, page: nat, width: nat, step: nat, q: nat,
                                    k: nat)
    requires 0 < step
    ensures |Visits(mem, node, area, page, width, step, q * step)| == q
    ensures k < q ==>
              Visits(mem, node, area, page, width, step, q * step)[k] == Visit(mem, node, area, page, width, k * step)
    decreases q
  {
    if q != 0 {
      assert q * step - step == (q - 1) * step;
      VisitsAt(mem, node, area, page, width, step, q - 1, k);
    }
  }

  /** Each aligned address of an area below its end is visited once, in address order, and no other. */
  lemma AreaVisitsAt(mem: Memory, node: nat, area: Area, page: nat, width: nat, step: nat, k: nat)
    requires Geometry(page, width, step) && Scannable(area, page, width, step)
    ensures var calls := AreaVisits(mem, node, area, page, width, step);
            && (k < |calls| <==> k * step < area.Size())
            && (k < |calls| ==> calls[k] == Visit(mem, node, area, page, width, k * step))
  {
    var q := MultipleCount(RoundUp(area.Size(), step), step);
    VisitsAt(mem, node, area, page, width, step, q, k);
    if k < q {
      TimesUp(k, q - 1, step);
      assert (q - 1) * step == q * step - step;
    } else {
      TimesUp(q, k, step);
    }
  }

  /** A call carries the target's bytes at its address, up to the end of the area; the bytes of
      the word beyond the end are the ones found one slide earlier. */
  lemma CallCarriesMemory(mem: Memory, node: nat, area: Area, page: nat, width: nat, off: int)
    requires 0 <= off < area.Size() && width < page <= area.Size()
    ensures var c := Visit(mem, node, area, page, width, off);
            var n := Min(width, area.end - c.addr);
            && c.addr == area.start + off && |c.word| == width && 0 <= n
            && c.word[..n] == Bytes(mem, c.addr, n)
            && c.word[n..] == Bytes(mem, area.end - (page - width), width - n)
            && area.start <= area.end - (page - width)
  {
    var c := Visit(mem, node, area, page, width, off);
    var n := Min(width, area.end - c.addr);
    assert forall j :: 0 <= j < width ==> c.word[j] == DeliveredByte(mem, area, page, width, off + j);
    forall j | 0 <= j < width - n
      ensures c.word[n..][j] == Peek(mem, area.end - (page - width) + j)
    {
      assert c.word[n..][j] == c.word[n + j];
    }
  }

  /** The calls of an area, by the fields of the area and the bytes of memory: the k-th is for the address
      `k * step` bytes after its start, for each k for which that is below its end. Every byte of its word
      is the one in memory, or past the end of the area the one in memory `page - width` bytes before. */
  lemma AreaCallExactly(mem: Memory, node: nat, area: Area, page: nat, width: nat, step: nat, k: nat)
    requires Geometry(page, width, step) && Scannable(area, page, width, step)
    ensures var calls := AreaVisits(mem, node, area, page, width, step);
            && (k < |calls| <==> k * step < area.end - area.start)
            && (k < |calls| ==>
                  var c := calls[k];
                  && c.node == node && c.addr == area.start + k * step && |c.word| == width
                  && forall j :: 0 <= j < width ==>
                       var a := c.addr + j - if c.addr + j < area.end then 0 else page - width;
                       c.word[j] == if a in mem then mem[a] else 0)
  {
    AreaVisitsAt(mem, node, area, page, width, step, k);
    var c := Visit(mem, node, area, page, width, k * step);
    assert forall j :: 0 <= j < width ==> c.word[j] == DeliveredByte(mem, area, page, width, k * step + j);
  }

  /** What has to be in memory for an area to be scanned: all of it if the alignment divides the page size
      less the width, and else its first page. */
  lemma ReadableExactly(mem: Memory, area: Area, page: nat, width: nat, step: nat)
    requires width < page && 0 < step
    ensures AreaReadable(mem, area, page, width, step) <==>
            var end := if (page - width) % step == 0 then area.end else area.start + page;
            forall a :: area.start <= a < end ==> a in mem
  {
    MultipleExactly(page - width, step);
  }

  /** The areas, pages and alignments a scan is for, in plain integers. */
  lemma ScannableExactly(area: Area, page: nat, width: nat, step: nat)
    requires 0 < width < page && 0 < step
    ensures Geometry(page, width, step) && Scannable(area, page, width, step) <==>
            && page % width == 0 && page <= area.end - area.start && (area.end - area.start) % width == 0
            && ((page - width) % step == 0 || area.end - area.start <= (page - width + step - 1) / step * step)
  {
    MultipleExactly(page, width);
    MultipleExactly(area.end - area.start, width);
    MultipleExactly(page - width, step);
    RoundUpExactly(page - width, step);
  }

  lemma RoundUpExactly(x: int, d: nat)
    requires 0 < d && 0 < x
    ensures RoundUp(x, d) == (x + d - 1) / d * d
  {
    var q := (x + d - 1) / d;
    MultipleOf(q, d);
    RoundUpUnique(x, d, q * d);
  }

  /** A word that is visited lies in what is read, if it lies in the area. */
  lemma WordIsRead(area: Area, page: nat, width: nat, step: nat, off: int)
    requires 0 < step && Scannable(area, page, width, step)
    requires 0 <= off < area.Size() && off + width <= area.Size() && Multiple(off, step)
    ensures off + width <= Extent(area, page, width, step)
  {
    if page - width <= off {
      RoundUpLeast(page - width, step, off);
    }
  }

  // ----- the worker -----

  /** The argument a worker hands to the scanner and advances as it goes. `curByte` is an
      index into the read buffer. */
  class ScanArg {
    var addr: int
    var areaOff: int
    var bufLeft: int
    var curByte: int
    const areaNode: nat

    constructor (addr: int, areaNode: nat)
      ensures this.addr == addr && this.areaNode == areaNode
      ensures areaOff == 0 && bufLeft == 0 && curByte == 0
    {
      this.addr, this.areaNode := addr, areaNode;
      areaOff, bufLeft, curByte := 0, 0, 0;
    }

    method Advance(n: int)
      modifies this
      ensures addr == old(addr) + n && areaOff == old(areaOff) + n
      ensures bufLeft == old(bufLeft) - n && curByte == old(curByte) + n
    {
      addr, areaOff, bufLeft, curByte := addr + n, areaOff + n, bufLeft - n, curByte + n;
    }
  }

  function Clamp(x: int, lo: int, hi: int): int {
    if x < lo then lo else if hi < x then hi else x
  }

  /** Every byte of the buffer is the delivered byte of its area offset, `base` being the
      offset of the first. */
  ghost predicate Agrees(mem: Memory, area: Area, page: seq<byte>, width: nat, base: int) {
    forall j :: 0 <= j < |page| ==> page[j] == DeliveredByte(mem, area, |page|, width, base + j)
  }

  /** The number of bytes a refill reads when the buffer starts at offset `base`. */
  function RefillSize(area: Area, page: nat, width: nat, base: int): int {
    Clamp(area.Size() - base - width, 0, page - width)
  }

  /** What a refill at area offset `off` reads. */
  function NextFetch(area: Area, page: nat, width: nat, addr: int, off: int): Fetch {
    if off == 0 then Fetch(addr, addr + page)
    else Fetch(addr + width, addr + width + RefillSize(area, page, width, off))
  }

  /** The buffer `next` that this read makes of the buffer `page`: a first read fills it; a later
      one moves the last word to the front, puts the new bytes after it and leaves the rest. */
  ghost predicate Refilled(mem: Memory, area: Area, page: seq<byte>, next: seq<byte>, width: nat, addr: int, off: int) {
    && |next| == |page| && width <= |page|
    && (off == 0 ==> forall j :: 0 <= j < |page| ==> next[j] == Peek(mem, addr + j))
    && (off != 0 ==>
          var n := RefillSize(area, |page|, width, off);
          && (forall j :: 0 <= j < width ==> next[j] == page[|page| - width + j])
          && (forall j :: width <= j < width + n && j < |page| ==> next[j] == Peek(mem, addr + j))
          && (forall j :: width + n <= j < |page| ==> next[j] == page[j]))
  }

  /** Byte `j` of the buffer that a read at offset `off` makes of `page`. */
  function NextByte(mem: Memory, area: Area, page: seq<byte>, width: nat, off: int, j: nat): byte
    requires width <= |page| && j < |page|
  {
    if off == 0 then Peek(mem, area.start + j)
    else if j < width then page[|page| - width + j]
    else if j < width + RefillSize(area, |page|, width, off) then Peek(mem, area.start + off + j)
    else page[j]
  }

  function NextBuffer(mem: Memory, area: Area, page: seq<byte>, width: nat, off: int): (next: seq<byte>)
    requires width <= |page|
    ensures |next| == |page|
  {
    seq<byte>(|page|, j requires 0 <= j < |page| => NextByte(mem, area, page, width, off, j))
  }

  lemma NextIsRefilled(mem: Memory, area: Area, page: seq<byte>, width: nat, off: int)
    requires width <= |page|
    ensures Refilled(mem, area, page, NextBuffer(mem, area, page, width, off), width, area.start + off, off)
  {
  }

  lemma RefilledIsNext(mem: Memory, area: Area, page: seq<byte>, next: seq<byte>, width: nat, off: int)
    requires width <= |page| && Refilled(mem, area, page, next, width, area.start + off, off)
    ensures next == NextBuffer(mem, area, page, width, off)
  {
    forall j | 0 <= j < |page|
      ensures next[j] == NextByte(mem, area, page, width, off, j)
    {
    }
  }

  // ----- the loop over an area, for any alignment -----

  /** The calls and the reads made, and whether the loop then goes on outside the buffer. */
  datatype Offering = Offering(calls: seq<Call>, fetches: seq<Fetch>, outside: bool)

  /** What one turn of the loop leaves: the buffer, how much of it was left to use, and the read made,
      if any. */
  datatype Turn = Turn(buffer: seq<byte>, left: int, fetched: seq<Fetch>)

  function TurnAt(mem: Memory, area: Area, page: seq<byte>, width: nat, off: int, left: int): (t: Turn)
    requires width <= |page| && left <= |page|
    ensures |t.buffer| == |page| && width <= t.left <= |page|
  {
    if left <= width
    then Turn(NextBuffer(mem, area, page, width, off), |page|, [NextFetch(area, |page|, width, area.start + off, off)])
    else Turn(page, left, [])
  }

  /** The call for the word at the current byte. */
  function TurnCall(node: nat, area: Area, t: Turn, width: nat, off: int): Call
    requires width <= t.left <= |t.buffer|
  {
    var cur := |t.buffer| - t.left;
    Call(node, area.start + off, t.buffer[cur..cur + width])
  }

  /** Where the loop over an area is: the buffer, the offset of the current address, what is left of the
      buffer, and the calls and reads made. */
  datatype Place = Place(page: seq<byte>, off: int, left: int, calls: seq<Call>, fetches: seq<Fetch>)

  function Turned(mem: Memory, node: nat, area: Area, width: nat, step: nat, l: Place): (next: Place)
    requires 0 < step && width <= |l.page| && l.left <= |l.page|
    ensures |next.page| == |l.page| && next.left <= |l.page| && next.off == l.off + step
  {
    var t := TurnAt(mem, area, l.page, width, l.off, l.left);
    Place(t.buffer, l.off + step, t.left - step, l.calls + [TurnCall(node, area, t, width, l.off)],
          l.fetches + t.fetched)
  }

  /** What the loop has done in the end, if all reads succeed. The number of bytes left is unsigned in
      the source: where it would be negative it is huge, the buffer is not refilled and the current byte
      is outside. */
  function Offered(mem: Memory, node: nat, area: Area, width: nat, step: nat, l: Place): Offering
    requires 0 < step && width <= |l.page| && l.left <= |l.page|
    decreases area.Size() - l.off
  {
    if area.Size() <= l.off || l.left < 0 then Offering(l.calls, l.fetches, l.off < area.Size())
    else Offered(mem, node, area, width, step, Turned(mem, node, area, width, step, l))
  }

  /** The whole loop. */
  function AreaOffered(mem: Memory, node: nat, area: Area, page: seq<byte>, width: nat, step: nat): Offering
    requires 0 < step && width <= |page|
  {
    Offered(mem, node, area, width, step, Place(page, 0, 0, [], []))
  }

  lemma SlideAgrees(mem: Memory, area: Area, page: seq<byte>, next: seq<byte>, width: nat, base: int)
    requires 0 < width && 2 * width <= |page|
    requires 0 <= base && base + |page| <= area.Size()
    requires Agrees(mem, area, page, width, base)
    requires var off := base + |page| - width;
             Refilled(mem, area, page, next, width, area.start + off, off)
    ensures Agrees(mem, area, next, width, base + |page| - width)
  {
    forall j | 0 <= j < |next|
      ensures next[j] == DeliveredByte(mem, area, |next|, width, base + |page| - width + j)
    {
      SlideByte(mem, area, page, next, width, base, j);
    }
  }

  lemma SlideByte(mem: Memory, area: Area, page: seq<byte>, next: seq<byte>, width: nat, base: int, j: nat)
    requires 0 < width && 2 * width <= |page| == |next| && j < |page|
    requires 0 <= base && base + |page| <= area.Size()
    requires Agrees(mem, area, page, width, base)
    requires var off := base + |page| - width;
             Refilled(mem, area, page, next, width, area.start + off, off)
    ensures next[j] == DeliveredByte(mem, area, |page|, width, base + |page| - width + j)
  {
    var off := base + |page| - width;
    var n := RefillSize(area, |page|, width, off);
    if j < width {
      var k := |page| - width + j;
      assert next[j] == page[k] == DeliveredByte(mem, area, |page|, width, base + k);
    } else if j < width + n {
      var a := area.start + off;
      assert next[j] == Peek(mem, a + j);
    } else {
      assert next[j] == page[j] == DeliveredByte(mem, area, |page|, width, base + j);
    }
  }

  /** A refill after the first starts on a word boundary, so the buffer before it was full. */
  lemma RefillPosition(size: int, page: int, width: int, base: int)
    requires Multiple(page, width) && Multiple(size, width) && Multiple(base, width)
    requires width < page && base + page - width < size
    ensures Multiple(base + page - width, width) && base + page <= size
  {
    MultipleSum(base, page, width);
    assert Multiple(base + page, width) ==> Multiple(base + page - width, width);
    MultipleGap(base + page - width, size, width);
  }

  /** The buffer holds the area from offset `base`, and all bytes up to its far end have been
      fetched. */
  ghost predicate Loaded(mem: Memory, area: Area, page: seq<byte>, width: nat, base: int, fetches: seq<Fetch>)
    requires 0 < width
  {
    && Multiple(base, width) && base + width <= area.Size()
    && Agrees(mem, area, page, width, base)
    && Mapped(mem, area.start, area.start + Min(base + |page|, area.Size()))
    && Tiles(fetches, area.start, area.start + Min(base + |page|, area.Size()))
  }

  lemma FirstLoad(mem: Memory, area: Area, page: seq<byte>, next: seq<byte>, width: nat)
    requires 0 < width <= |page| <= area.Size()
    requires Refilled(mem, area, page, next, width, area.start, 0)
    requires Mapped(mem, area.start, area.start + |page|)
    ensures Loaded(mem, area, next, width, 0, [] + [Fetch(area.start, area.start + |page|)])
  {
    var fetch := Fetch(area.start, area.start + |page|);
    assert [] + [fetch] == [fetch];
    assert Tiles([fetch][..0], area.start, area.start);
  }

  lemma {:induction false} TilesExtend(fetches: seq<Fetch>, lo: int, mid: int, hi: int)
    requires Tiles(fetches, lo, mid) && lo <= mid <= hi
    ensures Tiles(fetches + [Fetch(mid, hi)], lo, hi)
  {
    assert (fetches + [Fetch(mid, hi)])[..|fetches|] == fetches;
  }

  /** A refill after the first reads on where the last one stopped, up to the end of the area. */
  lemma NextFetchTiles(area: Area, page: nat, width: nat, base: int, fetches: seq<Fetch>)
    requires Multiple(page, width) && Multiple(area.Size(), width) && Multiple(base, width) && width < page
    requires base + page - width < area.Size()
    requires Tiles(fetches, area.start, area.start + Min(base + page, area.Size()))
    ensures var off := base + page - width;
            var fetch := NextFetch(area, page, width, area.start + off, off);
            && base + page <= area.Size() && Multiple(off, width) && off + width <= area.Size()
            && fetch.lo == area.start + Min(base + page, area.Size()) <= fetch.hi
            && fetch.hi == area.start + Min(off + page, area.Size())
            && Tiles(fetches + [fetch], area.start, fetch.hi)
  {
    RefillPosition(area.Size(), page, width, base);
    var off := base + page - width;
    MultipleGap(off, area.Size(), width);
    var fetch := NextFetch(area, page, width, area.start + off, off);
    TilesExtend(fetches, area.start, fetch.lo, fetch.hi);
  }

  lemma {:induction false} NextLoad(mem: Memory, area: Area, page: seq<byte>, next: seq<byte>, width: nat, base: int,
                                    fetches: seq<Fetch>)
    requires 2 * width <= |page| && Multiple(|page|, width) && Multiple(area.Size(), width)
    requires 0 < width && base + |page| - width < area.Size()
    requires Loaded(mem, area, page, width, base, fetches)
    requires var off := base + |page| - width;
             var fetch := NextFetch(area, |page|, width, area.start + off, off);
             Refilled(mem, area, page, next, width, area.start + off, off) && Mapped(mem, fetch.lo, fetch.hi)
    ensures var off := base + |page| - width;
            Loaded(mem, area, next, width, off, fetches + [NextFetch(area, |page|, width, area.start + off, off)])
  {
    NextFetchTiles(area, |page|, width, base, fetches);
    SlideAgrees(mem, area, page, next, width, base);
  }

  /** Once the buffer reaches past the end of the area, all of the area has been fetched. */
  lemma {:induction false} LastLoad(mem: Memory, area: Area, page: seq<byte>, width: nat, base: int,
                                    fetches: seq<Fetch>)
    requires 0 < width && Loaded(mem, area, page, width, base, fetches) && area.Size() <= base + |page|
    ensures Mapped(mem, area.start, area.end) && Tiles(fetches, area.start, area.end)
  {
  }

  /** The state of the loop over an area at offset `off`: before the first refill, or with the
      current byte at its place in a loaded buffer that holds at least a word more. */
  ghost predicate Scanning(mem: Memory, area: Area, page: seq<byte>, width: nat, step: nat,
                           base: int, off: int, left: int, cur: int, fetches: seq<Fetch>) {
    && 0 < step && 0 < width && 0 <= off < area.Size() + step && Multiple(off, step)
    && (off == 0 ==> left == 0 && fetches == [])
    && (off > 0 ==>
          && Loaded(mem, area, page, width, base, fetches)
          && base + cur == off && cur + left == |page| && left <= |page|
          && (if Multiple(|page| - width, step) then width <= left && Multiple(left - width, step) else base == 0))
  }

  /** The buffer may be refilled: nothing is loaded yet, or all but the last word is used up. */
  ghost predicate RefillDue(mem: Memory, area: Area, page: seq<byte>, width: nat, base: int, off: int,
                            fetches: seq<Fetch>)
    requires 0 < width
  {
    && 0 <= off < area.Size()
    && (off == 0 ==> fetches == [])
    && (off > 0 ==> off == base + |page| - width && Loaded(mem, area, page, width, base, fetches))
  }

  /** What the refill reads lies in the area and makes the buffer loaded. */
  lemma {:induction false} RefillLoads(mem: Memory, area: Area, page: seq<byte>, next: seq<byte>, width: nat,
                                       base: int, off: int,
                    fetches: seq<Fetch>)
    requires 0 < width && 2 * width <= |page| <= area.Size() && Multiple(|page|, width) && Multiple(area.Size(), width)
    requires RefillDue(mem, area, page, width, base, off, fetches)
    requires Refilled(mem, area, page, next, width, area.start + off, off)
    requires var fetch := NextFetch(area, |page|, width, area.start + off, off);
             Mapped(mem, fetch.lo, fetch.hi)
    ensures Loaded(mem, area, next, width, off, fetches + [NextFetch(area, |page|, width, area.start + off, off)])
  {
    if off == 0 {
      FirstLoad(mem, area, page, next, width);
    } else {
      NextLoad(mem, area, page, next, width, base, fetches);
    }
  }

  lemma {:induction false} RefillInside(mem: Memory, area: Area, page: seq<byte>, width: nat, base: int, off: int,
                                        fetches: seq<Fetch>)
    requires 0 < width && 2 * width <= |page| <= area.Size() && Multiple(|page|, width) && Multiple(area.Size(), width)
    requires RefillDue(mem, area, page, width, base, off, fetches)
    ensures var fetch := NextFetch(area, |page|, width, area.start + off, off);
            area.start <= fetch.lo && fetch.hi <= area.end
  {
    if off != 0 {
      NextFetchTiles(area, |page|, width, base, fetches);
    }
  }

  /** In a loaded buffer the scanner finds the delivered word. */
  lemma WordAt(mem: Memory, area: Area, page: seq<byte>, width: nat, base: int, cur: nat)
    requires Agrees(mem, area, page, width, base) && cur + width <= |page|
    ensures page[cur..cur + width] == DeliveredWord(mem, area, |page|, width, base + cur)
  {
  }

  lemma OutOfWords(mem: Memory, area: Area, page: seq<byte>, width: nat, step: nat,
                   base: int, off: int, left: int, cur: int, fetches: seq<Fetch>)
    requires Scanning(mem, area, page, width, step, base, off, left, cur, fetches)
    requires left <= width && off < area.Size() && Suits(area, |page|, width, step)
    ensures RefillDue(mem, area, page, width, base, off, fetches)
    ensures off == 0 || Multiple(|page| - width, step)
  {
    if off > 0 && !Multiple(|page| - width, step) {
      RoundUpLeast(|page| - width, step, off);
    }
  }

  /** How the place of the current byte fits the alignment. */
  ghost predicate InStep(page: nat, width: nat, step: nat, base: int, left: int, cur: int) {
    if Multiple(page - width, step) then cur == 0 || Multiple(left - width, step) else base == 0
  }

  /** With more than a word left, the word at the current byte is the delivered one, and the state
      after an advance is good again. */
  lemma MoreWords(mem: Memory, area: Area, page: seq<byte>, width: nat, step: nat,
                  base: int, off: int, left: int, cur: int, fetches: seq<Fetch>)
    requires Geometry(|page|, width, step) && Multiple(area.Size(), width)
    requires InStep(|page|, width, step, base, left, cur)
    requires 0 < width && Loaded(mem, area, page, width, base, fetches)
    requires 0 <= off < area.Size() && Multiple(off, step)
    requires base + cur == off && cur + left == |page| && 0 <= cur && width < left
    ensures cur + width <= |page| && page[cur..cur + width] == DeliveredWord(mem, area, |page|, width, off)
    ensures Scanning(mem, area, page, width, step, base, off + step, left - step, cur + step, fetches)
  {
    WordAt(mem, area, page, width, base, cur);
    MultipleSum(off, step, step);
    if Multiple(|page| - width, step) {
      MultipleGap(0, left - width, step);
      MultipleDifference(step, left - width, step);
    }
  }

  lemma {:induction false} ScanningDone(mem: Memory, area: Area, page: seq<byte>, width: nat, step: nat,
                     base: int, off: int, left: int, cur: int, fetches: seq<Fetch>)
    requires Scanning(mem, area, page, width, step, base, off, left, cur, fetches) && area.Size() <= off && 0 < off
    requires |page| <= area.Size() && 0 < area.Size()
    ensures off == RoundUp(area.Size(), step)
    ensures AreaReadable(mem, area, |page|, width, step)
    ensures Tiles(fetches, area.start, area.start + Extent(area, |page|, width, step))
  {
    if Multiple(|page| - width, step) {
      LastLoad(mem, area, page, width, base, fetches);
    }
    RoundUpUnique(area.Size(), step, off);
  }

  // ----- one turn of the loop -----

  ghost predicate AllRead(mem: Memory, fetches: seq<Fetch>) {
    forall i :: 0 <= i < |fetches| ==> Mapped(mem, fetches[i].lo, fetches[i].hi)
  }

  lemma AllReadMore(mem: Memory, fetches: seq<Fetch>, more: seq<Fetch>)
    ensures AllRead(mem, fetches + more) <==> AllRead(mem, fetches) && AllRead(mem, more)
  {
    forall i | 0 <= i < |more|
      ensures (fetches + more)[|fetches| + i] == more[i]
    {
    }
    if AllRead(mem, fetches + more) {
      forall i | 0 <= i < |fetches|
        ensures Mapped(mem, fetches[i].lo, fetches[i].hi)
      {
        assert (fetches + more)[i] == fetches[i];
      }
    }
  }

  /** How the scan of an area ends. `Overrun`: the source reads past the buffer. */
  datatype AreaScan = Completed | Unreadable | Overrun

  lemma {:induction false} OfferedTurn(mem: Memory, node: nat, area: Area, width: nat, step: nat, l: Place)
    requires 0 < step && width <= |l.page| && 0 <= l.left <= |l.page| && l.off < area.Size()
    ensures Offered(mem, node, area, width, step, l)
            == Offered(mem, node, area, width, step, Turned(mem, node, area, width, step, l))
  {
  }

  /** The loop ends at the end of the area, or outside the buffer when less than nothing is left of it. */
  lemma {:induction false} OfferedEnds(mem: Memory, node: nat, area: Area, width: nat, step: nat, l: Place)
    requires 0 < step && width <= |l.page| && l.left <= |l.page| && (area.end - area.start <= l.off || l.left < 0)
    ensures Offered(mem, node, area, width, step, l)
            == Offering(l.calls, l.fetches, l.off < area.end - area.start)
  {
  }

  /** A turn with more than a word of the buffer left offers the word at the current byte. */
  lemma {:induction false} TurnWithoutRead(mem: Memory, node: nat, area: Area, width: nat, step: nat, l: Place)
    requires 0 < step && width < l.left <= |l.page|
    ensures var next, cur := Turned(mem, node, area, width, step, l), |l.page| - l.left;
            && next.page == l.page && next.off == l.off + step && next.left == l.left - step
            && next.fetches == l.fetches
            && next.calls == l.calls + [Call(node, area.start + l.off, l.page[cur..cur + width])]
  {
    assert l.fetches + [] == l.fetches;
  }

  /** With at most a word left it reads first and offers the word at the start of the buffer. */
  lemma {:induction false} TurnWithRead(mem: Memory, node: nat, area: Area, width: nat, step: nat, l: Place)
    requires 0 < step && width <= |l.page| && l.left <= width
    ensures var next, at := Turned(mem, node, area, width, step, l), area.start + l.off;
            && next.page == NextBuffer(mem, area, l.page, width, l.off)
            && next.off == l.off + step && next.left == |l.page| - step
            && next.fetches == l.fetches + [NextFetch(area, |l.page|, width, at, l.off)]
            && next.calls == l.calls + [Call(node, at, next.page[..width])]
  {
    var page := NextBuffer(mem, area, l.page, width, l.off);
    var t := TurnAt(mem, area, l.page, width, l.off, l.left);
    assert t.buffer == page && t.left == |page|;
    assert TurnCall(node, area, t, width, l.off).word == page[0..width] == page[..width];
  }

  /** The first read of an area is as long as the buffer. A later one starts a word behind the current
      address and takes what the area has left there, but at most what the buffer holds beyond a word. In
      the buffer it comes behind the former last word, and what it does not reach stays. */
  lemma {:induction false} ReadExactly(mem: Memory, area: Area, page: seq<byte>, width: nat, off: int, j: nat)
    returns (lo: int, hi: int)
    requires width <= |page| && j < |page|
    ensures NextFetch(area, |page|, width, area.start + off, off) == Fetch(lo, hi)
    ensures lo == area.start + off + if off == 0 then 0 else width
    ensures var rest, room := area.end - lo, |page| - width;
            hi - lo == if off == 0 then |page| else if rest < 0 then 0 else if rest < room then rest else room
    ensures var a := area.start + off + j;
            NextBuffer(mem, area, page, width, off)[j] ==
            if lo <= a < hi then (if a in mem then mem[a] else 0)
            else if off != 0 && j < width then page[|page| - width + j]
            else page[j]
  {
    var fetch := NextFetch(area, |page|, width, area.start + off, off);
    lo, hi := fetch.lo, fetch.hi;
    assert NextBuffer(mem, area, page, width, off)[j] == NextByte(mem, area, page, width, off, j);
  }

  /** A read that failed does not go away. */
  lemma {:induction false} FailureStays(mem: Memory, node: nat, area: Area, width: nat, step: nat, l: Place)
    requires 0 < step && width <= |l.page| && l.left <= |l.page| && !AllRead(mem, l.fetches)
    ensures !AllRead(mem, Offered(mem, node, area, width, step, l).fetches)
    decreases area.Size() - l.off
  {
    if l.off < area.Size() && 0 <= l.left {
      AllReadMore(mem, l.fetches, TurnAt(mem, area, l.page, width, l.off, l.left).fetched);
      FailureStays(mem, node, area, width, step, Turned(mem, node, area, width, step, l));
    }
  }

  // ----- alignments that suit the area -----

  /** The loop is where it should be, with an alignment that suits the area; `base` is the offset of the
      first byte of the buffer. */
  ghost predicate PlaceGood(mem: Memory, area: Area, n: nat, width: nat, step: nat, base: int, l: Place) {
    && |l.page| == n && 0 < width && 2 * width <= n && Geometry(n, width, step) && Scannable(area, n, width, step)
    && Scanning(mem, area, l.page, width, step, base, l.off, l.left, n - l.left, l.fetches) && l.left <= n
    && AllRead(mem, l.fetches)
  }

  ghost predicate VisitsMade(mem: Memory, node: nat, area: Area, n: nat, width: nat, step: nat, l: Place)
    requires 0 < step
  {
    l.calls == Visits(mem, node, area, n, width, step, l.off)
  }

  /** When the buffer has run out, it may be refilled. */
  lemma RefillIsDue(mem: Memory, area: Area, n: nat, width: nat, step: nat, base: int, l: Place)
    requires PlaceGood(mem, area, n, width, step, base, l) && l.off < area.Size() && l.left <= width
    ensures 0 < width && RefillDue(mem, area, l.page, width, base, l.off, l.fetches)
    ensures 0 <= l.off && Multiple(l.off, step) && InStep(n, width, step, l.off, n, 0)
  {
    OutOfWords(mem, area, l.page, width, step, base, l.off, l.left, n - l.left, l.fetches);
  }

  /** What a refill leaves in the buffer. */
  lemma {:induction false} RefillFills(mem: Memory, area: Area, page: seq<byte>, width: nat, base: int, off: int,
                                       fetches: seq<Fetch>, fetch: Fetch)
    requires 0 < width && 2 * width <= |page| <= area.Size() && Multiple(|page|, width) && Multiple(area.Size(), width)
    requires RefillDue(mem, area, page, width, base, off, fetches)
    requires fetch == NextFetch(area, |page|, width, area.start + off, off) && Mapped(mem, fetch.lo, fetch.hi)
    ensures Loaded(mem, area, NextBuffer(mem, area, page, width, off), width, off, fetches + [fetch])
  {
    NextIsRefilled(mem, area, page, width, off);
    RefillLoads(mem, area, page, NextBuffer(mem, area, page, width, off), width, base, off, fetches);
  }

  /** A turn that refills the buffer. */
  lemma {:induction false} RefillTurn(mem: Memory, area: Area, n: nat, width: nat, step: nat, base: int, l: Place,
                                      next: Place, fetch: Fetch)
    requires PlaceGood(mem, area, n, width, step, base, l) && l.off < area.Size() && l.left <= width
    requires fetch == NextFetch(area, n, width, area.start + l.off, l.off) && Mapped(mem, fetch.lo, fetch.hi)
    requires next.page == NextBuffer(mem, area, l.page, width, l.off) && next.off == l.off + step
    requires next.left == n - step && next.fetches == l.fetches + [fetch]
    ensures PlaceGood(mem, area, n, width, step, l.off, next)
    ensures |next.page| == n && next.page[0..0 + width] == DeliveredWord(mem, area, n, width, l.off)
  {
    var page := NextBuffer(mem, area, l.page, width, l.off);
    RefillIsDue(mem, area, n, width, step, base, l);
    RefillFills(mem, area, l.page, width, base, l.off, l.fetches, fetch);
    AllReadMore(mem, l.fetches, [fetch]);
    MoreWords(mem, area, page, width, step, l.off, l.off, n, 0, l.fetches + [fetch]);
  }

  /** A turn that does not. */
  lemma {:induction false} PlainTurn(mem: Memory, area: Area, n: nat, width: nat, step: nat, base: int, l: Place,
                                     next: Place)
    requires PlaceGood(mem, area, n, width, step, base, l) && l.off < area.Size() && width < l.left
    requires next.page == l.page && next.off == l.off + step
    requires next.left == l.left - step && next.fetches == l.fetches
    ensures PlaceGood(mem, area, n, width, step, base, next)
    ensures var cur := n - l.left; l.page[cur..cur + width] == DeliveredWord(mem, area, n, width, l.off)
  {
    MoreWords(mem, area, l.page, width, step, base, l.off, l.left, n - l.left, l.fetches);
  }

  /** A turn offers the delivered word and keeps the state of the loop. */
  lemma {:induction false} TurnKeeps(mem: Memory, node: nat, area: Area, n: nat, width: nat, step: nat, base: int,
                                     l: Place)
    returns (base': int)
    requires PlaceGood(mem, area, n, width, step, base, l) && l.off < area.Size()
    requires VisitsMade(mem, node, area, n, width, step, l)
    requires AllRead(mem, TurnAt(mem, area, l.page, width, l.off, l.left).fetched)
    ensures var next := Turned(mem, node, area, width, step, l);
            PlaceGood(mem, area, n, width, step, base', next) && VisitsMade(mem, node, area, n, width, step, next)
  {
    var next := Turned(mem, node, area, width, step, l);
    if l.left <= width {
      var fetched := TurnAt(mem, area, l.page, width, l.off, l.left).fetched;
      assert Mapped(mem, fetched[0].lo, fetched[0].hi);
      RefillTurn(mem, area, n, width, step, base, l, next, fetched[0]);
      base' := l.off;
    } else {
      assert l.fetches + [] == l.fetches;
      PlainTurn(mem, area, n, width, step, base, l, next);
      base' := base;
    }
    VisitsMore(mem, node, area, n, width, step, l.off);
  }

  /** What a turn reads is to be read. */
  lemma TurnReads(mem: Memory, area: Area, n: nat, width: nat, step: nat, base: int, l: Place)
    requires PlaceGood(mem, area, n, width, step, base, l) && l.off < area.Size()
    ensures AreaReadable(mem, area, n, width, step) ==>
              AllRead(mem, TurnAt(mem, area, l.page, width, l.off, l.left).fetched)
  {
    if l.left <= width {
      OutOfWords(mem, area, l.page, width, step, base, l.off, l.left, n - l.left, l.fetches);
      RefillInside(mem, area, l.page, width, base, l.off, l.fetches);
    }
  }

  /** The number of bytes left does not get negative before the end. */
  lemma LeftIsEnough(mem: Memory, area: Area, n: nat, width: nat, step: nat, base: int, l: Place)
    requires PlaceGood(mem, area, n, width, step, base, l)
    ensures l.left < 0 ==> area.Size() <= l.off
  {
    if l.off > 0 && !Multiple(n - width, step) && n - width <= l.off {
      RoundUpLeast(n - width, step, l.off);
    }
  }

  /** All reads succeed exactly if the area can be read, and then the calls are the visits and the reads
      tile what is to be read. */
  ghost predicate EndsRight(mem: Memory, node: nat, area: Area, page: nat, width: nat, step: nat, o: Offering)
    requires 0 < step
  {
    && (AllRead(mem, o.fetches) <==> AreaReadable(mem, area, page, width, step))
    && (AllRead(mem, o.fetches) ==>
          && !o.outside && o.calls == AreaVisits(mem, node, area, page, width, step)
          && Tiles(o.fetches, area.start, area.start + Extent(area, page, width, step)))
  }

  /** If the alignment suits the area, the loop ends right. */
  lemma {:induction false} OfferedFrom(mem: Memory, node: nat, area: Area, n: nat, width: nat, step: nat, base: int,
                                       l: Place)
    requires PlaceGood(mem, area, n, width, step, base, l) && VisitsMade(mem, node, area, n, width, step, l)
    ensures EndsRight(mem, node, area, n, width, step, Offered(mem, node, area, width, step, l))
    decreases area.Size() - l.off
  {
    LeftIsEnough(mem, area, n, width, step, base, l);
    if area.Size() <= l.off {
      ScanningDone(mem, area, l.page, width, step, base, l.off, l.left, n - l.left, l.fetches);
    } else {
      OfferedTurn(mem, node, area, width, step, l);
      if AllRead(mem, TurnAt(mem, area, l.page, width, l.off, l.left).fetched) {
        var base' := TurnKeeps(mem, node, area, n, width, step, base, l);
        OfferedFrom(mem, node, area, n, width, step, base', Turned(mem, node, area, width, step, l));
      } else {
        TurnReads(mem, area, n, width, step, base, l);
        AllReadMore(mem, l.fetches, TurnAt(mem, area, l.page, width, l.off, l.left).fetched);
        FailureStays(mem, node, area, width, step, Turned(mem, node, area, width, step, l));
      }
    }
  }

  lemma {:induction false} VisitsMore(mem: Memory, node: nat, area: Area, page: nat, width: nat, step: nat, off: int)
    requires 0 < step && 0 <= off
    ensures Visits(mem, node, area, page, width, step, off + step)
            == Visits(mem, node, area, page, width, step, off) + [Visit(mem, node, area, page, width, off)]
  {
    assert off + step - step == off;
  }

  /** The whole loop over an area whose alignment suits it. */
  lemma {:induction false} OfferedSuits(mem: Memory, node: nat, area: Area, page: seq<byte>, width: nat, step: nat)
    requires 0 < width && 2 * width <= |page| && Geometry(|page|, width, step) && Scannable(area, |page|, width, step)
    ensures EndsRight(mem, node, area, |page|, width, step, AreaOffered(mem, node, area, page, width, step))
  {
    OfferedFrom(mem, node, area, |page|, width, step, 0, Place(page, 0, 0, [], []));
  }

  class Worker {
    const session: Memory
    const pageSize: nat
    const addrWidth: nat
    const buf: array<byte>

    constructor (session: Memory, pageSize: nat, addrWidth: nat)
      ensures this.session == session && this.pageSize == pageSize && this.addrWidth == addrWidth
      ensures fresh(buf) && buf.Length == pageSize
    {
      this.session, this.pageSize, this.addrWidth := session, pageSize, addrWidth;
      buf := new byte[pageSize](_ => 0);
    }

    ghost predicate Valid() {
      buf.Length == pageSize && 0 < addrWidth && 2 * addrWidth <= pageSize
    }

    /** Read `n` target bytes at `addr` into the buffer at `off`. */
    method McRead(addr: int, off: nat, n: nat) returns (ok: bool)
      requires off + n <= buf.Length
      modifies buf
      ensures ok <==> Mapped(session, addr, addr + n)
      ensures ok ==> buf[..] == old(buf[..off]) + Bytes(session, addr, n) + old(buf[off + n..])
    {
      for k := 0 to n
        invariant Mapped(session, addr, addr + k)
        invariant forall j :: 0 <= j < buf.Length ==>
                    buf[j] == if off <= j < off + k then Peek(session, addr + (j - off)) else old(buf[j])
      {
        if addr + k !in session {
          return false;
        }
        buf[off + k] := session[addr + k];
      }
      return true;
    }

    method ReadBufferSmart(arg: ScanArg, area: Area) returns (ok: bool, fetch: Fetch)
      requires Valid()
      modifies buf, arg
      ensures arg.addr == old(arg.addr) && arg.areaOff == old(arg.areaOff)
      ensures ok ==> arg.bufLeft == pageSize && arg.curByte == 0
      ensures fetch == NextFetch(area, pageSize, addrWidth, arg.addr, arg.areaOff)
      ensures ok ==> Refilled(session, area, old(buf[..]), buf[..], addrWidth, arg.addr, arg.areaOff)
      ensures ok <==> Mapped(session, fetch.lo, fetch.hi)
    {
      var readSz, bufOff, addrOff;
      if arg.areaOff == 0 {
        readSz, bufOff, addrOff := pageSize, 0, 0;
      } else {
        var leftSz := area.Size() - arg.areaOff - addrWidth;
        var bufRealSz := pageSize - addrWidth;
        forall k | 0 <= k < addrWidth {
          buf[k] := buf[bufRealSz + k];
        }
        readSz := Clamp(leftSz, 0, bufRealSz);
        bufOff, addrOff := addrWidth, addrWidth;
      }
      ok := McRead(arg.addr + addrOff, bufOff, readSz);
      fetch := Fetch(arg.addr + addrOff, arg.addr + addrOff + readSz);
      if !ok {
        return;
      }
      arg.bufLeft := pageSize;
      arg.curByte := 0;
    }

    /** One turn of the loop over an area: refill the buffer if it has run out, offer the word at the
        current byte, advance. `fetched` is the read made from the session, if any. */
    method Offer(arg: ScanArg, area: Area, step: nat) returns (ok: bool, call: Call, fetched: seq<Fetch>)
      requires Valid() && arg.addr == area.start + arg.areaOff && 0 <= arg.bufLeft <= pageSize
      requires addrWidth < arg.bufLeft ==> arg.curByte + arg.bufLeft == pageSize
      modifies buf, arg
      ensures var t := TurnAt(session, area, old(buf[..]), addrWidth, old(arg.areaOff), old(arg.bufLeft));
              && fetched == t.fetched
              && (ok <==> AllRead(session, fetched))
              && (ok ==>
                    && call == TurnCall(arg.areaNode, area, t, addrWidth, old(arg.areaOff))
                    && buf[..] == t.buffer && arg.bufLeft == t.left - step && arg.curByte + arg.bufLeft == pageSize
                    && arg.addr == old(arg.addr) + step && arg.areaOff == old(arg.areaOff) + step)
    {
      ghost var page := buf[..];
      fetched := [];
      call := Call(arg.areaNode, arg.addr, []);
      if arg.bufLeft <= addrWidth {
        var fetch;
        ok, fetch := ReadBufferSmart(arg, area);
        fetched := [fetch];
        if !ok {
          assert !Mapped(session, fetched[0].lo, fetched[0].hi);
          return;
        }
        RefilledIsNext(session, area, page, buf[..], addrWidth, arg.areaOff);
      }
      call := Call(arg.areaNode, arg.addr, buf[..][arg.curByte..arg.curByte + addrWidth]);
      arg.Advance(step);
      ok := true;
    }

    /** Offer every aligned address of the area to the scanner. `calls` logs the calls made to the
        scanner, each of which answers with the alignment `step`; `fetches` logs the reads made from the
        session. What is done is what `Offered` says, for any alignment. If the alignment suits the area,
        the calls are its visits, and the reads tile what is to be read. */
    method ScanArea(node: nat, area: Area, step: nat) returns (r: AreaScan, calls: seq<Call>, fetches: seq<Fetch>)
      requires Valid() && 0 < step
      modifies buf
      ensures var o := AreaOffered(session, node, area, old(buf[..]), addrWidth, step);
              && (r.Unreadable? <==> !AllRead(session, o.fetches))
              && (!r.Unreadable? ==> Offering(calls, fetches, r.Overrun?) == o)
      ensures Geometry(pageSize, addrWidth, step) && Scannable(area, pageSize, addrWidth, step) ==>
                && r == (if AreaReadable(session, area, pageSize, addrWidth, step) then Completed else Unreadable)
                && (r.Completed? ==>
                      && calls == AreaVisits(session, node, area, pageSize, addrWidth, step)
                      && Tiles(fetches, area.start, area.start + Extent(area, pageSize, addrWidth, step)))
    {
      ghost var page := buf[..];
      r, calls, fetches := OfferAll(node, area, step);
      if Geometry(pageSize, addrWidth, step) && Scannable(area, pageSize, addrWidth, step) {
        OfferedSuits(session, node, area, page, addrWidth, step);
      }
    }

    method OfferAll(node: nat, area: Area, step: nat) returns (r: AreaScan, calls: seq<Call>, fetches: seq<Fetch>)
      requires Valid() && 0 < step
      modifies buf
      ensures var o := AreaOffered(session, node, area, old(buf[..]), addrWidth, step);
              && (r.Unreadable? <==> !AllRead(session, o.fetches))
              && (!r.Unreadable? ==> Offering(calls, fetches, r.Overrun?) == o)
    {
      var arg := new ScanArg(area.start, node);
      ghost var whole := AreaOffered(session, node, area, buf[..], addrWidth, step);
      ghost var l := Place(buf[..], 0, 0, [], []);
      calls, fetches := [], [];
      while arg.addr < area.end && arg.bufLeft >= 0
        invariant arg.areaNode == node && arg.areaOff == arg.addr - area.start && arg.bufLeft <= pageSize
        invariant addrWidth < arg.bufLeft ==> arg.curByte + arg.bufLeft == pageSize
        invariant l == Place(buf[..], arg.areaOff, arg.bufLeft, calls, fetches)
        invariant AllRead(session, fetches) && whole == Offered(session, node, area, addrWidth, step, l)
        decreases area.end - arg.addr
      {
        OfferedTurn(session, node, area, addrWidth, step, l);
        var ok, call, fetched := Offer(arg, area, step);
        AllReadMore(session, fetches, fetched);
        l := Turned(session, node, area, addrWidth, step, l);
        if !ok {
          FailureStays(session, node, area, addrWidth, step, l);
          return Unreadable, calls, fetches + fetched;
        }
        calls, fetches := calls + [call], fetches + fetched;
      }
      r := if arg.addr < area.end then Overrun else Completed;
    }

    /** Scan every area of this worker's set. */
    method ScanSet(vmap: VmMap, nodes: seq<nat>, step: nat) returns (ok: bool, calls: seq<Call>)
      requires Valid() && Geometry(pageSize, addrWidth, step)
      requires SetScannable(vmap, nodes, pageSize, addrWidth, step)
      modifies buf
      ensures ok <==> forall i :: 0 <= i < |nodes| ==>
                        AreaReadable(session, vmap.areas[nodes[i]], pageSize, addrWidth, step)
      ensures ok ==> calls == SetVisits(session, vmap, nodes, pageSize, addrWidth, step)
    {
      calls := [];
      for i := 0 to |nodes|
        invariant forall j :: 0 <= j < i ==> AreaReadable(session, vmap.areas[nodes[j]], pageSize, addrWidth, step)
        invariant calls == SetVisits(session, vmap, nodes[..i], pageSize, addrWidth, step)
      {
        var r, more, _ := ScanArea(nodes[i], vmap.areas[nodes[i]], step);
        if r != Completed {
          return false, calls;
        }
        calls := calls + more;
        assert nodes[..i + 1][..i] == nodes[..i];
      }
      assert nodes[..|nodes|] == nodes;
      return true, calls;
    }
  }

  function Min(x: int, y: int): int {
    if x < y then x else y
  }
}