/** The body of a pointer-scan result file: what the writer lays out, what the reader makes of
    any byte string, and exactly which results survive a save and a load. */
module ResultFile {
  import opened Target
  import opened FbufUtil

  /** A pointer chain. A chain of a live scan knows its object, one read back from a file only
      its pathname. `obj` is a position in the map's object list. */
  datatype Chain = Chain(objIdx: uint32, obj: Option<nat>, pathname: Option<seq<byte>>, offsets: seq<Offset>)

  datatype PtrFileHdr = PtrFileHdr(pathnamesNum: uint32, pathnamesOffset: uint32, chainsNum: uint32,
                                   chainsOffset: uint32)

  const HDR_SIZE := 16

  // ----- layout -----

  /** Conversion of an integer to `uint32_t`. */
  function Low32(x: int): uint32 {
    x % TWO_TO_32
  }

  function Low32s(offsets: seq<Offset>): seq<uint32> {
    seq<uint32>(|offsets|, i requires 0 <= i < |offsets| => Low32(offsets[i]))
  }

  function EncHdr(h: PtrFileHdr): (b: seq<byte>)
    ensures |b| == HDR_SIZE
  {
    EncU32(h.pathnamesNum) + EncU32(h.pathnamesOffset) + EncU32(h.chainsNum) + EncU32(h.chainsOffset)
  }

  function EncPathnames(names: seq<seq<byte>>): seq<byte> {
    if names == [] then [] else EncPathnames(names[..|names| - 1]) + EncString(names[|names| - 1])
  }

  function EncChain(c: Chain): seq<byte> {
    EncU32(c.objIdx) + EncArray(Low32s(c.offsets))
  }

  function EncChains(chains: seq<Chain>): seq<byte> {
    if chains == [] then [] else EncChains(chains[..|chains| - 1]) + EncChain(chains[|chains| - 1])
  }

  function HeaderOf(names: seq<seq<byte>>, chains: seq<Chain>, hdrOff: int): PtrFileHdr {
    PtrFileHdr(Low32(|names|), Low32(hdrOff + HDR_SIZE),
               Low32(|chains|), Low32(hdrOff + HDR_SIZE + |EncPathnames(names)| + 1))
  }

  function Body(names: seq<seq<byte>>, chains: seq<Chain>, hdrOff: int): seq<byte> {
    EncHdr(HeaderOf(names, chains, hdrOff)) + EncPathnames(names) + [0] + EncChains(chains) + [FILE_END]
  }

  lemma {:induction false} EncPathnamesPrefix(names: seq<seq<byte>>, i: nat)
    requires i <= |names|
    ensures |EncPathnames(names[..i])| <= |EncPathnames(names)|
    decreases |names|
  {
    if i < |names| {
      EncPathnamesPrefix(names[..|names| - 1], i);
      assert names[..|names| - 1][..i] == names[..i];
    } else {
      assert names[..i] == names;
    }
  }

  lemma {:induction false} EncChainsPrefix(chains: seq<Chain>, i: nat)
    requires i <= |chains|
    ensures |EncChains(chains[..i])| <= |EncChains(chains)|
    decreases |chains|
  {
    if i < |chains| {
      EncChainsPrefix(chains[..|chains| - 1], i);
      assert chains[..|chains| - 1][..i] == chains[..i];
    } else {
      assert chains[..i] == chains;
    }
  }

  lemma {:induction false} EncChainsHead(chains: seq<Chain>)
    requires chains != []
    ensures EncChains(chains) == EncChain(chains[0]) + EncChains(chains[1..])
    decreases |chains|
  {
    var n := |chains| - 1;
    if n > 0 {
      EncChainsHead(chains[..n]);
      assert chains[..n][1..] == chains[1..][..n - 1];
    } else {
      assert chains[..n] == [] && chains[1..] == [];
    }
  }

  lemma {:induction false} EncPathnamesHead(names: seq<seq<byte>>)
    requires names != []
    ensures EncPathnames(names) == EncString(names[0]) + EncPathnames(names[1..])
    decreases |names|
  {
    var n := |names| - 1;
    if n > 0 {
      EncPathnamesHead(names[..n]);
      assert names[..n][1..] == names[1..][..n - 1];
    } else {
      assert names[..n] == [] && names[1..] == [];
    }
  }

  // ----- the reader, on any bytes -----

  /** `Undefined`: the source reads or indexes past an end here. */
  datatype Outcome = Done | InvalidFile | Undefined

  /** What the start of a body yields: the pathnames read, and the cursor. Since the terminator
      of a pathname is left unread, it is taken for the empty string that ends the table, and the
      byte after it is skipped: no table has a second entry. */
  datatype Start = Start(outcome: Outcome, names: seq<seq<byte>>, next: nat)

  function ParseStart(b: seq<byte>): Start {
    if |b| < HDR_SIZE then Start(InvalidFile, [], 0)
    else if |b| == HDR_SIZE then Start(InvalidFile, [], HDR_SIZE)
    else if b[HDR_SIZE] == 0 then Start(Done, [], HDR_SIZE + 2)
    else
      var s := Leading(b[HDR_SIZE..]);
      if HDR_SIZE + |s| == |b| then Start(Undefined, [], |b|) else Start(Done, [s], HDR_SIZE + |s| + 2)
  }

  datatype RawChain = RawChain(objIdx: nat, offsets: seq<nat>)

  datatype ChainParse = ChainParse(chain: Reading<RawChain>, next: nat)

  function ParseChain(b: seq<byte>, off: nat): (p: ChainParse)
    requires off <= |b|
    ensures off <= p.next <= |b|
    ensures p.chain.Got? ==> off < p.next && p.chain.value.offsets != []
  {
    if |b| - off < 4 then ChainParse(Nothing, off)
    else if |b| - off == 4 then ChainParse(Nothing, off + 4)
    else
      var p := ParseArray(b[off + 4..]);
      var chain :=
        match p.xs
        case Got(xs) => if xs == [] then Nothing else Got(RawChain(WordValue(b[off..off + 4]), xs))
        case Nothing => Nothing
        case Outside => Outside;
      ChainParse(chain, off + 4 + p.used)
  }

  /** A result table: the pathnames and the chains of a scanner. */
  datatype Table = Table(names: seq<seq<byte>>, chains: seq<Chain>)

  /** `uint32_t` values read back are kept as they are. */
  function AsIndex(x: nat): uint32 {
    Low32(x)
  }

  function AsOffsets(xs: seq<nat>): seq<Offset> {
    seq<Offset>(|xs|, i requires 0 <= i < |xs| => Low32(xs[i]))
  }

  function PathChain(raw: RawChain, names: seq<seq<byte>>): Chain
    requires raw.objIdx < |names|
  {
    Chain(AsIndex(raw.objIdx), None, Some(names[raw.objIdx]), AsOffsets(raw.offsets))
  }

  /** How a load ends, and the table it leaves. */
  datatype Load = Load(outcome: Outcome, table: Table)

  /** The shallow load. It stops after the first chain, since the cursor never passes the end of
      the buffer. */
  function ReadBack(t: Table, b: seq<byte>): Load {
    var start := ParseStart(b);
    var names := t.names + start.names;
    if start.outcome == InvalidFile then Load(InvalidFile, Table(names, t.chains))
    else if start.outcome == Undefined || |b| < start.next then Load(Undefined, t)
    else
      var p := ParseChain(b, start.next);
      if p.chain == Nothing then Load(InvalidFile, Table([], t.chains))
      else if p.chain == Outside || |names| <= p.chain.value.objIdx then Load(Undefined, t)
      else Load(Done, Table(names, t.chains + [PathChain(p.chain.value, names)]))
  }

  // ----- the deep reader -----

  /** The first object of the map with a pathname. */
  function ObjByPathname(objs: seq<Obj>, pathname: seq<byte>): (r: Option<nat>)
    ensures r.Some? ==> r.value < |objs| && objs[r.value].pathname == pathname
    ensures r.Some? ==> forall i :: 0 <= i < r.value ==> objs[i].pathname != pathname
    ensures r.None? ==> forall i :: 0 <= i < |objs| ==> objs[i].pathname != pathname
  {
    if objs == [] then None
    else if objs[0].pathname == pathname then Some(0)
    else
      var r := ObjByPathname(objs[1..], pathname);
      if r.Some? then Some(r.value + 1) else None
  }

  function ObjChain(raw: RawChain, o: nat): Chain {
    Chain(AsIndex(raw.objIdx), Some(o), None, AsOffsets(raw.offsets))
  }

  datatype Found = Found(outcome: Outcome, chain: Option<Chain>)

  /** From a cursor on: the first chain whose object is in the map, or why there is none. */
  function DeepFrom(names: seq<seq<byte>>, vmap: VmMap, b: seq<byte>, off: nat): Found
    decreases |b| - off
  {
    if |b| < off then Found(Undefined, None)
    else
      var p := ParseChain(b, off);
      if p.chain == Nothing then Found(InvalidFile, None)
      else if p.chain == Outside || |names| <= p.chain.value.objIdx then Found(Undefined, None)
      else
        var o := ObjByPathname(vmap.objs, names[p.chain.value.objIdx]);
        if o.None? then DeepFrom(names, vmap, b, p.next) else Found(Done, Some(ObjChain(p.chain.value, o.value)))
  }

  function Deep(t: Table, vmap: VmMap, b: seq<byte>): Load {
    var start := ParseStart(b);
    var names := t.names + start.names;
    if start.outcome == InvalidFile then Load(InvalidFile, Table(names, t.chains))
    else if start.outcome == Undefined then Load(Undefined, t)
    else
      var Found(outcome, chain) := DeepFrom(names, vmap, b, start.next);
      if outcome == InvalidFile then Load(InvalidFile, Table([], t.chains))
      else if chain.None? then Load(Undefined, t)
      else Load(Done, Table(names, t.chains + [chain.value]))
  }

  // ----- the readers on any bytes, without the parsers -----

  /** The first zero from byte 16 on is at `n`. */
  predicate FirstZero(b: seq<byte>, n: nat) {
    16 <= n < |b| && b[n] == 0 && forall i :: 16 <= i < n ==> b[i] != 0
  }

  /** The bytes up to the first zero are the only pathname read, and the byte after that zero is
      skipped. Without a zero the pathname is read past the end. */
  lemma {:induction false} StartExactly(b: seq<byte>, n: nat)
    ensures |b| <= 16 ==> ParseStart(b).outcome == InvalidFile && ParseStart(b).names == []
    ensures 16 < |b| && 0 !in b[16..] ==> ParseStart(b).outcome == Undefined
    ensures FirstZero(b, n) ==> ParseStart(b) == Start(Done, if n == 16 then [] else [b[16..n]], n + 2)
  {
    if 16 < |b| {
      assert b[16] == b[16..][0];
      var s := Leading(b[16..]);
      assert 16 + |s| < |b| ==> b[16 + |s|] == b[16..][|s|];
      if FirstZero(b, n) {
        FirstZeroLeads(b, n);
      }
    }
  }

  lemma {:induction false} FirstZeroLeads(b: seq<byte>, n: nat)
    requires FirstZero(b, n)
    ensures Leading(b[16..]) == b[16..n]
  {
    var s := b[16..n];
    assert b[16..] == s + [0] + b[n + 1..];
    assert 0 !in s;
    LeadingOfString(s, b[n + 1..]);
  }

  /** A chain of pathname position `idx` and offsets `xs` is found at `off`, and ends at `next`: its word,
      then offsets with a delimiter after each, the last of them followed by an end byte, or all of them
      by an end byte or fewer than five bytes. */
  ghost predicate ChainFound(b: seq<byte>, off: nat, idx: nat, xs: seq<nat>, next: nat) {
    && xs != [] && off + 4 + 5 * |xs| <= |b| && idx == WordValue(b[off..off + 4]) && next == off + 4 + 5 * |xs|
    && var a := b[off + 4..];
       && xs == Words(a, |xs|)
       && ((Delimited(a, |xs|) && next < |b| && !Element(a, |xs|))
           || (Delimited(a, |xs| - 1) && Element(a, |xs| - 1) && a[5 * |xs| - 1] == 0xFF))
  }

  lemma {:induction false} FoundIsParsed(b: seq<byte>, off: nat, idx: nat, xs: seq<nat>, next: nat)
    requires ChainFound(b, off, idx, xs, next)
    ensures ParseChain(b, off) == ChainParse(Got(RawChain(idx, xs)), next)
  {
    var a := b[off + 4..];
    if Delimited(a, |xs|) {
      ParseExactly(a, |xs|);
    } else {
      ParseExactly(a, |xs| - 1);
    }
  }


  /** No chain is found at `off`, for the reason the load then ends with: too few bytes for a chain, no
      offset, a byte after an offset that is neither delimiter nor end, or a delimiter at the very end. */
  ghost predicate NoChainFound(b: seq<byte>, off: nat, k: nat, outcome: Outcome) {
    || (|b| < off && outcome == Undefined)
    || (off <= |b| <= off + 4 && outcome == InvalidFile)
    || (off + 4 < |b| &&
        var a := b[off + 4..];
        && Delimited(a, k)
        && ((5 * k == |a| && outcome == Undefined)
            || (k == 0 && !Element(a, 0) && outcome == InvalidFile)
            || (Element(a, k) && a[5 * k + 4] != 0 && a[5 * k + 4] != 0xFF && outcome == InvalidFile)))
  }

  lemma {:induction false} NotFoundIsParsed(b: seq<byte>, off: nat, k: nat, outcome: Outcome)
    requires NoChainFound(b, off, k, outcome) && off <= |b|
    ensures ParseChain(b, off).chain == if outcome == Undefined then Outside else Nothing
  {
    if off + 4 < |b| {
      ParseExactly(b[off + 4..], k);
    }
  }

  lemma WordIsSmall(b: seq<byte>, off: nat)
    requires off + 4 <= |b|
    ensures WordValue(b[off..off + 4]) < TWO_TO_32
  {
    WordOfFour(b[off..off + 4]);
  }

  lemma {:induction false} FoundIsKept(b: seq<byte>, off: nat, idx: nat, xs: seq<nat>, next: nat)
    requires ChainFound(b, off, idx, xs, next)
    ensures AsIndex(idx) == idx && |AsOffsets(xs)| == |xs|
    ensures forall i :: 0 <= i < |xs| ==> AsOffsets(xs)[i] == xs[i]
  {
    WordIsSmall(b, off);
    var a := b[off + 4..];
    forall i | 0 <= i < |xs|
      ensures AsOffsets(xs)[i] == xs[i]
    {
      assert xs[i] == WordValue(a[5 * i..5 * i + 4]);
      WordIsSmall(a, 5 * i);
    }
  }

  /** A shallow load of bytes that hold a pathname and a chain: the pathname is entered, and the chain with
      its numbers as they are read, the pathname it names and no object. If there is no such pathname, the
      source indexes past the end of the table. */
  lemma {:induction false} LoadExactly(t: Table, b: seq<byte>, n: nat, idx: nat, xs: seq<nat>, next: nat)
    requires FirstZero(b, n) && ChainFound(b, n + 2, idx, xs, next)
    ensures var names := t.names + if n == 16 then [] else [b[16..n]];
            var Load(outcome, back) := ReadBack(t, b);
            && outcome == (if idx < |names| then Done else Undefined)
            && (idx < |names| ==>
                  && back.names == names && |back.chains| == |t.chains| + 1 && back.chains[..|t.chains|] == t.chains
                  && var c := back.chains[|t.chains|];
                     && c.objIdx == idx && c.pathname == Some(names[idx]) && c.obj == None
                     && |c.offsets| == |xs| && forall i :: 0 <= i < |xs| ==> c.offsets[i] == xs[i])
  {
    StartExactly(b, n);
    FoundIsParsed(b, n + 2, idx, xs, next);
    FoundIsKept(b, n + 2, idx, xs, next);
  }

  /** A shallow load of any other bytes: without a header, or anything after it, it fails and leaves the
      table; without a pathname or a chain it reads past the end, or fails and clears the pathnames. */
  lemma {:induction false} LoadFails(t: Table, b: seq<byte>, n: nat, k: nat, outcome: Outcome)
    ensures |b| <= 16 ==> ReadBack(t, b) == Load(InvalidFile, t)
    ensures 16 < |b| && 0 !in b[16..] ==> ReadBack(t, b).outcome == Undefined
    ensures FirstZero(b, n) && NoChainFound(b, n + 2, k, outcome) ==>
              && ReadBack(t, b).outcome == outcome
              && (outcome == InvalidFile ==> ReadBack(t, b).table == Table([], t.chains))
  {
    StartExactly(b, n);
    assert t.names + [] == t.names;
    if FirstZero(b, n) && NoChainFound(b, n + 2, k, outcome) && n + 2 <= |b| {
      NotFoundIsParsed(b, n + 2, k, outcome);
    }
  }

  /** From a chain on, a deep load: one of the first object with its pathname ends the load; one without
      any is skipped. */
  lemma {:induction false} DeepExactly(names: seq<seq<byte>>, vmap: VmMap, b: seq<byte>, off: nat, idx: nat,
                                       xs: seq<nat>, next: nat)
    requires ChainFound(b, off, idx, xs, next)
    ensures |names| <= idx ==> DeepFrom(names, vmap, b, off) == Found(Undefined, None)
    ensures idx < |names| && (forall o :: 0 <= o < |vmap.objs| ==> vmap.objs[o].pathname != names[idx]) ==>
              DeepFrom(names, vmap, b, off) == DeepFrom(names, vmap, b, next)
    ensures forall o :: 0 <= o < |vmap.objs| && idx < |names| && vmap.objs[o].pathname == names[idx]
                        && (forall i :: 0 <= i < o ==> vmap.objs[i].pathname != names[idx]) ==>
              var Found(outcome, chain) := DeepFrom(names, vmap, b, off);
              && outcome == Done && chain.Some?
              && var c := chain.value;
                 && c.objIdx == idx && c.obj == Some(o) && c.pathname == None
                 && |c.offsets| == |xs| && forall i :: 0 <= i < |xs| ==> c.offsets[i] == xs[i]
  {
    FoundIsParsed(b, off, idx, xs, next);
    FoundIsKept(b, off, idx, xs, next);
  }

  /** Where there is no chain a deep load ends. */
  lemma {:induction false} DeepFails(names: seq<seq<byte>>, vmap: VmMap, b: seq<byte>, off: nat, k: nat,
                                     outcome: Outcome)
    requires NoChainFound(b, off, k, outcome)
    ensures DeepFrom(names, vmap, b, off) == Found(outcome, None)
  {
    if off <= |b| {
      NotFoundIsParsed(b, off, k, outcome);
    }
  }

  /** A deep load of any bytes, by what it finds behind the pathname. */
  lemma {:induction false} DeepStarts(t: Table, vmap: VmMap, b: seq<byte>, n: nat)
    ensures |b| <= 16 ==> Deep(t, vmap, b) == Load(InvalidFile, t)
    ensures 16 < |b| && 0 !in b[16..] ==> Deep(t, vmap, b).outcome == Undefined
    ensures FirstZero(b, n) ==>
              var names := t.names + if n == 16 then [] else [b[16..n]];
              var Found(outcome, chain) := DeepFrom(names, vmap, b, n + 2);
              && Deep(t, vmap, b).outcome == outcome && (outcome == Done <==> chain.Some?)
              && (outcome == InvalidFile ==> Deep(t, vmap, b).table == Table([], t.chains))
              && (chain.Some? ==> Deep(t, vmap, b).table == Table(names, t.chains + [chain.value]))
  {
    StartExactly(b, n);
    assert t.names + [] == t.names;
    if FirstZero(b, n) {
      FoundMeans(t.names + if n == 16 then [] else [b[16..n]], vmap, b, n + 2);
    }
  }

  lemma {:induction false} FoundMeans(names: seq<seq<byte>>, vmap: VmMap, b: seq<byte>, off: nat)
    ensures DeepFrom(names, vmap, b, off).outcome == Done <==> DeepFrom(names, vmap, b, off).chain.Some?
    decreases |b| - off
  {
    if off <= |b| && ParseChain(b, off).chain.Got? {
      FoundMeans(names, vmap, b, ParseChain(b, off).next);
    }
  }

  // ----- what survives -----

  /** A table a scan can produce. */
  ghost predicate Produced(t: Table) {
    && t.chains != []
    && (forall i :: 0 <= i < |t.names| ==> 0 !in t.names[i])
    && forall i :: 0 <= i < |t.chains| ==> t.chains[i].objIdx < |t.names| && t.chains[i].offsets != []
  }

  predicate Storable(o: Offset) {
    0 <= o < TWO_TO_32 && o % 256 != ARRAY_END
  }

  predicate AllStorable(c: Chain) {
    forall i :: 0 <= i < |c.offsets| ==> Storable(c.offsets[i])
  }

  /** The same pathname index and offsets. */
  predicate SamePath(c: Chain, d: Chain) {
    c.objIdx == d.objIdx && c.offsets == d.offsets
  }

  lemma LowByte(x: int)
    ensures Low32(x) % 256 == x % 256
  {
    assert TWO_TO_32 == 256 * 16777216;
    var q := x / TWO_TO_32;
    assert x == 256 * (16777216 * q) + Low32(x);
  }

  /** Parsing a printed chain. */
  lemma {:induction false} ParsePrintedChain(b: seq<byte>, off: nat, c: Chain, rest: seq<byte>)
    requires off <= |b| && b[off..] == EncChain(c) + rest && c.offsets != []
    ensures var k := Readable(Low32s(c.offsets));
            && (k == 0 ==> ParseChain(b, off).chain == Nothing)
            && (k > 0 ==>
                  ParseChain(b, off) ==
                  ChainParse(Got(RawChain(c.objIdx, Low32s(c.offsets)[..k])), off + 4 + 5 * k))
  {
    var xs := Low32s(c.offsets);
    assert b[off..][4..] == EncArray(xs) + rest;
    assert b[off..][..4] == EncU32(c.objIdx);
    assert b[off + 4..] == b[off..][4..] && b[off..off + 4] == b[off..][..4];
    ParsePrinted(xs, rest);
    WordOfU32(c.objIdx);
  }

  /** Storable offsets are those that are read in full and keep their value in 32 bits. */
  lemma StorableMeans(c: Chain)
    ensures var xs := Low32s(c.offsets);
            AllStorable(c) <==> Readable(xs) == |xs| && AsOffsets(xs) == c.offsets
  {
    var xs := Low32s(c.offsets);
    forall i | 0 <= i < |xs|
      ensures xs[i] % 256 == c.offsets[i] % 256
    {
      LowByte(c.offsets[i]);
    }
    if AllStorable(c) {
      assert AsOffsets(xs) == c.offsets;
    } else if Readable(xs) == |xs| {
      var i :| 0 <= i < |xs| && !Storable(c.offsets[i]);
      assert AsOffsets(xs)[i] != c.offsets[i];
    }
  }

  /** A chain comes back with its offsets exactly if all of them are storable. */
  lemma {:induction false} ChainSurvives(b: seq<byte>, off: nat, c: Chain, rest: seq<byte>)
    requires off <= |b| && b[off..] == EncChain(c) + rest && c.offsets != []
    ensures AllStorable(c) <==>
            var p := ParseChain(b, off).chain;
            p.Got? && p.value.objIdx == c.objIdx && AsOffsets(p.value.offsets) == c.offsets
    ensures AllStorable(c) ==> ParseChain(b, off).next == off + |EncChain(c)|
  {
    var xs := Low32s(c.offsets);
    var k := Readable(xs);
    ParsePrintedChain(b, off, c, rest);
    StorableMeans(c);
    if k == |xs| {
      assert xs[..k] == xs;
    } else if k > 0 {
      assert |AsOffsets(xs[..k])| == k;
    }
  }

  /** The start of a body, from the bytes of its first pathname. */
  lemma ParseStartOf(b: seq<byte>, name: seq<byte>, rest: seq<byte>)
    requires HDR_SIZE <= |b| && b[HDR_SIZE..] == name + [0] + rest && 0 !in name
    ensures ParseStart(b) ==
            if name == [] then Start(Done, [], HDR_SIZE + 2) else Start(Done, [name], HDR_SIZE + |name| + 2)
  {
    assert |b| == HDR_SIZE + |name| + 1 + |rest|;
    assert b[HDR_SIZE] == b[HDR_SIZE..][0];
    LeadingOfString(name, rest);
  }

  lemma {:induction false} BodyStarts(t: Table, hdrOff: int) returns (rest: seq<byte>)
    requires Produced(t) && t.names != []
    ensures var b := Body(t.names, t.chains, hdrOff);
            && HDR_SIZE <= |b| && b[HDR_SIZE..] == t.names[0] + [0] + rest
            && (|t.names| == 1 ==> rest == [0] + EncChains(t.chains) + [FILE_END])
  {
    EncPathnamesHead(t.names);
    rest := EncPathnames(t.names[1..]) + [0] + EncChains(t.chains) + [FILE_END];
    assert Body(t.names, t.chains, hdrOff)[HDR_SIZE..] == t.names[0] + [0] + rest;
    if |t.names| == 1 {
      assert t.names[1..] == [];
      assert rest == [0] + EncChains(t.chains) + [FILE_END];
    }
  }

  lemma AfterOnePathname(b: seq<byte>, name: seq<byte>, chains: seq<byte>)
    requires HDR_SIZE <= |b| && b[HDR_SIZE..] == name + [0] + ([0] + chains)
    ensures HDR_SIZE + |name| + 2 <= |b| && b[HDR_SIZE + |name| + 2..] == chains
  {
    assert b[HDR_SIZE + |name| + 2..] == b[HDR_SIZE..][|name| + 2..];
  }

  /** The start of a printed body, whatever its table. */
  lemma {:induction false} ParsePrintedStart(t: Table, hdrOff: int)
    requires Produced(t)
    ensures t.names != []
    ensures var b := Body(t.names, t.chains, hdrOff);
            && ParseStart(b).outcome == Done
            && ParseStart(b).names == (if t.names[0] == [] then [] else [t.names[0]])
            && (|t.names| == 1 && t.names[0] != [] ==>
                  && ParseStart(b).next == HDR_SIZE + |EncPathnames(t.names)| + 1 <= |b|
                  && b[ParseStart(b).next..] == EncChains(t.chains) + [FILE_END])
  {
    assert t.chains[0].objIdx < |t.names|;
    var b := Body(t.names, t.chains, hdrOff);
    var rest := BodyStarts(t, hdrOff);
    ParseStartOf(b, t.names[0], rest);
    if |t.names| == 1 && t.names[0] != [] {
      assert rest == [0] + (EncChains(t.chains) + [FILE_END]);
      AfterOnePathname(b, t.names[0], EncChains(t.chains) + [FILE_END]);
      assert EncPathnames(t.names[..0]) == [];
    }
  }

  /** A shallow load never yields more than the first pathname and one chain. */
  lemma {:induction false} LoadedAtMost(t: Table, hdrOff: int)
    requires Produced(t)
    ensures var Load(outcome, back) := ReadBack(Table([], []), Body(t.names, t.chains, hdrOff));
            outcome == Done ==>
              && |back.chains| == 1 && back.names == (if t.names[0] == [] then [] else [t.names[0]])
              && back.chains[0].obj == None && back.chains[0].pathname == Some(t.names[0])
  {
    ParsePrintedStart(t, hdrOff);
  }

  lemma {:induction false} FirstChainBack(t: Table, hdrOff: int)
    requires Produced(t) && |t.names| == 1 && t.names[0] != []
    ensures var Load(outcome, back) := ReadBack(Table([], []), Body(t.names, t.chains, hdrOff));
            AllStorable(t.chains[0]) <==>
            && outcome == Done && back.names == t.names
            && |back.chains| == 1 && SamePath(back.chains[0], t.chains[0])
  {
    ParsePrintedStart(t, hdrOff);
    FirstChainFrom(t, Body(t.names, t.chains, hdrOff));
  }

  lemma {:induction false} FirstChainFrom(t: Table, b: seq<byte>)
    requires Produced(t) && |t.names| == 1
    requires ParseStart(b).outcome == Done && ParseStart(b).names == t.names && ParseStart(b).next <= |b|
    requires b[ParseStart(b).next..] == EncChains(t.chains) + [FILE_END]
    ensures var Load(outcome, back) := ReadBack(Table([], []), b);
            AllStorable(t.chains[0]) <==>
            && outcome == Done && back.names == t.names
            && |back.chains| == 1 && SamePath(back.chains[0], t.chains[0])
  {
    var rest := FirstAndRest(b, ParseStart(b).next, t.chains);
    ChainSurvives(b, ParseStart(b).next, t.chains[0], rest);
    assert [] + t.names == t.names;
  }

  /** With one non-empty pathname the table and the first chain come back, if that chain's
      offsets can be stored; the other chains never do. A loaded chain carries its pathname and no
      object. */
  lemma {:induction false} FirstChainReadBack(t: Table, hdrOff: int)
    requires Produced(t) && |t.names| == 1 && t.names[0] != []
    ensures var Load(outcome, back) := ReadBack(Table([], []), Body(t.names, t.chains, hdrOff));
            AllStorable(t.chains[0]) <==>
            && outcome == Done && back.names == t.names
            && |back.chains| == 1 && SamePath(back.chains[0], t.chains[0])
    ensures var Load(outcome, back) := ReadBack(Table([], []), Body(t.names, t.chains, hdrOff));
            outcome == Done ==>
              && |back.chains| == 1 && back.chains[0].obj == None
              && back.chains[0].pathname == Some(t.names[t.chains[0].objIdx])
  {
    FirstChainBack(t, hdrOff);
    LoadedAtMost(t, hdrOff);
  }

  /** The loaded table is the stored one. */
  predicate SameTable(back: Table, t: Table) {
    && back.names == t.names && |back.chains| == |t.chains|
    && forall i :: 0 <= i < |t.chains| ==> SamePath(back.chains[i], t.chains[i])
  }

  /** A result survives a save and a shallow load exactly if it has one pathname, which is not
      empty, and one chain, whose offsets are all storable. The chain then carries the pathname it was
      stored with and no object. */
  lemma {:induction false} BodyRoundTrip(t: Table, hdrOff: int)
    requires Produced(t)
    ensures var Load(outcome, back) := ReadBack(Table([], []), Body(t.names, t.chains, hdrOff));
            outcome == Done && SameTable(back, t)
            <==> |t.names| == 1 && t.names[0] != [] && |t.chains| == 1 && AllStorable(t.chains[0])
    ensures var Load(outcome, back) := ReadBack(Table([], []), Body(t.names, t.chains, hdrOff));
            && (outcome == Done ==>
                  |back.chains| == 1 && back.chains[0].obj == None && back.chains[0].pathname == Some(t.names[0]))
            && (outcome == Done && SameTable(back, t) ==>
                  back.chains[0].pathname == Some(t.names[t.chains[0].objIdx]))
  {
    ParsePrintedStart(t, hdrOff);
    LoadedAtMost(t, hdrOff);
    if |t.names| == 1 && t.names[0] != [] {
      FirstChainReadBack(t, hdrOff);
    }
  }

  predicate SameRaw(r: RawChain, c: Chain) {
    r.objIdx == c.objIdx && AsOffsets(r.offsets) == c.offsets
  }

  /** The first of a list of printed chains is parsed, and the others follow. */
  lemma {:induction false} HeadChain(b: seq<byte>, off: nat, chains: seq<Chain>)
    requires off <= |b| && chains != [] && b[off..] == EncChains(chains) + [FILE_END]
    requires chains[0].offsets != [] && AllStorable(chains[0])
    ensures var p := ParseChain(b, off);
            && p.chain.Got? && SameRaw(p.chain.value, chains[0])
            && b[p.next..] == EncChains(chains[1..]) + [FILE_END]
  {
    EncChainsHead(chains);
    var rest := EncChains(chains[1..]) + [FILE_END];
    assert b[off..] == EncChain(chains[0]) + rest;
    ChainSurvives(b, off, chains[0], rest);
    var next := off + |EncChain(chains[0])|;
    assert b[next..] == b[off..][|EncChain(chains[0])|..] == rest;
  }

  /** No object of the map has one of these pathnames. */
  ghost predicate AllAbsent(vmap: VmMap, names: seq<seq<byte>>) {
    forall i :: 0 <= i < |names| ==> ObjByPathname(vmap.objs, names[i]).None?
  }

  /** Chains of an object that is not in the map are all skipped, up to the end of the file. */
  lemma {:induction false} AllSkipped(names: seq<seq<byte>>, vmap: VmMap, b: seq<byte>, off: nat, chains: seq<Chain>)
    requires off <= |b| && b[off..] == EncChains(chains) + [FILE_END]
    requires forall i :: 0 <= i < |chains| ==>
               chains[i].objIdx < |names| && chains[i].offsets != [] && AllStorable(chains[i])
    requires AllAbsent(vmap, names)
    ensures DeepFrom(names, vmap, b, off) == Found(InvalidFile, None)
    decreases |chains|
  {
    if chains != [] {
      HeadChain(b, off, chains);
      AllSkipped(names, vmap, b, ParseChain(b, off).next, chains[1..]);
    }
  }

  lemma {:induction false} OneAbsent(vmap: VmMap, names: seq<seq<byte>>)
    requires |names| == 1 && ObjByPathname(vmap.objs, names[0]).None?
    ensures AllAbsent(vmap, names)
  {
    forall i | 0 <= i < |names|
      ensures ObjByPathname(vmap.objs, names[i]).None?
    {
      assert i == 0;
    }
  }

  /** Without any object in the map no chain is loaded, whatever the bytes. */
  lemma {:induction false} NoneFound(names: seq<seq<byte>>, vmap: VmMap, b: seq<byte>, off: nat)
    requires AllAbsent(vmap, names)
    ensures DeepFrom(names, vmap, b, off).outcome != Done && DeepFrom(names, vmap, b, off).chain == None
    decreases |b| - off
  {
    if off <= |b| {
      var p := ParseChain(b, off);
      if p.chain.Got? {
        NoneFound(names, vmap, b, p.next);
      }
    }
  }

  /** The first chain of an object in the map ends the load, with as many of its offsets as come before
      one that is taken for the end. */
  lemma {:induction false} DeepOfPresent(names: seq<seq<byte>>, vmap: VmMap, b: seq<byte>, off: nat, c: Chain,
                                         rest: seq<byte>, o: nat)
    requires |names| == 1 && off <= |b| && b[off..] == EncChain(c) + rest && c.offsets != [] && c.objIdx == 0
    requires ObjByPathname(vmap.objs, names[0]) == Some(o)
    ensures var k := Readable(Low32s(c.offsets));
            DeepFrom(names, vmap, b, off) ==
            if k == 0 then Found(InvalidFile, None)
            else Found(Done, Some(Chain(0, Some(o), None, AsOffsets(Low32s(c.offsets)[..k]))))
  {
    ParsePrintedChain(b, off, c, rest);
  }

  lemma {:induction false} PresentMeans(c: Chain, o: nat)
    requires c.offsets != [] && c.objIdx == 0
    ensures var k := Readable(Low32s(c.offsets));
            && (k == 0 <==> c.offsets[0] % 256 == ARRAY_END)
            && (AllStorable(c) <==>
                  k > 0 && SamePath(Chain(0, Some(o), None, AsOffsets(Low32s(c.offsets)[..k])), c))
  {
    var xs := Low32s(c.offsets);
    var k := Readable(xs);
    LowByte(c.offsets[0]);
    StorableMeans(c);
    if k == |xs| {
      assert xs[..k] == xs;
    } else {
      assert |AsOffsets(xs[..k])| == k;
    }
  }

  /** What a deep load makes of an empty table when its chains yield `r`. */
  function Loaded(names: seq<seq<byte>>, r: Found): Load {
    if r.outcome == InvalidFile then Load(InvalidFile, Table([], []))
    else if r.chain.None? then Load(Undefined, Table([], []))
    else Load(Done, Table(names, [r.chain.value]))
  }

  lemma {:induction false} DeepOfBody(t: Table, vmap: VmMap, hdrOff: int) returns (b: seq<byte>, next: nat)
    requires Produced(t) && |t.names| == 1 && t.names[0] != []
    ensures b == Body(t.names, t.chains, hdrOff)
    ensures next <= |b| && b[next..] == EncChains(t.chains) + [FILE_END]
    ensures Deep(Table([], []), vmap, b) == Loaded(t.names, DeepFrom(t.names, vmap, b, next))
  {
    b := Body(t.names, t.chains, hdrOff);
    ParsePrintedStart(t, hdrOff);
    next := ParseStart(b).next;
    assert [] + ParseStart(b).names == t.names;
    LoadedFrom(t.names, vmap, b, ParseStart(b));
  }

  lemma {:induction false} LoadedFrom(names: seq<seq<byte>>, vmap: VmMap, b: seq<byte>, start: Start)
    requires start == ParseStart(b) && start.outcome == Done && [] + start.names == names
    ensures Deep(Table([], []), vmap, b) == Loaded(names, DeepFrom(names, vmap, b, start.next))
  {
    var chain := DeepFrom(names, vmap, b, start.next).chain;
    if chain.Some? {
      assert [] + [chain.value] == [chain.value];
    }
  }

  /** The load of a result whose object is in the map. */
  ghost predicate LoadsPresent(t: Table, o: nat, r: Load)
    requires t.chains != [] && t.chains[0].offsets != []
  {
    var c := t.chains[0];
    && (r.outcome == Done <==> c.offsets[0] % 256 != ARRAY_END)
    && (r.outcome == Done ==> r.table.names == t.names && |r.table.chains| == 1)
    && (r.outcome == Done ==> r.table.chains[0].obj == Some(o) && r.table.chains[0].pathname == None)
    && (r.outcome == Done && SamePath(r.table.chains[0], c) <==> AllStorable(c))
  }

  /** The load of a result whose object is not. */
  ghost predicate LoadsAbsent(t: Table, r: Load) {
    && r.outcome != Done
    && (EveryStorable(t.chains) ==> r == Load(InvalidFile, Table([], [])))
  }

  predicate EveryStorable(chains: seq<Chain>) {
    forall i :: 0 <= i < |chains| ==> AllStorable(chains[i])
  }

  /** The first printed chain and what follows it. */
  lemma {:induction false} FirstAndRest(b: seq<byte>, next: nat, chains: seq<Chain>) returns (rest: seq<byte>)
    requires chains != [] && next <= |b| && b[next..] == EncChains(chains) + [FILE_END]
    ensures b[next..] == EncChain(chains[0]) + rest
  {
    EncChainsHead(chains);
    rest := EncChains(chains[1..]) + [FILE_END];
  }

  /** The load of a result with one pathname. */
  ghost predicate LoadsRight(t: Table, vmap: VmMap, r: Load)
    requires Produced(t) && t.names != []
  {
    var o := ObjByPathname(vmap.objs, t.names[0]);
    if o.Some? then LoadsPresent(t, o.value, r) else LoadsAbsent(t, r)
  }

  lemma {:induction false} DeepPresent(t: Table, vmap: VmMap, b: seq<byte>, next: nat, o: nat)
    requires Produced(t) && |t.names| == 1 && ObjByPathname(vmap.objs, t.names[0]) == Some(o)
    requires next <= |b| && b[next..] == EncChains(t.chains) + [FILE_END]
    ensures LoadsPresent(t, o, Loaded(t.names, DeepFrom(t.names, vmap, b, next)))
  {
    var rest := FirstAndRest(b, next, t.chains);
    DeepOfPresent(t.names, vmap, b, next, t.chains[0], rest, o);
    PresentLoads(t, o, DeepFrom(t.names, vmap, b, next));
  }

  /** What the readable offsets of the first chain make of the table. */
  lemma {:induction false} PresentLoads(t: Table, o: nat, r: Found)
    requires Produced(t) && |t.names| == 1
    requires var k := Readable(Low32s(t.chains[0].offsets));
             r == if k == 0 then Found(InvalidFile, None)
                  else Found(Done, Some(Chain(0, Some(o), None, AsOffsets(Low32s(t.chains[0].offsets)[..k]))))
    ensures LoadsPresent(t, o, Loaded(t.names, r))
  {
    PresentMeans(t.chains[0], o);
  }

  lemma {:induction false} DeepAbsent(t: Table, vmap: VmMap, b: seq<byte>, next: nat)
    requires Produced(t) && |t.names| == 1 && ObjByPathname(vmap.objs, t.names[0]).None?
    requires next <= |b| && b[next..] == EncChains(t.chains) + [FILE_END]
    ensures LoadsAbsent(t, Loaded(t.names, DeepFrom(t.names, vmap, b, next)))
  {
    OneAbsent(vmap, t.names);
    NoneFound(t.names, vmap, b, next);
    if EveryStorable(t.chains) {
      AllSkipped(t.names, vmap, b, next, t.chains);
    }
  }

  /** A deep load of a saved result with one pathname. It succeeds exactly if the map has an object of
      that pathname and the first offset of the first chain cannot be taken for an end; it recovers the
      first chain exactly if moreover all offsets of that chain are storable. Without the object it
      fails, and clears the table if every chain is storable. */
  lemma {:induction false} DeepReadBack(t: Table, vmap: VmMap, hdrOff: int)
    requires Produced(t) && |t.names| == 1 && t.names[0] != []
    ensures LoadsRight(t, vmap, Deep(Table([], []), vmap, Body(t.names, t.chains, hdrOff)))
  {
    var b, next := DeepOfBody(t, vmap, hdrOff);
    match ObjByPathname(vmap.objs, t.names[0])
    case Some(o) => DeepPresent(t, vmap, b, next, o);
    case None => DeepAbsent(t, vmap, b, next);
  }

  /** The loaded table is the stored one, and every chain has its object of the map. */
  predicate SameInMap(back: Table, t: Table, vmap: VmMap)
    requires forall i :: 0 <= i < |t.chains| ==> t.chains[i].objIdx < |t.names|
  {
    && SameTable(back, t)
    && forall i :: 0 <= i < |t.chains| ==>
         && back.chains[i].obj.Some? && back.chains[i].obj == ObjByPathname(vmap.objs, t.names[t.chains[i].objIdx])
         && back.chains[i].pathname == None
  }

  lemma {:induction false} DeepAtMost(t: Table, vmap: VmMap, hdrOff: int)
    requires Produced(t)
    ensures var r := Deep(Table([], []), vmap, Body(t.names, t.chains, hdrOff));
            r.outcome == Done ==>
              |r.table.chains| == 1 && r.table.names == if t.names[0] == [] then [] else [t.names[0]]
  {
    ParsePrintedStart(t, hdrOff);
  }

  /** What a load of at most one pathname and one chain says about the whole result. */
  lemma OneOfEach(t: Table, vmap: VmMap, r: Load)
    requires Produced(t) && t.names != []
    requires r.outcome == Done ==>
               |r.table.chains| == 1 && r.table.names == if t.names[0] == [] then [] else [t.names[0]]
    requires |t.names| == 1 && t.names[0] != [] ==> LoadsRight(t, vmap, r)
    ensures r.outcome == Done && SameInMap(r.table, t, vmap)
            <==>
            && |t.names| == 1 && t.names[0] != [] && ObjByPathname(vmap.objs, t.names[0]).Some?
            && |t.chains| == 1 && AllStorable(t.chains[0])
  {
    assert t.chains[0].objIdx < |t.names|;
  }

  /** A result survives a save and a deep load exactly if it has one pathname, which is not empty and
      has an object in the map, and one chain, whose offsets are all storable. */
  lemma {:induction false} DeepRoundTrip(t: Table, vmap: VmMap, hdrOff: int)
    requires Produced(t)
    ensures var r := Deep(Table([], []), vmap, Body(t.names, t.chains, hdrOff));
            r.outcome == Done && SameInMap(r.table, t, vmap)
            <==>
            && |t.names| == 1 && t.names[0] != [] && ObjByPathname(vmap.objs, t.names[0]).Some?
            && |t.chains| == 1 && AllStorable(t.chains[0])
  {
    assert t.chains[0].objIdx < |t.names|;
    DeepAtMost(t, vmap, hdrOff);
    if |t.names| == 1 && t.names[0] != [] {
      DeepReadBack(t, vmap, hdrOff);
    }
    OneOfEach(t, vmap, Deep(Table([], []), vmap, Body(t.names, t.chains, hdrOff)));
  }

  // ----- the corrected reader, not in the source -----

  /** The pathname table when the terminator of each string is consumed. */
  function RepairedNames(b: seq<byte>, off: nat): (Option<seq<seq<byte>>>, nat)
    requires off <= |b|
    decreases |b| - off
  {
    if off == |b| then (None, off)
    else
      var s := Leading(b[off..]);
      if off + |s| == |b| then (None, |b|)
      else if s == [] then (Some([]), off + 1)
      else
        var (rest, next) := RepairedNames(b, off + |s| + 1);
        (if rest.Some? then Some([s] + rest.value) else None, next)
  }

  /** The chains up to the file end byte. */
  function RepairedChains(b: seq<byte>, off: nat): Option<seq<RawChain>>
    requires off <= |b|
    decreases |b| - off
  {
    var p := ParseChain(b, off);
    if !p.chain.Got? then None
    else if p.next == |b| || b[p.next] == FILE_END then Some([p.chain.value])
    else
      var rest := RepairedChains(b, p.next);
      if rest.Some? then Some([p.chain.value] + rest.value) else None
  }

  lemma NameAt(b: seq<byte>, off: nat, name: seq<byte>, tail: seq<byte>)
    requires off <= |b| && b[off..] == name + [0] + tail && 0 !in name
    ensures off + |name| + 1 <= |b| && Leading(b[off..]) == name && b[off + |name| + 1..] == tail
  {
    LeadingOfString(name, tail);
    assert b[off + |name| + 1..] == b[off..][|name| + 1..];
  }

  lemma {:induction false} PathnamesSplit(names: seq<seq<byte>>, rest: seq<byte>)
    requires names != []
    ensures EncPathnames(names) + [0] + rest == names[0] + [0] + (EncPathnames(names[1..]) + [0] + rest)
    ensures |EncPathnames(names)| == |names[0]| + 1 + |EncPathnames(names[1..])|
  {
    EncPathnamesHead(names);
  }

  /** The corrected reader finds these names and stops at `next`. */
  ghost predicate NamesRead(b: seq<byte>, off: nat, names: seq<seq<byte>>, next: nat) {
    off <= |b| && RepairedNames(b, off) == (Some(names), next)
  }

  lemma NamesReadStep(b: seq<byte>, off: nat, k: nat, names: seq<seq<byte>>, next: nat)
    requires names != [] && names[0] != [] && k == off + |names[0]| + 1 <= |b| && Leading(b[off..]) == names[0]
    requires NamesRead(b, k, names[1..], next)
    ensures NamesRead(b, off, names, next)
  {
    assert [names[0]] + names[1..] == names;
  }

  lemma NoNames(b: seq<byte>, off: nat, rest: seq<byte>)
    requires off <= |b| && b[off..] == [0] + rest
    ensures NamesRead(b, off, [], off + 1)
  {
    assert b[off..] == [] + [0] + rest;
    NameAt(b, off, [], rest);
  }

  /** The first of some printed names, and where the others begin. */
  lemma AfterName(names: seq<seq<byte>>, b: seq<byte>, off: nat, rest: seq<byte>) returns (k: nat)
    requires names != [] && off <= |b| && b[off..] == EncPathnames(names) + [0] + rest && 0 !in names[0]
    ensures k == off + |names[0]| + 1 <= |b| && Leading(b[off..]) == names[0]
    ensures b[k..] == EncPathnames(names[1..]) + [0] + rest
    ensures k + |EncPathnames(names[1..])| == off + |EncPathnames(names)|
  {
    PathnamesSplit(names, rest);
    NameAt(b, off, names[0], EncPathnames(names[1..]) + [0] + rest);
    k := off + |names[0]| + 1;
  }

  lemma {:induction false} RepairedNamesBack(names: seq<seq<byte>>, b: seq<byte>, off: nat, rest: seq<byte>)
    requires off <= |b| && b[off..] == EncPathnames(names) + [0] + rest
    requires forall i :: 0 <= i < |names| ==> names[i] != [] && 0 !in names[i]
    ensures NamesRead(b, off, names, off + |EncPathnames(names)| + 1)
    decreases |names|
  {
    if names == [] {
      assert b[off..] == [0] + rest;
      NoNames(b, off, rest);
    } else {
      var k := AfterName(names, b, off, rest);
      RepairedNamesBack(names[1..], b, k, rest);
      NamesReadStep(b, off, k, names, off + |EncPathnames(names)| + 1);
    }
  }

  lemma {:induction false} FirstByte(b: seq<byte>, off: nat, chains: seq<Chain>)
    requires off <= |b| && b[off..] == EncChains(chains) + [FILE_END]
    ensures off < |b| && b[off] == if chains == [] then FILE_END else chains[0].objIdx % 256
  {
    assert b[off] == b[off..][0];
    if chains != [] {
      EncChainsHead(chains);
    }
  }

  /** The corrected reader finds these chains. */
  ghost predicate ChainsRead(b: seq<byte>, off: nat, chains: seq<Chain>) {
    && off <= |b|
    && var r := RepairedChains(b, off);
       r.Some? && |r.value| == |chains| && forall i :: 0 <= i < |chains| ==> SameRaw(r.value[i], chains[i])
  }

  lemma {:induction false} RepairedChainsBack(b: seq<byte>, off: nat, chains: seq<Chain>)
    requires off <= |b| && chains != [] && b[off..] == EncChains(chains) + [FILE_END]
    requires forall i :: 0 <= i < |chains| ==> chains[i].offsets != [] && AllStorable(chains[i])
    requires forall i :: 1 <= i < |chains| ==> chains[i].objIdx % 256 != FILE_END
    ensures ChainsRead(b, off, chains)
    decreases |chains|
  {
    HeadChain(b, off, chains);
    var p := ParseChain(b, off);
    FirstByte(b, p.next, chains[1..]);
    if |chains| > 1 {
      RepairedChainsBack(b, p.next, chains[1..]);
      SameRawMore(p.chain.value, RepairedChains(b, p.next).value, chains);
    }
  }

  lemma SameRawMore(raw: RawChain, rest: seq<RawChain>, chains: seq<Chain>)
    requires chains != [] && SameRaw(raw, chains[0]) && |rest| == |chains| - 1
    requires forall i :: 0 <= i < |rest| ==> SameRaw(rest[i], chains[1..][i])
    ensures forall i :: 0 <= i < |chains| ==> SameRaw(([raw] + rest)[i], chains[i])
  {
    forall i | 0 <= i < |chains|
      ensures SameRaw(([raw] + rest)[i], chains[i])
    {
      if i > 0 {
        assert SameRaw(rest[i - 1], chains[1..][i - 1]);
      }
    }
  }

  /** Where the sections of a printed body lie. */
  lemma {:induction false} BodySections(t: Table, hdrOff: int) returns (next: nat)
    ensures var b := Body(t.names, t.chains, hdrOff);
            && HDR_SIZE <= |b| && b[HDR_SIZE..] == EncPathnames(t.names) + [0] + (EncChains(t.chains) + [FILE_END])
            && next == HDR_SIZE + |EncPathnames(t.names)| + 1 <= |b|
            && b[next..] == EncChains(t.chains) + [FILE_END]
  {
    var b := Body(t.names, t.chains, hdrOff);
    next := HDR_SIZE + |EncPathnames(t.names)| + 1;
    assert b[HDR_SIZE..] == EncPathnames(t.names) + [0] + (EncChains(t.chains) + [FILE_END]);
    assert b[next..] == EncChains(t.chains) + [FILE_END];
  }

  /** A reader that consumes terminators and reads on to the file end byte recovers every pathname
      and every chain, as long as no later chain's index starts with the file end byte. */
  lemma {:induction false} RepairedRoundTrip(t: Table, hdrOff: int) returns (b: seq<byte>, next: nat)
    requires Produced(t)
    requires forall i :: 0 <= i < |t.names| ==> t.names[i] != []
    requires forall i :: 0 <= i < |t.chains| ==> AllStorable(t.chains[i])
    requires forall i :: 1 <= i < |t.chains| ==> t.chains[i].objIdx % 256 != FILE_END
    ensures b == Body(t.names, t.chains, hdrOff)
    ensures NamesRead(b, HDR_SIZE, t.names, next) && ChainsRead(b, next, t.chains)
  {
    b := Body(t.names, t.chains, hdrOff);
    next := BodySections(t, hdrOff);
    RepairedNamesBack(t.names, b, HDR_SIZE, EncChains(t.chains) + [FILE_END]);
    RepairedChainsBack(b, next, t.chains);
  }

  // ----- the layout of a body, byte by byte -----

  /** The bytes `part` lie at `off`. */
  ghost predicate LiesAt(b: seq<byte>, off: nat, part: seq<byte>) {
    off + |part| <= |b| && b[off..off + |part|] == part
  }

  lemma LiesWithin(b: seq<byte>, off: nat, first: seq<byte>, rest: seq<byte>)
    requires LiesAt(b, off, first + rest)
    ensures LiesAt(b, off, first) && LiesAt(b, off + |first|, rest)
  {
    assert b[off..off + |first|] == b[off..off + |first + rest|][..|first|];
    assert b[off + |first|..off + |first| + |rest|] == b[off..off + |first + rest|][|first|..];
  }

  lemma {:induction false} ArrayAt(b: seq<byte>, off: nat, xs: seq<uint32>, j: nat)
    requires LiesAt(b, off, EncArray(xs)) && j < |xs|
    ensures off + 5 * j + 5 <= |b|
    ensures WordValue(b[off + 5 * j..off + 5 * j + 4]) == xs[j]
    ensures b[off + 5 * j + 4] == if j == |xs| - 1 then 0xFF else 0
    decreases j
  {
    var first := EncU32(xs[0]) + [if |xs| == 1 then ARRAY_END else ARRAY_DELIM];
    LiesWithin(b, off, first, EncArray(xs[1..]));
    if j == 0 {
      LiesWithin(b, off, EncU32(xs[0]), [if |xs| == 1 then ARRAY_END else ARRAY_DELIM]);
      WordOfU32(xs[0]);
      assert b[off + 4] == b[off + 4..off + 5][0];
    } else {
      ArrayAt(b, off + 5, xs[1..], j - 1);
    }
  }

  lemma {:induction false} IndexAt(b: seq<byte>, off: nat, c: Chain)
    requires LiesAt(b, off, EncChain(c))
    ensures off + 4 <= |b| && WordValue(b[off..off + 4]) == c.objIdx
  {
    LiesWithin(b, off, EncU32(c.objIdx), EncArray(Low32s(c.offsets)));
    WordOfU32(c.objIdx);
  }

  lemma {:induction false} OffsetAt(b: seq<byte>, off: nat, c: Chain, j: nat)
    requires LiesAt(b, off, EncChain(c)) && j < |c.offsets|
    ensures off + 4 + 5 * j + 5 <= |b|
    ensures WordValue(b[off + 4 + 5 * j..off + 4 + 5 * j + 4]) == c.offsets[j] % 0x1_0000_0000
    ensures b[off + 4 + 5 * j + 4] == if j == |c.offsets| - 1 then 0xFF else 0
  {
    LiesWithin(b, off, EncU32(c.objIdx), EncArray(Low32s(c.offsets)));
    ArrayAt(b, off + 4, Low32s(c.offsets), j);
  }

  /** `at` are the file positions of the pathnames after a header, each with its terminator, and of the
      end of the last. */
  predicate NamePositions(names: seq<seq<byte>>, at: seq<nat>) {
    && |at| == |names| + 1 && at[0] == 16
    && forall i {:trigger names[i]} :: 0 <= i < |names| ==> at[i + 1] == at[i] + |names[i]| + 1
  }

  /** `from` are the positions of chains from `start` on, of 4 bytes and 5 for every offset. */
  predicate ChainPositions(chains: seq<Chain>, start: nat, from: seq<nat>) {
    && |from| == |chains| + 1 && from[0] == start
    && forall i {:trigger chains[i]} :: 0 <= i < |chains| ==> from[i + 1] == from[i] + 4 + 5 * |chains[i].offsets|
  }

  lemma {:induction false} NamesEnd(names: seq<seq<byte>>, at: seq<nat>)
    requires NamePositions(names, at)
    ensures at[|names|] == 16 + |EncPathnames(names)|
  {
    if names != [] {
      var n := |names| - 1;
      NamesEnd(names[..n], at[..n + 1]);
      assert |names[n]| + 1 == |EncString(names[n])|;
    }
  }

  lemma {:induction false} ChainsEnd(chains: seq<Chain>, start: nat, from: seq<nat>)
    requires ChainPositions(chains, start, from)
    ensures from[|chains|] == start + |EncChains(chains)|
  {
    if chains != [] {
      var n := |chains| - 1;
      ChainsEnd(chains[..n], start, from[..n + 1]);
      assert 4 + 5 * |chains[n].offsets| == |EncChain(chains[n])|;
    }
  }

  lemma {:induction false} StoredName(b: seq<byte>, names: seq<seq<byte>>, at: seq<nat>, i: nat)
    requires LiesAt(b, 16, EncPathnames(names)) && NamePositions(names, at) && i < |names|
    ensures LiesAt(b, at[i], names[i] + [0])
  {
    var n := |names| - 1;
    LiesWithin(b, 16, EncPathnames(names[..n]), EncString(names[n]));
    NamesEnd(names[..n], at[..n + 1]);
    if i < n {
      StoredName(b, names[..n], at[..n + 1], i);
    }
  }

  lemma {:induction false} StoredChain(b: seq<byte>, chains: seq<Chain>, start: nat, from: seq<nat>, i: nat)
    requires LiesAt(b, start, EncChains(chains)) && ChainPositions(chains, start, from) && i < |chains|
    ensures LiesAt(b, from[i], EncChain(chains[i]))
  {
    var n := |chains| - 1;
    LiesWithin(b, start, EncChains(chains[..n]), EncChain(chains[n]));
    ChainsEnd(chains[..n], start, from[..n + 1]);
    if i < n {
      StoredChain(b, chains[..n], start, from[..n + 1], i);
    }
  }

  lemma HeaderAt(b: seq<byte>, h: PtrFileHdr)
    requires LiesAt(b, 0, EncHdr(h))
    ensures 16 <= |b|
    ensures WordValue(b[0..4]) == h.pathnamesNum && WordValue(b[4..8]) == h.pathnamesOffset
    ensures WordValue(b[8..12]) == h.chainsNum && WordValue(b[12..16]) == h.chainsOffset
  {
    var first, second, third, last :=
      EncU32(h.pathnamesNum), EncU32(h.pathnamesOffset), EncU32(h.chainsNum), EncU32(h.chainsOffset);
    LiesWithin(b, 0, first + second + third, last);
    LiesWithin(b, 0, first + second, third);
    LiesWithin(b, 0, first, second);
    WordOfU32(h.pathnamesNum);
    WordOfU32(h.pathnamesOffset);
    WordOfU32(h.chainsNum);
    WordOfU32(h.chainsOffset);
  }

  /** Where the parts of a body lie. */
  lemma {:induction false} PartsLie(t: Table, hdrOff: int) returns (n: nat, c: nat)
    ensures var b := Body(t.names, t.chains, hdrOff);
            && LiesAt(b, 0, EncHdr(HeaderOf(t.names, t.chains, hdrOff)))
            && LiesAt(b, 16, EncPathnames(t.names)) && n == 16 + |EncPathnames(t.names)| < |b| && b[n] == 0
            && LiesAt(b, n + 1, EncChains(t.chains)) && c == n + 1 + |EncChains(t.chains)| < |b| && b[c] == 0xBB
            && |b| == c + 1
  {
    var b := Body(t.names, t.chains, hdrOff);
    n := 16 + |EncPathnames(t.names)|;
    c := n + 1 + |EncChains(t.chains)|;
  }

  /** The words of a header for these numbers of pathnames and chains, and these positions. */
  lemma {:induction false} HeaderWords(b: seq<byte>, names: seq<seq<byte>>, chains: seq<Chain>, hdrOff: int, n: nat)
    requires LiesAt(b, 0, EncHdr(HeaderOf(names, chains, hdrOff))) && n == 16 + |EncPathnames(names)|
    ensures 16 <= |b| && WordValue(b[0..4]) == |names| % 0x1_0000_0000
    ensures WordValue(b[4..8]) == (hdrOff + 16) % 0x1_0000_0000
    ensures WordValue(b[8..12]) == |chains| % 0x1_0000_0000
    ensures WordValue(b[12..16]) == (hdrOff + n + 1) % 0x1_0000_0000
  {
    HeaderAt(b, HeaderOf(names, chains, hdrOff));
  }

  /** The four words of the header of a body are the number of pathnames, the file position of the first,
      the number of chains and the file position of the first, modulo 2^32. */
  lemma {:induction false} HeaderPositions(names: seq<seq<byte>>, chains: seq<Chain>, hdrOff: int, at: seq<nat>)
    requires NamePositions(names, at)
    ensures var b := Body(names, chains, hdrOff);
            && 16 <= |b|
            && WordValue(b[0..4]) == |names| % 0x1_0000_0000
            && WordValue(b[4..8]) == (hdrOff + at[0]) % 0x1_0000_0000
            && WordValue(b[8..12]) == |chains| % 0x1_0000_0000
            && WordValue(b[12..16]) == (hdrOff + at[|names|] + 1) % 0x1_0000_0000
  {
    var n, c := PartsLie(Table(names, chains), hdrOff);
    HeaderWords(Body(names, chains, hdrOff), names, chains, hdrOff, n);
    NamesEnd(names, at);
  }

  /** From byte 16 on come the pathnames, each with a zero after it, and another zero. */
  lemma {:induction false} BodyNameExactly(names: seq<seq<byte>>, chains: seq<Chain>, hdrOff: int, at: seq<nat>, i: nat)
    requires NamePositions(names, at)
    ensures var b := Body(names, chains, hdrOff);
            && at[|names|] < |b| && b[at[|names|]] == 0
            && (i < |names| ==>
                  && at[i] + |names[i]| < |b|
                  && b[at[i]..at[i] + |names[i]|] == names[i] && b[at[i] + |names[i]|] == 0)
  {
    var b := Body(names, chains, hdrOff);
    var n, c := PartsLie(Table(names, chains), hdrOff);
    NamesEnd(names, at);
    if i < |names| {
      StoredName(b, names, at, i);
      StringAt(b, at[i], names[i]);
    }
  }

  lemma StringAt(b: seq<byte>, off: nat, s: seq<byte>)
    requires LiesAt(b, off, s + [0])
    ensures off + |s| < |b| && b[off..off + |s|] == s && b[off + |s|] == 0
  {
    LiesWithin(b, off, s, [0]);
    assert b[off + |s|] == b[off + |s|..off + |s| + 1][0];
  }

  /** The chains of a body come after the zero that ends the pathnames: each begins with the word of its
      pathname's position. */
  lemma {:induction false} BodyChainExactly(names: seq<seq<byte>>, chains: seq<Chain>, hdrOff: int, at: seq<nat>,
                                            from: seq<nat>, i: nat)
    requires NamePositions(names, at) && ChainPositions(chains, at[|names|] + 1, from) && i < |chains|
    ensures var b := Body(names, chains, hdrOff);
            from[i] + 4 <= |b| && WordValue(b[from[i]..from[i] + 4]) == chains[i].objIdx
  {
    var n, c := PartsLie(Table(names, chains), hdrOff);
    NamesEnd(names, at);
    StoredChain(Body(names, chains, hdrOff), chains, n + 1, from, i);
    IndexAt(Body(names, chains, hdrOff), from[i], chains[i]);
  }

  /** For every offset of the chain follow the word of its low 32 bits and a byte that is 0xFF after the
      last and zero after the others. */
  lemma {:induction false} BodyOffsetExactly(names: seq<seq<byte>>, chains: seq<Chain>, hdrOff: int, at: seq<nat>,
                                             from: seq<nat>, i: nat, j: nat)
    requires NamePositions(names, at) && ChainPositions(chains, at[|names|] + 1, from)
    requires i < |chains| && j < |chains[i].offsets|
    ensures var b, o := Body(names, chains, hdrOff), from[i] + 4 + 5 * j;
            && o + 5 <= |b| && WordValue(b[o..o + 4]) == chains[i].offsets[j] % 0x1_0000_0000
            && b[o + 4] == if j == |chains[i].offsets| - 1 then 0xFF else 0
  {
    var n, c := PartsLie(Table(names, chains), hdrOff);
    NamesEnd(names, at);
    StoredChain(Body(names, chains, hdrOff), chains, n + 1, from, i);
    OffsetAt(Body(names, chains, hdrOff), from[i], chains[i], j);
  }

  /** The byte after the chains is 0xBB, and the last. */
  lemma {:induction false} BodyEndExactly(names: seq<seq<byte>>, chains: seq<Chain>, hdrOff: int, at: seq<nat>,
                                          from: seq<nat>)
    requires NamePositions(names, at) && ChainPositions(chains, at[|names|] + 1, from)
    ensures var b := Body(names, chains, hdrOff);
            |b| == from[|chains|] + 1 && b[from[|chains|]] == 0xBB
  {
    var n, c := PartsLie(Table(names, chains), hdrOff);
    NamesEnd(names, at);
    ChainsEnd(chains, n + 1, from);
  }
}
