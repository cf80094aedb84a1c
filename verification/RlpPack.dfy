/** Packing PDUs into a transmit buffer in place (acnsrc/rlp/rlp.c). */
module RlpPack {
  import opened Word
  import opened Marshal
  import opened Wrappers
  import opened RlpMem
  import opened RlpWire
  import opened RlpRoundTrip

  // ----- Memory -----

  /** Where a PDU's data comes from: the buffer itself, or other memory. */
  datatype Source = InBuffer(at: nat) | Elsewhere(bytes: Bytes) {
    function Data(m: Bytes, size: nat): (b: Bytes)
      requires Readable(m, size)
      ensures |b| == size
    {
      if InBuffer? then m[at..at + size] else bytes
    }

    predicate Readable(m: Bytes, size: nat) {
      if InBuffer? then at + size <= |m| else |bytes| == size
    }
  }

  /** `memmove`: source and target may overlap. */
  method Move(mem: array<uint8>, to: nat, src: Source, size: nat)
    requires src.Readable(mem[..], size) && to + size <= mem.Length
    modifies mem
    ensures mem[..] == Write(old(mem[..]), to, src.Data(old(mem[..]), size))
  {
    match src {
      case InBuffer(at) =>
        if at != to {
          forall k | 0 <= k < size {
            mem[to + k] := mem[at + k];
          }
        } else {
          WriteSame(mem[..], to, size);
        }
      case Elsewhere(bytes) =>
        Put(mem, to, bytes);
    }
  }

  // ----- Blocks -----

  /** The buffer's block holds the PDUs `ps`. */
  ghost predicate Packed(buf: TxBuf, c: Packing, ps: seq<Pdu>)
    reads buf, buf.mem
  {
    && |buf.owner| == 16 && buf.mem.Length == buf.datasize
    && (ps == [] <==> buf.blockend == -1)
    && (ps != [] ==>
          && buf.blockstart + FIRST <= buf.blockend <= buf.datasize
          && buf.mem[buf.blockstart..buf.blockend] == Block(c, buf.owner, ps)
          && (!c.single ==> buf.protocol == ps[|ps| - 1].protocol)
          && (c.optimize ==> Remembers(buf, ps[|ps| - 1].data)))
  }

  /** `curdata` points at the last data packed. */
  ghost predicate Remembers(buf: TxBuf, data: Bytes)
    reads buf, buf.mem
  {
    && buf.blockstart + FIRST <= buf.curdata && buf.curdata + buf.curdatalen <= buf.blockend <= buf.mem.Length
    && buf.mem[buf.curdata..buf.curdata + buf.curdatalen] == data
  }

  /** `rlp_init_block`; -1 stands for NULL. */
  method InitBlock(buf: TxBuf, datap: Option<nat>) returns (r: int)
    modifies buf`blockend, buf`blockstart
    ensures r == (if datap.None? then FIRST else if FIRST <= datap.value <= buf.datasize then datap.value else -1)
    ensures r >= 0 ==> buf.blockend == -1 && buf.blockstart == r - FIRST
    ensures r >= 0 && |buf.owner| == 16 && buf.mem.Length == buf.datasize ==> forall c :: Packed(buf, c, [])
    ensures r < 0 ==> buf.blockend == old(buf.blockend) && buf.blockstart == old(buf.blockstart)
  {
    var blockstart := 0;
    if datap.Some? {
      if datap.value > blockstart + buf.datasize { return -1; }
      var trystart := datap.value - 16 - 2 - 4 - 16;
      if trystart < blockstart { return -1; }
      blockstart := trystart;
      r := datap.value;
    } else {
      r := blockstart + 16 + 2 + 4 + 16;
    }
    buf.blockend := -1;
    buf.blockstart := blockstart;
  }

  /** Where the next PDU starts, and where its preamble, if any, starts. */
  function Start(blockstart: nat, blockend: int): int {
    if blockend == -1 then blockstart + 16 else blockend
  }

  function Base(blockstart: nat, blockend: int): int {
    if blockend == -1 then blockstart else blockend
  }

  /** Everything written in front of the data of a PDU of length `n`. */
  function Front(first: bool, f: Flags, n: nat, owner: Bytes, protocol: uint32): (b: Bytes)
    requires |owner| == 16
    ensures |b| == (if first then 16 else 0) + 2 + VectorSize(f) + HeaderSize(f)
  {
    (if first then PREAMBLE else []) + Head(n, f) + (if f.vector then U32(protocol) else [])
      + (if f.header then owner else [])
  }

  /** The flags of the next PDU. */
  method ChooseFlags(buf: TxBuf, c: Packing, src: Source, size: nat, protocol: uint32, ghost ps: seq<Pdu>)
    returns (f: Flags)
    requires Packed(buf, c, ps) && src.Readable(buf.mem[..], size)
    ensures f == FlagsFor(c, Last(None, ps), Pdu(protocol, src.Data(buf.mem[..], size)))
  {
    if buf.blockend == -1 {
      return Flags(false, true, true, true);
    }
    if c.optimize {
      f := Flags(false, !c.single && protocol != buf.protocol, false, true);
      var same := buf.curdatalen == size && buf.mem[buf.curdata..buf.curdata + buf.curdatalen] ==
        src.Data(buf.mem[..], size);
      f := f.(data := !same);
    } else {
      f := Flags(false, !c.single, false, true);
    }
  }

  /** Put the data in place unless it is left out. */
  method PlaceData(buf: TxBuf, c: Packing, f: Flags, src: Source, size: nat, pdup: nat)
    returns (pduend: nat, saved: nat)
    requires src.Readable(buf.mem[..], size) && (f.data ==> pdup + size <= buf.mem.Length)
    modifies buf`curdata, buf`curdatalen, buf.mem
    ensures pduend == pdup + (if f.data then size else 0) && saved == (if f.data then pdup else buf.curdata)
    ensures f.data ==> buf.mem[..] == Write(old(buf.mem[..]), pdup, src.Data(old(buf.mem[..]), size))
    ensures !f.data ==> buf.mem[..] == old(buf.mem[..])
    ensures f.data && c.optimize ==> buf.curdata == pdup && buf.curdatalen == size
    ensures !f.data ==> buf.curdata == old(buf.curdata) && buf.curdatalen == old(buf.curdatalen)
  {
    if f.data {
      Move(buf.mem, pdup, src, size);
      if c.optimize {
        buf.curdata, buf.curdatalen := pdup, size;
      }
      pduend, saved := pdup + size, pdup;
    } else {
      pduend, saved := pdup, buf.curdata;
    }
  }

  /** Preamble and source CID of a first PDU. */
  method WriteLead(buf: TxBuf) returns (pdup: nat)
    requires |buf.owner| == 16 && buf.blockend >= -1
    requires buf.blockend == -1 ==> buf.blockstart + FIRST <= buf.mem.Length
    modifies buf.mem
    ensures pdup == Start(buf.blockstart, buf.blockend)
    ensures buf.mem[..] == Lead(old(buf.mem[..]), pdup, buf.blockend == -1, buf.owner)
  {
    if buf.blockend == -1 {
      pdup := buf.blockstart;
      Put(buf.mem, pdup, PREAMBLE);
      pdup := pdup + 16;
      Put(buf.mem, pdup + 2 + 4, buf.owner);
    } else {
      pdup := buf.blockend;
    }
  }

  function Lead(m: Bytes, at: nat, first: bool, owner: Bytes): (r: Bytes)
    requires first ==> 16 <= at && at + 6 + |owner| <= |m|
    ensures |r| == |m|
  {
    if first then Write(Write(m, at - 16, PREAMBLE), at + 6, owner) else m
  }

  /** Head and vector. */
  method WriteHead(buf: TxBuf, c: Packing, f: Flags, protocol: uint32, pdup: nat, pduend: nat)
    requires pdup + 2 + VectorSize(f) <= pduend <= buf.mem.Length
    modifies buf`protocol, buf.mem
    ensures buf.mem[..] == Write(old(buf.mem[..]), pdup, HeadVector(f, pduend - pdup, protocol))
    ensures buf.protocol == if f.vector && !c.single then protocol else old(buf.protocol)
  {
    hide Head, U32;
    ghost var m := buf.mem[..];
    var head := Head(pduend - pdup, f);
    Put(buf.mem, pdup, head);
    if f.vector {
      Put(buf.mem, pdup + 2, U32(protocol));
      WriteJoins(m, pdup, head, U32(protocol));
      if !c.single {
        buf.protocol := protocol;
      }
    }
  }

  function HeadVector(f: Flags, n: nat, protocol: uint32): (b: Bytes)
    ensures |b| == 2 + VectorSize(f)
  {
    Head(n, f) + (if f.vector then U32(protocol) else [])
  }

  /** The parts written in front of the data are adjacent. */
  lemma FrontJoins(m: Bytes, at: nat, first: bool, f: Flags, n: nat, owner: Bytes, protocol: uint32)
    requires |owner| == 16 && (f.header <==> first) && (f.header ==> f.vector)
    requires (first ==> at >= 16) && at + 2 + VectorSize(f) + HeaderSize(f) <= |m|
    ensures var base := if first then at - 16 else at;
            Write(Lead(m, at, first, owner), at, HeadVector(f, n, protocol)) ==
              Write(m, base, Front(first, f, n, owner, protocol))
  {
    hide Head, U32, Write;
    var hv := HeadVector(f, n, protocol);
    if first {
      WriteJoins(Write(m, at - 16, PREAMBLE), at, hv, owner);
      WriteJoins(m, at - 16, PREAMBLE, hv + owner);
      assert Front(first, f, n, owner, protocol) == PREAMBLE + (hv + owner);
    } else {
      assert Front(first, f, n, owner, protocol) == hv;
    }
  }

  /** Everything in front of the data. */
  method WriteFront(buf: TxBuf, c: Packing, f: Flags, protocol: uint32, pduend: nat)
    requires |buf.owner| == 16 && (f.header <==> buf.blockend == -1) && (f.header ==> f.vector) && buf.blockend >= -1
    requires Start(buf.blockstart, buf.blockend) + 2 + VectorSize(f) + HeaderSize(f) <= pduend <= buf.mem.Length
    modifies buf`protocol, buf.mem
    ensures var bs, be := buf.blockstart, buf.blockend;
            buf.mem[..] == Write(old(buf.mem[..]), Base(bs, be),
              Front(be == -1, f, pduend - Start(bs, be), buf.owner, protocol))
    ensures buf.protocol == if f.vector && !c.single then protocol else old(buf.protocol)
  {
    hide Head, U32, Write, Front, HeadVector, Lead;
    ghost var m := buf.mem[..];
    var pdup := WriteLead(buf);
    WriteHead(buf, c, f, protocol, pdup, pduend);
    FrontJoins(m, pdup, buf.blockend == -1, f, pduend - pdup, buf.owner, protocol);
  }

  /** What packing one more PDU writes: its encoding, after the preamble if it is
      the first. */
  function Added(c: Packing, owner: Bytes, ps: seq<Pdu>, p: Pdu): Bytes {
    (if ps == [] then PREAMBLE else []) + Encode(c, owner, Last(None, ps), p)
  }

  lemma BlockAdded(c: Packing, owner: Bytes, ps: seq<Pdu>, p: Pdu)
    ensures Block(c, owner, ps + [p]) == (if ps == [] then [] else Block(c, owner, ps)) + Added(c, owner, ps, p)
  {
    hide Encode;
    PdusSnoc(c, owner, None, ps, p);
  }

  /** Data and front together are the encoding. */
  lemma AddedParts(m: Bytes, base: nat, c: Packing, owner: Bytes, ps: seq<Pdu>, p: Pdu)
    requires |owner| == 16 && base + |Added(c, owner, ps, p)| <= |m|
    ensures var f, e := FlagsFor(c, Last(None, ps), p), Encode(c, owner, Last(None, ps), p);
            var front := Front(ps == [], f, |e|, owner, p.protocol);
            && |Added(c, owner, ps, p)| == |front| + (if f.data then |p.data| else 0) ==
              (if ps == [] then 16 else 0) + |e|
            && (f.data ==>
              Write(Write(m, base + |front|, p.data), base, front) == Write(m, base, Added(c, owner, ps, p)))
            && (f.data ==> Added(c, owner, ps, p)[|front|..] == p.data)
            && (!f.data ==> front == Added(c, owner, ps, p))
  {
    hide Head, U32, Write, FlagsFor;
    var f, e := FlagsFor(c, Last(None, ps), p), Encode(c, owner, Last(None, ps), p);
    var front := Front(ps == [], f, |e|, owner, p.protocol);
    var data := if f.data then p.data else [];
    assert Added(c, owner, ps, p) == front + data;
    WriteJoins(m, base, front, data);
  }

  function BaseOf(ps: seq<Pdu>, blockstart: nat, blockend: int): int {
    if ps == [] then blockstart else blockend
  }

  /** The memory after a PDU was added holds the longer block; what was there
      before, and with it the data packed last, still is. */
  lemma Grown(m: Bytes, bs: nat, be: int, c: Packing, owner: Bytes, ps: seq<Pdu>, p: Pdu)
    requires |owner| == 16 && (ps != [] ==> bs + FIRST <= be <= |m| && m[bs..be] == Block(c, owner, ps))
    requires BaseOf(ps, bs, be) + |Added(c, owner, ps, p)| <= |m|
    ensures var base, end := BaseOf(ps, bs, be), BaseOf(ps, bs, be) + |Added(c, owner, ps, p)|;
            var r := Write(m, base, Added(c, owner, ps, p));
            && r[bs..end] == Block(c, owner, ps + [p]) && bs + FIRST <= end
            && (FlagsFor(c, Last(None, ps), p).data ==>
              bs + FIRST <= end - |p.data| && r[end - |p.data|..end] == p.data)
            && r[..base] == m[..base]
  {
    hide Write, Added, Block, FlagsFor, Front, Encode;
    var base, added := BaseOf(ps, bs, be), Added(c, owner, ps, p);
    var r := Write(m, base, added);
    Written(m, base, added);
    BlockAdded(c, owner, ps, p);
    AddedParts(m, base, c, owner, ps, p);
    FirstFlags(c, ps, p);
    if ps != [] {
      SliceKept(r, m, base, bs, be);
    }
    assert r[bs..base + |added|] == r[bs..base] + r[base..base + |added|];
    if FlagsFor(c, Last(None, ps), p).data {
      var k := |added| - |p.data|;
      assert r[base + k..base + |added|] == r[base..base + |added|][k..];
    }
  }

  lemma SliceKept(r: Bytes, m: Bytes, base: nat, from: nat, to: nat)
    requires from <= to <= base <= |r| && base <= |m| && r[..base] == m[..base]
    ensures r[from..to] == m[from..to]
  {
    assert r[from..to] == r[..base][from..to];
    assert m[from..to] == m[..base][from..to];
  }

  /** Write data and fields of the next PDU and close the block behind it. */
  method Lay(buf: TxBuf, c: Packing, f: Flags, src: Source, size: nat, protocol: uint32,
             ghost ps: seq<Pdu>, ghost p: Pdu)
    returns (saved: nat)
    requires |buf.owner| == 16 && buf.blockend >= -1 && (buf.blockend == -1 <==> ps == [])
    requires src.Readable(buf.mem[..], size) && p == Pdu(protocol, src.Data(buf.mem[..], size))
    requires f == FlagsFor(c, Last(None, ps), p)
    requires BaseOf(ps, buf.blockstart, buf.blockend) + |Added(c, buf.owner, ps, p)| <= buf.mem.Length
    modifies buf`blockend, buf`protocol, buf`curdata, buf`curdatalen, buf.mem
    ensures buf.mem[..] == Write(old(buf.mem[..]), old(BaseOf(ps, buf.blockstart, buf.blockend)),
            Added(c, buf.owner, ps, p))
    ensures buf.blockend == old(BaseOf(ps, buf.blockstart, buf.blockend)) + |Added(c, buf.owner, ps, p)|
    ensures buf.protocol == if f.vector && !c.single then protocol else old(buf.protocol)
    ensures f.data && c.optimize ==> buf.curdata == buf.blockend - size && buf.curdatalen == size
    ensures !f.data ==> buf.curdata == old(buf.curdata) && buf.curdatalen == old(buf.curdatalen)
    ensures saved == if f.data then buf.blockend - size else buf.curdata
  {
    hide Write, Added, FlagsFor, Front, Encode, Last, Source.Data, Source.Readable;
    ghost var m, base := buf.mem[..], BaseOf(ps, buf.blockstart, buf.blockend);
    AddedParts(m, base, c, buf.owner, ps, p);
    FirstFlags(c, ps, p);
    var pdup := (if buf.blockend == -1 then buf.blockstart + 16 else buf.blockend) + 2 + VectorSize(f) + HeaderSize(f);
    var pduend;
    pduend, saved := PlaceData(buf, c, f, src, size, pdup);
    WriteFront(buf, c, f, protocol, pduend);
    buf.blockend := pduend;
  }

  lemma FirstFlags(c: Packing, ps: seq<Pdu>, p: Pdu)
    ensures var f := FlagsFor(c, Last(None, ps), p); (f.header <==> ps == []) && (f.header ==> f.vector)
  {
  }

  /** A field is left out only if the buffer remembers it. */
  lemma LeftOut(c: Packing, ps: seq<Pdu>, p: Pdu)
    ensures var f := FlagsFor(c, Last(None, ps), p);
            && (!f.data ==> c.optimize && ps != [] && ps[|ps| - 1].data == p.data)
            && (!f.vector && !c.single ==> ps != [] && ps[|ps| - 1].protocol == p.protocol)
  {
  }

  /** Memory `m` has the block of `ps` at `bs..be`, and the data of the last PDU
      where the buffer remembers it. */
  ghost predicate Contents(m: Bytes, bs: nat, be: int, cur: nat, curlen: nat, c: Packing, owner: Bytes, ps: seq<Pdu>) {
    && ps != [] && bs + FIRST <= be <= |m| && m[bs..be] == Block(c, owner, ps)
    && (c.optimize ==> bs + FIRST <= cur && cur + curlen <= be && m[cur..cur + curlen] == ps[|ps| - 1].data)
  }

  lemma Unpacked(buf: TxBuf, c: Packing, ps: seq<Pdu>)
    requires Packed(buf, c, ps)
    ensures |buf.owner| == 16 && buf.mem.Length == buf.datasize
    ensures buf.blockend >= -1 && (buf.blockend == -1 <==> ps == [])
    ensures ps != [] ==> Contents(buf.mem[..], buf.blockstart, buf.blockend, buf.curdata, buf.curdatalen,
                               c, buf.owner, ps)
    ensures ps != [] && !c.single ==> buf.protocol == ps[|ps| - 1].protocol
  {
  }

  /** The contents of memory `m` after a PDU was laid: the longer block, the data
      the buffer remembers, and the data that can be sent again. */
  lemma AfterLay(m: Bytes, bs: nat, be: int, cur: nat, curlen: nat, c: Packing, owner: Bytes, ps: seq<Pdu>, p: Pdu,
                 cur': nat, curlen': nat, saved: nat)
    requires |owner| == 16 && BaseOf(ps, bs, be) + |Added(c, owner, ps, p)| <= |m|
    requires ps != [] ==> Contents(m, bs, be, cur, curlen, c, owner, ps)
    requires var f, end := FlagsFor(c, Last(None, ps), p), BaseOf(ps, bs, be) + |Added(c, owner, ps, p)|;
             && (f.data && c.optimize ==> cur' == end - |p.data| && curlen' == |p.data|)
             && (!f.data ==> cur' == cur && curlen' == curlen)
             && saved == if f.data then end - |p.data| else cur'
    ensures var base, end := BaseOf(ps, bs, be), BaseOf(ps, bs, be) + |Added(c, owner, ps, p)|;
            var r := Write(m, base, Added(c, owner, ps, p));
            && Contents(r, bs, end, cur', curlen', c, owner, ps + [p])
            && bs + FIRST <= saved && saved + |p.data| <= end && Holds(r, saved, p.data)
  {
    hide Write, Added, FlagsFor, Front, Encode, Block, Last;
    Grown(m, bs, be, c, owner, ps, p);
    LeftOut(c, ps, p);
    if !FlagsFor(c, Last(None, ps), p).data {
      SliceKept(Write(m, BaseOf(ps, bs, be), Added(c, owner, ps, p)), m, be, cur, cur + curlen);
    }
  }

  lemma Repacked(buf: TxBuf, c: Packing, ps: seq<Pdu>, p: Pdu)
    requires |buf.owner| == 16 && buf.mem.Length == buf.datasize
    requires Contents(buf.mem[..], buf.blockstart, buf.blockend, buf.curdata, buf.curdatalen, c, buf.owner, ps + [p])
    requires !c.single ==> buf.protocol == p.protocol
    ensures Packed(buf, c, ps + [p])
  {
  }

  /** `rlp_add_pdu`. Data that overlaps the space for its own header is moved out
      of the way first; everything before the new PDU is left alone. */
  method AddPdu(buf: TxBuf, c: Packing, src: Source, size: nat, protocol: uint32, ghost ps: seq<Pdu>, ghost p: Pdu)
    returns (next: nat, saved: nat)
    requires Packed(buf, c, ps) && src.Readable(buf.mem[..], size)
    requires p == Pdu(protocol, src.Data(buf.mem[..], size)) && c.Allows(p)
    requires BaseOf(ps, buf.blockstart, buf.blockend) + |Added(c, buf.owner, ps, p)| <= buf.datasize
    modifies buf`blockend, buf`protocol, buf`curdata, buf`curdatalen, buf.mem
    ensures Packed(buf, c, ps + [p])
    ensures buf.mem[..] == Write(old(buf.mem[..]), old(BaseOf(ps, buf.blockstart, buf.blockend)),
            Added(c, buf.owner, ps, p))
    ensures buf.blockend == old(BaseOf(ps, buf.blockstart, buf.blockend)) + |Added(c, buf.owner, ps, p)|
    ensures buf.blockstart + FIRST <= saved && saved + size <= buf.blockend && Holds(buf.mem[..], saved, p.data)
    ensures next == buf.blockend + if c.single || c.optimize then 2 else 6
  {
    hide *;
    Unpacked(buf, c, ps);
    ghost var m, base := buf.mem[..], BaseOf(ps, buf.blockstart, buf.blockend);
    ghost var end := buf.blockend;
    ghost var cur, curlen := buf.curdata, buf.curdatalen;
    var f := ChooseFlags(buf, c, src, size, protocol, ps);
    saved := Lay(buf, c, f, src, size, protocol, ps, p);
    AfterLay(m, buf.blockstart, end, cur, curlen, c, buf.owner, ps, p, buf.curdata, buf.curdatalen, saved);
    LeftOut(c, ps, p);
    Repacked(buf, c, ps, p);
    next := buf.blockend + if c.single || c.optimize then 2 else 2 + 4;
  }

  /** `rlp_send_block`: what goes to the network. */
  method SendBlock(buf: TxBuf, ghost c: Packing, ghost ps: seq<Pdu>) returns (packet: Bytes)
    requires Packed(buf, c, ps) && ps != []
    ensures packet == Block(c, buf.owner, ps)
  {
    packet := buf.mem[buf.blockstart..buf.blockend];
  }

  lemma OneAdded(c: Packing, owner: Bytes, p: Pdu)
    requires |owner| == 16
    ensures |Added(c, owner, [], p)| == FIRST + |p.data|
  {
  }

  /** A PDU is sent again from the place its data was packed at: a new block of
      that PDU alone is built around the data, which stays where it is. */
  method Repack(buf: TxBuf, c: Packing, saved: nat, size: nat, protocol: uint32, ghost p: Pdu) returns (packet: Bytes)
    requires |buf.owner| == 16 && buf.mem.Length == buf.datasize
    requires FIRST <= saved && saved + size <= buf.datasize
    requires p == Pdu(protocol, buf.mem[..][saved..saved + size]) && c.Allows(p)
    modifies buf`blockend, buf`blockstart, buf`protocol, buf`curdata, buf`curdatalen, buf.mem
    ensures packet == Block(c, buf.owner, [p]) && Packed(buf, c, [p])
    ensures buf.blockstart == saved - FIRST && buf.blockend == saved + size
    ensures buf.mem[..] == Write(old(buf.mem[..]), saved - FIRST, Added(c, buf.owner, [], p))
  {
    hide Added, Packed, Block, Write, Encode;
    OneAdded(c, buf.owner, p);
    var pdup := InitBlock(buf, Some(saved));
    var _, _ := AddPdu(buf, c, InBuffer(pdup), size, protocol, [], p);
    assert [] + [p] == [p];
    packet := SendBlock(buf, c, [p]);
  }
}
