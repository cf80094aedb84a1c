/** The wire form of a block of root-layer PDUs (EPI 17): what the packer writes
    in each of its configurations, and what the parser makes of any bytes
    (acnsrc/rlp/rlp.c, acnsrc/include/marshal.h, acnsrc/include/acn_arch.h). */
module RlpWire {
  import opened Word
  import opened Wrappers
  import opened Marshal

  // ----- Flags and length -----

  /** The four top bits of the first field of a PDU. */
  datatype Flags = Flags(length: bool, vector: bool, header: bool, data: bool)

  function Bit(on: bool): uint8 {
    if on then 1 else 0
  }

  function Odd(x: nat): bool {
    x % 2 == 1
  }

  /** `(uint16_t)len | flags`, high byte first. Bits of a length that does not fit
      its 12 bits run into the flags. */
  function Head(len: nat, f: Flags): (b: Bytes)
    ensures |b| == 2
  {
    var top := 8 * Bit(f.length || Odd(len / 0x8000)) + 4 * Bit(f.vector || Odd(len / 0x4000))
               + 2 * Bit(f.header || Odd(len / 0x2000)) + Bit(f.data || Odd(len / 0x1000));
    [16 * top + (len / 0x100) % 16, len % 0x100]
  }

  function FlagsOf(b: uint8): Flags {
    Flags(Odd(b / 128), Odd(b / 64), Odd(b / 32), Odd(b / 16))
  }

  /** Every flag of `f` is set in `g`. */
  predicate Covers(g: Flags, f: Flags) {
    (f.length ==> g.length) && (f.vector ==> g.vector) && (f.header ==> g.header) && (f.data ==> g.data)
  }

  /** `getpdulen` */
  function LengthOf(m: Bytes, at: nat): nat
    requires at + 2 <= |m|
  {
    0x100 * (m[at] % 16 as int) + m[at + 1]
  }

  lemma NibbleReads(l: bool, v: bool, h: bool, d: bool, low: nat)
    requires low < 16
    ensures var b := 16 * (8 * Bit(l) + 4 * Bit(v) + 2 * Bit(h) + Bit(d)) + low;
            b < 0x100 && b % 16 == low && FlagsOf(b) == Flags(l, v, h, d)
  {
  }

  lemma HeadBits(len: nat, f: Flags)
    ensures LengthOf(Head(len, f), 0) == len % 0x1000
    ensures FlagsOf(Head(len, f)[0]) == Flags(f.length || Odd(len / 0x8000), f.vector || Odd(len / 0x4000),
                                              f.header || Odd(len / 0x2000), f.data || Odd(len / 0x1000))
  {
    hide FlagsOf, Odd;
    NibbleReads(f.length || Odd(len / 0x8000), f.vector || Odd(len / 0x4000),
                f.header || Odd(len / 0x2000), f.data || Odd(len / 0x1000), (len / 0x100) % 16);
  }

  lemma HeadReads(len: nat, f: Flags)
    ensures LengthOf(Head(len, f), 0) == len % 0x1000
    ensures len < 0x1000 ==> FlagsOf(Head(len, f)[0]) == f
    ensures Covers(FlagsOf(Head(len, f)[0]), f)
  {
    hide FlagsOf, Head, LengthOf;
    HeadBits(len, f);
  }

  // ----- The packer -----

  datatype Pdu = Pdu(protocol: uint32, data: Bytes)

  /** `CONFIG_RLP_SINGLE_CLIENT` with `CONFIG_RLP_CLIENTPROTO`, and
      `CONFIG_RLP_OPTIMIZE_PACK`. */
  datatype Packing = Packing(single: bool, client: uint32, optimize: bool) {
    predicate Allows(p: Pdu) {
      single ==> p.protocol == client
    }
  }

  const PREAMBLE: Bytes := [0, 16, 0, 0, 65, 83, 67, 45, 69, 49, 46, 49, 55, 0, 0, 0]

  /** Preamble and the fields of a first PDU before its data. */
  const FIRST: nat := 38

  /** Which fields the packer writes after the PDU `prev` of the same block. */
  function FlagsFor(c: Packing, prev: Option<Pdu>, p: Pdu): Flags {
    if prev.None? then Flags(false, true, true, true)
    else if c.optimize then
      Flags(false, !c.single && p.protocol != prev.value.protocol, false, p.data != prev.value.data)
    else Flags(false, !c.single, false, true)
  }

  function Fields(f: Flags, owner: Bytes, p: Pdu): Bytes {
    (if f.vector then U32(p.protocol) else []) + (if f.header then owner else []) + (if f.data then p.data else [])
  }

  function Encode(c: Packing, owner: Bytes, prev: Option<Pdu>, p: Pdu): (b: Bytes)
    ensures |b| >= 2
  {
    var f := FlagsFor(c, prev, p);
    var fields := Fields(f, owner, p);
    Head(2 + |fields|, f) + fields
  }

  function Pdus(c: Packing, owner: Bytes, prev: Option<Pdu>, ps: seq<Pdu>): Bytes
    decreases |ps|
  {
    if ps == [] then [] else Encode(c, owner, prev, ps[0]) + Pdus(c, owner, Some(ps[0]), ps[1..])
  }

  function Block(c: Packing, owner: Bytes, ps: seq<Pdu>): Bytes {
    PREAMBLE + Pdus(c, owner, None, ps)
  }

  function Last(prev: Option<Pdu>, ps: seq<Pdu>): Option<Pdu> {
    if ps == [] then prev else Some(ps[|ps| - 1])
  }

  lemma {:induction false} PdusSnoc(c: Packing, owner: Bytes, prev: Option<Pdu>, ps: seq<Pdu>, p: Pdu)
    ensures Pdus(c, owner, prev, ps + [p]) == Pdus(c, owner, prev, ps) + Encode(c, owner, Last(prev, ps), p)
    decreases |ps|
  {
    hide Encode;
    if ps == [] {
      assert ps + [p] == [p] && [p][1..] == [];
    } else {
      PdusSnoc(c, owner, Some(ps[0]), ps[1..], p);
      assert (ps + [p])[1..] == ps[1..] + [p];
    }
  }

  /** The optimized packing is never longer. */
  lemma {:induction false} OptimizedNoLonger(c: Packing, owner: Bytes, prev: Option<Pdu>, ps: seq<Pdu>)
    ensures |Pdus(c.(optimize := true), owner, prev, ps)| <= |Pdus(c.(optimize := false), owner, prev, ps)|
    decreases |ps|
  {
    if ps == [] {
    } else {
      OptimizedNoLonger(c, owner, Some(ps[0]), ps[1..]);
    }
  }

  // ----- The parser -----

  /** What the parser passes on for one PDU, as positions in the packet; fields
      that are not in the PDU are those of the PDU before. */
  datatype Item = Item(protocol: uint32, cid: nat, data: nat, size: nat)

  /** Octets the parser may read behind a packet before it finds it too short. */
  const SLACK: nat := 5

  datatype Parsed = Bad | Good(item: Item, end: nat)

  /** One PDU at `pos`. */
  function ParsePdu(m: Bytes, length: nat, pos: nat, was: Item): (r: Parsed)
    requires pos < length && length + SLACK <= |m|
    ensures r.Good? ==> pos + 2 <= r.end <= length
  {
    var f := FlagsOf(m[pos]);
    var end := pos + LengthOf(m, pos);
    if end > length then Bad
    else
      var afterVector := pos + 2 + (if f.vector then 4 else 0);
      var pp := afterVector + (if f.header then 16 else 0);
      if pp > end then Bad
      else
        Good(Item(if f.vector then FromU32(m, pos + 2) else was.protocol,
                  if f.header then afterVector else was.cid,
                  if f.data then pp else was.data,
                  if f.data then end - pp else was.size), end)
  }

  function Items(m: Bytes, length: nat, pos: nat, was: Item): seq<Item>
    requires length + SLACK <= |m|
    decreases length - pos
  {
    if pos >= length then []
    else
      match ParsePdu(m, length, pos, was)
      case Bad => []
      case Good(item, end) => [item] + Items(m, length, end, item)
  }

  const NOTHING := Item(0, 0, 0, 0)

  predicate Acceptable(m: Bytes, length: nat)
    requires length + SLACK <= |m|
  {
    length >= FIRST && m[..16] == PREAMBLE
    && var f := FlagsOf(m[16]); f == Flags(false, true, true, true)
  }

  /** `rlp_process_packet`: everything passed on for the packet `m[..length]`. */
  function Parse(m: Bytes, length: nat): seq<Item>
    requires length + SLACK <= |m|
  {
    if Acceptable(m, length) then Items(m, length, 16, NOTHING) else []
  }

  predicate Inside(length: nat, i: Item) {
    16 <= i.cid && i.cid + 16 <= length && 16 <= i.data && i.data + i.size <= length
  }

  lemma {:induction false} ItemsInside(m: Bytes, length: nat, pos: nat, was: Item)
    requires length + SLACK <= |m| && pos >= 16
    requires Inside(length, was) || (pos < length && FlagsOf(m[pos]) == Flags(false, true, true, true))
    ensures forall i :: i in Items(m, length, pos, was) ==> Inside(length, i)
    decreases length - pos
  {
    if pos >= length {
    } else {
      var r := ParsePdu(m, length, pos, was);
      if r.Good? {
        ItemsInside(m, length, r.end, r.item);
      }
    }
  }

  /** Every range passed on lies within the packet, whatever the bytes. */
  lemma ParsedInside(m: Bytes, length: nat, i: Item)
    requires length + SLACK <= |m| && i in Parse(m, length)
    ensures Inside(length, i)
  {
    ItemsInside(m, length, 16, NOTHING);
  }

  lemma {:induction false} ItemsIgnoreSlack(m: Bytes, m': Bytes, length: nat, pos: nat, was: Item)
    requires length + SLACK <= |m| && length + SLACK <= |m'| && m[..length] == m'[..length]
    ensures Items(m, length, pos, was) == Items(m', length, pos, was)
    decreases length - pos
  {
    if pos >= length {
    } else {
      assert forall k :: 0 <= k < length ==> m[k] == m[..length][k] == m'[k];
      var r := ParsePdu(m, length, pos, was);
      assert r == ParsePdu(m', length, pos, was);
      if r.Good? {
        ItemsIgnoreSlack(m, m', length, r.end, r.item);
      }
    }
  }

  /** What lies behind the packet does not matter, although it is read. */
  lemma ParseIgnoresSlack(m: Bytes, m': Bytes, length: nat)
    requires length + SLACK <= |m| && length + SLACK <= |m'| && m[..length] == m'[..length]
    ensures Parse(m, length) == Parse(m', length)
  {
    ItemsIgnoreSlack(m, m', length, 16, NOTHING);
    if length >= FIRST {
      assert m[..16] == m[..length][..16] && m'[..16] == m'[..length][..16];
      assert m[16] == m[..length][16];
    }
  }
}
