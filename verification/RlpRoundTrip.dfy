/** Packing and parsing undo each other: every PDU of a block is passed on with
    its protocol, the owner's CID and its data, in order, for every packing. */
module RlpRoundTrip {
  import opened Word
  import opened Marshal
  import opened Wrappers
  import opened RlpWire

  datatype Delivery = Delivery(protocol: uint32, cid: Bytes, data: Bytes)

  function Slice(m: Bytes, at: nat, n: nat): Bytes {
    if at + n <= |m| then m[at..at + n] else []
  }

  /** What a callback sees through the pointers it is given. */
  function Seen(m: Bytes, i: Item): Delivery {
    Delivery(i.protocol, Slice(m, i.cid, 16), Slice(m, i.data, i.size))
  }

  function SeenAll(m: Bytes, items: seq<Item>): (ds: seq<Delivery>)
    ensures |ds| == |items|
  {
    seq(|items|, i requires 0 <= i < |items| => Seen(m, items[i]))
  }

  function Sent(owner: Bytes, ps: seq<Pdu>): (ds: seq<Delivery>)
    ensures |ds| == |ps|
  {
    seq(|ps|, i requires 0 <= i < |ps| => Delivery(ps[i].protocol, owner, ps[i].data))
  }

  /** Every PDU's length fits its 12-bit field. */
  predicate AllShort(c: Packing, owner: Bytes, prev: Option<Pdu>, ps: seq<Pdu>)
    decreases |ps|
  {
    ps == [] || (|Encode(c, owner, prev, ps[0])| < 0x1000 && AllShort(c, owner, Some(ps[0]), ps[1..]))
  }

  /** The parser's inherited fields agree with the packer's last PDU. */
  predicate Agrees(m: Bytes, owner: Bytes, was: Item, prev: Option<Pdu>) {
    prev.Some? ==>
      && was.cid + 16 <= |m| && was.data + was.size <= |m|
      && Seen(m, was) == Delivery(prev.value.protocol, owner, prev.value.data)
  }

  lemma HeadAt(m: Bytes, pos: nat, len: nat, f: Flags)
    requires Holds(m, pos, Head(len, f))
    ensures pos + 2 <= |m| && LengthOf(m, pos) == len % 0x1000
    ensures len < 0x1000 ==> FlagsOf(m[pos]) == f
    ensures Covers(FlagsOf(m[pos]), f)
  {
    hide FlagsOf;
    var s := m[pos..pos + 2];
    assert s[0] == m[pos] && s[1] == m[pos + 1];
    HeadReads(len, f);
  }

  lemma U32At(m: Bytes, pos: nat, x: uint32)
    requires Holds(m, pos, U32(x))
    ensures pos + 4 <= |m| && FromU32(m, pos) == x
  {
    var s := m[pos..pos + 4];
    assert s[0] == m[pos] && s[1] == m[pos + 1] && s[2] == m[pos + 2] && s[3] == m[pos + 3];
    U32Reads(x);
  }

  function VectorSize(f: Flags): nat {
    if f.vector then 4 else 0
  }

  function HeaderSize(f: Flags): nat {
    if f.header then 16 else 0
  }

  /** The fields of a PDU at `at` stand where the parser looks for them. */
  lemma FieldsAt(m: Bytes, at: nat, f: Flags, owner: Bytes, p: Pdu)
    requires |owner| == 16 && Holds(m, at, Fields(f, owner, p))
    ensures |Fields(f, owner, p)| == VectorSize(f) + HeaderSize(f) + if f.data then |p.data| else 0
    ensures f.vector ==> at + 4 <= |m| && FromU32(m, at) == p.protocol
    ensures f.header ==> at + VectorSize(f) + 16 <= |m| && Slice(m, at + VectorSize(f), 16) == owner
    ensures var d := at + VectorSize(f) + HeaderSize(f);
            f.data ==> d + |p.data| <= |m| && Slice(m, d, |p.data|) == p.data
  {
    hide U32, FromU32, Holds, Slice, Fields;
    var vector, header := (if f.vector then U32(p.protocol) else []), (if f.header then owner else []);
    var data := if f.data then p.data else [];
    FieldsForm(f, owner, p, vector, header, data);
    HoldsParts(m, at, vector, header + data);
    HoldsParts(m, at + |vector|, header, data);
    if f.vector {
      U32At(m, at, p.protocol);
    }
    HoldsSlice(m, at + |vector|, header);
    HoldsSlice(m, at + |vector| + |header|, data);
  }

  lemma FieldsForm(f: Flags, owner: Bytes, p: Pdu, vector: Bytes, header: Bytes, data: Bytes)
    requires vector == (if f.vector then U32(p.protocol) else []) && header == (if f.header then owner else [])
    requires data == if f.data then p.data else []
    ensures Fields(f, owner, p) == vector + (header + data)
  {
  }

  lemma HoldsSlice(m: Bytes, at: nat, b: Bytes)
    requires Holds(m, at, b)
    ensures at + |b| <= |m| && Slice(m, at, |b|) == b
  {
  }

  /** A field is only left out when the PDU before has the same one. */
  lemma FlagsSound(c: Packing, prev: Option<Pdu>, p: Pdu)
    requires c.Allows(p) && (prev.Some? ==> c.Allows(prev.value))
    ensures var f := FlagsFor(c, prev, p);
            && (f.vector || (prev.Some? && p.protocol == prev.value.protocol))
            && (f.header || prev.Some?)
            && (f.data || (prev.Some? && p.data == prev.value.data))
  {
  }

  /** A PDU of representable length is read back as it was written. */
  lemma ShortReads(c: Packing, owner: Bytes, m: Bytes, length: nat, pos: nat, was: Item, prev: Option<Pdu>, p: Pdu)
    requires |owner| == 16 && length + SLACK <= |m|
    requires c.Allows(p) && (prev.Some? ==> c.Allows(prev.value)) && Agrees(m, owner, was, prev)
    requires var e := Encode(c, owner, prev, p); |e| < 0x1000 && pos + |e| <= length && Holds(m, pos, e)
    ensures var r := ParsePdu(m, length, pos, was);
            r.Good? && r.end == pos + |Encode(c, owner, prev, p)| && Agrees(m, owner, r.item, Some(p))
  {
    hide Head, U32, FlagsOf, LengthOf, FromU32, Fields, FlagsFor, Slice, Holds;
    FlagsSound(c, prev, p);
    var f := FlagsFor(c, prev, p);
    var fields := Fields(f, owner, p);
    HoldsParts(m, pos, Head(2 + |fields|, f), fields);
    HeadAt(m, pos, 2 + |fields|, f);
    FieldsAt(m, pos + 2, f, owner, p);
  }

  /** One that is too long is not passed on, or with data of another length. */
  lemma LongMisreads(c: Packing, owner: Bytes, m: Bytes, length: nat, pos: nat, was: Item, prev: Option<Pdu>, p: Pdu)
    requires |owner| == 16 && length + SLACK <= |m|
    requires var e := Encode(c, owner, prev, p); |e| >= 0x1000 && pos + |e| <= length && Holds(m, pos, e)
    ensures var r := ParsePdu(m, length, pos, was); r.Good? ==> Seen(m, r.item).data != p.data
  {
    hide Head, U32, FlagsOf, LengthOf, FromU32, Fields;
    var f := FlagsFor(c, prev, p);
    var n := 2 + |Fields(f, owner, p)|;
    HoldsParts(m, pos, Head(n, f), Fields(f, owner, p));
    HeadAt(m, pos, n, f);
    FieldsAt(m, pos + 2, f, owner, p);
  }

  lemma SplitFirst(owner: Bytes, m: Bytes, items: seq<Item>, ps: seq<Pdu>)
    requires items != [] && ps != []
    ensures SeenAll(m, items) == Sent(owner, ps) <==>
            Seen(m, items[0]) == Delivery(ps[0].protocol, owner, ps[0].data)
              && SeenAll(m, items[1..]) == Sent(owner, ps[1..])
  {
    var seen, sent := SeenAll(m, items), Sent(owner, ps);
    assert seen == [Seen(m, items[0])] + SeenAll(m, items[1..]);
    assert sent == [Delivery(ps[0].protocol, owner, ps[0].data)] + Sent(owner, ps[1..]);
    if seen == sent {
      assert seen[0] == sent[0] && seen[1..] == sent[1..];
    }
  }

  lemma Differ(owner: Bytes, m: Bytes, ps: seq<Pdu>)
    requires ps != []
    ensures SeenAll(m, []) != Sent(owner, ps)
  {
  }

  lemma Nothing(owner: Bytes, m: Bytes)
    ensures SeenAll(m, []) == Sent(owner, []) == []
  {
  }

  /** From any point of the block on: the deliveries are the PDUs sent exactly
      when none of them is too long for its length field. */
  lemma {:induction false} PdusRead(c: Packing, owner: Bytes, m: Bytes, length: nat, pos: nat, was: Item,
                                    prev: Option<Pdu>, ps: seq<Pdu>)
    requires |owner| == 16 && pos <= length && length + SLACK <= |m|
    requires (forall p :: p in ps ==> c.Allows(p))
    requires (prev.Some? ==> c.Allows(prev.value)) && Agrees(m, owner, was, prev)
    requires m[pos..length] == Pdus(c, owner, prev, ps)
    ensures SeenAll(m, Items(m, length, pos, was)) == Sent(owner, ps) <==> AllShort(c, owner, prev, ps)
    decreases |ps|
  {
    hide Encode, ParsePdu, SeenAll, Sent, Seen;
    if ps == [] {
      assert pos == length;
      Nothing(owner, m);
    } else {
      var e, rest := Encode(c, owner, prev, ps[0]), Pdus(c, owner, Some(ps[0]), ps[1..]);
      assert Holds(m, pos, e + rest);
      HoldsParts(m, pos, e, rest);
      var r := ParsePdu(m, length, pos, was);
      var items := Items(m, length, pos, was);
      if |e| < 0x1000 {
        ShortReads(c, owner, m, length, pos, was, prev, ps[0]);
        PdusRead(c, owner, m, length, r.end, r.item, Some(ps[0]), ps[1..]);
        SplitFirst(owner, m, items, ps);
      } else {
        LongMisreads(c, owner, m, length, pos, was, prev, ps[0]);
        if r.Good? {
          SplitFirst(owner, m, items, ps);
        } else {
          Differ(owner, m, ps);
        }
      }
    }
  }

  /** The octets of a PDU, from what the caller of the packer knows. */
  function SizeOf(c: Packing, prev: Option<Pdu>, p: Pdu): nat {
    if prev.None? then 22 + |p.data|
    else if !c.optimize then (if c.single then 2 else 6) + |p.data|
    else
      2 + (if c.single || p.protocol == prev.value.protocol then 0 else 4)
      + (if p.data == prev.value.data then 0 else |p.data|)
  }

  /** No PDU is too long for its length field. */
  ghost predicate AllFit(c: Packing, prev: Option<Pdu>, ps: seq<Pdu>) {
    forall i :: 0 <= i < |ps| ==> SizeAt(c, prev, ps, i) < 0x1000
  }

  function SizeAt(c: Packing, prev: Option<Pdu>, ps: seq<Pdu>, i: nat): nat
    requires i < |ps|
  {
    SizeOf(c, if i == 0 then prev else Some(ps[i - 1]), ps[i])
  }

  lemma {:induction false} FitsIsShort(c: Packing, owner: Bytes, prev: Option<Pdu>, ps: seq<Pdu>)
    requires |owner| == 16
    ensures AllFit(c, prev, ps) <==> AllShort(c, owner, prev, ps)
    decreases |ps|
  {
    if ps == [] {
    } else {
      FitsIsShort(c, owner, Some(ps[0]), ps[1..]);
      FitsSplit(c, prev, ps);
    }
  }

  lemma FitsSplit(c: Packing, prev: Option<Pdu>, ps: seq<Pdu>)
    requires ps != []
    ensures AllFit(c, prev, ps) <==> SizeOf(c, prev, ps[0]) < 0x1000 && AllFit(c, Some(ps[0]), ps[1..])
  {
    hide SizeOf;
    var rest := ps[1..];
    assert SizeAt(c, prev, ps, 0) == SizeOf(c, prev, ps[0]);
    assert forall i :: 0 <= i < |rest| ==> SizeAt(c, Some(ps[0]), rest, i) == SizeAt(c, prev, ps, i + 1);
    forall i | 1 <= i < |ps| ensures SizeAt(c, prev, ps, i) == SizeAt(c, Some(ps[0]), rest, i - 1) {
      assert rest[i - 1] == ps[i];
    }
  }

  /** The round trip, for every packing and list of PDUs: what the listeners see
      is what was packed, exactly when no PDU is too long. */
  lemma RoundTrip(c: Packing, owner: Bytes, ps: seq<Pdu>, m: Bytes, length: nat)
    requires |owner| == 16 && forall p :: p in ps ==> c.Allows(p)
    requires length + SLACK <= |m| && m[..length] == Block(c, owner, ps)
    ensures SeenAll(m, Parse(m, length)) == Sent(owner, ps) <==> AllFit(c, None, ps)
  {
    FitsIsShort(c, owner, None, ps);
    BlockReads(c, owner, ps, m, length);
  }

  lemma BlockReads(c: Packing, owner: Bytes, ps: seq<Pdu>, m: Bytes, length: nat)
    requires |owner| == 16 && forall p :: p in ps ==> c.Allows(p)
    requires length + SLACK <= |m| && m[..length] == Block(c, owner, ps)
    ensures SeenAll(m, Parse(m, length)) == Sent(owner, ps) <==> AllShort(c, owner, None, ps)
  {
    var pdus := Pdus(c, owner, None, ps);
    assert Holds(m, 0, PREAMBLE + pdus);
    HoldsParts(m, 0, PREAMBLE, pdus);
    PdusRead(c, owner, m, length, 16, NOTHING, None, ps);
    if ps != [] {
      FirstHead(c, owner, ps, m, length);
    }
  }

  lemma FirstHead(c: Packing, owner: Bytes, ps: seq<Pdu>, m: Bytes, length: nat)
    requires |owner| == 16 && ps != [] && length + SLACK <= |m|
    requires Holds(m, 16, Pdus(c, owner, None, ps)) && length == 16 + |Pdus(c, owner, None, ps)|
    ensures length >= FIRST
    ensures |Encode(c, owner, None, ps[0])| < 0x1000 ==> FlagsOf(m[16]) == Flags(false, true, true, true)
  {
    hide FlagsOf, Head;
    var f := FlagsFor(c, None, ps[0]);
    var fields := Fields(f, owner, ps[0]);
    HoldsParts(m, 16, Encode(c, owner, None, ps[0]), Pdus(c, owner, Some(ps[0]), ps[1..]));
    HoldsParts(m, 16, Head(2 + |fields|, f), fields);
    HeadAt(m, 16, 2 + |fields|, f);
  }

  /** What stands in a block, octet by octet: the preamble with "ASC-E1.17" from
      octet 4, three flags and the length in 16 and 17, the protocol from 18, the
      sender's CID from 22, the data from 38. */
  lemma FirstOctets(c: Packing, owner: Bytes, ps: seq<Pdu>)
    requires |owner| == 16 && ps != [] && |ps[0].data| < 0x1000 - 22
    ensures var b, n, k := Block(c, owner, ps), 22 + |ps[0].data|, |ps[0].data|;
            && 38 + k <= |b|
            && b[..16] == [0, 0x10, 0, 0] + [0x41, 0x53, 0x43, 0x2d, 0x45, 0x31, 0x2e, 0x31, 0x37] + [0, 0, 0]
            && b[16] == 0x70 + n / 0x100 && b[17] == n % 0x100
            && FromU32(b, 18) == ps[0].protocol && b[22..38] == owner && b[38..38 + k] == ps[0].data
  {
    hide Head, U32, FromU32, Block, Pdus;
    var p := ps[0];
    FirstHeadOctets(22 + |p.data|);
    BlockForm(c, owner, ps);
    Located(Block(c, owner, ps), PREAMBLE, Head(22 + |p.data|, Flags(false, true, true, true)), U32(p.protocol), owner,
      p.data, Pdus(c, owner, Some(p), ps[1..]));
    U32At(Block(c, owner, ps), 18, p.protocol);
  }

  lemma BlockForm(c: Packing, owner: Bytes, ps: seq<Pdu>)
    requires ps != [] && |owner| == 16
    ensures var p, rest := ps[0], Pdus(c, owner, Some(ps[0]), ps[1..]);
            var head := Head(22 + |p.data|, Flags(false, true, true, true));
            Block(c, owner, ps) == PREAMBLE + (head + (U32(p.protocol) + (owner + (p.data + rest))))
  {
    hide Head, U32;
    var p, rest := ps[0], Pdus(c, owner, Some(ps[0]), ps[1..]);
    var head, v := Head(22 + |p.data|, Flags(false, true, true, true)), U32(p.protocol);
    assert Encode(c, owner, None, p) == head + (v + owner + p.data);
    assert head + (v + owner + p.data) + rest == head + (v + (owner + (p.data + rest)));
  }

  lemma Located(b: Bytes, a: Bytes, head: Bytes, v: Bytes, owner: Bytes, data: Bytes, rest: Bytes)
    requires b == a + (head + (v + (owner + (data + rest)))) && |a| == 16 && |head| == 2 && |v| == 4 && |owner| == 16
    ensures Holds(b, 0, a) && Holds(b, 16, head) && Holds(b, 18, v) && Holds(b, 22, owner) && Holds(b, 38, data)
    ensures b[16] == head[0] && b[17] == head[1]
  {
    hide Holds;
    AllHeld(b);
    HoldsParts(b, 0, a, head + (v + (owner + (data + rest))));
    HoldsParts(b, 16, head, v + (owner + (data + rest)));
    HoldsParts(b, 18, v, owner + (data + rest));
    HoldsParts(b, 22, owner, data + rest);
    HoldsParts(b, 38, data, rest);
  }

  lemma AllHeld(b: Bytes)
    ensures Holds(b, 0, b)
  {
  }

  lemma FirstHeadOctets(n: nat)
    requires n < 0x1000
    ensures Head(n, Flags(false, true, true, true)) == [0x70 + n / 0x100, n % 0x100]
  {
  }

  /** A bound on the data that suffices in every packing. */
  lemma ShortData(c: Packing, prev: Option<Pdu>, ps: seq<Pdu>)
    requires forall i :: 0 <= i < |ps| ==> |ps[i].data| < 0x1000 - 22
    ensures AllFit(c, prev, ps)
  {
  }

  /** What fits without optimization fits with it. */
  lemma OptimizedFits(c: Packing, prev: Option<Pdu>, ps: seq<Pdu>)
    requires AllFit(c.(optimize := false), prev, ps)
    ensures AllFit(c.(optimize := true), prev, ps)
  {
    var plain, small := c.(optimize := false), c.(optimize := true);
    forall i | 0 <= i < |ps| ensures SizeAt(small, prev, ps, i) < 0x1000 {
      assert SizeAt(plain, prev, ps, i) < 0x1000;
    }
  }

  /** Whenever the plain block is read as packed, the optimized one is read alike;
      and it is never longer. */
  lemma OptimizedReadsAlike(c: Packing, owner: Bytes, ps: seq<Pdu>, plain: Bytes, small: Bytes, n: nat, k: nat)
    requires |owner| == 16 && forall p :: p in ps ==> c.Allows(p)
    requires n + SLACK <= |plain| && plain[..n] == Block(c.(optimize := false), owner, ps)
    requires k + SLACK <= |small| && small[..k] == Block(c.(optimize := true), owner, ps)
    ensures SeenAll(plain, Parse(plain, n)) == Sent(owner, ps) ==> SeenAll(small, Parse(small, k)) == Sent(owner, ps)
    ensures k <= n
  {
    hide AllFit, SeenAll, Parse;
    RoundTrip(c.(optimize := false), owner, ps, plain, n);
    RoundTrip(c.(optimize := true), owner, ps, small, k);
    if AllFit(c.(optimize := false), None, ps) {
      OptimizedFits(c, None, ps);
    }
    OptimizedNoLonger(c, owner, None, ps);
  }
}
