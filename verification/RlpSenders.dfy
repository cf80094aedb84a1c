/** Blocks of any sender: every choice of flags in every PDU, and every string of
    bytes, read by the parser of the root layer (acnsrc/rlp/rlp.c). */
module RlpSenders {
  import opened Word
  import opened Marshal
  import opened RlpWire
  import opened RlpRoundTrip

  /** A PDU as some sender writes it. What follows the fields named by its flags is
      its body, which counts as data only with the data flag. */
  datatype AnyPdu = AnyPdu(flags: Flags, protocol: uint32, cid: Bytes, body: Bytes) {
    function Size(): nat {
      2 + VectorSize(flags) + HeaderSize(flags) + |body|
    }

    predicate Ok() {
      |cid| == 16 && Size() < 0x1000
    }
  }

  const FULL := Flags(false, true, true, true)

  function Vector(p: AnyPdu): Bytes {
    if p.flags.vector then U32(p.protocol) else []
  }

  function Header(p: AnyPdu): Bytes {
    if p.flags.header then p.cid else []
  }

  function Wire(p: AnyPdu): Bytes {
    Head(p.Size(), p.flags) + (Vector(p) + (Header(p) + p.body))
  }

  function WireAll(ps: seq<AnyPdu>): Bytes {
    if ps == [] then [] else Wire(ps[0]) + WireAll(ps[1..])
  }

  ghost predicate AllOk(ps: seq<AnyPdu>) {
    forall p :: p in ps ==> p.Ok()
  }

  // ----- What a receiver should be given -----

  /** The last PDU up to the `i`-th that has a field. */
  function Latest(ps: seq<AnyPdu>, i: nat, has: Flags -> bool): (j: nat)
    requires i < |ps| && has(ps[0].flags)
    ensures j <= i && has(ps[j].flags) && forall k :: j < k <= i ==> !has(ps[k].flags)
  {
    if has(ps[i].flags) then i else Latest(ps, i - 1, has)
  }

  function HasVector(f: Flags): bool {
    f.vector
  }

  function HasHeader(f: Flags): bool {
    f.header
  }

  function HasData(f: Flags): bool {
    f.data
  }

  /** With the `i`-th PDU: protocol, sender and data of the last PDU that had them. */
  function Carried(ps: seq<AnyPdu>, i: nat): Delivery
    requires i < |ps| && ps[0].flags == FULL
  {
    Delivery(ps[Latest(ps, i, HasVector)].protocol, ps[Latest(ps, i, HasHeader)].cid, ps[Latest(ps, i, HasData)].body)
  }

  function CarriedAll(ps: seq<AnyPdu>): (ds: seq<Delivery>)
    requires ps != [] ==> ps[0].flags == FULL
    ensures |ds| == |ps|
  {
    seq(|ps|, i requires 0 <= i < |ps| => Carried(ps, i))
  }

  /** One PDU after a delivery. */
  function Next(d: Delivery, p: AnyPdu): Delivery {
    Delivery(if p.flags.vector then p.protocol else d.protocol,
             if p.flags.header then p.cid else d.cid,
             if p.flags.data then p.body else d.data)
  }

  function Follow(d: Delivery, ps: seq<AnyPdu>): (ds: seq<Delivery>)
    ensures |ds| == |ps|
    decreases |ps|
  {
    if ps == [] then [] else [Next(d, ps[0])] + Follow(Next(d, ps[0]), ps[1..])
  }

  lemma {:induction false} FollowStep(d: Delivery, ps: seq<AnyPdu>, i: nat)
    requires i < |ps|
    ensures Follow(d, ps)[i] == Next(if i == 0 then d else Follow(d, ps)[i - 1], ps[i])
    decreases i
  {
    if i == 0 {
    } else {
      FollowStep(Next(d, ps[0]), ps[1..], i - 1);
    }
  }

  lemma {:induction false} FollowIsCarried(d: Delivery, ps: seq<AnyPdu>, i: nat)
    requires i < |ps| && ps[0].flags == FULL
    ensures Follow(d, ps)[i] == Carried(ps, i)
  {
    FollowStep(d, ps, i);
    if i == 0 {
    } else {
      FollowIsCarried(d, ps, i - 1);
    }
  }

  // ----- Reading -----

  lemma WireSize(p: AnyPdu)
    requires |p.cid| == 16
    ensures |Wire(p)| == p.Size() && |Vector(p)| == VectorSize(p.flags) && |Header(p)| == HeaderSize(p.flags)
  {
    hide Head, U32;
  }

  /** One PDU is read as written, with the fields it lacks from the item before. */
  lemma OneReads(m: Bytes, length: nat, pos: nat, was: Item, p: AnyPdu)
    requires p.Ok() && Holds(m, pos, Wire(p)) && pos + p.Size() <= length && length + SLACK <= |m|
    ensures var r := ParsePdu(m, length, pos, was);
            r.Good? && r.end == pos + p.Size() && Seen(m, r.item) == Next(Seen(m, was), p)
  {
    hide Head, U32, FlagsOf, LengthOf, FromU32, Holds, Slice;
    WireSize(p);
    var head := Head(p.Size(), p.flags);
    HoldsParts(m, pos, head, Vector(p) + (Header(p) + p.body));
    HoldsParts(m, pos + 2, Vector(p), Header(p) + p.body);
    HoldsParts(m, pos + 2 + |Vector(p)|, Header(p), p.body);
    HeadAt(m, pos, p.Size(), p.flags);
    if p.flags.vector {
      U32At(m, pos + 2, p.protocol);
    }
    HoldsSlice(m, pos + 2 + |Vector(p)|, Header(p));
    HoldsSlice(m, pos + 2 + |Vector(p)| + |Header(p)|, p.body);
  }

  lemma SeenCons(m: Bytes, i: Item, items: seq<Item>)
    ensures SeenAll(m, [i] + items) == [Seen(m, i)] + SeenAll(m, items)
  {
  }

  /** A series of PDUs is read one after the other, and then what is behind it. */
  lemma {:induction false} AllRead(m: Bytes, length: nat, pos: nat, was: Item, ps: seq<AnyPdu>)
    returns (items: seq<Item>, last: Item)
    requires AllOk(ps) && Holds(m, pos, WireAll(ps)) && pos + |WireAll(ps)| <= length && length + SLACK <= |m|
    ensures Items(m, length, pos, was) == items + Items(m, length, pos + |WireAll(ps)|, last)
    ensures SeenAll(m, items) == Follow(Seen(m, was), ps)
    decreases |ps|
  {
    hide ParsePdu, Wire, Seen, SeenAll, Next;
    if ps == [] {
      items, last := [], was;
      NoneSeen(m);
    } else {
      assert ps[0] in ps;
      WireSize(ps[0]);
      HoldsParts(m, pos, Wire(ps[0]), WireAll(ps[1..]));
      OneReads(m, length, pos, was, ps[0]);
      var r := ParsePdu(m, length, pos, was);
      items, last := AllRead(m, length, r.end, r.item, ps[1..]);
      SeenCons(m, r.item, items);
      items := [r.item] + items;
    }
  }

  lemma NoneSeen(m: Bytes)
    ensures SeenAll(m, []) == []
  {
  }

  /** Whatever flags a sender chooses after a full first PDU, every PDU is handed on
      with the protocol, the CID and the data of the last PDU that had them. */
  lemma AnyFlagsRead(ps: seq<AnyPdu>, m: Bytes, length: nat)
    requires ps != [] && ps[0].flags == FULL && AllOk(ps)
    requires length + SLACK <= |m| && m[..length] == PREAMBLE + WireAll(ps)
    ensures SeenAll(m, Parse(m, length)) == CarriedAll(ps)
  {
    hide Wire, Seen, SeenAll, ParsePdu, Next, Follow;
    assert Holds(m, 0, PREAMBLE + WireAll(ps));
    HoldsParts(m, 0, PREAMBLE, WireAll(ps));
    StartsFull(ps, m, length);
    var items, last := AllRead(m, length, 16, NOTHING, ps);
    assert items + [] == items;
    forall i | 0 <= i < |ps| ensures Follow(Seen(m, NOTHING), ps)[i] == CarriedAll(ps)[i] {
      FollowIsCarried(Seen(m, NOTHING), ps, i);
    }
  }

  lemma StartsFull(ps: seq<AnyPdu>, m: Bytes, length: nat)
    requires ps != [] && ps[0].flags == FULL && AllOk(ps)
    requires length + SLACK <= |m| && m[..length] == PREAMBLE + WireAll(ps) && Holds(m, 16, WireAll(ps))
    ensures Acceptable(m, length)
  {
    hide Head, FlagsOf;
    assert ps[0] in ps;
    WireSize(ps[0]);
    HoldsParts(m, 16, Wire(ps[0]), WireAll(ps[1..]));
    var head := Head(ps[0].Size(), FULL);
    HoldsParts(m, 16, head, Vector(ps[0]) + (Header(ps[0]) + ps[0].body));
    HeadAt(m, 16, ps[0].Size(), FULL);
    assert m[..16] == m[..length][..16];
  }

  // ----- Any bytes -----

  lemma FourBits(q: int)
    requires 0 <= q < 16
    ensures q == 8 * Bit(Odd(q / 8)) + 4 * Bit(Odd(q / 4)) + 2 * Bit(Odd(q / 2)) + Bit(Odd(q))
  {
  }

  lemma TopHalf(b: uint8)
    ensures b == 16 * (b / 16) + b % 16 && b / 128 == b / 16 / 8 && b / 64 == b / 16 / 4 && b / 32 == b / 16 / 2
  {
  }

  lemma ShortHead(len: nat, f: Flags)
    requires len < 0x1000
    ensures Head(len, f) ==
            [16 * (8 * Bit(f.length) + 4 * Bit(f.vector) + 2 * Bit(f.header) + Bit(f.data)) + len / 0x100, len % 0x100]
  {
    assert len / 0x8000 == 0 && len / 0x4000 == 0 && len / 0x2000 == 0 && len / 0x1000 == 0;
    assert (len / 0x100) % 16 == len / 0x100;
  }

  lemma HeadBack(b: uint8, c: uint8)
    ensures Head(0x100 * (b % 16 as int) + c, FlagsOf(b)) == [b, c]
  {
    hide Head, Odd, Bit;
    var len := 0x100 * (b % 16 as int) + c;
    TopHalf(b);
    FourBits(b / 16);
    ShortHead(len, FlagsOf(b));
    assert len / 0x100 == b % 16 && len % 0x100 == c;
  }

  lemma U32Back(m: Bytes, at: nat)
    requires at + 4 <= |m|
    ensures U32(FromU32(m, at)) == m[at..at + 4]
  {
    var a, b, c, d := m[at], m[at + 1], m[at + 2], m[at + 3];
    var x := FromU32(m, at);
    assert x / 0x100 == 0x1_0000 * (a as int) + 0x100 * (b as int) + c && x % 0x100 == d;
    assert x / 0x1_0000 == 0x100 * (a as int) + b;
    assert x / 0x100_0000 == a;
  }

  /** The PDU that stands at `pos..end`. */
  function PduAt(m: Bytes, pos: nat, end: nat): AnyPdu
    requires pos < |m| && pos + 2 + VectorSize(FlagsOf(m[pos])) + HeaderSize(FlagsOf(m[pos])) <= end <= |m|
  {
    var f := FlagsOf(m[pos]);
    var v := pos + 2 + VectorSize(f);
    var d := v + HeaderSize(f);
    AnyPdu(f, if f.vector then FromU32(m, pos + 2) else 0,
           if f.header then m[v..v + 16] else seq(16, _ => 0), m[d..end])
  }

  lemma SlicesJoin(m: Bytes, a: nat, b: nat, c: nat)
    requires a <= b <= c <= |m|
    ensures m[a..b] + m[b..c] == m[a..c]
  {
  }

  lemma GoodInside(m: Bytes, length: nat, pos: nat, was: Item)
    requires pos < length && length + SLACK <= |m| && ParsePdu(m, length, pos, was).Good?
    ensures var end := ParsePdu(m, length, pos, was).end;
            && pos + 2 + VectorSize(FlagsOf(m[pos])) + HeaderSize(FlagsOf(m[pos])) <= end <= length
            && end - pos == 0x100 * (m[pos] % 16 as int) + m[pos + 1]
  {
  }

  /** The wire form of the PDU that stands there is what stands there. */
  lemma WireAt(m: Bytes, pos: nat, end: nat)
    requires pos + 1 < |m| && end - pos == 0x100 * (m[pos] % 16 as int) + m[pos + 1]
    requires pos + 2 + VectorSize(FlagsOf(m[pos])) + HeaderSize(FlagsOf(m[pos])) <= end <= |m|
    ensures var p := PduAt(m, pos, end);
            p.Ok() && p.flags == FlagsOf(m[pos]) && p.Size() == end - pos && Holds(m, pos, Wire(p))
  {
    hide Head, U32, FlagsOf, FromU32;
    var f, p := FlagsOf(m[pos]), PduAt(m, pos, end);
    var v := pos + 2 + VectorSize(f);
    var d := v + HeaderSize(f);
    HeadBack(m[pos], m[pos + 1]);
    if f.vector {
      U32Back(m, pos + 2);
    }
    assert m[pos..pos + 2] == [m[pos], m[pos + 1]];
    assert p.Size() == end - pos;
    assert Head(p.Size(), f) == m[pos..pos + 2] && Vector(p) == m[pos + 2..v] && Header(p) == m[v..d];
    SlicesJoin(m, v, d, end);
    SlicesJoin(m, pos + 2, v, end);
    SlicesJoin(m, pos, pos + 2, end);
  }

  /** What the parser accepts is the wire form of a PDU. */
  lemma GoodIsWire(m: Bytes, length: nat, pos: nat, was: Item)
    requires pos < length && length + SLACK <= |m| && ParsePdu(m, length, pos, was).Good?
    ensures var end := ParsePdu(m, length, pos, was).end;
            && pos + 2 + VectorSize(FlagsOf(m[pos])) + HeaderSize(FlagsOf(m[pos])) <= end
            && var p := PduAt(m, pos, end);
               p.Ok() && p.flags == FlagsOf(m[pos]) && p.Size() == end - pos && Holds(m, pos, Wire(p))
  {
    hide ParsePdu, PduAt, Wire, FlagsOf, Holds;
    GoodInside(m, length, pos, was);
    WireAt(m, pos, ParsePdu(m, length, pos, was).end);
  }

  /** No PDU stands at `pos`. */
  ghost predicate NothingAt(m: Bytes, length: nat, pos: nat) {
    forall p: AnyPdu :: p.Ok() && Holds(m, pos, Wire(p)) ==> pos + p.Size() > length
  }

  lemma BadIsNothing(m: Bytes, length: nat, pos: nat, was: Item)
    requires pos < length && length + SLACK <= |m| && ParsePdu(m, length, pos, was).Bad?
    ensures NothingAt(m, length, pos)
  {
    hide ParsePdu, Wire;
    forall p: AnyPdu | p.Ok() && Holds(m, pos, Wire(p)) ensures pos + p.Size() > length {
      if pos + p.Size() <= length {
        OneReads(m, length, pos, was, p);
      }
    }
  }

  lemma WireCons(p: AnyPdu, ps: seq<AnyPdu>)
    ensures WireAll([p] + ps) == Wire(p) + WireAll(ps)
    ensures forall d :: Follow(d, [p] + ps) == [Next(d, p)] + Follow(Next(d, p), ps)
  {
    assert ([p] + ps)[1..] == ps;
  }

  /** From any point of any packet on: the PDUs that stand there up to the end, or up
      to a point where no PDU stands, are read and nothing else. */
  lemma {:induction false} BytesRead(m: Bytes, length: nat, pos: nat, was: Item) returns (ps: seq<AnyPdu>)
    requires pos <= length && length + SLACK <= |m|
    ensures AllOk(ps) && Holds(m, pos, WireAll(ps)) && pos + |WireAll(ps)| <= length
    ensures pos + |WireAll(ps)| == length || NothingAt(m, length, pos + |WireAll(ps)|)
    ensures SeenAll(m, Items(m, length, pos, was)) == Follow(Seen(m, was), ps)
    ensures pos < length && ps != [] ==> ps[0].flags == FlagsOf(m[pos])
    decreases length - pos
  {
    hide ParsePdu, PduAt, Wire, Seen, SeenAll, Next, FlagsOf, NothingAt, FromU32;
    NoneSeen(m);
    if pos == length {
      ps := [];
    } else if ParsePdu(m, length, pos, was).Bad? {
      BadIsNothing(m, length, pos, was);
      ps := [];
    } else {
      var r := ParsePdu(m, length, pos, was);
      GoodIsWire(m, length, pos, was);
      var p := PduAt(m, pos, r.end);
      WireSize(p);
      OneReads(m, length, pos, was, p);
      var rest := BytesRead(m, length, r.end, r.item);
      SeenCons(m, r.item, Items(m, length, r.end, r.item));
      ps := [p] + rest;
      SlicesJoin(m, pos, r.end, r.end + |WireAll(rest)|);
      WireCons(p, rest);
    }
  }

  /** What the parser makes of any packet at all. One that does not start with the
      preamble and a full first PDU is dropped. Of any other, exactly the PDUs are
      handed on that stand at its start, up to its end or to the first place where
      no PDU stands, each with what it carries. */
  lemma AnyBytesRead(m: Bytes, length: nat) returns (ps: seq<AnyPdu>)
    requires length + SLACK <= |m|
    ensures length < FIRST || m[..16] != PREAMBLE || FlagsOf(m[16]) != FULL ==> Parse(m, length) == [] && ps == []
    ensures length >= FIRST && m[..16] == PREAMBLE && FlagsOf(m[16]) == FULL ==>
              && AllOk(ps) && (ps != [] ==> ps[0].flags == FULL)
              && Holds(m, 16, WireAll(ps)) && 16 + |WireAll(ps)| <= length
              && (16 + |WireAll(ps)| == length || NothingAt(m, length, 16 + |WireAll(ps)|))
              && SeenAll(m, Parse(m, length)) == CarriedAll(ps)
  {
    hide Wire, Seen, SeenAll, Items, Next, Follow, FlagsOf, NothingAt, Holds;
    ps := [];
    if Acceptable(m, length) {
      ps := BytesRead(m, length, 16, NOTHING);
      forall i | 0 <= i < |ps| ensures Follow(Seen(m, NOTHING), ps)[i] == CarriedAll(ps)[i] {
        FollowIsCarried(Seen(m, NOTHING), ps, i);
      }
    }
  }
}
