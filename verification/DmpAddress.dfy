/** DMP property addresses: how a message encodes them, absolute or relative to
    the last address of their space (acnsrc/dmp/dmp.c, acnsrc/include/dmp.h). */
module DmpAddress {
  import opened Word
  import opened Marshal

  /** The `address_size` field: the octets of each number of an address. */
  datatype Width = One | Two | Four | Reserved {
    function Octets(): nat {
      match this case One => 1 case Two => 2 case Four => 4 case Reserved => 0
    }

    function Bits(): uint8 {
      match this case One => 0 case Two => 1 case Four => 2 case Reserved => 3
    }

    /** Numbers below this survive being written and read. */
    function Limit(): nat {
      match this case One => TWO8 case Two => TWO16 case Four => TWO32 case Reserved => 0
    }
  }

  /** The `address_type` field. */
  datatype Kind = Single | RangeSingle | RangeEqual | RangeMixed {
    function Bits(): uint8 {
      match this case Single => 0x00 case RangeSingle => 0x10 case RangeEqual => 0x20 case RangeMixed => 0x30
    }
  }

  /** `dmp_address_t` */
  datatype Address = Address(
    kind: Kind, width: Width, start: uint32, inc: uint32, num: uint32, isSingleValue: bool, isVirtual: bool)

  // ----- The address/data octet -----

  function Octet(kind: Kind, width: Width, isVirtual: bool, relative: bool): uint8 {
    width.Bits() + kind.Bits() + (if isVirtual then 0x80 else 0) + if relative then 0x40 else 0
  }

  function WidthOf(b: uint8): Width {
    match b % 4 case 0 => One case 1 => Two case 2 => Four case _ => Reserved
  }

  function KindOf(b: uint8): Kind {
    match (b / 16) % 4 case 0 => Single case 1 => RangeSingle case 2 => RangeEqual case _ => RangeMixed
  }

  predicate VirtualBit(b: uint8) {
    b / 0x80 == 1
  }

  predicate RelativeBit(b: uint8) {
    (b / 0x40) % 2 == 1
  }

  lemma OctetReads(kind: Kind, width: Width, isVirtual: bool, relative: bool)
    ensures var b := Octet(kind, width, isVirtual, relative);
            WidthOf(b) == width && KindOf(b) == kind && VirtualBit(b) == isVirtual && RelativeBit(b) == relative
  {
    hide WidthOf, KindOf;
    OctetParts(width.Bits(), kind.Bits() / 16, if relative then 1 else 0, if isVirtual then 1 else 0);
    WidthReads(Octet(kind, width, isVirtual, relative), width);
    KindReads(Octet(kind, width, isVirtual, relative), kind);
  }

  lemma WidthReads(b: uint8, width: Width)
    requires b % 4 == width.Bits()
    ensures WidthOf(b) == width
  {
  }

  lemma KindReads(b: uint8, kind: Kind)
    requires (b / 16) % 4 == kind.Bits() / 16
    ensures KindOf(b) == kind
  {
  }

  /** The octet by its numbers: 0x80 says virtual and 0x40 relative, 0x30 holds the
      type, 0x03 the width. */
  lemma OctetTable(b: uint8)
    ensures VirtualBit(b) <==> b >= 0x80
    ensures RelativeBit(b) <==> b % 0x80 >= 0x40
    ensures KindOf(b) == if b % 0x40 < 0x10 then Single else if b % 0x40 < 0x20 then RangeSingle
                         else if b % 0x40 < 0x30 then RangeEqual else RangeMixed
    ensures WidthOf(b).Octets() == if b % 4 == 3 then 0 else if b % 4 == 2 then 4 else b % 4 + 1
  {
    var q := b / 0x40;
    assert b == 0x40 * q + b % 0x40;
    assert (b / 16) % 4 == (b % 0x40) / 16;
  }

  lemma OctetParts(width: int, kind: int, relative: int, isVirtual: int)
    requires 0 <= width < 4 && 0 <= kind < 4 && 0 <= relative < 2 && 0 <= isVirtual < 2
    ensures var b := width + 16 * kind + 64 * relative + 128 * isVirtual;
            b % 4 == width && (b / 16) % 4 == kind && (b / 0x40) % 2 == relative && b / 0x80 == isVirtual
  {
    var b := width + 16 * kind + 64 * relative + 128 * isVirtual;
    assert b / 16 == kind + 4 * relative + 8 * isVirtual;
    assert b / 0x40 == relative + 2 * isVirtual;
  }

  // ----- Numbers of a width -----

  function Put(w: Width, x: uint32): (b: Bytes)
    ensures |b| == w.Octets()
  {
    match w case One => [x % TWO8] case Two => U16(x % TWO16) case Four => U32(x) case Reserved => []
  }

  /** A number of the given width, or what was there before when the width is not
      valid. */
  function Get(w: Width, m: Bytes, at: nat, was: uint32): uint32
    requires at + w.Octets() <= |m|
  {
    match w case One => m[at] case Two => FromU16(m, at) case Four => FromU32(m, at) case Reserved => was
  }

  lemma PutReads(w: Width, x: uint32, m: Bytes, at: nat, was: uint32)
    requires at + w.Octets() <= |m| && m[at..at + w.Octets()] == Put(w, x)
    ensures Get(w, m, at, was) == if w.Reserved? then was else x % w.Limit()
  {
    var s := m[at..at + w.Octets()];
    match w
    case One => assert s[0] == m[at];
    case Two => assert s[0] == m[at] && s[1] == m[at + 1];
    case Four =>
      assert s[0] == m[at] && s[1] == m[at + 1] && s[2] == m[at + 2] && s[3] == m[at + 3];
      U32Reads(x);
      hide U32;
    case Reserved =>
  }

  // ----- Decoding -----

  /** The two remembered addresses. */
  datatype Last = Last(actual: uint32, virtual: uint32) {
    function Of(isVirtual: bool): uint32 {
      if isVirtual then virtual else actual
    }

    function With(isVirtual: bool, x: uint32): Last {
      if isVirtual then Last(actual, x) else Last(x, virtual)
    }
  }

  function Used(octet: uint8): nat {
    WidthOf(octet).Octets() * if KindOf(octet).Single? then 1 else 3
  }

  /** What is remembered after a range. */
  function EndOf(start: uint32, inc: uint32, num: uint32): uint32 {
    Wrap(start + (num - 1) * inc)
  }

  /** The address at `at` and what is remembered after it. */
  function Decode(last: Last, octet: uint8, m: Bytes, at: nat, was: Address): (Address, Last)
    requires at + Used(octet) <= |m|
  {
    var w, kind, isVirtual := WidthOf(octet), KindOf(octet), VirtualBit(octet);
    var n := w.Octets();
    var raw := Get(w, m, at, was.start);
    var inc := if kind.Single? then 0 else Get(w, m, at + n, was.inc);
    var num := if kind.Single? then 1 else Get(w, m, at + 2 * n, was.num);
    var start := if RelativeBit(octet) then Wrap(raw + last.Of(isVirtual)) else raw;
    (Address(kind, if w.Reserved? then was.width else w, start, inc, num, kind.Single? || kind.RangeSingle?, isVirtual),
     last.With(isVirtual, EndOf(start, inc, num)))
  }

  /** Owner of the two globals `lastActualAddress` and `lastVirtualAddress`. */
  class Decoder {
    var lastActual: uint32
    var lastVirtual: uint32

    constructor ()
      ensures Remembered() == Last(0, 0)
    {
      lastActual, lastVirtual := 0, 0;
    }

    function Remembered(): Last
      reads this
    {
      Last(lastActual, lastVirtual)
    }

    /** `dmp_decode_address_header` */
    method DecodeAddressHeader(octet: uint8, data: array<uint8>, at: nat, was: Address)
      returns (a: Address, parsed: nat)
      requires at + Used(octet) <= data.Length
      modifies this
      ensures (a, Remembered()) == Decode(old(Remembered()), octet, data[..], at, was)
      ensures parsed == Used(octet)
    {
      hide Wrap, FromU32, FromU16;
      a := was;
      var pos, size := at, WidthOf(octet).Octets();
      if !WidthOf(octet).Reserved? {
        a := a.(width := WidthOf(octet));
      }
      a := a.(start := Get(WidthOf(octet), data[..], pos, a.start));
      pos := pos + size;
      a := a.(kind := KindOf(octet));
      if !a.kind.Single? {
        a := a.(inc := Get(WidthOf(octet), data[..], pos, a.inc));
        pos := pos + size;
        a := a.(num := Get(WidthOf(octet), data[..], pos, a.num));
        pos := pos + size;
      } else {
        a := a.(num := 1, inc := 0);
      }
      a := a.(isSingleValue := KindOf(octet).Bits() < 0x20, isVirtual := VirtualBit(octet));
      if RelativeBit(octet) {
        a := a.(start := Wrap(a.start + if a.isVirtual then lastVirtual else lastActual));
      }
      if a.isVirtual {
        lastVirtual := EndOf(a.start, a.inc, a.num);
      } else {
        lastActual := EndOf(a.start, a.inc, a.num);
      }
      parsed := pos - at;
    }
  }

  // ----- Encoding -----

  /** The encoder narrows the start to one octet, whatever the width. */
  function Encoded(a: Address): Bytes {
    Put(a.width, a.start % TWO8) + if a.kind.Single? then [] else Put(a.width, a.inc) + Put(a.width, a.num)
  }

  /** `dmp_encode_address_header` */
  method EncodeAddressHeader(a: Address, buf: array<uint8>, encodeByte: nat, datap: nat) returns (next: nat)
    requires encodeByte < buf.Length && datap + |Encoded(a)| <= buf.Length
    modifies buf
    ensures buf[..] == Write(Write(old(buf[..]), encodeByte, [Octet(a.kind, a.width, a.isVirtual, false)]), datap,
            Encoded(a))
    ensures next == datap + |Encoded(a)|
  {
    hide Write;
    Marshal.Put(buf, encodeByte, [Octet(a.kind, a.width, a.isVirtual, false)]);
    ghost var m := buf[..];
    next := datap;
    Marshal.Put(buf, next, Put(a.width, a.start % TWO8));
    next := next + a.width.Octets();
    if !a.kind.Single? {
      WriteJoins(m, datap, Put(a.width, a.start % TWO8), Put(a.width, a.inc));
      Marshal.Put(buf, next, Put(a.width, a.inc));
      next := next + a.width.Octets();
      WriteJoins(m, datap, Put(a.width, a.start % TWO8) + Put(a.width, a.inc), Put(a.width, a.num));
      Marshal.Put(buf, next, Put(a.width, a.num));
      next := next + a.width.Octets();
      assert Encoded(a) == Put(a.width, a.start % TWO8) + Put(a.width, a.inc) + Put(a.width, a.num);
    } else {
      assert Encoded(a) == Put(a.width, a.start % TWO8);
    }
  }

  // ----- What an encoded address says -----

  /** What the encoder can say: a start of one octet, other numbers of the width. */
  predicate Representable(a: Address) {
    && a.start < TWO8
    && (if a.kind.Single? then a.inc == 0 && a.num == 1 else a.inc < a.width.Limit() && a.num < a.width.Limit())
    && (a.isSingleValue <==> a.kind.Single? || a.kind.RangeSingle?)
  }

  lemma Parts(m: Bytes, at: nat, x: Bytes, y: Bytes, z: Bytes)
    requires at + |x| + |y| + |z| <= |m| && m[at..at + |x| + |y| + |z|] == x + y + z
    ensures m[at..at + |x|] == x && m[at + |x|..at + |x| + |y|] == y && m[at + |x| + |y|..at + |x| + |y| + |z|] == z
  {
    assert x + y + z == x + (y + z);
    HoldsParts(m, at, x, y + z);
    HoldsParts(m, at + |x|, y, z);
  }

  /** What an absolute address is read as. */
  lemma AbsoluteReads(kind: Kind, w: Width, isVirtual: bool, relative: bool, x: uint32, inc: uint32, num: uint32,
                      m: Bytes, at: nat, last: Last, was: Address)
    requires !w.Reserved?
    requires var b := Put(w, x) + if kind.Single? then [] else Put(w, inc) + Put(w, num);
             at + |b| <= |m| && m[at..at + |b|] == b
    ensures var octet := Octet(kind, w, isVirtual, relative);
            && Used(octet) == w.Octets() * (if kind.Single? then 1 else 3) && at + Used(octet) <= |m|
            && var inc' := if kind.Single? then 0 else inc % w.Limit();
            var num' := if kind.Single? then 1 else num % w.Limit();
            var start := if relative then Wrap(x % w.Limit() + last.Of(isVirtual)) else x % w.Limit();
            Decode(last, octet, m, at, was) ==
              (Address(kind, w, start, inc', num', kind.Single? || kind.RangeSingle?, isVirtual),
               last.With(isVirtual, EndOf(start, inc', num')))
  {
    hide Put, Get, Octet, WidthOf, KindOf, VirtualBit, RelativeBit, Wrap;
    OctetReads(kind, w, isVirtual, relative);
    if kind.Single? {
      assert m[at..at + w.Octets()] == Put(w, x);
    } else {
      Parts(m, at, Put(w, x), Put(w, inc), Put(w, num));
      PutReads(w, inc, m, at + w.Octets(), was.inc);
      PutReads(w, num, m, at + 2 * w.Octets(), was.num);
    }
    PutReads(w, x, m, at, was.start);
  }

  /** What an address of reserved width is read as: the numbers are those the
      caller's structure already held. */
  lemma ReservedReads(kind: Kind, isVirtual: bool, relative: bool, m: Bytes, at: nat, last: Last, was: Address)
    requires at <= |m|
    ensures var octet := Octet(kind, Reserved, isVirtual, relative);
            && Used(octet) == 0
            && var inc, num := if kind.Single? then 0 else was.inc, if kind.Single? then 1 else was.num;
            var start := if relative then Wrap(was.start + last.Of(isVirtual)) else was.start;
            Decode(last, octet, m, at, was) ==
              (Address(kind, was.width, start, inc, num, kind.Single? || kind.RangeSingle?, isVirtual),
               last.With(isVirtual, EndOf(start, inc, num)))
  {
    hide Octet, WidthOf, KindOf, VirtualBit, RelativeBit, Wrap;
    OctetReads(kind, Reserved, isVirtual, relative);
  }

  /** When the decoder gives back what was encoded: the numbers fit, or, for the
      reserved width, happen to be in the caller's structure already. */
  predicate Recovered(a: Address, was: Address) {
    if a.width.Reserved? then
      && was.width.Reserved? && a.start == was.start
      && (if a.kind.Single? then a.inc == 0 && a.num == 1 else a.inc == was.inc && a.num == was.num)
      && (a.isSingleValue <==> a.kind.Single? || a.kind.RangeSingle?)
    else Representable(a)
  }

  /** Encoding and decoding agree on the number of octets always, and on the
      address exactly when its numbers fit. */
  lemma EncodeDecode(a: Address, m: Bytes, at: nat, last: Last, was: Address)
    requires at + |Encoded(a)| <= |m| && m[at..at + |Encoded(a)|] == Encoded(a)
    ensures var octet := Octet(a.kind, a.width, a.isVirtual, false);
            && Used(octet) == |Encoded(a)|
            && (Decode(last, octet, m, at, was).0 == a <==> Recovered(a, was))
  {
    hide Put, Decode, Octet, WidthOf, KindOf, Width.Limit;
    if a.width.Reserved? {
      ReservedReads(a.kind, a.isVirtual, false, m, at, last, was);
    } else {
      Fits(a.inc, a.width);
      Fits(a.num, a.width);
      AbsoluteReads(a.kind, a.width, a.isVirtual, false, a.start % TWO8, a.inc, a.num, m, at, last, was);
      Narrow(a.start, a.width);
    }
  }

  lemma Fits(x: uint32, w: Width)
    ensures !w.Reserved? ==> (x < w.Limit() <==> x % w.Limit() == x)
  {
  }

  lemma Narrow(x: uint32, w: Width)
    requires !w.Reserved?
    ensures (x % TWO8) % w.Limit() == x % TWO8
    ensures x % TWO8 == x <==> x < TWO8
  {
  }

  // ----- Lists of headers -----

  /** An address as a message carries it; with the reserved width it carries no
      numbers. */
  datatype Header = Header(
    kind: Kind, width: Width, isVirtual: bool, relative: bool, start: uint32, inc: uint32, num: uint32) {
    predicate Ok() {
      !width.Reserved? ==>
        && start < width.Limit()
        && if kind.Single? then inc == 0 && num == 1 else inc < width.Limit() && num < width.Limit()
    }
  }

  function OctetOf(h: Header): uint8 {
    Octet(h.kind, h.width, h.isVirtual, h.relative)
  }

  function Body(h: Header): Bytes {
    Put(h.width, h.start) + if h.kind.Single? then [] else Put(h.width, h.inc) + Put(h.width, h.num)
  }

  ghost predicate AllOk(hs: seq<Header>) {
    forall h :: h in hs ==> h.Ok()
  }

  /** The numbers of the headers, one after the other. */
  function Layout(hs: seq<Header>): Bytes {
    if hs == [] then [] else Body(hs[0]) + Layout(hs[1..])
  }

  function Octets(hs: seq<Header>): (r: seq<uint8>)
    ensures |r| == |hs|
  {
    if hs == [] then [] else [OctetOf(hs[0])] + Octets(hs[1..])
  }

  function Room(octets: seq<uint8>): nat {
    if octets == [] then 0 else Used(octets[0]) + Room(octets[1..])
  }

  /** Decoding address after address from one buffer into one structure. */
  function DecodeAll(last: Last, was: Address, octets: seq<uint8>, m: Bytes, at: nat): (seq<Address>, Last)
    requires at + Room(octets) <= |m|
    decreases |octets|
  {
    if octets == [] then ([], last)
    else
      var (a, next) := Decode(last, octets[0], m, at, was);
      var (rest, end) := DecodeAll(next, a, octets[1..], m, at + Used(octets[0]));
      ([a] + rest, end)
  }

  // ----- What a list means -----

  /** The properties of a range: `num` of them, each `inc` on from the one before. */
  function Properties(start: uint32, inc: uint32, num: nat): (r: seq<uint32>)
    ensures |r| == num
    decreases num
  {
    if num == 0 then [] else [start] + Properties(Wrap(start + inc), inc, num - 1)
  }

  /** What is remembered after a range is its last property. A range of none leaves
      the address one step before its start. */
  lemma {:induction false} EndIsLast(start: uint32, inc: uint32, num: uint32)
    ensures EndOf(start, inc, num) == if num == 0 then Wrap(start - inc) else Properties(start, inc, num)[num - 1]
    decreases num
  {
    hide Wrap;
    if num == 0 {
    } else if num == 1 {
      WrapSmall(start);
    } else {
      EndIsLast(Wrap(start + inc), inc, num - 1);
      WrapStep(start + inc, (num - 2) * inc);
      assert start + inc + (num - 2) * inc == start + (num - 1) * inc;
    }
  }

  /** The properties an address means. */
  datatype Range = Range(isVirtual: bool, start: uint32, inc: uint32, num: uint32) {
    function Named(): (r: seq<uint32>)
      ensures |r| == num
    {
      Properties(start, inc, num)
    }

    /** The last property named, or one step before the start if there is none. */
    function End(): uint32 {
      if num == 0 then Wrap(start - inc) else Named()[num - 1]
    }
  }

  function RangeOf(a: Address): Range {
    Range(a.isVirtual, a.start, a.inc, a.num)
  }

  function RangesOf(xs: seq<Address>): (r: seq<Range>)
    ensures |r| == |xs|
  {
    seq(|xs|, i requires 0 <= i < |xs| => RangeOf(xs[i]))
  }

  /** What a header means after `last`, and after `was` in the same structure. */
  function Meaning(last: Last, was: Range, h: Header): Range {
    var raw := if h.width.Reserved? then was.start else h.start;
    Range(h.isVirtual,
          if h.relative then Wrap(raw + last.Of(h.isVirtual)) else raw,
          if h.kind.Single? then 0 else if h.width.Reserved? then was.inc else h.inc,
          if h.kind.Single? then 1 else if h.width.Reserved? then was.num else h.num)
  }

  function After(last: Last, r: Range): Last {
    last.With(r.isVirtual, r.End())
  }

  function Meanings(last: Last, was: Range, hs: seq<Header>): (seq<Range>, Last)
    decreases |hs|
  {
    if hs == [] then ([], last)
    else
      var r := Meaning(last, was, hs[0]);
      var (rs, end) := Meanings(After(last, r), r, hs[1..]);
      ([r] + rs, end)
  }

  lemma HeaderReads(last: Last, was: Address, h: Header, m: Bytes, at: nat)
    requires h.Ok() && Holds(m, at, Body(h))
    ensures Used(OctetOf(h)) == |Body(h)| && at + Used(OctetOf(h)) <= |m|
    ensures var (a, next) := Decode(last, OctetOf(h), m, at, was);
            RangeOf(a) == Meaning(last, RangeOf(was), h) && next == After(last, RangeOf(a))
  {
    hide Put, Decode, Octet, WidthOf, KindOf, EndOf, Properties, Width.Limit, Wrap;
    var r := Meaning(last, RangeOf(was), h);
    EndIsLast(r.start, r.inc, r.num);
    if h.width.Reserved? {
      ReservedReads(h.kind, h.isVirtual, h.relative, m, at, last, was);
    } else {
      AbsoluteReads(h.kind, h.width, h.isVirtual, h.relative, h.start, h.inc, h.num, m, at, last, was);
      Fits(h.start, h.width);
      Fits(h.inc, h.width);
      Fits(h.num, h.width);
    }
  }

  lemma {:induction false} LayoutRoom(hs: seq<Header>)
    ensures Room(Octets(hs)) == |Layout(hs)|
  {
    hide Used, OctetOf, Body;
    if hs == [] {
    } else {
      BodyRoom(hs[0]);
      assert Octets(hs)[1..] == Octets(hs[1..]);
      LayoutRoom(hs[1..]);
    }
  }

  lemma BodyRoom(h: Header)
    ensures Used(OctetOf(h)) == |Body(h)|
  {
    hide Octet, WidthOf, KindOf;
    OctetReads(h.kind, h.width, h.isVirtual, h.relative);
  }

  /** Decoding a list from a buffer reads what the list means. */
  lemma {:induction false} ListReads(last: Last, was: Address, hs: seq<Header>, m: Bytes, at: nat)
    requires AllOk(hs) && Holds(m, at, Layout(hs))
    ensures at + Room(Octets(hs)) <= |m|
    ensures var (xs, end) := DecodeAll(last, was, Octets(hs), m, at);
            (RangesOf(xs), end) == Meanings(last, RangeOf(was), hs)
    decreases |hs|
  {
    hide Decode, Used, OctetOf, Body, Meaning, RangeOf, After;
    LayoutRoom(hs);
    if hs == [] {
    } else {
      var h := hs[0];
      HoldsParts(m, at, Body(h), Layout(hs[1..]));
      HeaderReads(last, was, h, m, at);
      var (a, next) := Decode(last, OctetOf(h), m, at, was);
      assert Octets(hs)[1..] == Octets(hs[1..]);
      ListReads(next, a, hs[1..], m, at + Used(OctetOf(h)));
      var (rest, end) := DecodeAll(next, a, Octets(hs[1..]), m, at + Used(OctetOf(h)));
      RangesOfCons(a, rest);
    }
  }

  lemma RangesOfCons(a: Address, rest: seq<Address>)
    ensures RangesOf([a] + rest) == [RangeOf(a)] + RangesOf(rest)
  {
  }

  // ----- What is remembered -----

  function RangesIn(rs: seq<Range>, space: bool): seq<Range> {
    if rs == [] then [] else (if rs[0].isVirtual == space then [rs[0]] else []) + RangesIn(rs[1..], space)
  }

  /** The properties of one space that ranges name, in order. */
  function NamedIn(rs: seq<Range>, space: bool): seq<uint32> {
    if rs == [] then [] else (if rs[0].isVirtual == space then rs[0].Named() else []) + NamedIn(rs[1..], space)
  }

  lemma DecodeRemembers(last: Last, octet: uint8, m: Bytes, at: nat, was: Address)
    requires at + Used(octet) <= |m|
    ensures var (a, next) := Decode(last, octet, m, at, was);
            next == After(last, RangeOf(a))
  {
    hide Get, WidthOf, KindOf, Used, Wrap, EndOf, Properties;
    var a := Decode(last, octet, m, at, was).0;
    EndIsLast(a.start, a.inc, a.num);
  }

  /** From `before` to `after`: the last property that ranges name in the space, or
      `before` if none is of the space. Only a last range of no properties leaves
      something else, the address one step before its start. */
  predicate Remembers(rs: seq<Range>, space: bool, before: uint32, after: uint32) {
    var mine, named := RangesIn(rs, space), NamedIn(rs, space);
    if mine == [] then after == before
    else if mine[|mine| - 1].num == 0 then after == Wrap(mine[|mine| - 1].start - mine[|mine| - 1].inc)
    else named != [] && after == named[|named| - 1]
  }

  lemma InCons(r: Range, rest: seq<Range>, space: bool)
    ensures RangesIn([r] + rest, space) == if r.isVirtual == space then [r] + RangesIn(rest, space)
                                           else RangesIn(rest, space)
    ensures NamedIn([r] + rest, space) == if r.isVirtual == space then r.Named() + NamedIn(rest, space)
                                          else NamedIn(rest, space)
  {
    hide Range.Named;
    assert ([r] + rest)[1..] == rest;
  }

  lemma RemembersMore(last: Last, r: Range, rest: seq<Range>, space: bool, end: uint32)
    requires Remembers(rest, space, After(last, r).Of(space), end)
    ensures Remembers([r] + rest, space, last.Of(space), end)
  {
    hide RangesIn, NamedIn, Range.Named, Wrap;
    InCons(r, rest, space);
    if RangesIn(rest, space) == [] {
      NothingNamed(rest, space);
    }
  }

  /** What is remembered after addresses read from any octets at all. */
  lemma {:induction false} LastNamed(last: Last, was: Address, octets: seq<uint8>, m: Bytes, at: nat, space: bool)
    requires at + Room(octets) <= |m|
    ensures var (xs, end) := DecodeAll(last, was, octets, m, at);
            Remembers(RangesOf(xs), space, last.Of(space), end.Of(space))
    decreases |octets|
  {
    hide Decode, Used, After, Range.Named, Wrap;
    if octets == [] {
    } else {
      var (a, next) := Decode(last, octets[0], m, at, was);
      DecodeRemembers(last, octets[0], m, at, was);
      LastNamed(next, a, octets[1..], m, at + Used(octets[0]), space);
      var (rest, end) := DecodeAll(next, a, octets[1..], m, at + Used(octets[0]));
      RangesOfCons(a, rest);
      RemembersMore(last, RangeOf(a), RangesOf(rest), space, end.Of(space));
    }
  }

  lemma {:induction false} NothingNamed(rs: seq<Range>, space: bool)
    requires RangesIn(rs, space) == []
    ensures NamedIn(rs, space) == []
  {
    if rs == [] {
    } else {
      NothingNamed(rs[1..], space);
    }
  }

  // ----- Relative and absolute lists -----

  /** The list with every address in full. */
  function AbsoluteAll(last: Last, was: Range, hs: seq<Header>): (r: seq<Header>)
    decreases |hs|
  {
    if hs == [] then []
    else
      var r := Meaning(last, was, hs[0]);
      [Header(hs[0].kind, Four, r.isVirtual, false, r.start, r.inc, r.num)] + AbsoluteAll(After(last, r), r, hs[1..])
  }

  lemma {:induction false} AbsoluteOk(last: Last, was: Range, hs: seq<Header>)
    ensures AllOk(AbsoluteAll(last, was, hs))
    decreases |hs|
  {
    if hs == [] {
    } else {
      var r := Meaning(last, was, hs[0]);
      AbsoluteOk(After(last, r), r, hs[1..]);
    }
  }

  lemma {:induction false} AbsoluteMeans(last: Last, was: Range, hs: seq<Header>, other: Last, junk: Range)
    ensures Meanings(other, junk, AbsoluteAll(last, was, hs)).0 == Meanings(last, was, hs).0
    ensures Meanings(last, junk, AbsoluteAll(last, was, hs)).1 == Meanings(last, was, hs).1
    decreases |hs|
  {
    hide Range.End;
    if hs == [] {
    } else {
      var r, abs := Meaning(last, was, hs[0]), AbsoluteAll(last, was, hs);
      assert Meaning(other, junk, abs[0]) == r && Meaning(last, junk, abs[0]) == r;
      assert abs[1..] == AbsoluteAll(After(last, r), r, hs[1..]);
      AbsoluteMeans(After(last, r), r, hs[1..], After(other, r), r);
    }
  }

  /** A list of relative and absolute headers is read, from any place in any
      buffer, as the list with every address in full, and that list is read alike
      whatever was remembered and whatever the structure held before. */
  lemma RelativeAsAbsolute(last: Last, was: Address, hs: seq<Header>, m: Bytes, at: nat,
                           other: Last, junk: Address, m': Bytes, at': nat)
    requires AllOk(hs) && Holds(m, at, Layout(hs))
    requires Holds(m', at', Layout(AbsoluteAll(last, RangeOf(was), hs)))
    ensures var abs := AbsoluteAll(last, RangeOf(was), hs);
            && at + Room(Octets(hs)) <= |m| && at' + Room(Octets(abs)) <= |m'|
            && RangesOf(DecodeAll(other, junk, Octets(abs), m', at').0) ==
              RangesOf(DecodeAll(last, was, Octets(hs), m, at).0)
            && DecodeAll(last, junk, Octets(abs), m', at').1 == DecodeAll(last, was, Octets(hs), m, at).1
  {
    hide *;
    AbsoluteOk(last, RangeOf(was), hs);
    ListReads(last, was, hs, m, at);
    ListReads(other, junk, AbsoluteAll(last, RangeOf(was), hs), m', at');
    ListReads(last, junk, AbsoluteAll(last, RangeOf(was), hs), m', at');
    AbsoluteMeans(last, RangeOf(was), hs, other, RangeOf(junk));
  }

  // ----- The two spaces -----

  function HeadersIn(hs: seq<Header>, space: bool): (r: seq<Header>)
    ensures forall h :: h in r ==> h in hs
  {
    if hs == [] then [] else (if hs[0].isVirtual == space then [hs[0]] else []) + HeadersIn(hs[1..], space)
  }

  /** An address of reserved width finds in the structure, after `was` and after
      `junk`, the same of the numbers it leaves out. */
  predicate SameLeft(was: Range, junk: Range, h: Header) {
    was.start == junk.start && (h.kind.Single? || (was.inc == junk.inc && was.num == junk.num))
  }

  /** Each address of the space that is of reserved width finds the same numbers
      with and without the addresses of the other space in between. */
  predicate Steady(last: Last, was: Range, junk: Range, hs: seq<Header>, space: bool)
    decreases |hs|
  {
    hs == [] ||
    var r := Meaning(last, was, hs[0]);
    if hs[0].isVirtual != space then Steady(After(last, r), r, junk, hs[1..], space)
    else (hs[0].width.Reserved? ==> SameLeft(was, junk, hs[0])) && Steady(After(last, r), r, r, hs[1..], space)
  }

  /** So it is if no address of the space is of reserved width. */
  lemma {:induction false} ExplicitSteady(last: Last, was: Range, junk: Range, hs: seq<Header>, space: bool)
    requires forall h :: h in hs && h.isVirtual == space ==> !h.width.Reserved?
    ensures Steady(last, was, junk, hs, space)
    decreases |hs|
  {
    if hs == [] {
    } else {
      var r := Meaning(last, was, hs[0]);
      ExplicitSteady(After(last, r), r, if hs[0].isVirtual == space then r else junk, hs[1..], space);
    }
  }

  lemma WrapTellsApart(x: uint32, y: uint32, k: int)
    ensures Wrap(x + k) == Wrap(y + k) <==> x == y
  {
    WrapStep(x + k, k);
    WrapStep(y + k, k);
    WrapSmall(x);
    WrapSmall(y);
  }

  lemma HeaderAlike(last: Last, was: Range, other: Last, junk: Range, h: Header)
    requires other.Of(h.isVirtual) == last.Of(h.isVirtual)
    ensures Meaning(last, was, h) == Meaning(other, junk, h) <==> (h.width.Reserved? ==> SameLeft(was, junk, h))
  {
    hide Wrap;
    WrapTellsApart(was.start, junk.start, last.Of(h.isVirtual));
  }

  lemma {:induction false} SpaceMeans(last: Last, was: Range, other: Last, junk: Range, hs: seq<Header>, space: bool)
    requires other.Of(space) == last.Of(space)
    ensures var all, some := Meanings(last, was, hs), Meanings(other, junk, HeadersIn(hs, space));
            && (RangesIn(all.0, space) == some.0 <==> Steady(last, was, junk, hs, space))
            && (Steady(last, was, junk, hs, space) ==> all.1.Of(space) == some.1.Of(space))
    decreases |hs|
  {
    hide Range.End, SameLeft, Meaning;
    if hs == [] {
    } else {
      var h, some := hs[0], HeadersIn(hs, space);
      var r := Meaning(last, was, h);
      MeaningSpace(last, was, h);
      var rest := Meanings(After(last, r), r, hs[1..]).0;
      assert Meanings(last, was, hs).0 == [r] + rest && ([r] + rest)[1..] == rest;
      if h.isVirtual == space {
        assert some == [h] + HeadersIn(hs[1..], space) && some[1..] == HeadersIn(hs[1..], space);
        var q := Meaning(other, junk, h);
        var others := Meanings(After(other, q), q, some[1..]).0;
        HeaderAlike(last, was, other, junk, h);
        assert RangesIn([r] + rest, space) == [r] + RangesIn(rest, space)
          && Meanings(other, junk, some).0 == [q] + others;
        ConsSame(r, RangesIn(rest, space), q, others);
        if q == r {
          SpaceMeans(After(last, r), r, After(other, r), r, hs[1..], space);
        }
      } else {
        assert some == HeadersIn(hs[1..], space);
        SpaceMeans(After(last, r), r, other, junk, hs[1..], space);
      }
    }
  }

  lemma ConsSame(x: Range, xs: seq<Range>, y: Range, ys: seq<Range>)
    ensures [x] + xs == [y] + ys <==> x == y && xs == ys
  {
    assert ([x] + xs)[1..] == xs && ([y] + ys)[1..] == ys;
    assert ([x] + xs)[0] == x && ([y] + ys)[0] == y;
  }

  lemma MeaningSpace(last: Last, was: Range, h: Header)
    ensures Meaning(last, was, h).isVirtual == h.isVirtual
  {
  }

  /** Virtual and actual addresses do not affect each other, those of one space are
      read alike with the others left out of the buffer, exactly if every address
      of reserved width in the space, which takes its numbers from the address
      before, of any space, finds the same ones there. */
  lemma SpacesApart(last: Last, was: Address, hs: seq<Header>, m: Bytes, at: nat,
                    other: Last, junk: Address, m': Bytes, at': nat, space: bool)
    requires AllOk(hs) && other.Of(space) == last.Of(space)
    requires Holds(m, at, Layout(hs)) && Holds(m', at', Layout(HeadersIn(hs, space)))
    ensures var some := Octets(HeadersIn(hs, space));
            && at + Room(Octets(hs)) <= |m| && at' + Room(some) <= |m'|
            && var (xs, end) := DecodeAll(last, was, Octets(hs), m, at);
            var (ys, end') := DecodeAll(other, junk, some, m', at');
            && (RangesIn(RangesOf(xs), space) == RangesOf(ys) <==> Steady(last, RangeOf(was), RangeOf(junk), hs, space))
            && (Steady(last, RangeOf(was), RangeOf(junk), hs, space) ==> end.Of(space) == end'.Of(space))
  {
    hide *;
    SomeOk(hs, space);
    ListReads(last, was, hs, m, at);
    ListReads(other, junk, HeadersIn(hs, space), m', at');
    SpaceMeans(last, RangeOf(was), other, RangeOf(junk), hs, space);
  }

  /** One that is not: an actual address of reserved width behind a virtual one. */
  lemma ReservedCrosses(last: Last, was: Range, x: uint32, y: uint32)
    ensures var hs := [Header(Single, Four, true, false, x, 0, 1), Header(Single, Reserved, false, false, 0, 0, 0)];
            Steady(last, was, Range(false, y, 0, 1), hs, false) <==> x == y
  {
    var hs := [Header(Single, Four, true, false, x, 0, 1), Header(Single, Reserved, false, false, 0, 0, 0)];
    assert hs[1..] == [hs[1]] && hs[1..][1..] == [];
    var r := Meaning(last, was, hs[0]);
    assert r.start == x;
    assert Steady(After(last, r), r, Range(false, y, 0, 1), [hs[1]], false) <==>
      SameLeft(r, Range(false, y, 0, 1), hs[1]);
  }

  lemma SomeOk(hs: seq<Header>, space: bool)
    requires AllOk(hs)
    ensures AllOk(HeadersIn(hs, space))
  {
  }
}
