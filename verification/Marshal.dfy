/** Octets in memory and numbers in network order (acnsrc/include/marshal.h). */
module Marshal {
  import opened Word

  type Bytes = seq<uint8>

  // ----- Numbers -----

  function U16(x: uint16): (b: Bytes)
    ensures |b| == 2
  {
    [x / 0x100, x % 0x100]
  }

  function FromU16(m: Bytes, at: nat): uint16
    requires at + 2 <= |m|
  {
    0x100 * (m[at] as int) + m[at + 1]
  }

  function U32(x: uint32): (b: Bytes)
    ensures |b| == 4
  {
    [x / 0x100_0000, (x / 0x1_0000) % 0x100, (x / 0x100) % 0x100, x % 0x100]
  }

  function FromU32(m: Bytes, at: nat): uint32
    requires at + 4 <= |m|
  {
    0x100_0000 * (m[at] as int) + 0x1_0000 * (m[at + 1] as int) + 0x100 * (m[at + 2] as int) + m[at + 3]
  }

  lemma U32Reads(x: uint32)
    ensures FromU32(U32(x), 0) == x
  {
    var a, b := x / 0x100, x / 0x1_0000;
    assert b == a / 0x100 && x / 0x100_0000 == b / 0x100;
    assert x == 0x100 * a + x % 0x100 && a == 0x100 * b + a % 0x100 && b == 0x100 * (b / 0x100) + b % 0x100;
  }

  /** The first octet that differs decides. */
  predicate Before(a: Bytes, b: Bytes)
    requires |a| == |b|
  {
    a != [] && (a[0] < b[0] || (a[0] == b[0] && Before(a[1..], b[1..])))
  }

  lemma DigitsOrder(a: nat, c: nat, b: nat, d: nat)
    requires c < 0x100 && d < 0x100
    ensures 0x100 * a + c < 0x100 * b + d <==> a < b || (a == b && c < d)
  {
  }

  lemma OneOctet(c: uint8, d: uint8)
    ensures Before([c], [d]) <==> c < d
  {
    assert [c][1..] == [];
  }

  /** Network order: numbers are ordered as their octets. */
  lemma NetworkOrder16(x: uint16, y: uint16)
    ensures x < y <==> Before(U16(x), U16(y))
  {
    DigitsOrder(x / 0x100, x % 0x100, y / 0x100, y % 0x100);
    assert U16(x)[1..] == [x % 0x100] && U16(y)[1..] == [y % 0x100];
    OneOctet(x % 0x100, y % 0x100);
  }

  lemma NetworkOrder32(x: uint32, y: uint32)
    ensures x < y <==> Before(U32(x), U32(y))
  {
    hide U16, U32, Before;
    var a, c, b, d := x / 0x1_0000, x % 0x1_0000, y / 0x1_0000, y % 0x1_0000;
    Halves(x);
    Halves(y);
    NetworkOrder16(a, b);
    NetworkOrder16(b, a);
    NetworkOrder16(c, d);
    HalvesOrder(U16(a), U16(c), U16(b), U16(d));
    assert x == 0x1_0000 * a + c && y == 0x1_0000 * b + d;
  }

  lemma Halves(x: uint32)
    ensures U32(x) == U16(x / 0x1_0000) + U16(x % 0x1_0000)
  {
    var a, b := x / 0x100, x / 0x1_0000;
    assert b == a / 0x100 && x / 0x100_0000 == b / 0x100;
    assert x == 0x1_0000 * b + x % 0x1_0000;
    assert a == 0x100 * b + x % 0x1_0000 / 0x100;
  }

  lemma {:induction false} HalvesOrder(a: Bytes, c: Bytes, b: Bytes, d: Bytes)
    requires |a| == |b| && |c| == |d|
    ensures Before(a + c, b + d) <==> Before(a, b) || (a == b && Before(c, d))
  {
    if a == [] {
      assert a + c == c && b + d == d;
    } else {
      assert (a + c)[1..] == a[1..] + c && (b + d)[1..] == b[1..] + d;
      assert a == [a[0]] + a[1..] && b == [b[0]] + b[1..];
      HalvesOrder(a[1..], c, b[1..], d);
    }
  }

  // ----- Memory -----

  /** Bytes of `m` at `pos`. */
  predicate Holds(m: Bytes, pos: nat, b: Bytes) {
    pos + |b| <= |m| && m[pos..pos + |b|] == b
  }

  lemma HoldsParts(m: Bytes, pos: nat, a: Bytes, b: Bytes)
    requires Holds(m, pos, a + b)
    ensures Holds(m, pos, a) && Holds(m, pos + |a|, b)
  {
    var s := m[pos..pos + |a + b|];
    assert m[pos..pos + |a|] == s[..|a|] == a;
    assert m[pos + |a|..pos + |a| + |b|] == s[|a|..] == b;
  }

  function Write(m: Bytes, at: nat, b: Bytes): (r: Bytes)
    requires at + |b| <= |m|
    ensures |r| == |m|
  {
    m[..at] + b + m[at + |b|..]
  }

  /** Adjacent writes are one write, in either order. */
  lemma WriteJoins(m: Bytes, at: nat, a: Bytes, b: Bytes)
    requires at + |a| + |b| <= |m|
    ensures Write(Write(m, at, a), at + |a|, b) == Write(m, at, a + b)
    ensures Write(Write(m, at + |a|, b), at, a) == Write(m, at, a + b)
  {
  }

  lemma WriteSame(m: Bytes, at: nat, n: nat)
    requires at + n <= |m|
    ensures Write(m, at, m[at..at + n]) == m
  {
  }

  lemma Written(m: Bytes, at: nat, b: Bytes)
    requires at + |b| <= |m|
    ensures var r := Write(m, at, b);
            && r[..at] == m[..at] && r[at..at + |b|] == b && r[at + |b|..] == m[at + |b|..]
  {
  }

  /** `memcpy` of given bytes. */
  method Put(mem: array<uint8>, at: nat, b: Bytes)
    requires at + |b| <= mem.Length
    modifies mem
    ensures mem[..] == Write(old(mem[..]), at, b)
  {
    forall k | 0 <= k < |b| {
      mem[at + k] := b[k];
    }
  }
}
