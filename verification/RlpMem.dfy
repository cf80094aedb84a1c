/** Transmit buffers: a static pool searched round-robin, each buffer counting
    its uses and holding a buffer of the network layer (acnsrc/rlp/rlpmem.c). */
module RlpMem {
  import opened Word
  import opened Chains

  /** `rlp_txbuf_t`. `netbuf` is the network layer's handle, 0 for none; `mem`
      is the memory behind it. Positions in it are indices; `blockend` is -1
      for NULL. */
  class TxBuf {
    var usage: int
    var netbuf: nat
    var datasize: nat
    var owner: seq<uint8>
    var blockstart: nat
    var blockend: int
    var protocol: uint32
    var curdata: nat
    var curdatalen: nat
    var mem: array<uint8>

    constructor ()
      ensures usage == 0 && netbuf == 0 && datasize == 0 && owner == [] && blockend == -1
      ensures blockstart == 0 && protocol == 0 && curdata == 0 && curdatalen == 0 && mem.Length == 0
    {
      usage, netbuf, datasize, owner := 0, 0, 0, [];
      blockstart, blockend, protocol, curdata, curdatalen := 0, -1, 0, 0, 0;
      mem := new uint8[0];
    }
  }

  class TxPool {
    const bufs: seq<TxBuf>
    var bufnum: nat
    /** Handles given out by the network layer so far, and those given back. */
    var issued: nat
    var freed: seq<nat>

    constructor (bufs: seq<TxBuf>)
      requires bufs != [] && forall b :: b in bufs ==> b.usage == 0 && b.netbuf == 0
      ensures this.bufs == bufs && Valid() && freed == [] && issued == 0
    {
      this.bufs := bufs;
      bufnum, issued, freed := 0, 0, [];
    }

    ghost predicate Live(h: nat)
      reads bufs`usage, bufs`netbuf
    {
      exists b :: b in bufs && b.usage > 0 && b.netbuf == h
    }

    /** Every handle issued is held by exactly one buffer in use or has been
        given back exactly once. */
    ghost predicate Valid()
      reads this, bufs`usage, bufs`netbuf
    {
      && bufnum < |bufs|
      && (forall b :: b in bufs ==> b.usage >= 0 && (b.usage == 0 ==> b.netbuf == 0))
      && (forall b :: b in bufs && b.usage > 0 ==> 0 < b.netbuf <= issued && b.netbuf !in freed)
      && (forall b, c :: b in bufs && c in bufs && b.usage > 0 && c.usage > 0 && b != c ==> b.netbuf != c.netbuf)
      && Distinct(freed)
      && (forall h :: h in freed ==> 0 < h <= issued)
      && (forall h :: 0 < h <= issued && h !in freed ==> Live(h))
    }

    /** `j` comes before `to` on the way around from `from`. */
    predicate Passed(from: nat, j: nat, to: nat) {
      if from <= to then from <= j < to else from <= j || j < to
    }

    /** `__new_txbuf`: the first unused buffer from the last one handed out. */
    method FindFree() returns (b: TxBuf?)
      requires Valid()
      modifies this`bufnum
      ensures Valid()
      ensures b != null ==> b in bufs && b.usage == 0 && b == bufs[bufnum]
      ensures b != null ==> forall j :: 0 <= j < |bufs| && Passed(old(bufnum), j, bufnum) ==> bufs[j].usage != 0
      ensures b == null ==> bufnum == old(bufnum) && forall c :: c in bufs ==> c.usage != 0
    {
      var i := bufnum;
      ghost var k := 0;
      while bufs[i].usage != 0
        invariant 0 <= k < |bufs|
        invariant i == if bufnum + k < |bufs| then bufnum + k else bufnum + k - |bufs|
        invariant forall j :: bufnum <= j < |bufs| && j < bufnum + k ==> bufs[j].usage != 0
        invariant forall j :: 0 <= j < bufnum + k - |bufs| ==> bufs[j].usage != 0
        decreases |bufs| - k
      {
        i, k := i + 1, k + 1;
        if i >= |bufs| { i := 0; }
        if i == bufnum { return null; }
      }
      bufnum := i;
      return bufs[i];
    }

    /** `__free_txbuf` on a buffer nobody uses. */
    method ClearUnused(b: TxBuf)
      requires Valid() && b in bufs && b.usage == 0
      modifies b`owner, b`datasize, b`netbuf
      ensures Valid() && b.owner == [] && b.datasize == 0 && b.netbuf == 0
    {
      b.owner, b.datasize, b.netbuf := [], 0, 0;
      forall h | 0 < h <= issued && h !in freed ensures Live(h) {
        assert old(Live(h));
      }
    }

    /** The network layer's buffer for a buffer that was found unused. */
    method TakeHandle(b: TxBuf)
      requires Valid() && b in bufs && b.usage == 0
      modifies this`issued, b`netbuf, b`usage
      ensures Valid() && b.usage == 1 && b.netbuf == issued == old(issued) + 1
    {
      issued := issued + 1;
      b.netbuf, b.usage := issued, 1;
      assert forall c :: c in bufs && c.usage > 0 && c != b ==> c.netbuf < issued;
      forall h | 0 < h <= issued && h !in freed ensures Live(h) {
        if h == issued {
          assert b.netbuf == h;
        } else {
          assert old(Live(h));
        }
      }
    }

    /** Set up a buffer that was found unused. */
    method Claim(b: TxBuf, size: nat, owner: seq<uint8>)
      requires Valid() && b in bufs && b.usage == 0
      modifies this`issued, b
      ensures Valid() && b.usage == 1 && b.netbuf == issued == old(issued) + 1
      ensures b.owner == owner && b.datasize == size && fresh(b.mem) && b.mem.Length == size
    {
      hide Valid;
      TakeHandle(b);
      b.mem := new uint8[size];
      b.owner, b.datasize := owner, size;
    }

    /** `rlpm_new_txbuf`; `netOk` tells whether the network layer has memory. */
    method NewTxBuf(size: nat, owner: seq<uint8>, netOk: bool) returns (b: TxBuf?)
      requires Valid()
      modifies this`bufnum, this`issued, bufs
      ensures Valid()
      ensures b == null <==> !netOk || forall c :: c in bufs ==> old(c.usage) != 0
      ensures b != null ==> b in bufs && old(b.usage) == 0 && b.usage == 1
                            && b.netbuf == issued == old(issued) + 1
                            && b.owner == owner && b.datasize == size && fresh(b.mem) && b.mem.Length == size
      ensures b == null ==> issued == old(issued)
      ensures forall c :: c in bufs && c != b ==> c.usage == old(c.usage)
    {
      b := FindFree();
      if b == null { return; }
      if !netOk {
        ClearUnused(b);
        return null;
      }
      Claim(b, size, owner);
    }

    method IncUse(b: TxBuf)
      requires Valid() && b in bufs && b.usage > 0
      modifies b`usage
      ensures Valid() && b.usage == old(b.usage) + 1
    {
      b.usage := b.usage + 1;
      forall h | 0 < h <= issued && h !in freed ensures Live(h) {
        assert old(Live(h));
      }
    }

    /** The last user gives the network buffer back. */
    method FreeHandle(b: TxBuf)
      requires Valid() && b in bufs && b.usage == 1
      modifies this`freed, b`usage, b`netbuf
      ensures Valid() && b.usage == 0 && b.netbuf == 0 && freed == old(freed) + [old(b.netbuf)]
    {
      b.usage := 0;
      freed := freed + [b.netbuf];
      b.netbuf := 0;
      forall h | 0 < h <= issued && h !in freed ensures Live(h) {
        assert old(Live(h));
      }
    }

    method DecUse(b: TxBuf)
      requires Valid() && b in bufs && b.usage > 1
      modifies b`usage
      ensures Valid() && b.usage == old(b.usage) - 1
    {
      b.usage := b.usage - 1;
      forall h | 0 < h <= issued && h !in freed ensures Live(h) {
        assert old(Live(h));
      }
    }

    /** `rlpm_release_txbuf`. The count of an unused buffer stays 0, and then NULL
        is handed to the network layer, which has no handle to take back. */
    method Release(b: TxBuf)
      requires Valid() && b in bufs
      modifies this`freed, b`usage, b`owner, b`datasize, b`netbuf
      ensures Valid() && b.usage == if old(b.usage) > 0 then old(b.usage) - 1 else 0
      ensures freed == old(freed) + (if old(b.usage) == 1 then [old(b.netbuf)] else [])
      ensures b.usage == 0 ==> b.netbuf == 0 && b.owner == [] && b.datasize == 0
      ensures b.usage > 0 ==> b.netbuf == old(b.netbuf) && b.owner == old(b.owner) && b.datasize == old(b.datasize)
    {
      hide Valid;
      UnusedHoldsNone(b);
      if b.usage > 1 {
        DecUse(b);
      } else {
        if b.usage == 1 {
          FreeHandle(b);
        }
        b.owner, b.datasize := [], 0;
      }
    }

    lemma UnusedHoldsNone(b: TxBuf)
      requires Valid() && b in bufs
      ensures b.usage >= 0 && (b.usage == 0 ==> b.netbuf == 0)
    {
    }
  }
}
