/** Sequence numbering of SDT wrappers: the stamp a leader puts on each wrapper
    and the gate a member applies to it (acnsrc/sdt/sdt.c). */
module SdtSequence {
  import opened Word

  /** The three counters of `sdt_channel_t`. The leader's own channel and the
      member's copy of a foreign channel use the same record. */
  datatype Position = Position(total: int, reliable: int, oldest: int)

  /** The sequence header of a wrapper. */
  datatype Wrapper = Wrapper(isReliable: bool, total: int, reliable: int, oldest: int)

  datatype Verdict = Valid | Nak | Duplicate | OldPacket | Lost

  /** How counters are computed: without bound, or as `uint32_t` with a signed
      `int diff`. The protocol's logic below is written once for both. */
  datatype Arith = Exact | Mod32 {
    function Reduce(x: int): int {
      if Mod32? then Wrap(x) else x
    }

    function Diff(x: int, y: int): int {
      if Mod32? then SignedDiff(x, y) else x - y
    }
  }

  function InRange(p: Position): bool {
    0 <= p.total < TWO32 && 0 <= p.reliable < TWO32 && 0 <= p.oldest < TWO32
  }

  /** The leader's counters after stamping one wrapper. `sent` tells whether any
      channel of the process has sent a reliable wrapper before. */
  function Stamp(ar: Arith, maxResends: nat, p: Position, sent: bool, isReliable: bool): Position {
    var total := ar.Reduce(p.total + 1);
    if !isReliable then
      p.(total := total)
    else
      var reliable := ar.Reduce(p.reliable + 1);
      var oldest :=
        if !sent then reliable
        else if ar.Reduce(reliable - p.oldest) == maxResends then ar.Reduce(reliable - maxResends + 1)
        else p.oldest;
      Position(total, reliable, oldest)
  }

  function Header(isReliable: bool, p: Position): Wrapper {
    Wrapper(isReliable, p.total, p.reliable, p.oldest)
  }

  /** The member's judgement of a wrapper. */
  function Judge(ar: Arith, p: Position, w: Wrapper): Verdict {
    var ahead := ar.Diff(w.total, p.total);
    if ahead == 1 then Valid
    else if ahead <= 0 then Duplicate
    else
      var gap := ar.Diff(w.reliable, p.reliable);
      if w.isReliable && gap == 1 then Valid
      else if gap == 0 then Valid
      else if ar.Diff(w.oldest, p.reliable) > 1 then Lost
      else Nak
  }

  function Advance(ar: Arith, p: Position, w: Wrapper): Position {
    if Judge(ar, p, w) == Valid then Position(w.total, w.reliable, w.oldest) else p.(oldest := w.oldest)
  }

  /** Whether the wrapper's contents are handed on: a reliable wrapper behind a
      gap is dropped, an unreliable one is still processed. */
  predicate Passes(v: Verdict, isReliable: bool) {
    v == Valid || (v == Nak && !isReliable)
  }

  class Channel {
    var totalSeq: uint32
    var reliableSeq: uint32
    var oldestAvail: uint32

    constructor ()
      ensures At() == Position(0, 0, 0)
    {
      totalSeq, reliableSeq, oldestAvail := 0, 0, 0;
    }

    function At(): (p: Position)
      reads this
      ensures InRange(p)
    {
      Position(totalSeq, reliableSeq, oldestAvail)
    }

    method CheckSequence(isReliable: bool, total: uint32, reliable: uint32, oldest: uint32) returns (v: Verdict)
      modifies this
      ensures v == Judge(Mod32, old(At()), Wrapper(isReliable, total, reliable, oldest))
      ensures At() == Advance(Mod32, old(At()), Wrapper(isReliable, total, reliable, oldest))
      ensures v != OldPacket
    {
      oldestAvail := oldest;
      var diff := SignedDiff(total, totalSeq);
      if diff == 1 {
        totalSeq := total;
        reliableSeq := reliable;
        return Valid;
      } else if diff > 1 {
        diff := SignedDiff(reliable, reliableSeq);
        if isReliable && diff == 1 {
          totalSeq := total;
          reliableSeq := reliable;
          return Valid;
        } else if diff != 0 {
          diff := SignedDiff(oldest, reliableSeq);
          return if diff > 1 then Lost else Nak;
        } else {
          totalSeq := total;
          reliableSeq := reliable;
          return Valid;
        }
      } else {
        // The return of SEQ_DUPLICATE is not guarded by the test for zero.
        return Duplicate;
      }
    }

    /** The sequence gate of a received wrapper: whether the contents go on to
        the members, the range to ask for again, and whether the members leave. */
    method RxGate(isReliable: bool, total: uint32, reliable: uint32, oldest: uint32)
      returns (passes: bool, nak: seq<(uint32, uint32)>, leave: bool)
      modifies this
      ensures var w := Wrapper(isReliable, total, reliable, oldest);
              var v := Judge(Mod32, old(At()), w);
              && At() == Advance(Mod32, old(At()), w)
              && passes == Passes(v, isReliable)
              && nak == (if v == Nak then [(Wrap(old(reliableSeq) + 1), reliable)] else [])
              && leave == (v == Lost)
      ensures var ahead, gap := SignedDiff(total, old(totalSeq)), SignedDiff(reliable, old(reliableSeq));
              var missed := SignedDiff(oldest, old(reliableSeq)) > 1;
              passes <==> ahead == 1 || (ahead > 1 && (gap == 0 || if isReliable then gap == 1 else !missed))
    {
      passes, nak, leave := false, [], false;
      var v := CheckSequence(isReliable, total, reliable, oldest);
      match v {
        case Valid => passes := true;
        case Nak =>
          nak := [(Wrap(reliableSeq + 1), reliable)];
          if isReliable { return; }
          passes := true;
        case OldPacket => return;
        case Duplicate => return;
        case Lost => leave := true;
      }
    }
  }

  /** Owner of the function-static flag that all channels share. */
  class Formatter {
    var sentReliable: bool
    const maxResends: nat

    constructor (maxResends: nat)
      ensures !sentReliable && this.maxResends == maxResends
    {
      sentReliable := false;
      this.maxResends := maxResends;
    }

    method FormatWrapper(channel: Channel, isReliable: bool) returns (w: Wrapper)
      modifies this, channel
      ensures channel.At() == Stamp(Mod32, maxResends, old(channel.At()), old(sentReliable), isReliable)
      ensures sentReliable == (old(sentReliable) || isReliable)
      ensures w == Header(isReliable, channel.At())
    {
      if isReliable {
        channel.reliableSeq := Wrap(channel.reliableSeq + 1);
        if sentReliable {
          if Wrap(channel.reliableSeq - channel.oldestAvail) == maxResends {
            channel.oldestAvail := Wrap(channel.reliableSeq - maxResends + 1);
          }
        } else {
          channel.oldestAvail := channel.reliableSeq;
          sentReliable := true;
        }
      }
      channel.totalSeq := Wrap(channel.totalSeq + 1);
      w := Wrapper(isReliable, channel.totalSeq, channel.reliableSeq, channel.oldestAvail);
    }
  }
}
