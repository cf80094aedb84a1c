# OpenACN in Dafny

A model of the protocol core of OpenACN (ANSI E1.17) with proofs of what that core is for.

* **SDT sequencing.** A leader stamps wrappers with total, reliable and oldest-available numbers, a member gates what it
  receives, and a network loses, duplicates and reorders. `SdtSequence` holds the code, `SdtDelivery` the run-level
  theorems, once with unbounded counters and once with the 32-bit counters and signed difference of the C code.
* **SDT sessions.** `SdtJoin` holds the handlers of JOIN, JOIN_ACCEPT, ACK, CONNECT and CONNECT_ACCEPT as updates of one
  component's records; `SdtAgreement` says what two such components agree on in every run,
  `SdtHandshake` in which states a session can still come about.
* **SDT members and timers.** `SdtMembers` is the pool of member slots shared by the lists of all channels with the pass
  of `sdt_tick` over a list, `SdtRoster` one such list as a value and over time, `SdtMid` the search for member
  identifiers, `SdtTimers` the MAK and expiry timers of one member.
* **Resend store and transmit buffers.** `RlpMem` is the round-robin pool of reference-counted buffers, `SdtResend` the
  list of saved reliable wrappers over its own slot pool, `SdtSend` a leader that stamps, saves and lets expire,
  `SdtRepair` that leader together with network and member.
* **RLP.** `RlpWire` is the wire form of a PDU block, `RlpPack` the packer that works in place in a buffer, `RlpProcess`
  the parser with its dispatch to listeners, `RlpRoundTrip` the law connecting both, `RlpSenders` what the parser makes
  of blocks of other senders and of any bytes, `RlpGroups` and `RlpRegistry` the receive groups and listeners with their
  multicast joins and leaves.
* **Smaller cores.** `SlpRetry` (SLP requests), `DmpAddress` (relative DMP addresses), `McastAlloc` (EPI 10 addresses).

`Word`, `Bits`, `Marshal`, `Wrappers` and `Chains` are shared: fixed-width arithmetic, bits, octets in memory, options,
the singly linked lists of pool slots that the C code splices in five places, and the pass that ages some entries of
such a list and drops others.

Code that updates state in place is modelled by classes and methods on the heap, proved against functions on values;
the theorems about runs are lemmas about those functions. Pointers into a buffer are positions in it. Network, clock and
platform enter as parameters: whether memory for a buffer is available, whether joining a multicast group works, which
message arrives next. Constants that one configuration leaves open (MS_PER_TICK, MAK_TIMEOUT_ms, SDT_MAX_RESENDS) are
parameters.

## What the code does that a reader might not expect

* `check_sequence` never returns SEQ_OLD_PACKET: the return of SEQ_DUPLICATE is not part of the test above it
  (acnsrc/sdt/sdt.c:1511-1519).
* The flag that a reliable wrapper has been sent is shared by all channels (acnsrc/sdt/sdt.c:1300). A channel advertises
  number 0 as available, although it was never sent, with its first SDT_MAX_RESENDS - 1 reliable wrappers, exactly if
  another channel used the flag before it (`SdtDelivery.WindowAllSent`).
* A late copy of an old JOIN rewinds the member's numbers. A wrapper can then pass its gate a second time exactly if the
  JOIN announces less than the highest reliable number ever passed on in the run, before or after other JOINs
  (`SdtDelivery.LateJoinRepeats`); without such a JOIN no wrapper passes twice (`SdtDelivery.OnceEach`). What was passed on
  since the last JOIN runs on across the next one without gap or repetition exactly if that announces the number reached
  (`SdtDelivery.JoinsUp`).
* An unreliable wrapper behind a gap passes the gate although a SEQ_NAK goes out, and passes again every time it comes
  while the gap is open (`SdtDelivery.UnreliableTwice`).
* A SEQ_NAK may ask for numbers that the leader no longer has. It can answer exactly if the oldest number asked for is
  still in time (`SdtRepair.NakIsAnswerable`).
* An ACK that overtakes the JOIN_ACCEPT it answers leaves its receiver half joined for good (`SdtAgreement.WedgedExactly`);
  this is the only way in which the other side's records fall short of msWAIT_FOR_ACK. Two first JOINs that cross never
  lead to a session (`SdtAgreement.CrossingNeverJoins`). A JOIN from a channel with number 0 is accepted and then never
  acknowledged, whatever follows, and this is the only first offer that cannot succeed
  (`SdtAgreement.OfferSucceedsExactly`).
* Two more orders of messages end a handshake: an ACK taken before the JOIN in return, which is then accepted but never
  acknowledged, and a CONNECT taken before the ACK, after which the own CONNECT is never sent. With the wedge and the
  crossing they are all: in every other state a session can still come about (`SdtHandshake.SucceedsExactly`).
* A member identifier of 0xFFF counts as "all members" in a received wrapper (acnsrc/sdt/sdt.c:2934). The reset at 0x7FFF
  does not keep the search from the reserved values 0x7FFF and 0xFFFF: `SdtMid.ReservedExactly` says when they are given,
  and two members are enough to get there (`SdtMid.ReservedHappens`).
* An address of reserved width carries no numbers and is read with those of the address before, of either space
  (acnsrc/dmp/dmp.c:351-366): `DmpAddress.SpacesApart` says exactly when the two spaces stay apart all the same.
* With SDT_MAX_RESENDS of 1 the resend list gets linked to itself at the second wrapper (`SdtResend.ResendStore.SaveBuffer`).
* `sdt_add_member` finds a component that is already on the list and adds it again (acnsrc/sdt/sdt.c:726-741).
* The optimized packing lacks a semicolon (acnsrc/rlp/rlp.c:395) and is modelled as meant. An overflow of the buffer is
  logged, but the data is written all the same (acnsrc/rlp/rlp.c:389-397).
* `dmp_encode_address_header` narrows the start address to one octet in every width (acnsrc/dmp/dmp.c:290-296), although
  the comment above it promises the address.

## Model

| member | source | states |
|---|---|---|
| `SdtSequence.Channel.CheckSequence` | acnsrc/sdt/sdt.c:1463-1521 | verdict and new counters are those of the 32-bit judgement the delivery theorems are about, for every wrapper and every state; the verdict for an old packet never occurs |
| `SdtSequence.Channel.RxGate` | acnsrc/sdt/sdt.c:2809-2852 | what passes, which range is asked for again and whether the member leaves follow from the verdict, and what passes also from the signed differences alone; a reliable wrapper behind a gap is held back, an unreliable one is not unless it is lost |
| `SdtSequence.Formatter.FormatWrapper` | acnsrc/sdt/sdt.c:1297-1341 | the stamp on a wrapper is the leader's new position, including the shared flag and wrap-around |
| `SdtDelivery.OrderedDelivery` | acnsrc/sdt/sdt.c:1297-1341 | in every run with loss, duplication, reordering and any number of JOINs, the reliable wrappers passed on since the last JOIN are exactly the leader's next ones up to the member's number, in order, none missing, none twice |
| `SdtDelivery.ReliableUnique` | acnsrc/sdt/sdt.c:1308-1312 | no two reliable wrappers a leader ever sent carry the same unbounded number, so delivery by number is delivery of the wrapper |
| `SdtDelivery.StepKeeps` | acnsrc/sdt/sdt.c:1463-1521 | the invariant behind it, for every single step from every state that satisfies it |
| `SdtDelivery.LateJoinRepeats` | acnsrc/sdt/sdt.c:2148-2151 | for every run and every JOIN sent in it, taking that JOIN lets some wrapper passed on at any time in the run pass again in some continuation, if and only if the JOIN's reliable number is lower than that of some wrapper passed on in the run |
| `SdtDelivery.LateJoinHappens` | acnsrc/sdt/sdt.c:2148-2151 | a run that ends right after a second JOIN, in which a late copy of the first lets the wrapper passed on between them pass again |
| `SdtDelivery.OnceEach` | acnsrc/sdt/sdt.c:1463-1521 | over every run in which no JOIN was late in this sense, the wrappers passed on have rising reliable numbers, so none passes twice |
| `SdtDelivery.JoinsUp` | acnsrc/sdt/sdt.c:2148-2151 | for every continuation, the deliveries since the last JOIN and those after the next are together the leader's wrappers in order, none missing, none twice, if and only if that JOIN announces the number reached |
| `SdtDelivery.JudgeOnLog` | acnsrc/sdt/sdt.c:1483-1510 | all verdicts on any wrapper ever sent, each with an if-and-only-if on its numbers |
| `SdtDelivery.LostExactly` | acnsrc/sdt/sdt.c:1483-1510 | SEQ_LOST is returned exactly when more reliable wrappers are missing than SDT_MAX_RESENDS |
| `SdtDelivery.NakRange` | acnsrc/sdt/sdt.c:1966-1968 | the range asked for is not empty, lies inside the window the wrapper advertised and holds at most SDT_MAX_RESENDS numbers |
| `SdtDelivery.WindowAllSent` | acnsrc/sdt/sdt.c:1300-1320 | every number a wrapper advertises as available was really sent, exactly when the window does not start at 0; and when it does, told from the run: before the channel's first reliable wrapper, and with its reliable numbers below SDT_MAX_RESENDS if another channel used the flag first |
| `SdtDelivery.RepairCloses` | acnsrc/sdt/sdt.c:1463-1521 | redelivering the missing range in order is SEQ_VALID wrapper by wrapper and closes the gap |
| `SdtDelivery.NakIsRepaired` | acnsrc/sdt/sdt.c:2816-2834 | for every SEQ_NAK in every run the leader has sent the range asked for, and replaying it leaves no gap before the wrapper that revealed it |
| `SdtDelivery.GateRefines` | acnsrc/sdt/sdt.c:1466-1521 | for a wrapper less than 2^32 from the member, the signed 32-bit difference gives the unbounded verdict if and only if it is within 2^31; within that distance the new counters agree too |
| `SdtDelivery.RunRefines` | acnsrc/sdt/sdt.c:1310-1323 | whole runs of leader and member with 32-bit counters are the wrapped images of runs with unbounded ones while every wrapper received is near |
| `SdtDelivery.OrderedDelivery32` | acnsrc/sdt/sdt.c:1466-1521 | ordered delivery for the counters the code really has, across any number of wrap-arounds |
| `SdtDelivery.LostExactly32` | acnsrc/sdt/sdt.c:1483-1510 | SEQ_LOST with the 32-bit counters of the code, along every run with near wrappers: exactly when the signed distance is positive and more than SDT_MAX_RESENDS numbers are missing modulo 2^32 |
| `SdtDelivery.NakRange32` | acnsrc/sdt/sdt.c:1966-1968 | along the same runs, the range of a SEQ_NAK holds between 1 and SDT_MAX_RESENDS numbers modulo 2^32 and no more than the advertised window |
| `SdtDelivery.NakIsRepaired32` | acnsrc/sdt/sdt.c:2816-2834 | along the same runs, headers the leader sent with the missing 32-bit numbers, all taken as SEQ_VALID, leave no gap before the wrapper that revealed it |
| `SdtDelivery.HandsOnExactly` | acnsrc/sdt/sdt.c:2809-2834 | in every reachable state a wrapper of the leader, of either kind, passes the gate if and only if its numbers say so: a reliable one as the next in order, an unreliable one when its total number is newer and its reliable number at most SDT_MAX_RESENDS ahead |
| `SdtDelivery.UnreliableExactly` | acnsrc/sdt/sdt.c:1458-1461 | the unreliable wrappers passed on over a run are exactly those that came at some point with such numbers, also ones behind a gap |
| `SdtDelivery.UnreliableTwice` | acnsrc/sdt/sdt.c:2824-2827 | an unreliable wrapper that comes a second time passes again exactly while reliable ones are missing before it |
| `SdtDelivery.FollowsExactly` | acnsrc/sdt/sdt.c:1463-1521 | the numbers of the member after any wrapper of the leader: they follow one that leaves no gap, and the oldest available number follows every one |
| `SdtDelivery.HandsOn32` | acnsrc/sdt/sdt.c:2809-2834 | the same choice with 32-bit counters, read off the signed difference, along runs with near wrappers |
| `SdtDelivery.Unreliable32` | acnsrc/sdt/sdt.c:1466-1521 | along those runs the unreliable wrappers passed on with 32-bit counters are those of the unbounded ones |
| `SdtDelivery.GateOnRun` | acnsrc/sdt/sdt.c:2809-2852 | the gate itself, called within a run: what passes, which range it asks for, when the member leaves and its next counters, each from the 32-bit numbers of wrapper and member |
| `SdtJoin.Endpoint.SdtJoin` | acnsrc/sdt/sdt.c:248-279 | records and message of a first JOIN, and that nothing happens for a member already there |
| `SdtJoin.Endpoint.RxJoin` | acnsrc/sdt/sdt.c:2000-2264 | the record and the messages after a JOIN in every prior state, including refusals and what is deleted again |
| `SdtJoin.Endpoint.RxJoinAccept` | acnsrc/sdt/sdt.c:2272-2391 | the record and the ACK after a JOIN_ACCEPT in every prior state |
| `SdtJoin.Endpoint.RxWrapper` | acnsrc/sdt/sdt.c:2852-2960 | the record and the answers after an ACK, CONNECT, CONNECT_ACCEPT or MAK addressed to the component |
| `SdtJoin.RefusedExactly` | acnsrc/sdt/sdt.c:2098-2186 | in every state a JOIN is refused if and only if its reciprocal number, its channel number or its MID disagrees with the records; a refused one changes nothing, any other is answered by a JOIN_ACCEPT |
| `SdtJoin.AnsweredExactly` | acnsrc/sdt/sdt.c:2205-2258 | what an accepted JOIN is answered with besides the JOIN_ACCEPT, in every state: an ACK exactly if it answers a JOIN already accepted, a JOIN in return exactly if neither side has begun and the channel has a number; and the records that go with them |
| `SdtJoin.StaysBound` | acnsrc/sdt/sdt.c:2123-2143 | whatever is received from whomever, following the code or not, the other side's channel number and the own MID in it never change once the number is known |
| `SdtJoin.OwnStays` | acnsrc/sdt/sdt.c:2000-2264 | nor do the own channel number and the MID given to the other side once it was asked to join |
| `SdtJoin.LeavesNothing` | acnsrc/sdt/sdt.c:2188-2264 | a JOIN that leads to neither an ACK nor a JOIN in return sets up no component, no channel and no own record |
| `SdtJoin.AcceptCounts` | acnsrc/sdt/sdt.c:2272-2391 | a JOIN_ACCEPT has an effect exactly if it names the own channel, the MID given and, once an ACK is due, the other channel if that is known |
| `SdtJoin.MakAnswered` | acnsrc/sdt/sdt.c:3859-3876 | a MAK is acknowledged exactly by a joined member whose MID lies in its range, and changes no record |
| `SdtJoin.OnlyAddressed` | acnsrc/sdt/sdt.c:2917-2960 | messages for another MID or another association have no effect; those for all members have that of messages for the own MID |
| `SdtJoin.AsksOnce` | acnsrc/sdt/sdt.c:248-279 | a JOIN goes out exactly if the other is not in the own channel yet, and numbers already there are kept |
| `SdtAgreement.JoinAgreement` | acnsrc/sdt/sdt.c:1588-1744 | in every run, once a side holds the other or itself joined, both agree on both channel numbers and both member identifiers and the other side's own record waits for an ACK at least; its record of the peer does so exactly unless it is wedged |
| `SdtAgreement.RunAgreement` | acnsrc/sdt/sdt.c:2339-2374 | the same for whole runs, with the exception tied to the history: the other side's two records wait for an ACK at least exactly if it never took an ACK before the JOIN_ACCEPT |
| `SdtAgreement.ConnectedOnlyIfJoined` | acnsrc/sdt/sdt.c:3972-4020 | a record becomes msCONNECTED only through a CONNECT, or its acceptance, whose sender had both its records joined |
| `SdtAgreement.NeverRefused` | acnsrc/sdt/sdt.c:2098-2186 | two components that follow the code never refuse each other's JOIN, whatever the network does |
| `SdtAgreement.WedgedExactly` | acnsrc/sdt/sdt.c:3872-3893 | a side gets stuck half joined exactly when it takes an ACK before the JOIN_ACCEPT that caused it, and never recovers |
| `SdtAgreement.WedgeHappens` | acnsrc/sdt/sdt.c:3872-3893 | after every such first JOIN with a MID other than 0 a run in which one side is wholly joined and the other wedged |
| `SdtAgreement.HandshakeCompletes` | acnsrc/sdt/sdt.c:2205-2258 | from every initial state a first JOIN from a channel with a number other than 0 can be completed, with any numbers and MIDs, to all four records msCONNECTED |
| `SdtAgreement.NumberlessNeverJoins` | acnsrc/sdt/sdt.c:2249-2258 | after a first JOIN from a channel with number 0 no continuation sends an ACK from either side or joins either side |
| `SdtAgreement.OfferSucceedsExactly` | acnsrc/sdt/sdt.c:2249-2258 | a first JOIN can lead to an ACK, to a joined side, and to a connected session, each if and only if its channel number is not 0 |
| `SdtHandshake.SucceedsExactly` | acnsrc/sdt/sdt.c:2205-2258 | in every state that can follow a first JOIN with a channel number, both sides can still become msCONNECTED if and only if not both asked first and neither is stuck: wedged, acknowledged before it took the JOIN in return, or connected before it was acknowledged |
| `SdtHandshake.TooSoonHappens` | acnsrc/sdt/sdt.c:2205-2258 | after every such JOIN a run in which the ACK comes before the JOIN in return is taken |
| `SdtHandshake.SilencedHappens` | acnsrc/sdt/sdt.c:3888-3893 | after every such JOIN a run in which a CONNECT comes before the ACK |
| `SdtAgreement.CrossingNeverJoins` | acnsrc/sdt/sdt.c:2249-2258 | after two crossing first JOINs no continuation ever joins either side |
| `SdtAgreement.StepKeeps` | acnsrc/sdt/sdt.c:2205-2258 | the invariant of both records and of all messages on the way, for every step |
| `SdtMid.NextIsFree` | acnsrc/sdt/sdt.c:809-825 | with fewer than 2^16 members the wrapping search ends within one turn, at the first number from its start on that no member holds |
| `SdtMid.GivenExactly` | acnsrc/sdt/sdt.c:809-825 | any identifier is given if and only if it is free and all numbers on the way to it, around the end if need be, are taken |
| `SdtMid.MidsStaySeparate` | acnsrc/sdt/sdt.c:1640-1661 | over all joins, repeated JOINs and deletions no two members of a channel share a non-zero identifier |
| `SdtMid.ZeroNotGiven` | acnsrc/sdt/sdt.c:1658 | a member waiting for its identifier, which holds 0, keeps 0 from being given |
| `SdtMid.ReservedExactly` | acnsrc/sdt/sdt.c:815-824 | for all members and every next number, when 0x7FFF and the broadcast value 0xFFFF are given, in spite of the reset at 0x7FFF |
| `SdtMid.ReservedHappens` | acnsrc/sdt/sdt.c:815-824 | runs from the start of a channel, never with more than two members, in which they are given |
| `SdtMembers.MemberPool.NextMember` | acnsrc/sdt/sdt.c:809-825 | the loop over the list returns that number and moves the channel's next number behind it |
| `SdtMembers.MemberPool.FindByMid` | acnsrc/sdt/sdt.c:831-845 | a member is found exactly when one holds the identifier |
| `SdtMembers.MemberPool.InUseIsListed` | acnsrc/sdt/sdtmem.c:124-152 | a member slot is in use exactly when it is on the list of a channel, and then of one only |
| `SdtMembers.MemberPool.AddMember` | acnsrc/sdt/sdt.c:716-761 | a cleared slot with the start values goes on top of the channel's list, other members are untouched; failure exactly when the pool is used up |
| `SdtMembers.MemberPool.DelMember` | acnsrc/sdt/sdt.c:770-799 | the member leaves its list, its slot is free, and its successor is returned; for a member that is not on the list nothing changes and NULL is returned |
| `SdtMembers.MemberPool.GiveMid` | acnsrc/sdt/sdt.c:1657-1661 | the member gets the next identifier, which is the step of the identifier model, and other channels keep theirs |
| `SdtMembers.MemberPool.Acknowledge` | acnsrc/sdt/sdt.c:3859-3876 | an ACK turns off the timer of its sender's first record on the own channel's list and of no other, if the own record is on the sender's list, and otherwise changes nothing |
| `SdtMembers.MemberPool.TickPass` | acnsrc/sdt/sdt.c:1061-1113 | one pass leaves exactly the members neither marked before nor dropped by their timer, in order and aged once each, sends the leave messages for the dropped ones, and leaves other channels alone |
| `SdtMembers.MemberPool.TickLeader` | acnsrc/sdt/sdt.c:1061-1139 | a whole tick of a locally led channel: the members left, the MAK timer, restart of all timeouts, deletion when empty, and a MAK sent exactly when `SdtRoster.MaksOnTime` counts one |
| `SdtRoster.FollowsTimers` | acnsrc/sdt/sdt.c:1061-1139 | over every run of ticks, ACKs and arrivals, the record of each member on the list and the channel's MAK timer are those of the two-timer model of that member alone, and it is off the list exactly when that model says so |
| `SdtRoster.SilentLeaves` | acnsrc/sdt/sdt.c:1061-1139 | a member that sends no ACK is off the list in time, and with its timer off at one exact tick, whatever the others do |
| `SdtRoster.PromptStaysListed` | acnsrc/sdt/sdt.c:3859-3876 | a member that answers every MAK in time stays on the list with all its retries |
| `SdtRoster.PassDeletes` | acnsrc/sdt/sdt.c:1061-1113 | what a pass does to the identifiers of a list is a series of deletions, so the identifier theorems hold across ticks |
| `SdtRoster.MaksOnTime` | acnsrc/sdt/sdt.c:1118-1139 | while members are listed, a leader sends a MAK in exactly the ticks FirstMak, FirstMak plus one period and so on, whatever is acknowledged and whoever arrives |
| `SdtRoster.TimeoutStartsWithMak` | acnsrc/sdt/sdt.c:1118-1139 | a member's timeout starts in a tick that sends a MAK and in no other |
| `SdtRoster.NoticesExactly` | acnsrc/sdt/sdt.c:1080-1105 | over a whole list: LEAVE for a leader, LEAVING for a member, for exactly the members dropped by their timer, with a disconnect event before it if they were connected, and nothing for those already marked |
| `SdtRoster.StaysExactly` | acnsrc/sdt/sdt.c:1061-1113 | a member stays exactly if it was not marked and its timer does not run out for the last time, and with which timer and retries |
| `SdtRoster.ForeignExpires` | acnsrc/sdt/sdt.c:1080-1105 | a local member of a foreign channel goes with the first expiry, whatever its retries, and without timer stays for ever |
| `SdtTimers.SilentRun` | acnsrc/sdt/sdt.c:1069-1139 | both timers and the number of misses of a silent member after any number of ticks, in closed form |
| `SdtTimers.SilentRemoved` | acnsrc/sdt/sdt.c:1061-1139 | a silent member is removed at one exact tick, at most retries periods and one timeout away, if the timeout takes no more ticks than a MAK period, and is never removed otherwise |
| `SdtTimers.SilentRemovedInTime` | acnsrc/sdt/sdt.c:1061-1139 | the same bound from every state of the timers |
| `SdtTimers.PromptNeverMisses` | acnsrc/sdt/sdt.c:3875-3876 | a member costs no retry exactly if it acknowledges every MAK before its timeout is over |
| `SdtTimers.PromptStays` | acnsrc/sdt/sdt.c:3875-3876 | and such a member is never removed by its timer |
| `SdtTimers.MissesAddUp` | acnsrc/sdt/sdt.c:1080-1095 | misses are counted over the whole membership: acknowledgements in between give no retry back |
| `RlpMem.TxPool.FindFree` | acnsrc/rlp/rlpmem.c:115-134 | the round-robin search returns the first unused buffer on the way around from the one handed out last, and none exactly when all are in use |
| `RlpMem.TxPool.NewTxBuf` | acnsrc/rlp/rlpmem.c:560-597 | a new buffer has one user and a network buffer never given out before; failure exactly without unused buffer or network memory |
| `RlpMem.TxPool.Release` | acnsrc/rlp/rlpmem.c:600-608 | the network buffer goes back exactly with the last use, every one issued is held by one buffer or was given back once; releasing an unused buffer gives nothing back |
| `SdtResend.TickDropsSuffix` | acnsrc/sdt/sdt.c:1149-1177 | expiry times never rise along the list, so a tick keeps a prefix and drops the rest |
| `SdtResend.SavedKeepsOrder` | acnsrc/sdt/sdt.c:4285-4325 | saving a wrapper keeps that order |
| `SdtResend.ResendStore.SaveBuffer` | acnsrc/sdt/sdt.c:4274-4329 | a wrapper goes on top, a full store gives up its oldest entry and that entry's use of its buffer; slots, list and buffer counts stay consistent; with a single slot the list is linked to itself |
| `SdtResend.ResendStore.Tick` | acnsrc/sdt/sdt.c:1149-1177 | every entry ages once, the expired ones leave list, slot and buffer, and all invariants hold again |
| `SdtResend.ResendStore.Acquire` | acnsrc/include/opt.h:721-724 | a new buffer of 1472 octets for the caller, used once and held by no entry; with more buffers than resend slots the pool never runs dry |
| `SdtSend.Sender.SendReliable` | acnsrc/sdt/sdt.c:3125-3170 | a reliable send stamps, saves and releases, and its buffer stays with its owner and the store alone; it fails only without network memory, and then changes no number |
| `SdtSend.Sender.SendUnreliable` | acnsrc/sdt/sdt.c:3040-3084 | an unreliable send leaves the store as it is |
| `SdtSend.Sender.Tick` | acnsrc/sdt/sdt.c:1149-1177 | a tick is the tick of the value model |
| `SdtSend.Sender.BuffersCounted` | acnsrc/sdt/sdt.c:4274-4329 | between calls the use count of every buffer is the number of resend entries naming it |
| `SdtSend.RunKeepsShape` | acnsrc/sdt/sdt.c:1310-1320 | in every run the stored numbers are consecutive, end at the last number sent and lie inside the advertised window, across wrap-around |
| `SdtSend.StoredNumbers` | acnsrc/sdt/sdt.c:1310-1320 | a number can be sent again exactly when it lies at most as far back as the list is long |
| `SdtSend.StoredExactly` | acnsrc/sdt/sdt.c:4285-4325 | a saved wrapper is still stored after any continuation exactly if fewer than SDT_MAX_RESENDS reliable ones followed and its time has not run out, and then stands below those |
| `SdtRepair.NakIsAnswerable` | acnsrc/sdt/sdt.c:4285-4325 | leader with its store, network and member in one run: all numbers a SEQ_NAK asks for are still stored if and only if, since the oldest of them was sent, fewer than SDT_MAX_RESENDS reliable wrappers followed and its timeout has not run out; for members less than 2^32 behind and a store used by this channel alone |
| `RlpWire.HeadReads` | acnsrc/include/acn_arch.h:50-66 | flags and length are read back as written while the length fits 12 bits; longer lengths come out modulo 4096 with no flag lost |
| `RlpWire.ParsePdu` | acnsrc/rlp/rlp.c:724-757 | a PDU that is accepted advances by at least two octets and not past the packet; what is read from it is `RlpSenders.AnyBytesRead` |
| `RlpWire.ParsedInside` | acnsrc/rlp/rlp.c:692-783 | on every byte string each data range and CID handed on lies within the packet |
| `RlpWire.ParseIgnoresSlack` | acnsrc/rlp/rlp.c:735-752 | fields are read up to five octets behind the packet, but what lies there never matters |
| `RlpWire.OptimizedNoLonger` | acnsrc/rlp/rlp.c:361-386 | the optimized packing of any list of PDUs is never longer than the plain one |
| `RlpRoundTrip.RoundTrip` | acnsrc/rlp/rlp.c:332-449 | for every packing and every list of PDUs, parsing the packed block yields the protocols, the owner's CID and the data in order, if and only if no PDU has 4096 octets or more, counted from the data: 22 more for the first PDU, 2 or 6 more for later ones, less what the optimized packing leaves out |
| `RlpRoundTrip.ShortData` | acnsrc/rlp/rlp.c:361-386 | a bound on the data alone under which no PDU is too long in any packing |
| `RlpRoundTrip.OptimizedReadsAlike` | acnsrc/rlp/rlp.c:361-386 | whenever the plain block is read as packed, so is the optimized one, which is never longer |
| `RlpRoundTrip.FirstOctets` | acnsrc/rlp/rlp.c:175-180 | the octets of a block up to the end of its first data, one by one: preamble with "ASC-E1.17", three flags and the length, protocol at 18, CID at 22, data from 38 |
| `Marshal.NetworkOrder32` | acnsrc/include/marshal.h:63-77 | numbers are ordered as their octets, the most significant first |
| `RlpSenders.AnyFlagsRead` | acnsrc/rlp/rlp.c:724-757 | blocks of any sender: after a full first PDU every choice of flags in every further PDU is read so that each delivery has the protocol, the CID and the data of the last PDU up to it that had the field |
| `RlpSenders.AnyBytesRead` | acnsrc/rlp/rlp.c:676-757 | any bytes at all: dropped, or exactly the PDUs are handed on that stand at their start, up to the end or the first place where none stands |
| `RlpPack.InitBlock` | acnsrc/rlp/rlp.c:264-298 | a block starts 38 octets before its first data; a position too low or behind the buffer is refused without effect |
| `RlpPack.AddPdu` | acnsrc/rlp/rlp.c:332-449 | the block grows by exactly the encoding of one PDU, the caller's bytes are stored unchanged even if they overlapped the header space, nothing else in the buffer changes, and the saved position shows the data |
| `RlpPack.Repack` | acnsrc/rlp/rlp.c:246-262 | from any saved data position a block of that PDU alone is built around the data without underrun and without moving it |
| `RlpPack.SendBlock` | acnsrc/rlp/rlp.c:456-471 | what is sent is the encoding of the PDUs added since the block was started |
| `RlpProcess.Dispatch` | acnsrc/rlp/rlpmem.c:437-469 | first and next listener together visit every listener of the protocol once, in list order |
| `RlpProcess.DispatchAll` | acnsrc/rlp/rlp.c:758-781 | without destination address every group of the socket is served |
| `RlpProcess.ReadPdu` | acnsrc/rlp/rlp.c:724-757 | the reading of one PDU with inherited fields agrees with the parser the theorems on senders are about |
| `RlpProcess.ProcessPacket` | acnsrc/rlp/rlp.c:676-785 | the callbacks made for a packet, on any bytes, with and without destination address |
| `RlpProcess.PackedIsHeard` | acnsrc/rlp/rlp.c:676-785 | from packer to listeners: every matching listener is called once per PDU packed, in order, and its pointers show protocol, CID and data |
| `RlpProcess.AnySenderIsHeard` | acnsrc/rlp/rlp.c:676-785 | the same from any sender with any choice of flags after a full first PDU |
| `RlpProcess.HearsExactly` | acnsrc/rlp/rlpmem.c:437-469 | what one listener contributes, at any place in any group and for any PDU of a packet: one call between those before and behind it, exactly if the protocol is its own and it has a callback |
| `RlpProcess.EveryGroupTargeted` | acnsrc/rlp/rlp.c:758-781 | without destination address each group contributes its listeners exactly if it is of the socket, at its place in the list |
| `RlpProcess.OneGroupTargeted` | acnsrc/rlp/rlp.c:710-717 | with one the packet goes to the one group of the socket with that address, all addresses outside 224.0.0.0 to 239.255.255.255 counting as unicast |
| `RlpGroups.GroupList.Find` | acnsrc/rlp/rlpmem.c:268-289 | the first group of socket and normalized address, or none |
| `RlpGroups.GroupList.New` | acnsrc/rlp/rlpmem.c:339-368 | the first group of socket and address if there is one, and then nothing changes; else a new group on top of the list; failure exactly when there is none and all slots are listed |
| `RlpGroups.GroupList.Free` | acnsrc/rlp/rlpmem.c:295-334 | the group leaves list and pool, the others keep their order |
| `RlpGroups.ListenerPool.New` | acnsrc/rlp/rlpmem.c:374-395 | a listener goes on top of its group's list and no other list changes |
| `RlpGroups.ListenerPool.Free` | acnsrc/rlp/rlpmem.c:401-432 | a listener leaves exactly its own group's list |
| `RlpRegistry.Registry.AddListener` | acnsrc/rlp/rlp.c:618-648 | list and requests to the network layer after adding a listener, for every combination of used-up pools, illegal address and failed join |
| `RlpRegistry.Registry.DelListener` | acnsrc/rlp/rlp.c:650-668 | the listener goes, and with the last one its group, which is left exactly if it is multicast |
| `RlpRegistry.AddKeepsSound` | acnsrc/rlp/rlp.c:544-591 | adding keeps: one group per socket and address, each with a listener, joins and leaves alternate, joined are exactly the multicast groups listed |
| `RlpRegistry.DelKeepsSound` | acnsrc/rlp/rlp.c:594-613 | deleting keeps the same |
| `RlpRegistry.RunSound` | acnsrc/rlp/rlp.c:544-668 | all of this after every run of additions and deletions, with any failures on the way |
| `RlpRegistry.GoesWhere` | acnsrc/rlp/rlp.c:554-569 | where a listener goes: addresses from 224.0.0.0 to 239.255.255.255 have groups of their own, 0 and the own address are unicast, any other is refused without effect |
| `SlpRetry.RetrySchedule` | acnsrc/slp/slp.c:1173-1242 | an unanswered request is sent once for each retry, CONFIG_RETRY passes apart, starting behind its delay, and freed in the pass that would be next, for every delay and retry count |
| `SlpRetry.TwoSends` | acnsrc/include/slp.h:85-112 | with the code's constants: passes d+1 and d+21, freed in pass d+41 |
| `SlpRetry.RequestsApart` | acnsrc/slp/slp.c:1173-1242 | requests on one list keep their own schedules |
| `SlpRetry.SendsExactly` | acnsrc/slp/slp.c:1173-1242 | each pass sends exactly the requests whose own schedule says so, once each and in list order |
| `SlpRetry.UnknownIsDropped` | acnsrc/slp/slp.c:1233-1236 | a message of no known type is never sent and freed in the pass after its delay |
| `SlpRetry.MsgPool.TickMessages` | acnsrc/slp/slp.c:1173-1242 | the loop ends although it does not move on after a send, and leaves and sends what the schedule says |
| `SlpRetry.MsgPool.MsgNew` | acnsrc/slp/slp.c:337-353 | a slot is in use exactly when it is on the list; a new message goes on top |
| `SlpRetry.MsgPool.MsgFree` | acnsrc/slp/slp.c:357-382 | the message leaves list and pool, and its successor is returned; for a message that is not on the list nothing changes and NULL is returned |
| `SlpRetry.MsgPool.FindByXid` | acnsrc/slp/slp.c:386-398 | a message is found exactly when its transaction is on the list |
| `DmpAddress.EncodeAddressHeader` | acnsrc/dmp/dmp.c:277-323 | exactly the address octet and the numbers are written, and the next position returned |
| `DmpAddress.Decoder.DecodeAddressHeader` | acnsrc/dmp/dmp.c:328-430 | address, octets used and both remembered addresses, for every octet including the reserved width, as the theorems on lists take them |
| `DmpAddress.EncodeDecode` | acnsrc/dmp/dmp.c:277-430 | encoder and decoder always agree on the octets, and on the address if and only if its start is below 256 and its other numbers fit their width or, for the reserved width, the decoder's structure held the same numbers before |
| `DmpAddress.ListReads` | acnsrc/dmp/dmp.c:328-430 | decoding a list of headers laid out in a buffer, address after address into one structure, reads what the list means, at every place in every buffer and with all widths, where a header means a list of properties (its start, one increment on, and so on, modulo 2^32) and a relative one begins at the last property named before in its space |
| `DmpAddress.EndIsLast` | acnsrc/dmp/dmp.c:421-427 | what is remembered after a range is the last element of the list of its properties, for every increment and number modulo 2^32; after a range of none it is one step before the start |
| `DmpAddress.LastNamed` | acnsrc/dmp/dmp.c:413-427 | after addresses read from any octets at all, what is remembered of a space is the last property named in it, or what was remembered before if none was |
| `DmpAddress.OctetTable` | acnsrc/include/dmp.h:50-66 | the address octet by its numbers: 0x80 virtual, 0x40 relative, 0x30 the type, 0x03 the width |
| `DmpAddress.RelativeAsAbsolute` | acnsrc/dmp/dmp.c:413-427 | a buffer of relative and absolute headers is read, modulo 2^32, as a buffer with every address in full, and that one is read alike whatever was remembered and whatever the structure held before |
| `DmpAddress.SpacesApart` | acnsrc/dmp/dmp.c:413-427 | the addresses of one space are read alike with those of the other left out of the buffer, if and only if each address of reserved width among them finds the same numbers left by the address before; always, if there is none |
| `McastAlloc.Ffs` | acnsrc/common/mcast_util.c:56-66 | the loop returns the place of the lowest bit |
| `Bits.PlaceAbove` | acnsrc/common/mcast_util.c:56-66 | what that place means for the bits below it |
| `McastAlloc.Allocator.Init` | acnsrc/common/mcast_util.c:76-137 | which scopes are accepted, the three parts that follow, and that a refused scope changes nothing |
| `McastAlloc.Allocator.New` | acnsrc/common/mcast_util.c:138-142 | the address for the counter, which moves on by one |
| `McastAlloc.FieldsApart` | acnsrc/common/mcast_util.c:94-128 | for every mask, scope, host and counter share no bits and the host is shifted by 8 to 14 |
| `McastAlloc.AddressKeeps` | acnsrc/common/mcast_util.c:94-142 | an allocated address keeps the bits of its scope and of its counter |
| `McastAlloc.ScopeExactly` | acnsrc/common/mcast_util.c:94-104 | a scope is refused exactly if under its own mask it keeps one of the 16 low bits; of the mask only six bits are the caller's |
| `McastAlloc.DefaultScope` | acnsrc/common/mcast_util.c:88-93 | the default scope is 239.192.0.0 with 14 bits, always accepted |
| `McastAlloc.HostsApart` | acnsrc/common/mcast_util.c:106-122 | hosts that differ in the last octet of their addresses never allocate the same address from one scope; others do exactly if their counters agree in their field |
| `McastAlloc.FirstExactly` | acnsrc/common/mcast_util.c:126-128 | components of one host begin with the same address exactly if the parts of their CIDs agree in the counter's field |
| `McastAlloc.AllocationsRepeat` | acnsrc/common/mcast_util.c:138-142 | two allocations of a component coincide exactly when their distance is a multiple of 2^HostShift, across wrap-around of the counter |

## Left out

- Sockets, select, locks, logging, statistics and the programs with a keyboard: plumbing; sends are messages in a set or octets returned, handlers are atomic steps.
- Resource failures inside the join handlers (acnsrc/sdt/sdt.c:1711-1715 and others), JOIN_REFUSE, LEAVE, LEAVING and expiry during a handshake: the agreement is about one undisturbed attempt.
- Multicast listeners and destination addresses of channels in the handshake: the two components are taken to hear each other.
- The sequence gate in the handshake model: messages in wrappers arrive in any order there, which is more than the gate allows; of the orders that end a handshake, only a CONNECT before its ACK lies within one channel.
- Deletion of a member marked msDELETE while its handshake goes on: the mark is modelled in the tick only.
- The stubs `sdt_rx_nak`, `sdt_flag_for_resend` and `sdt_tx_resend`: retransmission is redelivery of an old wrapper by the network.
- `sdt_shutdown` and a restart, which leave the resend list in place after freeing its slots.
- `dmp_tx_pdu`, which numbers reliable wrappers without saving them; the list-shape theorem is about a channel whose reliable wrappers are all saved.
- The components' table, deletion of components without channel in `sdt_tick`, and channel slots: channels are taken as the malloc variant gives them.
- The parsing loops of SDT and DMP messages: payloads are messages above RLP; the RLP parser shows the shape.
- Callbacks that change listener lists while a packet is dispatched.
- The DA table and the discovery timer of `slp_tick`, including `da_delete` on giving up: passes are counted as passes of the message loop.
- Answers to SLP requests other than the search for their transaction.
- DMP subscriptions, properties and message queue.
- RlpPack.AddPdu: asks for room in the buffer, because without it the code logs an error and writes behind the buffer.
- RlpRegistry.Registry.DelListener: asks for a listener that was added and not yet deleted, and for the socket of its group, because the code cannot tell a stale pointer.
- RlpRegistry.Registry.AddListener: asks for a non-zero protocol, because a listener for PROTO_NONE looks like a free slot while it is listed.
- SlpRetry.MsgPool.MsgNew: asks for a non-zero transaction number for the same reason.
- SdtResend.ResendStore.SaveBuffer: asks for a buffer that no entry names yet, because the callers save each new buffer once.
- SdtJoin.Endpoint.RxJoin: does not model the refusals for an unsupported address type, for resources and for a dropped unicast destination, nor the sequence numbers a JOIN overwrites, which are in `SdtDelivery`.
- SdtJoin.Endpoint.RxWrapper: takes one message in each wrapper; the code goes through a block of them with one acknowledgement in front.
- Members marked msDELETE or added twice are outside `SdtRoster.FollowsTimers`, which is about a component that is on the list once.
