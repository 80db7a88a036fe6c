/**
  Whole XMODEM transfers: a stop-and-wait sender numbering its blocks from 1, the receiver of
  Xmodem, and a channel that delivers, loses or detectably corrupts packets, and loses replies.
*/
module XmodemRun {
  import opened Bytes
  import opened Arith
  import opened Xmodem

  /** What the sender has to send. */
  predicate Blocks(bs: nat, blocks: seq<seq<byte>>) {
    BlockSize(bs) && forall k :: 0 <= k < |blocks| ==> |blocks[k]| == bs
  }

  function Head(bs: nat, k: nat): seq<byte> {
    [Prefix(bs), (k + 1) % 256, 255 - (k + 1) % 256]
  }

  /** The packet of the k-th block, counted from 0. */
  function PacketOf(bs: nat, blocks: seq<seq<byte>>, k: nat): Rx
    requires k < |blocks|
  {
    Rx(Head(bs, k), blocks[k], [Sum(blocks[k]) % 256])
  }

  /** A copy of the current packet that the receiver can tell from the original. */
  predicate Detectable(bs: nat, k: nat, rx: Rx) {
    var h := rx.head;
    if |h| != 3 then h == [] || h[0] != EOT
    else if h[0] == EOT then false
    else if h[0] != SOH && h[0] != STX then true
    else h[0] == Prefix(bs) && (h[1] != 255 - h[2] || (h == Head(bs, k) && !BodyOk(rx, bs)))
  }

  /** One sending of the current packet: it arrives, and its ACK arrives or not; it is lost; or it arrives corrupted. */
  datatype Event = Intact(ackLost: bool) | Lost | Garbled(rx: Rx)

  /** Receiver state, blocks acknowledged to the sender, blocks the receiver has accepted, and the fatal stop. */
  datatype Sys = Sys(recv: Recv, acked: nat, taken: nat, stopped: bool)

  predicate Active(blocks: seq<seq<byte>>, s: Sys) { !s.stopped && s.acked < |blocks| }

  predicate Admissible(bs: nat, blocks: seq<seq<byte>>, s: Sys, e: Event) {
    e.Garbled? && Active(blocks, s) ==> Detectable(bs, s.acked, e.rx)
  }

  /** What reaches the receiver's header read. */
  function Arrival(bs: nat, blocks: seq<seq<byte>>, s: Sys, e: Event): Rx
    requires Active(blocks, s)
  {
    match e
    case Intact(_) => PacketOf(bs, blocks, s.acked)
    case Lost => Rx([], [], [])
    case Garbled(rx) => rx
  }

  /** What the receiver sends back. */
  function Sent(bs: nat, blocks: seq<seq<byte>>, s: Sys, e: Event): seq<byte>
    requires BlockSize(bs) && s.recv.off % bs == 0 && Active(blocks, s)
  {
    var (r, ret) := RxPacket(s.recv, Arrival(bs, blocks, s, e), bs);
    Reply(ret, r.off)
  }

  /** What of it reaches the sender. */
  function Heard(bs: nat, blocks: seq<seq<byte>>, s: Sys, e: Event): seq<byte>
    requires BlockSize(bs) && s.recv.off % bs == 0 && Active(blocks, s)
  {
    if e.Intact? && e.ackLost then [] else Sent(bs, blocks, s, e)
  }

  /** The sender moves on when it hears the byte 0x06, and otherwise repeats the packet. */
  function Step(bs: nat, blocks: seq<seq<byte>>, s: Sys, e: Event): Sys
    requires BlockSize(bs) && s.recv.off % bs == 0
  {
    if !Active(blocks, s) then s
    else
      var (r, ret) := RxPacket(s.recv, Arrival(bs, blocks, s, e), bs);
      Sys(r, if Heard(bs, blocks, s, e) == [0x06] then s.acked + 1 else s.acked,
          if ret == Ok then s.acked + 1 else s.taken, ret == Fatal)
  }

  /** The first n blocks end to end. */
  function Flat(blocks: seq<seq<byte>>, n: nat): seq<byte>
    requires n <= |blocks|
  {
    if n == 0 then [] else Flat(blocks, n - 1) + blocks[n - 1]
  }

  // ---------------------------------------------------------------- what a rejected duplicate does

  /**
    Clean: the file so far is right.  Pending: the only block was rewound and not yet read again.
    Broken: the offset has fallen behind for good.
  */
  datatype Phase = Clean | Pending | Broken

  /** A repetition of a block already accepted arrives with its header intact and its body not. */
  predicate DuplicateRejected(bs: nat, blocks: seq<seq<byte>>, s: Sys, e: Event) {
    Active(blocks, s) && e.Garbled? && e.rx.head == Head(bs, s.acked) && s.taken == s.acked + 1
  }

  function NextPhase(bs: nat, blocks: seq<seq<byte>>, ph: Phase, s: Sys, e: Event): Phase {
    if DuplicateRejected(bs, blocks, s, e) then
      if s.taken >= 2 then Broken else if ph == Clean then Pending else ph
    else if ph == Pending && Active(blocks, s) && e.Intact? then Clean
    else ph
  }

  ghost predicate Good(blocks: seq<seq<byte>>, s: Sys)
    requires s.taken <= |blocks|
  {
    && s.recv.off == |Flat(blocks, s.taken)| && s.recv.off <= |s.recv.buff|
    && s.recv.buff[..s.recv.off] == Flat(blocks, s.taken)
  }

  ghost predicate Inv(bs: nat, blocks: seq<seq<byte>>, s: Sys, ph: Phase) {
    && Blocks(bs, blocks) && s.recv.off % bs == 0 && s.recv.off <= |s.recv.buff|
    && s.acked <= s.taken <= s.acked + 1 && s.taken <= |blocks|
    && s.recv.last == s.taken % 256 && (s.taken > 0 ==> bs <= |s.recv.buff|)
    && match ph
       case Clean => Good(blocks, s)
       case Pending => s.taken == 1 && s.acked == 0 && s.recv.off == 0
       case Broken => s.taken >= 2 && s.recv.off + bs <= |Flat(blocks, s.taken)|
  }

  lemma FlatNext(bs: nat, blocks: seq<seq<byte>>, n: nat)
    requires Blocks(bs, blocks) && n < |blocks|
    ensures Flat(blocks, n + 1) == Flat(blocks, n) + blocks[n] && |Flat(blocks, n + 1)| == |Flat(blocks, n)| + bs
  {
  }

  lemma HeadAccepted(bs: nat, k: nat, n: nat, last: byte)
    requires BlockSize(bs) && last == n % 256 && (n == k || n == k + 1)
    ensures HeadOk(last, Head(bs, k), bs)
    ensures Head(bs, k)[1] == last <==> n == k + 1
  {
  }

  /** A new block, intact: appended, or refused for lack of room. */
  lemma NewIntact(bs: nat, blocks: seq<seq<byte>>, s: Sys, ph: Phase, e: Event)
    requires Inv(bs, blocks, s, ph) && Active(blocks, s) && s.taken == s.acked && e.Intact?
    ensures Inv(bs, blocks, Step(bs, blocks, s, e), NextPhase(bs, blocks, ph, s, e))
  {
    var k := s.acked;
    HeadAccepted(bs, k, s.taken, s.recv.last);
    FlatNext(bs, blocks, k);
    Forward(s.recv.off, bs);
    assert Read(blocks[k], bs) == blocks[k];
    var t := Step(bs, blocks, s, e);
    if !t.stopped && ph == Clean {
      assert t.recv.buff[..t.recv.off] == s.recv.buff[..s.recv.off] + blocks[k];
    }
  }

  /** What a repetition that arrives does to the receiver: the block is read again over its own place. */
  lemma AgainStep(bs: nat, blocks: seq<seq<byte>>, s: Sys, ph: Phase, e: Event) returns (at: nat, t: Sys)
    requires Inv(bs, blocks, s, ph) && Active(blocks, s) && s.taken == s.acked + 1 && e.Intact?
    ensures at == (if s.recv.off > 0 then s.recv.off - bs else 0) && at % bs == 0 && (at + bs) % bs == 0
    ensures at + bs <= |s.recv.buff| && |blocks[s.acked]| == bs
    ensures t == Step(bs, blocks, s, e)
    ensures t.recv == Recv(at + bs, s.recv.last, Write(s.recv.buff, at, blocks[s.acked]))
    ensures !t.stopped && t.taken == s.taken && t.acked == if e.ackLost then s.acked else s.acked + 1
  {
    HeadAccepted(bs, s.acked, s.taken, s.recv.last);
    assert Read(blocks[s.acked], bs) == blocks[s.acked];
    at := 0;
    if s.recv.off > 0 {
      Back(s.recv.off, bs);
      at := s.recv.off - bs;
    }
    Forward(at, bs);
    t := Step(bs, blocks, s, e);
  }

  lemma WrittenEnd(buff: seq<byte>, at: nat, block: seq<byte>)
    requires at + |block| <= |buff|
    ensures Write(buff, at, block)[..at + |block|] == buff[..at] + block
  {
  }

  /** A block sent again, intact: read over itself. */
  lemma AgainIntact(bs: nat, blocks: seq<seq<byte>>, s: Sys, ph: Phase, e: Event)
    requires Inv(bs, blocks, s, ph) && Active(blocks, s) && s.taken == s.acked + 1 && e.Intact?
    ensures Inv(bs, blocks, Step(bs, blocks, s, e), NextPhase(bs, blocks, ph, s, e))
  {
    var k := s.acked;
    var at, t := AgainStep(bs, blocks, s, ph, e);
    FlatNext(bs, blocks, k);
    WrittenEnd(s.recv.buff, at, blocks[k]);
    if ph == Clean {
      assert s.recv.buff[..at] == s.recv.buff[..s.recv.off][..at] == Flat(blocks, k);
    } else if ph == Pending {
      assert Flat(blocks, 0) == [] == s.recv.buff[..0];
    } else if s.recv.off == 0 {
      FlatNext(bs, blocks, k - 1);
    }
  }

  /** A corrupted copy: rejected; a new block changes nothing that counts, a repeated one costs its place. */
  lemma GarbledKeeps(bs: nat, blocks: seq<seq<byte>>, s: Sys, ph: Phase, e: Event)
    requires Inv(bs, blocks, s, ph) && Active(blocks, s) && e.Garbled? && Detectable(bs, s.acked, e.rx)
    ensures Inv(bs, blocks, Step(bs, blocks, s, e), NextPhase(bs, blocks, ph, s, e))
  {
    var k := s.acked;
    HeadAccepted(bs, k, s.taken, s.recv.last);
    FlatNext(bs, blocks, k);
    if s.recv.off > 0 {
      Back(s.recv.off, bs);
    }
    var t := Step(bs, blocks, s, e);
    assert t.taken == s.taken;
    if e.rx.head == Head(bs, k) && s.taken == k && ph == Clean {
      assert t.recv.buff[..t.recv.off] == s.recv.buff[..s.recv.off];
    }
  }

  lemma StepKeeps(bs: nat, blocks: seq<seq<byte>>, s: Sys, ph: Phase, e: Event)
    requires Inv(bs, blocks, s, ph) && Admissible(bs, blocks, s, e)
    ensures Inv(bs, blocks, Step(bs, blocks, s, e), NextPhase(bs, blocks, ph, s, e))
  {
    if Active(blocks, s) {
      match e
      case Intact(_) =>
        if s.taken == s.acked { NewIntact(bs, blocks, s, ph, e); } else { AgainIntact(bs, blocks, s, ph, e); }
      case Lost =>
      case Garbled(_) => GarbledKeeps(bs, blocks, s, ph, e);
    }
  }

  // ---------------------------------------------------------------- runs

  function Start(buff: seq<byte>): Sys { Sys(Recv(0, 0, buff), 0, 0, false) }

  /** State and phase after a run of events. */
  function Run(bs: nat, blocks: seq<seq<byte>>, buff: seq<byte>, run: seq<Event>): (r: (Sys, Phase))
    requires BlockSize(bs)
    ensures r.0.recv.off % bs == 0
  {
    if run == [] then (Start(buff), Clean)
    else
      var n := |run| - 1;
      var (s, ph) := Run(bs, blocks, buff, run[..n]);
      if Active(blocks, s) then RxPacketAligned(s.recv, Arrival(bs, blocks, s, run[n]), bs);
        (Step(bs, blocks, s, run[n]), NextPhase(bs, blocks, ph, s, run[n]))
      else (s, ph)
  }

  /** Every corrupted arrival of the run is detectable. */
  predicate Channel(bs: nat, blocks: seq<seq<byte>>, buff: seq<byte>, run: seq<Event>)
    requires BlockSize(bs)
  {
    run == [] || (Channel(bs, blocks, buff, run[..|run| - 1])
                  && Admissible(bs, blocks, Run(bs, blocks, buff, run[..|run| - 1]).0, run[|run| - 1]))
  }

  lemma {:induction false} RunKeeps(bs: nat, blocks: seq<seq<byte>>, buff: seq<byte>, run: seq<Event>)
    requires Blocks(bs, blocks) && Channel(bs, blocks, buff, run)
    ensures Inv(bs, blocks, Run(bs, blocks, buff, run).0, Run(bs, blocks, buff, run).1)
    ensures |Run(bs, blocks, buff, run).0.recv.buff| == |buff|
  {
    if run == [] {
    } else {
      var n := |run| - 1;
      RunKeeps(bs, blocks, buff, run[..n]);
      var (s, ph) := Run(bs, blocks, buff, run[..n]);
      StepKeeps(bs, blocks, s, ph, run[n]);
      if Active(blocks, s) {
        RxPacketAligned(s.recv, Arrival(bs, blocks, s, run[n]), bs);
      }
    }
  }

  /**
    After every run: the last block number is the number of accepted blocks modulo 256, the
    sender is at most one block behind, and the received file is exactly the accepted blocks if
    and only if no repetition of the second or a later block was rejected, and a rejected
    repetition of the first was followed by one that arrived.
  */
  lemma TransferExact(bs: nat, blocks: seq<seq<byte>>, buff: seq<byte>, run: seq<Event>)
    requires Blocks(bs, blocks) && Channel(bs, blocks, buff, run)
    ensures var (s, ph) := Run(bs, blocks, buff, run);
            && s.acked <= s.taken <= s.acked + 1 && s.taken <= |blocks| && s.recv.last == s.taken % 256
            && s.recv.off <= |s.recv.buff| == |buff|
            && (Good(blocks, s) <==> ph == Clean)
  {
    RunKeeps(bs, blocks, buff, run);
    var (s, ph) := Run(bs, blocks, buff, run);
    if ph == Pending {
      FlatNext(bs, blocks, 0);
    }
  }

  /** No accepted block's repetition is ever rejected. */
  predicate NoRejectedDuplicate(bs: nat, blocks: seq<seq<byte>>, buff: seq<byte>, run: seq<Event>)
    requires BlockSize(bs)
  {
    run == [] || (NoRejectedDuplicate(bs, blocks, buff, run[..|run| - 1])
                  && !DuplicateRejected(bs, blocks, Run(bs, blocks, buff, run[..|run| - 1]).0, run[|run| - 1]))
  }

  lemma {:induction false} StaysClean(bs: nat, blocks: seq<seq<byte>>, buff: seq<byte>, run: seq<Event>)
    requires BlockSize(bs) && NoRejectedDuplicate(bs, blocks, buff, run)
    ensures Run(bs, blocks, buff, run).1 == Clean
  {
    if run == [] {
    } else {
      StaysClean(bs, blocks, buff, run[..|run| - 1]);
    }
  }

  /** Without rejected repetitions the file is right throughout, and complete when the last block is acknowledged. */
  lemma TransferSafe(bs: nat, blocks: seq<seq<byte>>, buff: seq<byte>, run: seq<Event>)
    requires Blocks(bs, blocks) && Channel(bs, blocks, buff, run) && NoRejectedDuplicate(bs, blocks, buff, run)
    ensures var s := Run(bs, blocks, buff, run).0;
            && s.taken <= |blocks| && Good(blocks, s)
            && (s.acked == |blocks| ==> s.recv.off <= |s.recv.buff| && s.recv.buff[..s.recv.off] == Flat(blocks, |blocks|))
  {
    TransferExact(bs, blocks, buff, run);
    StaysClean(bs, blocks, buff, run);
  }

  // ---------------------------------------------------------------- the same run, as the receiver sees it

  /** What reaches the receiver in a run. */
  function Arrivals(bs: nat, blocks: seq<seq<byte>>, buff: seq<byte>, run: seq<Event>): seq<Rx>
    requires BlockSize(bs)
  {
    if run == [] then []
    else
      var n := |run| - 1;
      var s := Run(bs, blocks, buff, run[..n]).0;
      Arrivals(bs, blocks, buff, run[..n]) + if Active(blocks, s) then [Arrival(bs, blocks, s, run[n])] else []
  }

  /** What the receiver sends in a run. */
  function Replies(bs: nat, blocks: seq<seq<byte>>, buff: seq<byte>, run: seq<Event>): seq<byte>
    requires BlockSize(bs)
  {
    if run == [] then []
    else
      var n := |run| - 1;
      var s := Run(bs, blocks, buff, run[..n]).0;
      Replies(bs, blocks, buff, run[..n]) + if Active(blocks, s) then Sent(bs, blocks, s, run[n]) else []
  }

  lemma NoEnd(bs: nat, blocks: seq<seq<byte>>, s: Sys, e: Event)
    requires Blocks(bs, blocks) && s.recv.off % bs == 0 && Active(blocks, s) && Admissible(bs, blocks, s, e)
    ensures RxPacket(s.recv, Arrival(bs, blocks, s, e), bs).1 != End
  {
  }

  /** The receiver, given what arrives in the run, ends in the run's state and sends what the sender listens to. */
  lemma {:induction false} RunIsReceiver(bs: nat, blocks: seq<seq<byte>>, buff: seq<byte>, run: seq<Event>)
    requires Blocks(bs, blocks) && Channel(bs, blocks, buff, run)
    ensures var s := Run(bs, blocks, buff, run).0;
      var (r, ret, out) := RxRun(Recv(0, 0, buff), Arrivals(bs, blocks, buff, run), bs);
      && r == s.recv && out == Replies(bs, blocks, buff, run) && ret != End && (ret == Fatal <==> s.stopped)
  {
    if run == [] {
    } else {
      var n := |run| - 1;
      RunIsReceiver(bs, blocks, buff, run[..n]);
      var s := Run(bs, blocks, buff, run[..n]).0;
      if Active(blocks, s) {
        NoEnd(bs, blocks, s, run[n]);
        MoreInput(Recv(0, 0, buff), Arrivals(bs, blocks, buff, run[..n]), Arrival(bs, blocks, s, run[n]), bs);
      } else {
        assert Arrivals(bs, blocks, buff, run[..n]) + [] == Arrivals(bs, blocks, buff, run[..n]);
        assert Replies(bs, blocks, buff, run[..n]) + [] == Replies(bs, blocks, buff, run[..n]);
      }
    }
  }

  lemma MoreInput(s: Recv, input: seq<Rx>, rx: Rx, bs: nat)
    requires BlockSize(bs) && s.off % bs == 0 && RxRun(s, input, bs).1 != End && RxRun(s, input, bs).1 != Fatal
    ensures var (t, _, out) := RxRun(s, input, bs);
      var (u, ret) := RxPacket(t, rx, bs);
      RxRun(s, input + [rx], bs) == (u, ret, out + Reply(ret, u.off))
  {
    var all := input + [rx];
    assert all[..|input|] == input && all[..|input| + 1] == all;
    Xmodem.RunStep(s, all, bs, |input|);
  }

  lemma {:induction false} StoppedShort(bs: nat, blocks: seq<seq<byte>>, buff: seq<byte>, run: seq<Event>)
    requires BlockSize(bs)
    ensures Run(bs, blocks, buff, run).0.stopped ==> Run(bs, blocks, buff, run).0.acked < |blocks|
  {
    if run == [] {
    } else {
      StoppedShort(bs, blocks, buff, run[..|run| - 1]);
    }
  }

  /**
    The whole transfer: when the sender has heard all blocks acknowledged and sends the end mark, the receiver's
    loop ends there, acknowledges it, and has the file in its buffer.
  */
  lemma TransferReceived(bs: nat, blocks: seq<seq<byte>>, buff: seq<byte>, run: seq<Event>)
    requires Blocks(bs, blocks) && Channel(bs, blocks, buff, run) && NoRejectedDuplicate(bs, blocks, buff, run)
    requires Run(bs, blocks, buff, run).0.acked == |blocks|
    ensures var input := Arrivals(bs, blocks, buff, run) + [Rx([0x04], [], [])];
      var (r, ret, out) := RxRun(Recv(0, 0, buff), input, bs);
      && ret == End && out == Replies(bs, blocks, buff, run) + [0x06]
      && r.off <= |r.buff| && r.buff[..r.off] == Flat(blocks, |blocks|)
  {
    RunIsReceiver(bs, blocks, buff, run);
    TransferSafe(bs, blocks, buff, run);
    StoppedShort(bs, blocks, buff, run);
    MoreInput(Recv(0, 0, buff), Arrivals(bs, blocks, buff, run), Rx([0x04], [], []), bs);
  }

  /** The second block arrives, its ACK is lost, and its repetition is damaged in the checksum. */
  function BreakingRun(bs: nat, block: seq<byte>): seq<Event> {
    [Intact(false), Intact(true), Garbled(Rx(Head(bs, 1), block, [(Sum(block) + 1) % 256]))]
  }

  lemma RunStep(bs: nat, blocks: seq<seq<byte>>, buff: seq<byte>, run: seq<Event>, e: Event)
    requires BlockSize(bs)
    ensures var (s, ph) := Run(bs, blocks, buff, run);
      && (Active(blocks, s) ==>
           Run(bs, blocks, buff, run + [e]) == (Step(bs, blocks, s, e), NextPhase(bs, blocks, ph, s, e)))
      && Channel(bs, blocks, buff, run + [e]) == (Channel(bs, blocks, buff, run) && Admissible(bs, blocks, s, e))
  {
    assert (run + [e])[..|run|] == run;
  }

  lemma DamagedRepetition(bs: nat, blocks: seq<seq<byte>>, s: Sys, e: Event)
    requires Blocks(bs, blocks) && Active(blocks, s) && s.acked == 1 && s.taken == 2
    requires e == BreakingRun(bs, blocks[1])[2]
    ensures Admissible(bs, blocks, s, e) && NextPhase(bs, blocks, Clean, s, e) == Broken
  {
    assert Read(blocks[1], bs) == blocks[1];
    assert !BodyOk(e.rx, bs);
  }

  /** Nothing that arrives later mends a broken file: the offset stays behind. */
  lemma {:induction false} BrokenForGood(bs: nat, blocks: seq<seq<byte>>, buff: seq<byte>, run: seq<Event>, later: seq<Event>)
    requires Blocks(bs, blocks) && Run(bs, blocks, buff, run).1 == Broken && Channel(bs, blocks, buff, run + later)
    ensures var (s, ph) := Run(bs, blocks, buff, run + later);
      ph == Broken && s.taken <= |blocks| && !Good(blocks, s)
    decreases |later|
  {
    if later == [] {
      assert run + later == run;
    } else {
      var n := |later| - 1;
      assert (run + later)[..|run + later| - 1] == run + later[..n];
      BrokenForGood(bs, blocks, buff, run, later[..n]);
    }
    TransferExact(bs, blocks, buff, run + later);
  }

  /** Every file of two blocks or more can be broken: the channel is the assumed one, and the file is wrong for good. */
  lemma RejectedRepetitionBreaks(bs: nat, blocks: seq<seq<byte>>, buff: seq<byte>)
    requires Blocks(bs, blocks) && |blocks| >= 2 && |buff| >= 2 * bs
    ensures var run := BreakingRun(bs, blocks[1]);
      var (s, ph) := Run(bs, blocks, buff, run);
      Channel(bs, blocks, buff, run) && ph == Broken && s.taken <= |blocks| && !Good(blocks, s)
  {
    var run, two := BreakingRun(bs, blocks[1]), [Intact(false), Intact(true)];
    assert run == two + [run[2]];
    FirstTwo(bs, blocks, buff);
    RunStep(bs, blocks, buff, two, run[2]);
    DamagedRepetition(bs, blocks, Run(bs, blocks, buff, two).0, run[2]);
    TransferExact(bs, blocks, buff, run);
  }

  lemma FirstTwo(bs: nat, blocks: seq<seq<byte>>, buff: seq<byte>)
    requires Blocks(bs, blocks) && |blocks| >= 2 && |buff| >= 2 * bs
    ensures var b := [Intact(false), Intact(true)];
      var (s, ph) := Run(bs, blocks, buff, b);
      Channel(bs, blocks, buff, b) && ph == Clean && !s.stopped && s.acked == 1 && s.taken == 2
  {
    var e0, e1 := Intact(false), Intact(true);
    assert [e0] == [] + [e0] && [e0, e1] == [e0] + [e1];
    RunStep(bs, blocks, buff, [], e0);
    RunStep(bs, blocks, buff, [e0], e1);
    Forward(0, bs);
    AcceptedNew(bs, blocks, Start(buff), e0);
    AcceptedNew(bs, blocks, Run(bs, blocks, buff, [e0]).0, e1);
  }

  /** A new block that arrives intact and fits is accepted. */
  lemma AcceptedNew(bs: nat, blocks: seq<seq<byte>>, s: Sys, e: Event)
    requires Blocks(bs, blocks) && Active(blocks, s) && s.taken == s.acked && s.recv.last == s.acked % 256
    requires e.Intact? && s.recv.off % bs == 0 && s.recv.off + bs <= |s.recv.buff|
    ensures var t := Step(bs, blocks, s, e);
      && !t.stopped && t.taken == s.acked + 1 && t.acked == (if e.ackLost then s.acked else s.acked + 1)
      && t.recv.off == s.recv.off + bs && t.recv.last == (s.acked + 1) % 256 && |t.recv.buff| == |s.recv.buff|
  {
    HeadAccepted(bs, s.acked, s.taken, s.recv.last);
    assert Read(blocks[s.acked], bs) == blocks[s.acked];
  }
}
