/**
  The XMODEM receiver (src/storage/protocol/xmodem.c) in sum mode, against a stop-and-wait sender
  over a channel that loses and corrupts.  Section 7.3 of Forsberg's XMODEM/YMODEM Protocol
  Reference is the sender's side.

  All packets of a transfer have one block size.
*/
module Xmodem {
  import opened Bytes
  import opened Arith

  const SOH: byte := 0x01
  const STX: byte := 0x02
  const EOT: byte := 0x04
  const ACK: byte := 0x06
  const NAK: byte := 0x15

  /** What the reads for header, data and checksum can get before their timeouts. */
  datatype Rx = Rx(head: seq<byte>, data: seq<byte>, sum: seq<byte>)

  datatype Ret = Ok | Error | Fatal | Timeout | End

  /** The parameters the receiver updates, and the file buffer. */
  datatype Recv = Recv(off: nat, last: byte, buff: seq<byte>)

  predicate BlockSize(bs: nat) { bs == 128 || bs == 1024 }

  function Prefix(bs: nat): byte { if bs == 128 then SOH else STX }

  /** The header does not announce the other block size. */
  predicate Uniform(rx: Rx, bs: nat) {
    |rx.head| == 3 && rx.head[0] != EOT && (rx.head[0] == SOH || rx.head[0] == STX) ==> rx.head[0] == Prefix(bs)
  }

  /** At most n bytes of what arrived. */
  function Read(bytes: seq<byte>, n: nat): (r: seq<byte>)
    ensures |r| <= n && |r| <= |bytes|
  {
    if |bytes| <= n then bytes else bytes[..n]
  }

  /** The header is complete, well formed and its number is the last block's or the next one's. */
  predicate HeadOk(last: byte, head: seq<byte>, bs: nat) {
    && |head| == 3 && head[0] == Prefix(bs) && head[1] == 255 - head[2]
    && (head[1] == last || head[1] == (last + 1) % 256)
  }

  /** Data and checksum are complete and agree. */
  predicate BodyOk(rx: Rx, bs: nat) {
    |Read(rx.data, bs)| == bs && rx.sum != [] && rx.sum[0] == Sum(Read(rx.data, bs)) % 256
  }

  /** Where the block with this number goes: a repeated block is read again over itself. */
  function Rewound(s: Recv, block: byte, bs: nat): nat
    requires bs > 0 && s.off % bs == 0
  {
    if s.off > 0 && block == s.last then MultipleAtLeast(s.off, bs); s.off - bs else s.off
  }

  lemma MultipleAtLeast(x: nat, m: nat)
    requires m > 0 && x % m == 0
    ensures x > 0 ==> x >= m
  {
    if x > 0 {
      DivModUnique(0, 0, m, 0);
      MultiplesApart(0, x, m);
    }
  }

  /** _xmodem_rx_packet */
  function RxPacket(s: Recv, rx: Rx, bs: nat): (Recv, Ret)
    requires BlockSize(bs) && s.off % bs == 0
  {
    if |rx.head| >= 1 && rx.head[0] == EOT then (s, End)
    else if |rx.head| != 3 then (s, if rx.head == [] then Timeout else Error)
    else if !HeadOk(s.last, rx.head, bs) then (s, Error)
    else RxBody(s.(off := Rewound(s, rx.head[1], bs)), rx, bs)
  }

  /** The rest of a packet with an accepted header, the offset being rewound already. */
  function RxBody(s: Recv, rx: Rx, bs: nat): (Recv, Ret)
    requires |rx.head| == 3
  {
    if s.off + bs > |s.buff| then (s, Fatal)
    else
      var b := Write(s.buff, s.off, Read(rx.data, bs));
      if BodyOk(rx, bs) then (Recv(s.off + bs, rx.head[1], b), Ok)
      else (Recv(s.off, s.last, b), Error)
  }

  // ---------------------------------------------------------------- the receiver in place

  /** Taking a byte off the checksum instead of adding it to the sum. */
  lemma CountDown(checksum: nat, sum: nat, b: byte)
    ensures ((checksum - b) % 256 + (sum + b)) % 256 == (checksum + sum) % 256
  {
    var q := (checksum - b) / 256;
    assert (checksum - b) % 256 + (sum + b) == (checksum + sum) - 256 * q;
  }

  lemma CountedDown(checksum: nat, sum: nat, b: byte)
    requires checksum < 256 && (checksum + sum) % 256 == b
    ensures checksum == 0 <==> b == sum % 256
  {
  }

  class Receiver {
    const blockSize: nat
    const buff: array<byte>
    var off: nat
    var last: byte

    predicate Valid()
      reads this
    {
      BlockSize(blockSize) && off % blockSize == 0
    }

    function Abs(): Recv
      reads this, buff
    {
      Recv(off, last, buff[..])
    }

    constructor (blockSize: nat, buff: array<byte>)
      requires BlockSize(blockSize)
      ensures Valid() && this.blockSize == blockSize && this.buff == buff && off == 0 && last == 0
    {
      this.blockSize, this.buff, off, last := blockSize, buff, 0, 0;
    }

    /** _xmodem_checksum in sum mode: subtract every byte from the checksum read, in eight bits. */
    method Checksum(sum: seq<byte>, at: nat, ghost data: seq<byte>) returns (ok: bool)
      requires at + blockSize <= buff.Length && data == buff[at..at + blockSize]
      ensures ok <==> sum != [] && sum[0] == Sum(data) % 256
    {
      if sum == [] {
        return false;
      }
      var checksum: nat := sum[0];
      for i := 0 to blockSize
        invariant data == buff[at..at + blockSize] && checksum < 256
        invariant (checksum + Sum(data[..i])) % 256 == sum[0]
      {
        SumStep(data, i);
        CountDown(checksum, Sum(data[..i]), data[i]);
        checksum := (checksum - buff[at + i]) % 256;
      }
      assert data[..blockSize] == data;
      CountedDown(checksum, Sum(data), sum[0]);
      ok := checksum == 0;
    }

    /** _xmodem_rx_packet */
    method Packet(rx: Rx) returns (ret: Ret)
      requires Valid() && Uniform(rx, blockSize)
      modifies this, buff
      ensures Valid()
      ensures RxPacket(old(Abs()), rx, blockSize) == (Abs(), ret)
    {
      if |rx.head| >= 1 && rx.head[0] == EOT {
        return End;
      }
      if |rx.head| != 3 {
        return if |rx.head| == 0 then Timeout else Error;
      }
      if rx.head[0] != SOH && rx.head[0] != STX {
        return Error;
      }
      if rx.head[1] != 255 - rx.head[2] {
        return Error;
      }
      var nextBlock := (last + 1) % 256;
      if rx.head[1] != last && rx.head[1] != nextBlock {
        return Error;
      }
      if off > 0 && rx.head[1] == last {
        Back(off, blockSize);
        off := off - blockSize;
      }
      ret := Body(rx);
    }

    /** Data and checksum (lines 209-228). */
    method Body(rx: Rx) returns (ret: Ret)
      requires Valid() && |rx.head| == 3
      modifies this, buff
      ensures Valid()
      ensures RxBody(old(Abs()), rx, blockSize) == (Abs(), ret)
    {
      if off + blockSize > buff.Length {
        return Fatal;
      }
      var part := Read(rx.data, blockSize);
      Receive(off, part);
      if |part| != blockSize {
        return Error;
      }
      var ok := Checksum(rx.sum, off, part);
      if !ok {
        return Error;
      }
      Forward(off, blockSize);
      off := off + blockSize;
      last := rx.head[1];
      return Ok;
    }

    /** The read straight into the file buffer. */
    method Receive(at: nat, part: seq<byte>)
      requires at + |part| <= buff.Length
      modifies buff
      ensures buff[..] == Write(old(buff[..]), at, part) && buff[at..at + |part|] == part
    {
      forall i | 0 <= i < |part| {
        buff[at + i] := part[i];
      }
    }

    /** _xmodem_rx: packets until the end of the transmission or a fatal error; the replies sent. */
    method Run(input: seq<Rx>) returns (ret: Ret, replies: seq<byte>)
      requires Valid() && forall i :: 0 <= i < |input| ==> Uniform(input[i], blockSize)
      modifies this, buff
      ensures Valid()
      ensures (Abs(), ret, replies) == RxRun(old(Abs()), input, blockSize)
    {
      ret, replies := Ok, [];
      var i := 0;
      while i < |input| && ret != End && ret != Fatal
        invariant Valid() && i <= |input|
        invariant (Abs(), ret, replies) == RxRun(old(Abs()), input[..i], blockSize)
      {
        RunStep(old(Abs()), input, blockSize, i);
        ret := Packet(input[i]);
        match ret {
          case Ok | End => replies := replies + [ACK];
          case Error => replies := replies + [NAK];
          case Timeout => replies := replies + [if off > 0 then NAK else START];
          case Fatal => assert replies + [] == replies;
        }
        i := i + 1;
      }
      if i < |input| {
        RunStops(old(Abs()), input, blockSize, i);
      } else {
        assert input[..i] == input;
      }
    }
  }

  /** XMODEM_STARTCH_XMODEM */
  const START: byte := 0x15

  lemma Back(x: nat, m: nat)
    requires m > 0 && x > 0 && x % m == 0
    ensures x >= m && (x - m) % m == 0
  {
    MultipleAtLeast(x, m);
    DivModId(x, m);
    MulMonotone(1, x / m, m);
    assert x - m == (x / m - 1) * m;
    DivModUnique(x - m, x / m - 1, m, 0);
  }

  lemma Forward(x: nat, m: nat)
    requires m > 0 && x % m == 0
    ensures (x + m) % m == 0
  {
    DivModId(x, m);
    DivModUnique(x + m, x / m + 1, m, 0);
  }

  lemma RxPacketAligned(s: Recv, rx: Rx, bs: nat)
    requires BlockSize(bs) && s.off % bs == 0
    ensures RxPacket(s, rx, bs).0.off % bs == 0 && |RxPacket(s, rx, bs).0.buff| == |s.buff|
  {
    if s.off > 0 {
      Back(s.off, bs);
    }
    Forward(s.off, bs);
  }

  function Reply(ret: Ret, off: nat): seq<byte> {
    match ret
    case Ok | End => [ACK]
    case Error => [NAK]
    case Timeout => [if off > 0 then NAK else START]
    case Fatal => []
  }

  function RxRun(s: Recv, input: seq<Rx>, bs: nat): (r: (Recv, Ret, seq<byte>))
    requires BlockSize(bs) && s.off % bs == 0
    ensures r.0.off % bs == 0
  {
    if input == [] then (s, Ok, [])
    else
      var n := |input| - 1;
      var (t, ret, out) := RxRun(s, input[..n], bs);
      if ret == End || ret == Fatal then (t, ret, out)
      else
        RxPacketAligned(t, input[n], bs);
        var (u, ret') := RxPacket(t, input[n], bs);
        (u, ret', out + Reply(ret', u.off))
  }

  lemma RunStep(s: Recv, input: seq<Rx>, bs: nat, i: nat)
    requires BlockSize(bs) && s.off % bs == 0 && i < |input|
    ensures var (t, ret, out) := RxRun(s, input[..i], bs);
            ret != End && ret != Fatal ==>
              var (u, ret') := RxPacket(t, input[i], bs);
              RxRun(s, input[..i + 1], bs) == (u, ret', out + Reply(ret', u.off))
  {
    assert input[..i + 1][..i] == input[..i];
  }

  lemma {:induction false} RunStops(s: Recv, input: seq<Rx>, bs: nat, i: nat)
    requires BlockSize(bs) && s.off % bs == 0 && i <= |input|
    requires RxRun(s, input[..i], bs).1 == End || RxRun(s, input[..i], bs).1 == Fatal
    ensures RxRun(s, input, bs) == RxRun(s, input[..i], bs)
    decreases |input|
  {
    if i < |input| {
      assert input[..|input| - 1][..i] == input[..i];
      RunStops(s, input[..|input| - 1], bs, i);
    } else {
      assert input[..i] == input;
    }
  }

  // ---------------------------------------------------------------- what the sender sees

  /** The packet is accepted in state t: header, block number, room, data and checksum are all in order. */
  predicate Accepted(t: Recv, rx: Rx, bs: nat)
    requires BlockSize(bs) && t.off % bs == 0
  {
    && |rx.head| == 3 && rx.head[0] == (if bs == 128 then 0x01 else 0x02) && rx.head[1] == 255 - rx.head[2]
    && (rx.head[1] == t.last || rx.head[1] == (t.last + 1) % 256)
    && !TooLarge(t, rx, bs)
    && |rx.data| >= bs && rx.sum != [] && rx.sum[0] == Sum(rx.data[..bs]) % 256
  }

  /** The header is accepted, and there is no room for the block where it would go. */
  predicate TooLarge(t: Recv, rx: Rx, bs: nat)
    requires BlockSize(bs) && t.off % bs == 0
  {
    && |rx.head| == 3 && rx.head[0] == (if bs == 128 then 0x01 else 0x02) && rx.head[1] == 255 - rx.head[2]
    && (rx.head[1] == t.last || rx.head[1] == (t.last + 1) % 256)
    && (if rx.head[1] == t.last && t.off > 0 then t.off else t.off + bs) > |t.buff|
  }

  lemma PacketOutcome(t: Recv, rx: Rx, bs: nat)
    requires BlockSize(bs) && t.off % bs == 0
    ensures var (u, ret) := RxPacket(t, rx, bs);
      && (ret == End <==> rx.head != [] && rx.head[0] == 0x04)
      && (ret == Ok <==> Accepted(t, rx, bs)) && (ret == Fatal <==> TooLarge(t, rx, bs))
  {
    assert rx.data[..|rx.data|] == rx.data;
    assert |rx.data| >= bs ==> Read(rx.data, bs) == rx.data[..bs];
    if t.off > 0 {
      Back(t.off, bs);
    }
  }

  /**
    As long as the transfer runs every packet is answered with one byte: 0x06 if it is the end of the transmission
    or is accepted, 0x15 if it is rejected or did not come.  A block without room is not answered, and ends the transfer.
  */
  lemma Answers(s: Recv, input: seq<Rx>, rx: Rx, bs: nat)
    requires BlockSize(bs) && s.off % bs == 0 && RxRun(s, input, bs).1 != End && RxRun(s, input, bs).1 != Fatal
    ensures var (t, _, out) := RxRun(s, input, bs);
      var (u, ret, out') := RxRun(s, input + [rx], bs);
      && out' == out + (if (rx.head != [] && rx.head[0] == 0x04) || Accepted(t, rx, bs) then [0x06]
                        else if TooLarge(t, rx, bs) then [] else [0x15])
      && (ret == End <==> rx.head != [] && rx.head[0] == 0x04) && (ret == Fatal <==> TooLarge(t, rx, bs))
  {
    var all := input + [rx];
    assert all[..|input|] == input && all[..|input| + 1] == all;
    RunStep(s, all, bs, |input|);
    PacketOutcome(RxRun(s, input, bs).0, rx, bs);
  }
}
