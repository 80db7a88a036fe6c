/**
  The receive queue with its two processes: the main line copying bytes out in fifo_read
  (src/data/fifo.c, lines 37-43 and 63-67, called from src/io/serial.c, lines 313-327), one memory
  access at a time, and the receive interrupt writing one byte (src/io/serial.c, lines 397-403)
  between any two of them.

  The availability check at the start of fifo_read reads tail more than once; it is one step here.
*/
module FifoIsr {
  import opened Bytes
  import opened Fifo

  /**
    Where the main line stands: outside the copy loop; before a byte; with head read; with head
    advanced but the byte not loaded; the other way round; with both done; after the comparison
    with size; and after the wrap, about to store the byte.
  */
  datatype Pc =
    | Idle
    | Ready
    | HaveHead(h: nat)
    | Advanced(h: nat)
    | Early(h: nat, b: byte)
    | Both(b: byte)
    | Compared(b: byte, wrap: bool)
    | Settled(b: byte)

  /** The queue's memory, the main line, the serial status flag, and what went in and came out. */
  datatype State = State(buf: seq<byte>, head: nat, tail: nat, pc: Pc, todo: nat, overrun: bool,
                         accepted: seq<byte>, delivered: seq<byte>)

  datatype Move = Begin(sz: nat) | LoadHead | StoreHead | LoadByte | Compare | WrapHead | Deliver | Interrupt(b: byte)

  /** The interrupt: fifo_write of one byte; when it does not fit the overrun flag is set. */
  function Isr(s: State, b: byte): State
    requires s.tail < |s.buf| && s.head <= |s.buf|
  {
    if Free(s.head, s.tail, |s.buf|) < 1 then s.(overrun := true)
    else s.(buf := s.buf[s.tail := b], tail := Wrap(s.tail + 1, |s.buf|), accepted := s.accepted + [b])
  }

  /** One step; a move the main line is not ready for does nothing. */
  function Step(s: State, m: Move): (r: State)
    requires Shape(s)
    ensures Shape(r) && |r.buf| == |s.buf|
  {
    match m
    case Interrupt(b) => Isr(s, b)
    case Begin(sz) =>
      if s.pc == Idle && 0 < sz <= Used(s.head, s.tail, |s.buf|) then s.(pc := Ready, todo := sz) else s
    case LoadHead => if s.pc == Ready then s.(pc := HaveHead(s.head)) else s
    case StoreHead =>
      if s.pc.HaveHead? then s.(head := s.pc.h + 1, pc := Advanced(s.pc.h))
      else if s.pc.Early? then s.(head := s.pc.h + 1, pc := Both(s.pc.b))
      else s
    case LoadByte =>
      if s.pc.HaveHead? then s.(pc := Early(s.pc.h, s.buf[s.pc.h]))
      else if s.pc.Advanced? then s.(pc := Both(s.buf[s.pc.h]))
      else s
    case Compare => if s.pc.Both? then s.(pc := Compared(s.pc.b, s.head >= |s.buf|)) else s
    case WrapHead =>
      if s.pc.Compared? then s.(head := if s.pc.wrap then 0 else s.head, pc := Settled(s.pc.b)) else s
    case Deliver =>
      if s.pc.Settled? && s.todo > 0 then
        s.(delivered := s.delivered + [s.pc.b], todo := s.todo - 1, pc := if s.todo == 1 then Idle else Ready)
      else s
  }

  predicate Shape(s: State) {
    && s.tail < |s.buf| && s.head <= |s.buf|
    && (s.pc.HaveHead? || s.pc.Advanced? || s.pc.Early? ==> s.pc.h < |s.buf|)
    && (s.pc.Idle? || s.pc.Ready? || s.pc.HaveHead? || s.pc.Early? || s.pc.Settled? ==> s.head < |s.buf|)
    && (s.pc.Compared? ==> s.pc.wrap == (s.head == |s.buf|))
  }

  /** The byte the main line has taken out of the queue but not yet delivered. */
  predicate InFlight(pc: Pc) { pc.Advanced? || pc.Both? || pc.Compared? || pc.Settled? }

  /** The bytes accepted that the main line has neither delivered nor in flight. */
  function Waiting(s: State): seq<byte>
    requires |s.delivered| + (if InFlight(s.pc) then 1 else 0) <= |s.accepted|
  {
    s.accepted[|s.delivered| + (if InFlight(s.pc) then 1 else 0)..]
  }

  ghost predicate Inv(s: State) {
    && Shape(s)
    && s.delivered <= s.accepted
    && |s.delivered| + (if InFlight(s.pc) then 1 else 0) <= |s.accepted|
    && Ring(s.buf, s.head, s.tail, Waiting(s))
    && (s.pc != Idle ==> 0 < s.todo <= |Waiting(s)| + (if InFlight(s.pc) then 1 else 0))
    && match s.pc
       case Idle => true
       case Ready => true
       case HaveHead(h) => h == s.head
       case Advanced(h) => s.head == h + 1 && s.buf[h] == s.accepted[|s.delivered|]
       case Early(h, b) => h == s.head && b == s.accepted[|s.delivered|]
       case Both(b) => b == s.accepted[|s.delivered|]
       case Compared(b, _) => b == s.accepted[|s.delivered|]
       case Settled(b) => b == s.accepted[|s.delivered|]
  }

  lemma InterruptAppends(s: State, b: byte)
    requires Inv(s) && Free(s.head, s.tail, |s.buf|) >= 1
    ensures Waiting(Isr(s, b)) == Waiting(s) + [b]
    ensures Ring(Isr(s, b).buf, s.head, Isr(s, b).tail, Waiting(s) + [b])
    ensures s.delivered <= Isr(s, b).accepted
  {
    RingWrite(s.buf, s.head, s.tail, Waiting(s), b);
  }

  /** The interrupt keeps everything, drops a byte exactly when the queue is full, and never writes the slot to be loaded. */
  lemma InterruptKeeps(s: State, b: byte)
    requires Inv(s)
    ensures Inv(Isr(s, b))
    ensures s.pc.Advanced? || (s.pc.HaveHead? && Waiting(s) != []) ==> Isr(s, b).buf[s.pc.h] == s.buf[s.pc.h]
    ensures Isr(s, b).overrun <==> s.overrun || |Waiting(s)| == |s.buf| - 1
  {
    RingBounds(s.buf, s.head, s.tail, Waiting(s));
    if Free(s.head, s.tail, |s.buf|) >= 1 {
      InterruptAppends(s, b);
      assert Isr(s, b).accepted[..|s.accepted|] == s.accepted;
    }
  }

  lemma AdvanceKeeps(s: State, m: Move)
    requires Inv(s) && m == StoreHead
    ensures Inv(Step(s, m))
  {
    var t := Step(s, m);
    if s.pc.HaveHead? || s.pc.Early? {
      RingRead(s.buf, s.head, s.tail, Waiting(s));
      assert Waiting(t) == Waiting(s)[1..];
    }
  }

  lemma OtherMovesKeep(s: State, m: Move)
    requires Inv(s) && m != StoreHead && !m.Interrupt?
    ensures Inv(Step(s, m))
  {
    var t := Step(s, m);
    match m
    case Begin(_) => assert Waiting(t) == Waiting(s);
    case LoadByte =>
      assert Waiting(t) == Waiting(s);
      if s.pc.HaveHead? {
        RingRead(s.buf, s.head, s.tail, Waiting(s));
      }
    case WrapHead =>
      assert Waiting(t) == Waiting(s);
      if s.head == |s.buf| {
        RingWrap(s.buf, s.tail, Waiting(s));
      }
    case Deliver => assert Waiting(t) == Waiting(s);
    case LoadHead | Compare => assert Waiting(t) == Waiting(s);
  }

  /** Every small step of the main line keeps everything. */
  lemma MainKeeps(s: State, m: Move)
    requires Inv(s) && !m.Interrupt?
    ensures Inv(Step(s, m))
  {
    if m == StoreHead {
      AdvanceKeeps(s, m);
    } else {
      OtherMovesKeep(s, m);
    }
  }

  function Start(buf: seq<byte>): State
    requires buf != []
  {
    State(buf, 0, 0, Idle, 0, false, [], [])
  }

  function Run(buf: seq<byte>, run: seq<Move>): (s: State)
    requires buf != []
    ensures Shape(s) && |s.buf| == |buf|
  {
    if run == [] then Start(buf)
    else Step(Run(buf, run[..|run| - 1]), run[|run| - 1])
  }

  lemma {:induction false} RunKeeps(buf: seq<byte>, run: seq<Move>)
    requires buf != []
    ensures Inv(Run(buf, run))
  {
    if run == [] {
    } else {
      var n := |run| - 1;
      RunKeeps(buf, run[..n]);
      var s := Run(buf, run[..n]);
      match run[n]
      case Interrupt(b) => InterruptKeeps(s, b);
      case _ => MainKeeps(s, run[n]);
    }
  }

  /**
    In every state of every interleaving: the bytes delivered are the first bytes accepted, in
    order; the accepted bytes are the delivered ones, the one in flight and the waiting ones; and
    fifo_getused and fifo_getfree count the waiting ones, also while the head stands at size.
  */
  lemma DeliveredInOrder(buf: seq<byte>, run: seq<Move>)
    requires buf != []
    ensures var s := Run(buf, run);
            && s.delivered <= s.accepted
            && |s.delivered| + (if InFlight(s.pc) then 1 else 0) <= |s.accepted|
            && |s.accepted| == |s.delivered| + (if InFlight(s.pc) then 1 else 0) + |Waiting(s)|
            && Used(s.head, s.tail, |s.buf|) == |Waiting(s)|
            && Free(s.head, s.tail, |s.buf|) == |buf| - 1 - |Waiting(s)|
  {
    RunKeeps(buf, run);
    var s := Run(buf, run);
    RingBounds(s.buf, s.head, s.tail, Waiting(s));
  }
}
