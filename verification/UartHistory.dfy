/** The UART neither loses, duplicates nor reorders bytes, in either direction. */
module UartHistory {
  import opened Words
  import opened Platform

  datatype UartOp = Get(addr: Word) | Put(addr: Word, data: Word)

  function Apply(u: UartState, op: UartOp): UartState {
    match op
    case Get(addr) => UartRead(u, addr).0
    case Put(addr, data) => UartWrite(u, addr, data)
  }

  /**
   * The received byte that an operation delivers, if any: a read of offset 0 with the divisor latch off and data ready.
   */
  function Delivered(u: UartState, op: UartOp): seq<Byte> {
    if op.Get? && op.addr % 8 == 0 && !Dlab(u) && UartRead(u, 5).1 % 2 == 1 then [UartRead(u, op.addr).1] else []
  }

  /** The byte that an operation transmits, if any: a write to offset 0 with the divisor latch off. */
  function Sent(u: UartState, op: UartOp): seq<Byte> {
    if op.Put? && op.addr % 8 == 0 && !Dlab(u) then [op.data % 0x100] else []
  }

  function ApplyAll(u: UartState, ops: seq<UartOp>): UartState
    decreases |ops|
  {
    if ops == [] then u else ApplyAll(Apply(u, ops[0]), ops[1..])
  }

  function AllDelivered(u: UartState, ops: seq<UartOp>): seq<Byte>
    decreases |ops|
  {
    if ops == [] then [] else Delivered(u, ops[0]) + AllDelivered(Apply(u, ops[0]), ops[1..])
  }

  function AllSent(u: UartState, ops: seq<UartOp>): seq<Byte>
    decreases |ops|
  {
    if ops == [] then [] else Sent(u, ops[0]) + AllSent(Apply(u, ops[0]), ops[1..])
  }

  /** What has arrived but has not been delivered: the buffered byte, then the unread input. */
  function Pending(u: UartState): seq<Byte> {
    (if u.rxReady then [u.rxByte] else []) + u.input
  }

  /** The buffer is empty only when the input is. */
  predicate Prefetched(u: UartState) {
    u.input != [] ==> u.rxReady
  }

  /** The state uart_ns16550a_create leaves. */
  function Created(input: seq<Byte>): UartState {
    Refill(UartState(0, 0, 0, 0, 1, 0, false, 0, input, []))
  }

  lemma RefillPending(u: UartState)
    ensures Pending(Refill(u)) == u.input && Prefetched(Refill(u))
  {}

  lemma ApplyConserves(u: UartState, op: UartOp)
    requires Prefetched(u)
    ensures Pending(u) == Delivered(u, op) + Pending(Apply(u, op))
    ensures Apply(u, op).output == u.output + Sent(u, op)
    ensures Prefetched(Apply(u, op))
  {
    hide Refill;
    RefillPending(u);
    assert Refill(u).output == u.output by { RefillOutput(u); }
  }

  lemma RefillOutput(u: UartState)
    ensures Refill(u).output == u.output
  {}

  lemma {:induction false} RunConserves(u: UartState, ops: seq<UartOp>)
    requires Prefetched(u)
    ensures Pending(u) == AllDelivered(u, ops) + Pending(ApplyAll(u, ops))
    ensures ApplyAll(u, ops).output == u.output + AllSent(u, ops)
    ensures Prefetched(ApplyAll(u, ops))
    decreases |ops|
  {
    hide Apply, Delivered, Sent, Pending, Prefetched;
    if ops != [] {
      ApplyConserves(u, ops[0]);
      RunConserves(Apply(u, ops[0]), ops[1..]);
    }
  }

  // The registers, told by the operations alone.

  /** The operation stores to the register at the given offset. */
  predicate StoresTo(op: UartOp, offset: nat) {
    op.Put? && op.addr % 8 == offset
  }

  /** The divisor latch: bit 7 of the byte stored last to offset 3, and off before any is. */
  predicate Latch(ops: seq<UartOp>)
    decreases |ops|
  {
    ops != [] &&
    var last, before := ops[|ops| - 1], ops[..|ops| - 1];
    if StoresTo(last, 3) then last.data / 0x80 % 2 == 1 else Latch(before)
  }

  /** The byte stored last to an offset, or init if there is none. */
  function LastStored(ops: seq<UartOp>, offset: nat, init: Byte): Byte
    decreases |ops|
  {
    if ops == [] then init
    else
      var last, before := ops[|ops| - 1], ops[..|ops| - 1];
      if StoresTo(last, offset) then last.data % 0x100 else LastStored(before, offset, init)
  }

  /** The byte stored last to an offset while the latch was as given, or init if there is none. */
  function LastLatched(ops: seq<UartOp>, offset: nat, latch: bool, init: Byte): Byte
    decreases |ops|
  {
    if ops == [] then init
    else
      var last, before := ops[|ops| - 1], ops[..|ops| - 1];
      if StoresTo(last, offset) && Latch(before) == latch then last.data % 0x100
      else LastLatched(before, offset, latch, init)
  }

  /** How many of n input bytes have been read from offset 0 with the latch off. */
  function Taken(ops: seq<UartOp>, n: nat): (t: nat)
    ensures t <= n
    decreases |ops|
  {
    if ops == [] then 0
    else
      var last, before := ops[|ops| - 1], ops[..|ops| - 1];
      var t := Taken(before, n);
      if last.Get? && last.addr % 8 == 0 && !Latch(before) && t < n then t + 1 else t
  }

  /** The bytes stored to offset 0 with the latch off, in order. */
  function Transmitted(ops: seq<UartOp>): seq<Byte>
    decreases |ops|
  {
    if ops == [] then []
    else
      var last, before := ops[|ops| - 1], ops[..|ops| - 1];
      Transmitted(before) + if StoresTo(last, 0) && !Latch(before) then [last.data % 0x100] else []
  }

  lemma {:induction false} ApplyLast(u: UartState, ops: seq<UartOp>)
    requires ops != []
    ensures ApplyAll(u, ops) == Apply(ApplyAll(u, ops[..|ops| - 1]), ops[|ops| - 1])
    decreases |ops|
  {
    hide Apply;
    if |ops| == 1 {
      assert ops[1..] == [] && ops[..0] == [];
    } else {
      ApplyLast(Apply(u, ops[0]), ops[1..]);
      assert ops[1..][..|ops| - 2] == ops[..|ops| - 1][1..];
    }
  }

  /** The device's fields are what the history says. */
  ghost predicate Remembers(u: UartState, input: seq<Byte>, ops: seq<UartOp>) {
    && u.lcr == LastStored(ops, 3, 0) && u.mcr == LastStored(ops, 4, 0) && u.scr == LastStored(ops, 7, 0)
    && u.dll == LastLatched(ops, 0, true, 1) && u.dlh == LastLatched(ops, 1, true, 0)
    && u.ier == LastLatched(ops, 1, false, 0)
    && (Dlab(u) <==> Latch(ops))
    && Pending(u) == input[Taken(ops, |input|)..] && Prefetched(u) && u.output == Transmitted(ops)
  }

  lemma LatchBit(data: Word)
    ensures data % 0x100 / 0x80 == data / 0x80 % 2
  {
    DivMod(data, 0x100);
    var q, r := data / 0x100, data % 0x100;
    QuotRem(data, 0x80, 2 * q + r / 0x80, r % 0x80);
  }

  lemma PutRemembered(u: UartState, input: seq<Byte>, ops: seq<UartOp>)
    requires ops != [] && ops[|ops| - 1].Put? && Remembers(u, input, ops[..|ops| - 1])
    ensures Remembers(Apply(u, ops[|ops| - 1]), input, ops)
  {
    LatchBit(ops[|ops| - 1].data);
  }

  lemma GetKeepsFields(u: UartState, addr: Word)
    ensures var u' := UartRead(u, addr).0;
      && u'.lcr == u.lcr && u'.mcr == u.mcr && u'.scr == u.scr && u'.dll == u.dll && u'.dlh == u.dlh && u'.ier == u.ier
      && u'.output == u.output
  {}

  lemma DeliveredByte(u: UartState, addr: Word)
    requires Prefetched(u)
    ensures Delivered(u, Get(addr)) == if addr % 8 == 0 && !Dlab(u) && Pending(u) != [] then [Pending(u)[0]] else []
  {
    hide Refill;
  }

  lemma GetRemembered(u: UartState, input: seq<Byte>, ops: seq<UartOp>)
    requires ops != [] && ops[|ops| - 1].Get? && Remembers(u, input, ops[..|ops| - 1])
    ensures Remembers(Apply(u, ops[|ops| - 1]), input, ops)
  {
    hide LastStored, LastLatched, Latch, Transmitted, UartRead, UartWrite, Pending, Prefetched, Delivered;
    var op, before := ops[|ops| - 1], ops[..|ops| - 1];
    GetKeepsRegisters(ops);
    GetKeepsFields(u, op.addr);
    DeliveredByte(u, op.addr);
    ApplyConserves(u, op);
    RestAfter(Delivered(u, op), Pending(Apply(u, op)), input, Taken(before, |input|));
  }

  lemma RestAfter(front: seq<Byte>, rest: seq<Byte>, all: seq<Byte>, t: nat)
    requires t <= |all| && all[t..] == front + rest && |front| <= 1
    ensures t + |front| <= |all| && rest == all[t + |front|..]
  {
    assert |all[t..]| == |front| + |rest|;
    assert rest == all[t..][|front|..];
  }

  lemma GetKeepsRegisters(ops: seq<UartOp>)
    requires ops != [] && ops[|ops| - 1].Get?
    ensures var before := ops[..|ops| - 1];
      && Latch(ops) == Latch(before) && Transmitted(ops) == Transmitted(before)
      && (forall k, b :: LastStored(ops, k, b) == LastStored(before, k, b))
      && (forall k, l, b :: LastLatched(ops, k, l, b) == LastLatched(before, k, l, b))
  {}

  lemma {:induction false} HistoryHolds(input: seq<Byte>, ops: seq<UartOp>)
    ensures Remembers(ApplyAll(Created(input), ops), input, ops)
    decreases |ops|
  {
    hide Apply, Remembers;
    if ops == [] {
      CreatedRemembers(input);
    } else {
      var before := ops[..|ops| - 1];
      HistoryHolds(input, before);
      ApplyLast(Created(input), ops);
      var u := ApplyAll(Created(input), before);
      if ops[|ops| - 1].Put? { PutRemembered(u, input, ops); } else { GetRemembered(u, input, ops); }
    }
  }

  lemma CreatedRemembers(input: seq<Byte>)
    ensures Remembers(Created(input), input, [])
  {
    assert input[0..] == input;
    RefillPending(UartState(0, 0, 0, 0, 1, 0, false, 0, input, []));
  }

  /**
   * After any sequence of register accesses, a read returns: at offsets 3, 4 and 7 the byte stored there last; with the
   * latch on, at offsets 0 and 1 the byte stored there last with the latch on; with it off, at offset 1 the byte stored
   * there last with it off; 1 at offset 2 and 0 at offset 6.
   */
  lemma RegistersReadBack(input: seq<Byte>, ops: seq<UartOp>, addr: Word)
    ensures var u := ApplyAll(Created(input), ops); var r, o := UartRead(u, addr).1, addr % 8;
      && (o == 3 || o == 4 || o == 7 ==> r == LastStored(ops, o, 0))
      && (o == 0 && Latch(ops) ==> r == LastLatched(ops, 0, true, 1))
      && (o == 1 ==> r == LastLatched(ops, 1, Latch(ops), 0))
      && (o == 2 ==> r == 1) && (o == 6 ==> r == 0)
  {
    hide ApplyAll, LastStored, LastLatched, Latch, Taken, Transmitted, Created;
    HistoryHolds(input, ops);
  }

  /**
   * The same for the streams, divisor-latch switching included. With the latch off a read of offset 0 returns the first
   * input byte that no such read has returned yet, or 0 when there is none; the bytes delivered and what is pending
   * make up the input; the output is exactly the bytes stored to offset 0 with the latch off, in order; and the line
   * status register shows an idle transmitter, with the data-ready bit exactly while input remains.
   */
  lemma UartConservation(input: seq<Byte>, ops: seq<UartOp>, addr: Word)
    ensures var u := ApplyAll(Created(input), ops); var r, t := UartRead(u, addr).1, Taken(ops, |input|);
      && (addr % 8 == 0 && !Latch(ops) ==> r == if t < |input| then input[t] else 0)
      && AllDelivered(Created(input), ops) == input[..t] && Pending(u) == input[t..]
      && u.output == Transmitted(ops)
      && (addr % 8 == 5 ==> r == if t < |input| then 0x61 else 0x60)
  {
    hide *;
    HistoryHolds(input, ops);
    RunConserves(Created(input), ops) by { CreatedPending(input); }
    CreatedPending(input);
    ReadsStream(ApplyAll(Created(input), ops), input, ops, addr);
    Front(AllDelivered(Created(input), ops), input, Taken(ops, |input|));
  }

  lemma Front(front: seq<Byte>, all: seq<Byte>, t: nat)
    requires t <= |all| && front + all[t..] == all
    ensures front == all[..t]
  {
    assert |front| == t;
    assert (front + all[t..])[..t] == front;
  }

  lemma ReadsStream(u: UartState, input: seq<Byte>, ops: seq<UartOp>, addr: Word)
    requires Remembers(u, input, ops)
    ensures var r, t := UartRead(u, addr).1, Taken(ops, |input|);
      && (addr % 8 == 0 && !Latch(ops) ==> r == if t < |input| then input[t] else 0)
      && (addr % 8 == 5 ==> r == if t < |input| then 0x61 else 0x60)
      && Pending(u) == input[t..] && u.output == Transmitted(ops)
  {
    hide LastStored, LastLatched, Latch, Taken, Transmitted, Refill;
    var t := Taken(ops, |input|);
    if t < |input| {
      assert Pending(u)[0] == input[t];
      assert u.rxReady;
    } else {
      assert Pending(u) == [];
    }
  }

  lemma CreatedPending(input: seq<Byte>)
    ensures Pending(Created(input)) == input && Prefetched(Created(input))
  {
    RefillPending(UartState(0, 0, 0, 0, 1, 0, false, 0, input, []));
  }
}
