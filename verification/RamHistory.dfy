/** RAM seen through the bus is a flat byte map: every byte holds what was written to it last. */
module RamHistory {
  import opened Words
  import opened Platform
  import opened Emulation

  /** A bus transaction, or an image load. */
  datatype BusOp =
    | LoadOp(addr: Word, size: Size)
    | StoreOp(addr: Word, data: Word, size: Size)
    | ImageOp(addr: Word, image: seq<Byte>)

  /** Image loads are aimed at RAM or at nothing. */
  predicate Admissible(b: BusState, op: BusOp) {
    op.ImageOp? && Owner(b, op.addr).Some? ==> b.devs[Owner(b, op.addr).value].Ram?
  }

  function Apply(b: BusState, op: BusOp): BusState
    requires Admissible(b, op)
  {
    match op
    case LoadOp(addr, size) => BusRead(b, addr, size).0
    case StoreOp(addr, data, size) =>
      (match BusWrite(b, addr, data, size) case None => b case Some(b') => b')
    case ImageOp(addr, image) =>
      (match LoadImage(b, addr, image) case None => b case Some(b') => b')
  }

  /** Which devices are where: the part of a bus that transactions never change. */
  ghost predicate SameMap(b: BusState, b': BusState) {
    && b'.slots == b.slots && |b'.devs| == |b.devs|
    && forall d :: 0 <= d < |b.devs| ==>
         if b.devs[d].Ram?
         then b'.devs[d].Ram? && b'.devs[d].base == b.devs[d].base && |b'.devs[d].bytes| == |b.devs[d].bytes|
         else !b'.devs[d].Ram?
  }

  /** The bytes an operation writes, first byte at its address; empty for loads. */
  function Payload(op: BusOp): seq<Byte> {
    match op
    case LoadOp(_, _) => []
    case StoreOp(_, data, size) => ToBytes(data, size / 8)
    case ImageOp(_, image) => image
  }

  /** The operation is a write that RAM d accepts, and it covers the RAM's byte k. */
  predicate Touches(b: BusState, op: BusOp, d: nat, k: nat) {
    && !op.LoadOp? && Owner(b, op.addr) == Some(d) && d < |b.devs| && b.devs[d].Ram?
    && Holds(b.devs[d].base, |b.devs[d].bytes|, op.addr, |Payload(op)|)
    && op.addr - b.devs[d].base <= k < op.addr - b.devs[d].base + |Payload(op)|
  }

  function ApplyAll(b: BusState, ops: seq<BusOp>): BusState
    requires forall op :: op in ops ==> Admissible(b, op)
    ensures SameMap(b, ApplyAll(b, ops))
    decreases |ops|
  {
    if ops == [] then b
    else
      var before, last := ops[..|ops| - 1], ops[|ops| - 1];
      var b1 := ApplyAll(b, before);
      SameMapAdmits(b, b1, last);
      ApplyKeepsMap(b1, last);
      Apply(b1, last)
  }

  lemma SameMapAdmits(b: BusState, b': BusState, op: BusOp)
    requires SameMap(b, b')
    ensures Owner(b', op.addr) == Owner(b, op.addr)
    ensures Admissible(b, op) ==> Admissible(b', op)
    ensures forall d, k :: Touches(b', op, d, k) == Touches(b, op, d, k)
  {
    hide Lookup, ToBytes;
  }

  lemma ApplyKeepsMap(b: BusState, op: BusOp)
    requires Admissible(b, op)
    ensures SameMap(b, Apply(b, op))
  {
    hide Lookup, ToBytes, UartRead, UartWrite;
  }

  lemma SpliceByte(bytes: seq<Byte>, offset: nat, patch: seq<Byte>, k: nat)
    requires offset + |patch| <= |bytes| && (k < |bytes| || k == 0)
    ensures k < |bytes| ==>
      Splice(bytes, offset, patch)[k] == if offset <= k < offset + |patch| then patch[k - offset] else bytes[k]
  {}

  /** One operation changes exactly the RAM bytes it covers, to the bytes it carries. */
  lemma ApplyByte(b: BusState, op: BusOp, d: nat, k: nat)
    requires Admissible(b, op) && d < |b.devs| && b.devs[d].Ram? && k < |b.devs[d].bytes|
    ensures var b' := Apply(b, op);
      && b'.devs[d].Ram? && |b'.devs[d].bytes| == |b.devs[d].bytes|
      && b'.devs[d].bytes[k] ==
           if Touches(b, op, d, k) then Payload(op)[k - (op.addr - b.devs[d].base)] else b.devs[d].bytes[k]
  {
    hide Owner, ToBytes, UartRead, UartWrite, RamRead, Splice;
    if Owner(b, op.addr).Some? && !op.LoadOp? {
      var o := Owner(b, op.addr).value;
      if b.devs[o].Ram? && Holds(b.devs[o].base, |b.devs[o].bytes|, op.addr, |Payload(op)|) {
        SpliceByte(b.devs[o].bytes, op.addr - b.devs[o].base, Payload(op), if o == d then k else 0);
      }
    }
  }

  /** The byte written last to byte k of RAM d, searching the history backwards; initially the byte it started with. */
  function LastWritten(b: BusState, ops: seq<BusOp>, d: nat, k: nat): Byte
    requires d < |b.devs| && b.devs[d].Ram? && k < |b.devs[d].bytes|
    decreases |ops|
  {
    if ops == [] then b.devs[d].bytes[k]
    else
      var last := ops[|ops| - 1];
      if Touches(b, last, d, k) then Payload(last)[k - (last.addr - b.devs[d].base)]
      else LastWritten(b, ops[..|ops| - 1], d, k)
  }

  lemma {:induction false} RamIsAFlatMap(b: BusState, ops: seq<BusOp>, d: nat, k: nat)
    requires forall op :: op in ops ==> Admissible(b, op)
    requires d < |b.devs| && b.devs[d].Ram? && k < |b.devs[d].bytes|
    ensures ApplyAll(b, ops).devs[d].bytes[k] == LastWritten(b, ops, d, k)
    decreases |ops|
  {
    hide Apply, Touches, Payload;
    if ops != [] {
      var before, last := ops[..|ops| - 1], ops[|ops| - 1];
      RamIsAFlatMap(b, before, d, k);
      var b1 := ApplyAll(b, before);
      SameMapAdmits(b, b1, last);
      ApplyByte(b1, last, d, k);
    }
  }

  /** The bytes written last to n consecutive places of RAM d. */
  function LastBytes(b: BusState, ops: seq<BusOp>, d: nat, offset: nat, n: nat): (s: seq<Byte>)
    requires d < |b.devs| && b.devs[d].Ram? && offset + n <= |b.devs[d].bytes|
    ensures |s| == n && forall i :: 0 <= i < n ==> s[i] == LastWritten(b, ops, d, offset + i)
    decreases n
  {
    if n == 0 then [] else [LastWritten(b, ops, d, offset)] + LastBytes(b, ops, d, offset + 1, n - 1)
  }

  /**
   * After any history, a read whose first byte belongs to RAM d returns the little-endian number of the bytes written
   * last at the read's own addresses, alignment and other devices in the way notwithstanding; it fails exactly past the
   * end.
   */
  lemma ReadsReturnLastWrites(b: BusState, ops: seq<BusOp>, d: nat, addr: Word, size: Size)
    requires forall op :: op in ops ==> Admissible(b, op)
    requires Owner(b, addr) == Some(d) && b.devs[d].Ram?
    ensures var ram := b.devs[d];
      BusRead(ApplyAll(b, ops), addr, size).1 ==
        if Holds(ram.base, |ram.bytes|, addr, size / 8)
        then Some(LittleEndian(LastBytes(b, ops, d, addr - ram.base, size / 8)))
        else None
  {
    hide Lookup, LastWritten, Touches, Payload, LittleEndian, UartRead;
    var ram, after := b.devs[d], ApplyAll(b, ops);
    SameMapAdmits(b, after, LoadOp(addr, size));
    if Holds(ram.base, |ram.bytes|, addr, size / 8) {
      var offset: nat := addr - ram.base;
      var window, expected := after.devs[d].bytes[offset..offset + size / 8], LastBytes(b, ops, d, offset, size / 8);
      forall i | 0 <= i < size / 8
        ensures window[i] == expected[i]
      {
        RamIsAFlatMap(b, ops, d, offset + i);
      }
      assert window == expected;
    }
  }

  /** In particular a load returns what a store to the same address and of the same width put there. */
  lemma LoadAfterStore(b: BusState, addr: Word, data: Word, size: Size)
    requires BusWrite(b, addr, data, size).Some? && b.devs[Owner(b, addr).value].Ram?
    ensures BusRead(BusWrite(b, addr, data, size).value, addr, size).1 == Some(Wrap(data % Pow2(size)))
  {
    hide Lookup, Pow2, ToBytes, LittleEndian;
    BytesRoundTrip(data, size / 8);
    assert Pow2(8) == 0x100 && Pow2(16) == 0x1_0000 && Pow2(32) == 0x1_0000_0000 by { Pow2Table(); }
    var d := Owner(b, addr).value;
    var ram, patch := b.devs[d], ToBytes(data, size / 8);
    var offset: nat := addr - ram.base;
    assert Splice(ram.bytes, offset, patch)[offset..offset + size / 8] == patch;
  }

  /** An image is refused exactly when nothing answers at its address or it does not fit in the RAM that does. */
  lemma ImageRefused(b: BusState, addr: Word, image: seq<Byte>)
    requires Admissible(b, ImageOp(addr, image))
    ensures LoadImage(b, addr, image).None? <==>
      Owner(b, addr).None? ||
      var ram := b.devs[Owner(b, addr).value];
      addr < ram.base || addr + |image| > ram.base + |ram.bytes|
  {
    hide Owner, Splice;
  }
}
