/** What the devices and the bus do, as functions on values. */
module Platform {
  import opened Words

  datatype Option<+T> = None | Some(value: T)

  /** A transfer width in bits. */
  type Size = s: int | s == 8 || s == 16 || s == 32 witness 8

  // Little-endian numbers.

  function LittleEndian(s: seq<Byte>): (n: nat)
    ensures |s| == 1 ==> n < 0x100
    ensures |s| == 2 ==> n < 0x1_0000
    ensures |s| == 3 ==> n < 0x100_0000
    ensures |s| == 4 ==> n < 0x1_0000_0000
  {
    if s == [] then 0 else s[0] + 0x100 * LittleEndian(s[1..])
  }

  function ToBytes(data: nat, n: nat): (s: seq<Byte>)
    ensures |s| == n
  {
    if n == 0 then [] else [data % 0x100] + ToBytes(data / 0x100, n - 1)
  }

  lemma {:induction false} BytesRoundTrip(data: nat, n: nat)
    ensures LittleEndian(ToBytes(data, n)) == data % Pow2(8 * n)
    decreases n
  {
    if n == 0 {
      assert Pow2(0) == 1;
    } else {
      BytesRoundTrip(data / 0x100, n - 1);
      assert ToBytes(data, n)[1..] == ToBytes(data / 0x100, n - 1);
      assert Pow2(8 * n) == 0x100 * Pow2(8 * (n - 1)) by { Pow2Add(8, 8 * (n - 1)); Pow2Table(); }
      ModTwoSteps(data, Pow2(8 * (n - 1)));
    }
  }

  lemma {:induction false} NumberRoundTrip(s: seq<Byte>)
    ensures ToBytes(LittleEndian(s), |s|) == s
    decreases |s|
  {
    if s != [] {
      NumberRoundTrip(s[1..]);
      assert s == [s[0]] + s[1..];
    }
  }

  lemma ModTwoSteps(x: nat, p: nat)
    requires 0 < p
    ensures 0 < 0x100 * p && x % (0x100 * p) == x % 0x100 + 0x100 * (x / 0x100 % p)
  {
    var h := x / 0x100;
    DivMod(h, p);
    MulMonotone(0x100, h % p, p - 1);
    assert x == (0x100 * p) * (h / p) + (0x100 * (h % p) + x % 0x100);
    QuotRem(x, 0x100 * p, h / p, 0x100 * (h % p) + x % 0x100);
  }

  // RAM.

  function Splice(bytes: seq<Byte>, offset: nat, patch: seq<Byte>): (r: seq<Byte>)
    requires offset + |patch| <= |bytes|
    ensures |r| == |bytes|
  {
    bytes[..offset] + patch + bytes[offset + |patch|..]
  }

  /** Whether a region of the given length at base holds all of addr .. addr + count. */
  predicate Holds(base: Word, length: nat, addr: Word, count: nat) {
    base <= addr && addr - base + count <= length
  }

  function RamRead(base: Word, bytes: seq<Byte>, addr: Word, size: Size): Option<Word> {
    if Holds(base, |bytes|, addr, size / 8) then
      Some(LittleEndian(bytes[addr - base..addr - base + size / 8]))
    else None
  }

  function RamWrite(base: Word, bytes: seq<Byte>, addr: Word, data: Word, size: Size): Option<seq<Byte>> {
    if Holds(base, |bytes|, addr, size / 8) then
      Some(Splice(bytes, addr - base, ToBytes(data, size / 8)))
    else None
  }

  // UART: registers, the receive buffer, the unread input and the transmitted output.

  datatype UartState = UartState(
    ier: Byte, lcr: Byte, mcr: Byte, scr: Byte, dll: Byte, dlh: Byte,
    rxReady: bool, rxByte: Byte, input: seq<Byte>, output: seq<Byte>)

  predicate Dlab(u: UartState) {
    u.lcr / 0x80 == 1
  }

  /** The receive buffer refilled from the input, if there is any left. */
  function Refill(u: UartState): UartState {
    if u.input == [] then u.(rxReady := false)
    else u.(rxReady := true, rxByte := u.input[0], input := u.input[1..])
  }

  function UartRead(u: UartState, addr: Word): (UartState, Byte) {
    match addr % 8
    case 0 => if Dlab(u) then (u, u.dll) else if u.rxReady then (Refill(u), u.rxByte) else (u, 0)
    case 1 => (u, if Dlab(u) then u.dlh else u.ier)
    case 2 => (u, 1)
    case 3 => (u, u.lcr)
    case 4 => (u, u.mcr)
    case 5 => (u, if u.rxReady then 0x61 else 0x60)
    case 6 => (u, 0)
    case _ => (u, u.scr)
  }

  function UartWrite(u: UartState, addr: Word, data: Word): UartState {
    var val := data % 0x100;
    match addr % 8
    case 0 => if Dlab(u) then u.(dll := val) else u.(output := u.output + [val])
    case 1 => if Dlab(u) then u.(dlh := val) else u.(ier := val)
    case 3 => u.(lcr := val)
    case 4 => u.(mcr := val)
    case 7 => u.(scr := val)
    case _ => u
  }

  // The bus.

  datatype DevState = Ram(base: Word, bytes: seq<Byte>) | Uart(uart: UartState) | Tohost

  /** A slot of the bus: the range [start, end) and the index of the device it leads to. */
  datatype Slot = Slot(active: bool, start: Word, end: Word, dev: nat)

  /** The slots, the devices, and the two emulator fields that TOHOST devices point at. */
  datatype BusState = BusState(slots: seq<Slot>, devs: seq<DevState>, halted: bool, exitCode: int)

  predicate Covers(s: Slot, addr: Word) {
    s.active && s.start <= addr < s.end
  }

  function Range(s: Slot): int {
    s.end - s.start
  }

  /** The slot of smallest range that covers addr, the first one on ties. */
  function Lookup(slots: seq<Slot>, addr: Word): (k: Option<nat>)
    ensures k.Some? ==> k.value < |slots| && Covers(slots[k.value], addr)
  {
    if slots == [] then None
    else
      match Lookup(slots[1..], addr)
      case None => if Covers(slots[0], addr) then Some(0) else None
      case Some(k) =>
        if Covers(slots[0], addr) && Range(slots[0]) <= Range(slots[k + 1])
        then Some(0) else Some(k + 1)
  }

  /** Slot k covers addr and no covering slot has a smaller range, nor an equal range and a lower index. */
  ghost predicate Selects(slots: seq<Slot>, addr: Word, k: nat) {
    && k < |slots| && Covers(slots[k], addr)
    && forall j :: 0 <= j < |slots| && Covers(slots[j], addr) ==>
         Range(slots[k]) < Range(slots[j]) || (Range(slots[k]) == Range(slots[j]) && k <= j)
  }

  /** Lookup finds exactly the selected slot, and nothing exactly when no active range covers the address. */
  lemma {:induction false} LookupIsSelection(slots: seq<Slot>, addr: Word)
    ensures Lookup(slots, addr) == None <==> forall j :: 0 <= j < |slots| ==> !Covers(slots[j], addr)
    ensures forall k: nat :: Lookup(slots, addr) == Some(k) <==> Selects(slots, addr, k)
  {
    if slots != [] {
      LookupIsSelection(slots[1..], addr);
      var rest := slots[1..];
      assert forall j :: 0 <= j < |rest| ==> rest[j] == slots[j + 1];
      if Lookup(rest, addr).Some? {
        var k := Lookup(rest, addr).value;
        assert Selects(rest, addr, k);
        assert forall j :: 1 <= j < |slots| && Covers(slots[j], addr) ==> Covers(rest[j - 1], addr);
      } else {
        assert forall j :: 1 <= j < |slots| ==> !Covers(slots[j], addr) by {
          assert forall j :: 1 <= j < |slots| ==> slots[j] == rest[j - 1];
        }
      }
    }
  }

  /** The index of the device that answers at addr. */
  function Owner(b: BusState, addr: Word): (d: Option<nat>)
    ensures d.Some? ==> d.value < |b.devs|
  {
    match Lookup(b.slots, addr)
    case None => None
    case Some(k) => if b.slots[k].dev < |b.devs| then Some(b.slots[k].dev) else None
  }

  /** A bus read: the word, or None for a bus error; reading a UART can change it. */
  function BusRead(b: BusState, addr: Word, size: Size): (BusState, Option<Word>) {
    match Owner(b, addr)
    case None => (b, None)
    case Some(d) =>
      match b.devs[d]
      case Ram(base, bytes) => (b, RamRead(base, bytes, addr, size))
      case Uart(u) =>
        var (u', val) := UartRead(u, addr);
        (b.(devs := b.devs[d := Uart(u')]), Some(val))
      case Tohost => (b, None)
  }

  /** A bus write: the new state, or None for a bus error. */
  function BusWrite(b: BusState, addr: Word, data: Word, size: Size): Option<BusState> {
    match Owner(b, addr)
    case None => None
    case Some(d) =>
      match b.devs[d]
      case Ram(base, bytes) =>
        (match RamWrite(base, bytes, addr, data, size)
         case None => None
         case Some(bytes') => Some(b.(devs := b.devs[d := Ram(base, bytes')])))
      case Uart(u) => Some(b.(devs := b.devs[d := Uart(UartWrite(u, addr, data))]))
      case Tohost => Some(b.(halted := true, exitCode := if data == 1 then 0 else data / 2))
  }
}
