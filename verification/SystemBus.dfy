/** src/bus.c and src/tohost.c: the slot array, its dispatcher and the halt device. */
module SystemBus {
  import opened Words
  import opened Platform
  import opened Devices

  const BUS_MAX_PERIPHERALS: nat := 10

  /** The two fields of the emulator that a TOHOST device points at. */
  class HaltCell {
    var halted: bool
    var exitCode: int

    constructor ()
      ensures !halted && exitCode == 0
    {
      halted, exitCode := false, 0;
    }
  }

  datatype Device = RamDev(memory: Memory) | UartDev(uart: UartDevice) | TohostDev

  ghost function Footprint(d: Device): set<object> {
    match d
    case RamDev(m) => {m.rawMemory}
    case UartDev(u) => {u}
    case TohostDev => {}
  }

  ghost function DeviceState(d: Device): DevState
    reads Footprint(d)
  {
    match d
    case RamDev(m) => m.State()
    case UartDev(u) => Uart(u.State())
    case TohostDev => Tohost
  }

  class Bus {
    const slots: array<Slot>
    var count: nat
    var devices: seq<Device>
    const halt: HaltCell
    ghost var state: BusState
    ghost var Repr: set<object>

    ghost predicate Owns(d: Device)
      reads this
    {
      Footprint(d) <= Repr && this !in Footprint(d) && slots !in Footprint(d) && halt !in Footprint(d)
    }

    ghost predicate Valid()
      reads this, Repr
    {
      && this in Repr && slots in Repr && halt in Repr
      && slots.Length == BUS_MAX_PERIPHERALS
      && |devices| == |state.devs|
      && (forall i :: 0 <= i < |devices| ==> Owns(devices[i]))
      && (forall i, j :: 0 <= i < j < |devices| ==> Footprint(devices[i]) !! Footprint(devices[j]))
      && (forall i :: 0 <= i < |devices| ==> DeviceState(devices[i]) == state.devs[i])
      && state.slots == slots[..]
      && state.halted == halt.halted && state.exitCode == halt.exitCode
      && ActivePrefix(state)
      && count <= BUS_MAX_PERIPHERALS
      && (forall i :: 0 <= i < BUS_MAX_PERIPHERALS ==> slots[i].active == (i < count))
    }

    /** bus_init */
    constructor (halt: HaltCell)
      ensures Valid() && fresh(Repr - {halt}) && this.halt == halt
      ensures count == 0
      ensures state == BusState(seq(10, i => Slot(false, 0, 0, 0)), [], halt.halted, halt.exitCode)
    {
      slots := new Slot[BUS_MAX_PERIPHERALS](i => Slot(false, 0, 0, 0));
      count, devices := 0, [];
      this.halt := halt;
      new;
      assert slots[..] == seq(10, i => Slot(false, 0, 0, 0));
      state := BusState(slots[..], [], halt.halted, halt.exitCode);
      Repr := {this, slots, halt};
    }

    /** bus_find_slot: the first inactive slot, or -1. */
    method FindSlot() returns (slot: int)
      requires Valid()
      ensures slot == if count < BUS_MAX_PERIPHERALS then count else -1
    {
      var i := 0;
      while i < BUS_MAX_PERIPHERALS
        invariant 0 <= i <= count
      {
        if !slots[i].active {
          return i;
        }
        i := i + 1;
      }
      return -1;
    }

    /** Hand a newly allocated device context to the bus; the result stands for the context pointer. */
    method Attach(d: Device) returns (ctx: nat)
      requires Valid() && Footprint(d) !! Repr
      modifies this
      ensures Valid() && Repr == old(Repr) + Footprint(d)
      ensures ctx == |old(state.devs)| && devices == old(devices) + [d] && count == old(count)
      ensures state == old(state).(devs := old(state.devs) + [DeviceState(d)])
    {
      ctx := |devices|;
      devices := devices + [d];
      state := state.(devs := state.devs + [DeviceState(d)]);
      Repr := Repr + Footprint(d);
    }

    /** Overlapping ranges are accepted; only a full slot array is refused. */
    method AddPeripheral(addrStart: Word, addrEnd: Word, ctx: nat) returns (ok: bool)
      requires Valid() && ctx < |state.devs|
      modifies this, slots
      ensures Valid() && Repr == old(Repr) && devices == old(devices)
      ensures ok == (old(count) < BUS_MAX_PERIPHERALS)
      ensures count == old(count) + if ok then 1 else 0
      ensures var slot := Slot(true, addrStart, addrEnd, ctx);
        state == if ok then old(state).(slots := old(state.slots)[old(count) := slot]) else old(state)
    {
      var slot := FindSlot();
      if slot < 0 {
        return false;
      }
      slots[slot] := Slot(true, addrStart, addrEnd, ctx);
      count := count + 1;
      state := state.(slots := slots[..]);
      return true;
    }

    /** bus_get_peripheral: the index of the best match, or -1. */
    method GetPeripheral(addr: Word) returns (k: int)
      requires Valid()
      ensures Lookup(state.slots, addr) == if k < 0 then None else Some(k)
      ensures k < 0 || (k < BUS_MAX_PERIPHERALS && slots[k].dev < |devices|)
    {
      k := -1;
      var smallestRange := 0xFFFF_FFFF;
      var i := 0;
      while i < BUS_MAX_PERIPHERALS
        invariant 0 <= i <= BUS_MAX_PERIPHERALS
        invariant k < 0 ==> forall j :: 0 <= j < i ==> !Covers(slots[j], addr)
        invariant k >= 0 ==> Selects(slots[..i], addr, k) && smallestRange == Range(slots[k])
      {
        var p := slots[i];
        if p.active && addr >= p.start && addr < p.end {
          var range := p.end - p.start;
          if k < 0 || range < smallestRange {
            k := i;
            smallestRange := range;
          }
        }
        i := i + 1;
      }
      assert slots[..i] == state.slots;
      LookupIsSelection(state.slots, addr);
    }

    method Read(addr: Word, sizeBits: Size) returns (ok: bool, result: Word)
      requires Valid()
      modifies Repr
      ensures Valid() && Repr == old(Repr)
      ensures (state, if ok then Some(result) else None) == BusRead(old(state), addr, sizeBits)
    {
      hide UartRead, RamRead, Lookup;
      var k := GetPeripheral(addr);
      if k < 0 {
        return false, 0;
      }
      var d := slots[k].dev;
      match devices[d] {
        case RamDev(m) =>
          ok, result := m.Read(addr, sizeBits);
        case UartDev(u) =>
          result := u.Read(addr);
          ok := true;
          state := state.(devs := state.devs[d := Uart(u.State())]);
        case TohostDev =>
          return false, 0; // no read operation
      }
    }

    method Write(addr: Word, data: Word, sizeBits: Size) returns (ok: bool)
      requires Valid()
      modifies Repr
      ensures Valid() && Repr == old(Repr)
      ensures var w := BusWrite(old(state), addr, data, sizeBits);
        ok == w.Some? && state == if ok then w.value else old(state)
    {
      hide UartWrite, RamWrite, Lookup;
      var k := GetPeripheral(addr);
      if k < 0 {
        return false;
      }
      var d := slots[k].dev;
      match devices[d] {
        case RamDev(m) => ok := WriteRam(d, m, addr, data, sizeBits);
        case UartDev(u) => ok := WriteUart(d, u, addr, data);
        case TohostDev =>
          TohostWrite(data);
          ok := true;
          state := state.(halted := halt.halted, exitCode := halt.exitCode);
      }
    }

    method WriteRam(d: nat, m: Memory, addr: Word, data: Word, sizeBits: Size) returns (ok: bool)
      requires Valid() && d < |devices| && devices[d] == RamDev(m)
      modifies Repr
      ensures Valid() && Repr == old(Repr)
      ensures var w := RamWrite(m.baseAddr, old(m.rawMemory[..]), addr, data, sizeBits);
        && ok == w.Some?
        && state == if ok then old(state).(devs := old(state.devs)[d := Ram(m.baseAddr, w.value)]) else old(state)
    {
      hide RamWrite;
      ok := m.Write(addr, data, sizeBits);
      state := state.(devs := state.devs[d := m.State()]);
    }

    method WriteUart(d: nat, u: UartDevice, addr: Word, data: Word) returns (ok: bool)
      requires Valid() && d < |devices| && devices[d] == UartDev(u)
      modifies Repr
      ensures Valid() && Repr == old(Repr)
      ensures ok && state == old(state).(devs := old(state.devs)[d := Uart(UartWrite(old(u.State()), addr, data))])
    {
      hide UartWrite;
      u.Write(addr, data);
      ok := true;
      state := state.(devs := state.devs[d := Uart(u.State())]);
    }

    /** Copy an image into the RAM behind device index d. */
    method LoadRam(d: nat, m: Memory, addr: Word, data: seq<Byte>) returns (rc: int)
      requires Valid() && d < |devices| && devices[d] == RamDev(m)
      modifies Repr
      ensures Valid() && Repr == old(Repr)
      ensures rc == if Holds(m.baseAddr, |old(m.rawMemory[..])|, addr, |data|) then 0 else -1
      ensures rc == 0 ==>
        var loaded := Splice(old(m.rawMemory[..]), addr - m.baseAddr, data);
        state == old(state).(devs := old(state.devs)[d := Ram(m.baseAddr, loaded)])
      ensures rc != 0 ==> state == old(state)
    {
      rc := m.LoadFile(addr, data);
      state := state.(devs := state.devs[d := m.State()]);
    }

    /** The emulator setting the halt fields itself. */
    method SetHalt(exitCode: int)
      requires Valid()
      modifies halt, this
      ensures Valid() && Repr == old(Repr)
      ensures state == old(state).(halted := true, exitCode := exitCode)
    {
      halt.halted := true;
      halt.exitCode := exitCode;
      state := state.(halted := true, exitCode := exitCode);
    }

    /** tohost_write, through the two pointers. */
    method TohostWrite(data: Word)
      modifies halt
      ensures halt.halted && halt.exitCode == if data == 1 then 0 else data / 2
    {
      assert Shr(data, 1) == data / 2 by { Pow2Table(); }
      if data == 1 {
        halt.exitCode := 0;
      } else {
        halt.exitCode := Shr(data, 1);
      }
      halt.halted := true;
    }
  }

  /** Active slots lead to devices. */
  ghost predicate ActivePrefix(b: BusState) {
    forall i :: 0 <= i < |b.slots| && b.slots[i].active ==> b.slots[i].dev < |b.devs|
  }
}
