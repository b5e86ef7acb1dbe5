/** src/memory.c and src/uart.c: the devices, each updating its own storage in place. */
module Devices {
  import opened Words
  import opened Platform

  class Memory {
    const baseAddr: Word
    const rawMemory: array<Byte>

    /** memory_create_ctx followed by memory_init: a zeroed region. */
    constructor (baseAddr: Word, size: nat)
      ensures this.baseAddr == baseAddr && fresh(rawMemory)
      ensures rawMemory[..] == seq(size, i => 0)
    {
      this.baseAddr := baseAddr;
      this.rawMemory := new Byte[size](i => 0);
    }

    ghost function State(): DevState
      reads rawMemory
    {
      Ram(baseAddr, rawMemory[..])
    }

    method Read(addr: Word, sizeBits: Size) returns (ok: bool, result: Word)
      ensures (if ok then Some(result) else None) == RamRead(baseAddr, rawMemory[..], addr, sizeBits)
    {
      var bytes := sizeBits / 8;
      result := 0;
      if addr < baseAddr {
        return false, 0;
      }
      var offset := addr - baseAddr;
      if offset + bytes > rawMemory.Length {
        return false, 0;
      }
      var i := bytes;
      var value: nat := 0;
      while i > 0
        invariant 0 <= i <= bytes
        invariant value == LittleEndian(rawMemory[..][offset + i..offset + bytes])
      {
        i := i - 1;
        value := rawMemory[offset + i] + 0x100 * value;
        assert rawMemory[..][offset + i..offset + bytes][1..] == rawMemory[..][offset + i + 1..offset + bytes];
      }
      return true, value;
    }

    method Write(addr: Word, data: Word, sizeBits: Size) returns (ok: bool)
      modifies rawMemory
      ensures var w := RamWrite(baseAddr, old(rawMemory[..]), addr, data, sizeBits);
        ok == w.Some? && rawMemory[..] == if ok then w.value else old(rawMemory[..])
    {
      var bytes := sizeBits / 8;
      if addr < baseAddr {
        return false;
      }
      var offset := addr - baseAddr;
      if offset + bytes > rawMemory.Length {
        return false;
      }
      Memcpy(offset, ToBytes(data, bytes)); // the low bytes of data in a little-endian host
      return true;
    }

    /** memcpy into rawMemory at the given offset. */
    method Memcpy(offset: nat, source: seq<Byte>)
      requires offset + |source| <= rawMemory.Length
      modifies rawMemory
      ensures rawMemory[..] == Splice(old(rawMemory[..]), offset, source)
    {
      var i := 0;
      while i < |source|
        invariant 0 <= i <= |source|
        invariant rawMemory[..] == Splice(old(rawMemory[..]), offset, source[..i])
      {
        rawMemory[offset + i] := source[i];
        i := i + 1;
      }
      assert source[..i] == source;
    }

    /** memory_load_file: copy a program image into the region, or refuse it whole. */
    method LoadFile(addr: Word, program: seq<Byte>) returns (rc: int)
      modifies rawMemory
      ensures rc == if Holds(baseAddr, rawMemory.Length, addr, |program|) then 0 else -1
      ensures rawMemory[..] ==
        if rc == 0 then Splice(old(rawMemory[..]), addr - baseAddr, program) else old(rawMemory[..])
    {
      if addr < baseAddr {
        return -1;
      }
      var offset := addr - baseAddr;
      if offset + |program| > rawMemory.Length {
        return -1;
      }
      Memcpy(offset, program);
      return 0;
    }
  }

  const UART_LSR_DR: Word := 0x01
  const UART_LSR_THRE: Word := 0x20
  const UART_LSR_TEMT: Word := 0x40

  class UartDevice {
    var ier: Byte
    var lcr: Byte
    var mcr: Byte
    var scr: Byte
    var dll: Byte
    var dlh: Byte
    var rxReady: bool
    var rxByte: Byte
    var rxFile: seq<Byte>  // what is left to read; empty when there is no rx_file
    var txFile: seq<Byte>

    ghost function State(): UartState
      reads this
    {
      UartState(ier, lcr, mcr, scr, dll, dlh, rxReady, rxByte, rxFile, txFile)
    }

    /** uart_ns16550a_create: reset registers and prefetch the first input byte. */
    constructor (rxFile: seq<Byte>)
      ensures State() == Refill(UartState(0, 0, 0, 0, 1, 0, false, 0, rxFile, []))
    {
      this.rxFile, this.txFile := rxFile, [];
      ier, lcr, mcr, scr, dll, dlh := 0, 0, 0, 0, 1, 0;
      rxReady, rxByte := false, 0;
      new;
      Prefetch();
    }

    /** fgetc on rx_file into the one-byte buffer. */
    method Prefetch()
      requires !rxReady
      modifies this
      ensures State() == Refill(old(State()))
    {
      if rxFile != [] {
        rxByte, rxFile := rxFile[0], rxFile[1..];
        rxReady := true;
      }
    }

    function DlabSet(): bool
      reads this
      ensures DlabSet() == Dlab(State())
    {
      TopBit(lcr);
      And(lcr, 0x80) != 0
    }

    method Read(addr: Word) returns (result: Word)
      modifies this
      ensures (State(), result) == UartRead(old(State()), addr)
    {
      hide Bitwise;
      hide And;
      LowBits(addr, 0);
      var offset := And(addr, 0x7);
      var val := 0;
      if offset == 0x00 {
        if DlabSet() {
          val := dll;
        } else if rxReady {
          val := rxByte;
          rxReady := false;
          Prefetch();
        }
      } else if offset == 0x01 {
        val := if DlabSet() then dlh else ier;
      } else if offset == 0x02 {
        val := 0x01;
      } else if offset == 0x03 {
        val := lcr;
      } else if offset == 0x04 {
        val := mcr;
      } else if offset == 0x05 {
        LsrBits();
        val := Or(UART_LSR_THRE, UART_LSR_TEMT);
        if rxReady {
          val := Or(val, UART_LSR_DR);
        }
      } else if offset == 0x06 {
        val := 0x00;
      } else if offset == 0x07 {
        val := scr;
      }
      result := val;
    }

    method Write(addr: Word, data: Word)
      modifies this
      ensures State() == UartWrite(old(State()), addr, data)
    {
      hide Bitwise;
      hide And;
      LowBits(addr, data);
      var offset := And(addr, 0x7);
      var val := And(data, 0xFF);
      if offset == 0x00 {
        if DlabSet() {
          dll := val;
        } else {
          txFile := txFile + [val];
        }
      } else if offset == 0x01 {
        if DlabSet() {
          dlh := val;
        } else {
          ier := val;
        }
      } else if offset == 0x02 {
      } else if offset == 0x03 {
        lcr := val;
      } else if offset == 0x04 {
        mcr := val;
      } else if offset == 0x07 {
        scr := val;
      }
    }
  }

  lemma LowBits(addr: Word, data: Word)
    ensures And(addr, 0x7) == addr % 8 && And(data, 0xFF) == data % 0x100
  {
    hide And, Bitwise, Pow2;
    Pow2Table();
    AndMask(addr, 8, 3);
    AndMask(data, 0x100, 8);
  }

  lemma TopBit(x: Byte)
    ensures And(x, 0x80) == x / 0x80 * 0x80
  {
    hide Bitwise, Scale, Pow2;
    Pow2Table();
    var h, l := x / 0x80, x % 0x80;
    ScaleIsMul(h, 7);
    ScaleIsMul(1, 7);
    BitwiseSplit(AndGate, h, l, 1, 0, 7, 25);
    BitwiseZero(l, 7);
    SmallAnd(h);
    ScaleIsMul(Bitwise(AndGate, h, 1, 25), 7);
  }

  lemma SmallAnd(b: Bit)
    ensures Bitwise(AndGate, b, 1, 25) == b
  {
    assert Bitwise(AndGate, 0, 0, 24) == 0 by { BitwiseZero(0, 24); }
  }

  lemma LsrBits()
    ensures Or(0x20, 0x40) == 0x60 && Or(0x60, 0x01) == 0x61
  {
    hide Bitwise, Scale, Pow2;
    Pow2Table();
    BitwiseSymmetric(OrGate, 0x20, 0x40, 32);
    OrSum(1, 0x20, 0x40, 6);
    OrSum(3, 1, 0x20, 5);
  }
}
