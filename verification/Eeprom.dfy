/** drivers/eeprom/eeprom.c on a model of an I2C EEPROM: a page latch that rolls
    over, an address counter loaded from one or two bytes, and a write cycle
    during which the part does not answer. */
module Eeprom {
  import opened Words
  import opened PagedMemory

  datatype Status = Ok | Error | InvalidParam

  /** The user-filled description of the part (the fields the driver uses). */
  datatype Config = Config(size: Uint32, pageSize: Uint16, addressSize: Uint8)

  /** What eeprom_init accepts of these fields. */
  predicate InitAccepts(c: Config) {
    c.size != 0 && c.pageSize != 0 && (c.addressSize == 1 || c.addressSize == 2)
  }

  /** The addresses one or two bytes can name. */
  function AddressSpace(addressSize: Uint8): nat {
    if addressSize == 1 then U8 else U16
  }

  /** The address bytes the driver sends, most significant first. */
  function EncodeAddress(addressSize: Uint8, address: Uint16): (b: seq<Uint8>)
    ensures |b| == if addressSize == 1 then 1 else 2
  {
    if addressSize == 1 then [address % U8] else [address / U8 % U8, address % U8]
  }

  /** The address the part decodes. */
  function DecodeAddress(b: seq<Uint8>): nat
    requires |b| == 1 || |b| == 2
  {
    if |b| == 1 then b[0] else b[0] as nat * U8 + b[1]
  }

  /** The part sees the driver's address exactly when it fits the address bytes. */
  lemma AddressFitsIff(addressSize: Uint8, address: Uint16)
    ensures DecodeAddress(EncodeAddress(addressSize, address)) == address
       <==> address < AddressSpace(addressSize)
  {
  }

  /** On the bus the first of two bytes counts 256 times. */
  lemma AddressBytes(address: Uint16)
    ensures var b := EncodeAddress(2, address);
            |b| == 2 && 256 * (b[0] as nat) + (b[1] as nat) == address
    ensures address < 256 ==> EncodeAddress(1, address) == [address]
  {
  }

  // ----- The 16-bit page arithmetic -----

  /** bytes_to_page_end as computed: page_end may wrap at 65536. */
  function BytesToPageEnd(address: Uint16, pageSize: Uint16): Uint16
    requires pageSize > 0
  {
    var pageStart := address / pageSize * pageSize % U16;
    var pageEnd := (pageStart + pageSize) % U16;
    (pageEnd - address) % U16
  }

  /** Even when page_end wraps, the 16-bit difference is the distance to the end of the page. */
  lemma {:induction false} PageEndWrapIsHarmless(address: Uint16, pageSize: Uint16)
    requires pageSize > 0
    ensures BytesToPageEnd(address, pageSize) == pageSize - address % pageSize
  {
    var start := address / pageSize * pageSize;
    assert address == start + address % pageSize;
    SmallMod(start, U16);
    var room := pageSize - address % pageSize;
    ModMul(1, start + pageSize, 0 - address as int, U16);
    SmallMod(room, U16);
  }

  // ----- The part, the bus and the driver -----

  class Part {
    const config: Config
    const healthy: bool         // answers whenever it is not in a write cycle
    var mem: seq<Byte>
    var writing: bool           // inside a write cycle
    var pointer: nat            // the part's address counter
    ghost var nacked: nat       // transfers sent while the part was in a write cycle
    ghost var negatives: nat    // transfers that failed

    ghost predicate Valid()
      reads this
    {
      && InitAccepts(config)
      && |mem| == config.size
      && config.size <= AddressSpace(config.addressSize)
    }

    constructor (c: Config, healthy: bool)
      requires InitAccepts(c) && c.size <= AddressSpace(c.addressSize)
      ensures Valid() && config == c && !writing && this.healthy == healthy
    {
      config, this.healthy := c, healthy;
      mem := seq(c.size, i => 0xFF);
      writing, pointer, nacked, negatives := false, 0, 0, 0;
    }

    // ----- The part. A transfer may fail whatever its state; in a write cycle it must.

    /** The address phase of a write: loads the counter. */
    method SendAddress(address: seq<Uint8>) returns (ok: bool)
      requires Valid() && (|address| == 1 || |address| == 2)
      modifies `pointer, `nacked, `negatives
      ensures writing ==> !ok
      ensures nacked == old(nacked) + if writing then 1 else 0
      ensures ok ==> pointer == DecodeAddress(address)
      ensures healthy && !writing ==> ok
      ensures negatives == old(negatives) + if ok then 0 else 1
    {
      var answered: bool := *;
      ok := !writing && (answered || healthy);
      negatives := negatives + if ok then 0 else 1;
      if writing {
        nacked := nacked + 1;
      } else {
        pointer := DecodeAddress(address);
      }
    }

    /** The data phase and the STOP that starts the write cycle. A failed transfer may
        have stored any of its bytes. */
    method SendData(data: seq<Byte>) returns (ok: bool)
      requires Valid() && !writing
      modifies `mem, `writing, `negatives
      ensures Valid()
      ensures healthy ==> ok
      ensures negatives == old(negatives) + if ok then 0 else 1
      ensures var target := PageWrite(Overwrite, old(mem), config.pageSize, pointer, data);
              Between(old(mem), target, mem) && (ok ==> mem == target)
    {
      var answered: bool, started: bool := *, *;
      ok := answered || healthy;
      negatives := negatives + if ok then 0 else 1;
      if ok || started {
        mem := PageWrite(Overwrite, mem, config.pageSize, pointer, data);
        writing := true;
      }
    }

    /** write_delay_ms, taken to be at least the part's write cycle time. */
    method Delay()
      modifies `writing
      ensures !writing
    {
      writing := false;
    }

    /** Address, repeated start, sequential read. */
    method Transceive(address: seq<Uint8>, size: nat) returns (ok: bool, bytes: seq<Byte>)
      requires Valid() && (|address| == 1 || |address| == 2)
      modifies `pointer, `nacked, `negatives
      ensures |bytes| == size
      ensures writing ==> !ok
      ensures healthy && !writing ==> ok
      ensures negatives == old(negatives) + if ok then 0 else 1
      ensures nacked == old(nacked) + if writing then 1 else 0
      ensures ok && DecodeAddress(address) + size <= |mem| ==>
                bytes == mem[DecodeAddress(address)..DecodeAddress(address) + size]
    {
      ok := SendAddress(address);
      bytes := if ok && pointer + size <= |mem| then mem[pointer..pointer + size] else seq(size, i => 0);
    }

    // ----- The driver -----

    method Read(address: Uint16, buf: array<Byte>) returns (status: Status)
      requires Valid() && address + buf.Length < U32
      modifies `pointer, `nacked, `negatives, buf
      ensures Valid()
      ensures status == InvalidParam <==> buf.Length == 0 || address + buf.Length > config.size
      ensures status == Ok ==> buf[..] == mem[address..address + buf.Length]
      ensures healthy && !writing ==> status != Error
      ensures negatives == old(negatives) + if status == Error then 1 else 0
      ensures nacked == old(nacked) || writing
    {
      var size := buf.Length;
      if size == 0 {
        return InvalidParam;
      }
      if (address + size) % U32 > config.size {
        return InvalidParam;
      }
      var addrBuf := if config.addressSize == 1 then [address % U8] else [address / U8 % U8, address % U8];
      assert addrBuf == EncodeAddress(config.addressSize, address);
      AddressFitsIff(config.addressSize, address);
      var success, bytes := Transceive(addrBuf, size);
      forall i | 0 <= i < size {
        buf[i] := bytes[i];
      }
      status := if success then Ok else Error;
    }

    /** One page-bounded transfer: address bytes, then data. */
    method WritePage(address: Uint16, chunk: seq<Byte>) returns (success: bool)
      requires Valid() && 0 < |chunk| && address + |chunk| <= config.size
      requires InPage(config.pageSize, address, |chunk|)
      modifies `mem, `writing, `pointer, `nacked, `negatives
      ensures Valid()
      ensures nacked == old(nacked) + if old(writing) then 1 else 0
      ensures healthy && !old(writing) ==> success
      ensures negatives == old(negatives) + if success then 0 else 1
      ensures Between(old(mem), LinearWrite(Overwrite, old(mem), address, chunk), mem)
      ensures success ==> mem == LinearWrite(Overwrite, old(mem), address, chunk)
    {
      var addrBuf := if config.addressSize == 1 then [address % U8] else [address / U8 % U8, address % U8];
      assert addrBuf == EncodeAddress(config.addressSize, address);
      AddressFitsIff(config.addressSize, address);
      success := SendAddress(addrBuf);
      if success {
        PageWriteIsLinear(Overwrite, mem, config.pageSize, address, chunk);
        success := SendData(chunk);
      }
    }

    /** How much of the rest fits in the current page, in the driver's 16-bit arithmetic. */
    method BytesThisPage(currentAddress: Uint16, remaining: nat) returns (bytesToWrite: nat)
      requires Valid()
      ensures bytesToWrite == Chunk(config.pageSize, currentAddress, currentAddress + remaining)
    {
      var pageStart := currentAddress / config.pageSize * config.pageSize % U16;
      var pageEnd := (pageStart + config.pageSize) % U16;
      var bytesToPageEnd := (pageEnd - currentAddress) % U16;
      PageEndWrapIsHarmless(currentAddress, config.pageSize);
      bytesToWrite := if remaining < bytesToPageEnd then remaining else bytesToPageEnd;
    }

    /** What fits in the current page, and the wait for its write cycle. */
    method WriteChunk(currentAddress: Uint16, currentData: seq<Byte>) returns (success: bool, bytesToWrite: nat)
      requires Valid() && currentData != [] && currentAddress + |currentData| <= config.size
      modifies `mem, `writing, `pointer, `nacked, `negatives
      ensures Valid()
      ensures bytesToWrite == Chunk(config.pageSize, currentAddress, currentAddress + |currentData|) <= |currentData|
      ensures nacked == old(nacked) + if old(writing) then 1 else 0
      ensures healthy && !old(writing) ==> success
      ensures negatives == old(negatives) + if success then 0 else 1
      ensures var target := LinearWrite(Overwrite, old(mem), currentAddress, currentData[..bytesToWrite]);
              Between(old(mem), target, mem) && (success ==> mem == target && !writing)
    {
      hide LinearWrite, Between, Chunk, InPage;
      bytesToWrite := BytesThisPage(currentAddress, |currentData|);
      ChunkEnds(config.pageSize, currentAddress, currentAddress + |currentData|);
      success := WritePage(currentAddress, currentData[..bytesToWrite]);
      if success {
        Delay();
      }
    }

    /** Splits the write at page boundaries. `done` bytes are written in full; on a failed
        transfer only the chunk after them is undecided. No transfer is sent to a part
        that is still writing, unless it was when the call began. */
    method Write(address: Uint16, data: seq<Byte>) returns (status: Status, ghost done: nat)
      requires Valid() && address + |data| < U32
      modifies `mem, `writing, `pointer, `nacked, `negatives
      ensures Valid()
      ensures status == InvalidParam <==> data == [] || address + |data| > config.size
      ensures status == InvalidParam ==> mem == old(mem)
      ensures status != InvalidParam ==>
                && SplitOutcome(Overwrite, config.pageSize, status == Ok, old(mem), mem, address, data, done)
                && (status == Ok <==> done == |data|)
      ensures status == Ok ==> !writing && mem == LinearWrite(Overwrite, old(mem), address, data)
      ensures status == Ok ==> mem[address..address + |data|] == data
      ensures OnlyWithin(old(mem), mem, address, |data|)
      ensures healthy && !old(writing) ==> status != Error
      ensures negatives == old(negatives) + if status == Error then 1 else 0
      ensures old(writing) || nacked == old(nacked)
    {
      hide LinearWrite, PartWritten, Between, SplitOutcome, Chunk, InPage, PageStart, OnlyWithin;
      NothingWritten(mem, address, |data|);
      status, done := InvalidParam, 0;
      if data == [] {
        return;
      }
      SmallMod(address + |data|, U32);
      if (address + |data|) % U32 > config.size {
        return;
      }
      var remaining := |data|;
      var currentAddress: Uint16, currentData := address, data;
      PartWrittenEnds(Overwrite, mem, address, data);
      while remaining > 0
        invariant Valid() && 0 <= remaining && done + remaining == |data| && address + |data| <= |mem|
        invariant currentAddress == (address + done) % U16 && currentData == data[done..]
        invariant done == 0 || done == |data| || PageStart(config.pageSize, address + done)
        invariant mem == PartWritten(Overwrite, old(mem), address, data, done)
        invariant done > 0 ==> !writing
        invariant !old(writing) ==> !writing && nacked == old(nacked)
        invariant negatives == old(negatives)
      {
        SmallMod(address + done, U16);
        ChunkEnds(config.pageSize, currentAddress, currentAddress + remaining);
        var success, bytesToWrite := WriteChunk(currentAddress, currentData);
        if !success {
          ChunkStopped(Overwrite, config.pageSize, old(mem), mem, address, data, done);
          SplitWithin(Overwrite, config.pageSize, false, old(mem), mem, address, data, done);
          return Error, done;
        }
        PartWrittenExtends(Overwrite, old(mem), address, data, done, bytesToWrite);
        remaining := remaining - bytesToWrite;
        currentAddress := (currentAddress + bytesToWrite) % U16;
        currentData := currentData[bytesToWrite..];
        done := done + bytesToWrite;
      }
      SplitDone(Overwrite, config.pageSize, old(mem), address, data);
      SplitWithin(Overwrite, config.pageSize, true, old(mem), mem, address, data, done);
      ReadBack(old(mem), address, data);
      status := Ok;
    }
  }

  /** What storing is for: when a write and a read of its range succeed, the data comes
      back; on a healthy part that is idle they do for every range in the part. */
  method WrittenReadsBack(part: Part, address: Uint16, data: seq<Byte>, buf: array<Byte>) returns (ok: bool)
    requires part.Valid() && address + |data| < U32 && buf.Length == |data|
    modifies part, buf
    ensures part.Valid()
    ensures ok ==> buf[..] == data
    ensures part.healthy && !old(part.writing) ==> (ok <==> data != [] && address + |data| <= part.config.size)
  {
    hide LinearWrite, SplitOutcome, OnlyWithin;
    ghost var before := part.mem;
    var status, written := part.Write(address, data);
    if status != Ok {
      return false;
    }
    ReadBack(before, address, data);
    status := part.Read(address, buf);
    ok := status == Ok;
  }
}
