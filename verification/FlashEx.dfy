/** hal/rhs_hal_flash_ex/rhs_hal_flash_ex.c on a model of the MT25QL128 part:
    a page-programmed NOR array with write-enable and busy bits, behind a
    QSPI controller whose every command may fail. */
module FlashEx {
  import opened Words
  import opened PagedMemory

  const FLASH_SIZE: nat := 0x100_0000
  const PAGE_SIZE: nat := 256
  const SUBSECTOR: nat := 4096

  datatype Status = Ok | Error | Busy

  // ----- What the operations mean on the array -----

  /** Erased cells read 0xFF. */
  function EraseRange(mem: seq<Byte>, base: nat, size: nat): (r: seq<Byte>)
    requires base + size <= |mem|
    ensures |r| == |mem|
  {
    seq(|mem|, i requires 0 <= i < |mem| => if base <= i < base + size then 0xFF else mem[i])
  }

  lemma EraseRangeAppend(mem: seq<Byte>, base: nat, first: nat, second: nat)
    requires base + first + second <= |mem|
    ensures EraseRange(EraseRange(mem, base, first), base + first, second) == EraseRange(mem, base, first + second)
  {
  }

  /** The first subsector the driver erases, and how many bytes it erases from there. */
  function EraseBase(addr: nat): (b: nat)
    ensures b <= addr
  {
    addr - addr % SUBSECTOR
  }

  function EraseSpan(size: nat): nat {
    if size == 0 then SUBSECTOR else (size + (SUBSECTOR - 1)) / SUBSECTOR * SUBSECTOR
  }

  /** The erased span never leaves the device. */
  lemma EraseStaysInside(addr: nat, size: nat)
    requires addr < FLASH_SIZE && addr + size <= FLASH_SIZE
    ensures EraseBase(addr) + EraseSpan(size) <= FLASH_SIZE
  {
    var b, n := addr / SUBSECTOR, (size + (SUBSECTOR - 1)) / SUBSECTOR;
    assert EraseBase(addr) == b * SUBSECTOR;
    assert n * SUBSECTOR < size + SUBSECTOR;
  }

  /** A block erase of [addr, addr + size) leaves that whole range erased, whatever the
      array held, exactly when the range does not reach past the last erased subsector. */
  lemma EraseCoversIff(addr: nat, size: nat)
    requires 0 < size && addr + size <= FLASH_SIZE
    ensures EraseBase(addr) + EraseSpan(size) <= FLASH_SIZE
    ensures (forall mem: seq<Byte>, i: nat :: |mem| == FLASH_SIZE && addr <= i < addr + size
               ==> EraseRange(mem, EraseBase(addr), EraseSpan(size))[i] == 0xFF)
       <==> addr % SUBSECTOR + size <= EraseSpan(size)
  {
    EraseStaysInside(addr, size);
    if addr % SUBSECTOR + size > EraseSpan(size) {
      var mem := seq(FLASH_SIZE, i => 0 as Byte);
      var i := addr + size - 1;
      assert EraseRange(mem, EraseBase(addr), EraseSpan(size))[i] == 0;
    }
  }

  /** An erase of 4096 bytes from address 1 leaves the last of them as it was. */
  lemma EraseMisses(mem: seq<Byte>)
    requires |mem| == FLASH_SIZE
    ensures EraseBase(1) == 0 && EraseSpan(4096) == 4096
    ensures EraseRange(mem, EraseBase(1), EraseSpan(4096))[4096] == mem[4096]
  {
  }

  /** Erase, then write, then read: an aligned range (or any range the erase covers) returns the data. */
  lemma EraseWriteRead(mem: seq<Byte>, addr: nat, data: seq<Byte>)
    requires |mem| == FLASH_SIZE && addr < FLASH_SIZE && addr + |data| <= FLASH_SIZE
    requires addr % SUBSECTOR + |data| <= EraseSpan(|data|)
    ensures EraseBase(addr) + EraseSpan(|data|) <= FLASH_SIZE
    ensures LinearWrite(ClearBits, EraseRange(mem, EraseBase(addr), EraseSpan(|data|)), addr, data)
              [addr..addr + |data|] == data
  {
    EraseStaysInside(addr, |data|);
    ProgramErased(EraseRange(mem, EraseBase(addr), EraseSpan(|data|)), addr, data);
  }

  /** From an aligned address the erase covers every size. */
  lemma AlignedIsCovered(addr: nat, size: nat)
    requires addr % SUBSECTOR == 0
    ensures addr % SUBSECTOR + size <= EraseSpan(size)
    ensures size > 0 ==> EraseSpan(size) < size + SUBSECTOR
  {
  }

  /** An erase of no bytes erases the subsector of its address. */
  lemma NothingErasesSubsector(mem: seq<Byte>, addr: nat, i: nat)
    requires |mem| == FLASH_SIZE && addr < FLASH_SIZE && i < FLASH_SIZE
    ensures EraseBase(addr) + EraseSpan(0) <= FLASH_SIZE
    ensures EraseRange(mem, EraseBase(addr), EraseSpan(0))[i] == if i / 4096 == addr / 4096 then 0xFF else mem[i]
  {
    EraseStaysInside(addr, 0);
    var b := addr / 4096;
    assert EraseBase(addr) == b * 4096;
  }

  // ----- The same, cell by cell -----

  predicate Erased(mem: seq<Byte>, base: nat, n: nat) {
    forall i :: base <= i < base + n ==> i < |mem| && mem[i] == 0xFF
  }

  /** Programming clears bits and sets none. */
  predicate Programmed(before: seq<Byte>, after: seq<Byte>, addr: nat, data: seq<Byte>) {
    && addr + |data| <= |before| == |after|
    && forall i :: addr <= i < addr + |data| ==> after[i] == before[i] & data[i - addr]
  }

  lemma ErasedCells(before: seq<Byte>, base: nat, n: nat, done: nat)
    requires base + n <= |before| && done <= n
    ensures OnlyWithin(before, EraseRange(before, base, done), base, n)
    ensures Erased(EraseRange(before, base, n), base, n)
  {
  }

  lemma ErasedBetween(before: seq<Byte>, base: nat, n: nat, done: nat, more: nat, mem: seq<Byte>)
    requires base + n <= |before| && done <= more <= n
    requires Between(EraseRange(before, base, done), EraseRange(before, base, more), mem)
    ensures OnlyWithin(before, mem, base, n)
  {
  }

  lemma ProgrammedCells(before: seq<Byte>, addr: nat, data: seq<Byte>)
    requires addr + |data| <= |before|
    ensures Programmed(before, LinearWrite(ClearBits, before, addr, data), addr, data)
  {
  }

  // ----- Device, controller and driver -----

  class Flash {
    // The part.
    const healthy: bool         // answers every command it accepts, and is ready by the next poll
    var mem: seq<Byte>
    var writeEnabled: bool
    var busy: bool
    ghost var refused: nat      // program and erase commands the part ignored
    ghost var negatives: nat    // polls and commands answered negatively
    // The controller: its mode register still holds an indirect read.
    var indirectRead: bool
    // flash_mutex.
    var locked: bool
    ghost var acquired: nat
    ghost var released: nat

    ghost predicate Valid()
      reads this
    {
      |mem| == FLASH_SIZE
    }

    constructor (healthy: bool)
      ensures Valid() && !locked && this.healthy == healthy
    {
      this.healthy := healthy;
      mem := seq(FLASH_SIZE, i => 0xFF);
      writeEnabled, busy, indirectRead, locked := false, false, false, false;
      refused, negatives, acquired, released := 0, 0, 0, 0;
    }

    // ----- Commands of the part. A negative answer may come before, during or
    // ----- after the command took effect.

    method AutoPollMemReady() returns (ok: bool)
      modifies `busy, `negatives
      ensures ok ==> !busy
      ensures busy ==> old(busy)
      ensures healthy ==> ok
      ensures negatives == old(negatives) + if ok then 0 else 1
    {
      var falls: bool, answered: bool := *, *;
      busy := busy && !falls && !healthy;
      ok := !busy && (answered || healthy);
      negatives := negatives + if ok then 0 else 1;
    }

    method SendWriteEnable() returns (ok: bool)
      modifies `writeEnabled, `negatives
      ensures ok ==> writeEnabled
      ensures healthy ==> ok
      ensures negatives == old(negatives) + if ok then 0 else 1
    {
      var taken: bool, answered: bool := *, *;
      writeEnabled := writeEnabled || taken || healthy;
      ok := writeEnabled && (answered || healthy);
      negatives := negatives + if ok then 0 else 1;
    }

    method SendRead(addr: nat, size: nat) returns (ok: bool, bytes: seq<Byte>)
      requires Valid() && addr + size <= FLASH_SIZE
      modifies `indirectRead, `negatives
      ensures |bytes| == size
      ensures ok && !busy ==> bytes == mem[addr..addr + size]
      ensures healthy ==> ok
      ensures negatives == old(negatives) + if ok then 0 else 1
    {
      bytes := mem[addr..addr + size];
      indirectRead := true;
      var answered: bool := *;
      ok := answered || healthy;
      negatives := negatives + if ok then 0 else 1;
    }

    /** Replaces the cells by their new values, or stops somewhere on the way. */
    method Transform(target: seq<Byte>) returns (ok: bool)
      requires |target| == |mem|
      modifies `mem, `writeEnabled, `busy, `refused, `negatives
      ensures old(writeEnabled && !busy) ==> refused == old(refused) && Between(old(mem), target, mem)
      ensures old(writeEnabled && !busy) && ok ==> mem == target
      ensures !old(writeEnabled && !busy) ==> refused == old(refused) + 1 && mem == old(mem)
      ensures healthy ==> ok
      ensures negatives == old(negatives) + if ok then 0 else 1
    {
      var answered: bool, started: bool := *, *;
      ok := answered || healthy;
      negatives := negatives + if ok then 0 else 1;
      if writeEnabled && !busy {
        if ok || started {
          mem, writeEnabled, busy := target, false, true;
        }
      } else {
        refused := refused + 1;
      }
    }

    method SendPageProgram(data: seq<Byte>, addr: nat) returns (ok: bool)
      requires Valid() && 1 <= |data| <= PAGE_SIZE
      modifies `mem, `writeEnabled, `busy, `refused, `negatives
      ensures Valid()
      ensures var target := PageWrite(ClearBits, old(mem), PAGE_SIZE, addr, data);
              if old(writeEnabled && !busy)
              then refused == old(refused) && Between(old(mem), target, mem) && (ok ==> mem == target)
              else refused == old(refused) + 1 && mem == old(mem)
      ensures healthy ==> ok
      ensures negatives == old(negatives) + if ok then 0 else 1
    {
      ok := Transform(PageWrite(ClearBits, mem, PAGE_SIZE, addr, data));
    }

    method SendSubsectorErase(addr: nat) returns (ok: bool)
      requires Valid() && addr % SUBSECTOR == 0 && addr + SUBSECTOR <= FLASH_SIZE
      modifies `mem, `writeEnabled, `busy, `refused, `negatives
      ensures Valid()
      ensures var target := EraseRange(old(mem), addr, SUBSECTOR);
              if old(writeEnabled && !busy)
              then refused == old(refused) && Between(old(mem), target, mem) && (ok ==> mem == target)
              else refused == old(refused) + 1 && mem == old(mem)
      ensures healthy ==> ok
      ensures negatives == old(negatives) + if ok then 0 else 1
    {
      ok := Transform(EraseRange(mem, addr, SUBSECTOR));
    }

    method SendChipErase() returns (ok: bool)
      requires Valid()
      modifies `mem, `writeEnabled, `busy, `refused, `negatives
      ensures Valid()
      ensures var target := EraseRange(old(mem), 0, FLASH_SIZE);
              if old(writeEnabled && !busy)
              then refused == old(refused) && Between(old(mem), target, mem) && (ok ==> mem == target)
              else refused == old(refused) + 1 && mem == old(mem)
      ensures healthy ==> ok
      ensures negatives == old(negatives) + if ok then 0 else 1
    {
      ok := Transform(EraseRange(mem, 0, FLASH_SIZE));
    }

    // ----- The driver -----

    /** A healthy part succeeds; an error stands for at least one negative answer since `before`,
        and a busy part for the two of a poll and its retry. */
    ghost predicate Answers(status: Status, before: nat)
      reads this
    {
      && (healthy ==> status == Ok)
      && negatives >= before + match status case Ok => 0 case Error => 1 case Busy => 2
    }

    method Acquire()
      requires !locked
      modifies `locked, `acquired
      ensures locked && acquired == old(acquired) + 1
    {
      locked, acquired := true, acquired + 1;
    }

    method Release()
      requires locked
      modifies `locked, `released
      ensures !locked && released == old(released) + 1
    {
      locked, released := false, released + 1;
    }

    method ForceAbort()
      modifies `indirectRead
      ensures !indirectRead
    {
      indirectRead := false;
    }

    /** One retry after an abort. */
    method WaitReady() returns (ok: bool)
      modifies `busy, `indirectRead, `negatives
      ensures ok ==> !busy
      ensures indirectRead ==> old(indirectRead)
      ensures healthy ==> ok
      ensures old(negatives) <= negatives <= old(negatives) + 2
      ensures !ok ==> negatives == old(negatives) + 2
    {
      ok := AutoPollMemReady();
      if !ok {
        ForceAbort();
        ok := AutoPollMemReady();
      }
    }

    method Read(addr: nat, size: nat, buf: array<Byte>) returns (status: Status)
      requires Valid() && !locked && addr + size <= FLASH_SIZE && buf.Length == size
      modifies this, buf
      ensures Valid() && mem == old(mem) && refused == old(refused)
      ensures status == Ok ==> buf[..] == mem[addr..addr + size]
      ensures status == Busy ==> buf[..] == old(buf[..])
      ensures Answers(status, old(negatives))
      ensures !indirectRead
      ensures !locked && acquired == old(acquired) + 1 && released == old(released) + 1
    {
      status := Ok;
      Acquire();
      var ready := WaitReady();
      if !ready {
        status := Busy;
      } else {
        var ok, bytes := SendRead(addr, size);
        forall i | 0 <= i < size {
          buf[i] := bytes[i];
        }
        if !ok {
          status := Error;
        }
      }
      ForceAbort();
      Release();
    }

    method EraseChip() returns (status: Status)
      requires Valid() && !locked
      modifies this
      ensures Valid() && refused == old(refused)
      ensures status == Ok ==> mem == EraseRange(old(mem), 0, FLASH_SIZE) && !busy
      ensures status == Busy ==> mem == old(mem) && !busy
      ensures Between(old(mem), EraseRange(old(mem), 0, FLASH_SIZE), mem)
      ensures status == Ok ==> Erased(mem, 0, FLASH_SIZE)
      ensures Answers(status, old(negatives))
      ensures !locked && acquired == old(acquired) + 1 && released == old(released) + 1
    {
      status := Ok;
      Acquire();
      var ready := WaitReady();
      if !ready {
        status := Busy;
      } else {
        var enabled := SendWriteEnable();
        if !enabled {
          ForceAbort();
          status := Error;
        } else {
          var erased := SendChipErase();
          if !erased {
            ForceAbort();
            status := Error;
          }
        }
      }
      ready := WaitReady();
      if !ready {
        status := Error;
      }
      Release();
    }

    /** One round of the write loop: a chunk that lies inside its page. */
    method ProgramChunk(addr: nat, chunk: seq<Byte>) returns (status: Status)
      requires Valid() && 0 < |chunk| && addr % PAGE_SIZE + |chunk| <= PAGE_SIZE && addr + |chunk| <= FLASH_SIZE
      modifies `mem, `writeEnabled, `busy, `refused, `indirectRead, `negatives
      ensures Valid() && refused == old(refused)
      ensures status == Ok ==> mem == LinearWrite(ClearBits, old(mem), addr, chunk) && !busy
      ensures status == Busy ==> mem == old(mem)
      ensures Answers(status, old(negatives))
      ensures status == Error ==> Between(old(mem), LinearWrite(ClearBits, old(mem), addr, chunk), mem)
    {
      var ready := WaitReady();
      if !ready {
        return Busy;
      }
      var enabled := SendWriteEnable();
      if !enabled {
        ForceAbort();
        return Error;
      }
      PageWriteIsLinear(ClearBits, mem, PAGE_SIZE, addr, chunk);
      var programmed := SendPageProgram(chunk, addr);
      if !programmed {
        ForceAbort();
        return Error;
      }
      ready := WaitReady();
      status := if ready then Ok else Error;
    }

    /** Splits the write at page boundaries. `done` is the number of bytes whose chunks
        completed; a busy part stops the write cleanly, a bus error leaves one chunk undecided. */
    method Write(addr: nat, data: seq<Byte>) returns (status: Status, ghost done: nat)
      requires Valid() && !locked && 0 < |data| && addr + |data| <= FLASH_SIZE
      modifies this
      ensures Valid() && refused == old(refused)
      ensures status == Ok <==> done == |data|
      ensures SplitOutcome(ClearBits, 256, status != Error, old(mem), mem, addr, data, done)
      ensures status == Ok ==> mem == LinearWrite(ClearBits, old(mem), addr, data) && !busy
      ensures status == Ok ==> Programmed(old(mem), mem, addr, data)
      ensures OnlyWithin(old(mem), mem, addr, |data|)
      ensures Answers(status, old(negatives))
      ensures !locked && acquired == old(acquired) + 1 && released == old(released) + 1
    {
      hide LinearWrite, PartWritten, Between, SplitOutcome, OnlyWithin, Programmed;
      status, done := Ok, 0;
      Acquire();
      var currentSize := PAGE_SIZE - addr % PAGE_SIZE;
      if currentSize > |data| {
        currentSize := |data|;
      }
      var currentAddr, endAddr, writeData := addr, addr + |data|, data;
      PartWrittenEnds(ClearBits, mem, addr, data);
      while true
        invariant Valid() && locked && refused == old(refused)
        invariant acquired == old(acquired) + 1 && released == old(released)
        invariant done < |data| && currentAddr == addr + done && status == Ok && negatives >= old(negatives)
        invariant currentSize == Chunk(PAGE_SIZE, currentAddr, endAddr) && writeData == data[done..]
        invariant done == 0 || currentAddr % PAGE_SIZE == 0
        invariant mem == PartWritten(ClearBits, old(mem), addr, data, done)
        decreases |data| - done
      {
        ChunkEnds(PAGE_SIZE, currentAddr, endAddr);
        status := ProgramChunk(currentAddr, writeData[..currentSize]);
        if status == Error {
          ChunkStopped(ClearBits, PAGE_SIZE, old(mem), mem, addr, data, done);
        }
        if status != Ok {
          break;
        }
        PartWrittenExtends(ClearBits, old(mem), addr, data, done, currentSize);
        currentAddr := currentAddr + currentSize;
        writeData := writeData[currentSize..];
        done := done + currentSize;
        currentSize := if currentAddr + PAGE_SIZE > endAddr then endAddr - currentAddr else PAGE_SIZE;
        if !(currentAddr < endAddr) {
          break;
        }
      }
      Release();
      if status != Error {
        SplitCleanly(ClearBits, PAGE_SIZE, old(mem), addr, data, done);
      }
      PartWrittenEnds(ClearBits, old(mem), addr, data);
      SplitWithin(ClearBits, PAGE_SIZE, status != Error, old(mem), mem, addr, data, done);
      ProgrammedCells(old(mem), addr, data);
    }

    /** One round of the erase loop. */
    method EraseOne(addr: nat) returns (ok: bool)
      requires Valid() && !busy && addr % SUBSECTOR == 0 && addr + SUBSECTOR <= FLASH_SIZE
      modifies `mem, `writeEnabled, `busy, `refused, `indirectRead, `negatives
      ensures Valid() && refused == old(refused)
      ensures ok ==> mem == EraseRange(old(mem), addr, SUBSECTOR) && !busy
      ensures !ok ==> Between(old(mem), EraseRange(old(mem), addr, SUBSECTOR), mem)
      ensures healthy ==> ok
      ensures negatives >= old(negatives) + if ok then 0 else 1
    {
      hide EraseRange;
      var enabled := SendWriteEnable();
      if !enabled {
        ForceAbort();
        return false;
      }
      var erased := SendSubsectorErase(addr);
      if !erased {
        ForceAbort();
        return false;
      }
      ok := WaitReady();
    }

    /** Erases ceil(size / 4096) subsectors, but at least one, from the aligned-down address. `done` is the
        number of bytes erased; on an error only the subsector after them is undecided. */
    method BlockErase(addr: nat, size: nat) returns (status: Status, ghost done: nat)
      requires Valid() && !locked && addr < FLASH_SIZE && addr + size <= FLASH_SIZE
      modifies this
      ensures Valid() && refused == old(refused)
      ensures done <= EraseSpan(size) && done % SUBSECTOR == 0
      ensures EraseBase(addr) + EraseSpan(size) <= FLASH_SIZE
      ensures status == Ok <==> done == EraseSpan(size)
      ensures status == Busy ==> done == 0
      ensures status != Error ==> mem == EraseRange(old(mem), EraseBase(addr), done)
      ensures status == Error ==>
                && done + SUBSECTOR <= EraseSpan(size)
                && Between(EraseRange(old(mem), EraseBase(addr), done),
                           EraseRange(old(mem), EraseBase(addr), done + SUBSECTOR), mem)
      ensures status == Ok ==> !busy
      ensures var base, span := addr - addr % 4096, if size == 0 then 4096 else (size + 4095) / 4096 * 4096;
              OnlyWithin(old(mem), mem, base, span) && (status == Ok ==> Erased(mem, base, span))
      ensures Answers(status, old(negatives))
      ensures !locked && acquired == old(acquired) + 1 && released == old(released) + 1
    {
      hide EraseRange, Between, OnlyWithin, Erased;
      status, done := Ok, 0;
      EraseStaysInside(addr, size);
      Acquire();
      var ready := WaitReady();
      EraseNone(mem, EraseBase(addr));
      if !ready {
        status := Busy;
      } else {
        var currentAddr := addr - addr % SUBSECTOR;
        var currentSize: nat := size;
        while true
          invariant Valid() && locked && refused == old(refused) && !busy
          invariant acquired == old(acquired) + 1 && released == old(released)
          invariant status == Ok && negatives >= old(negatives) && done + EraseSpan(currentSize) == EraseSpan(size)
          invariant currentAddr == EraseBase(addr) + done && done % SUBSECTOR == 0
          invariant mem == EraseRange(old(mem), EraseBase(addr), done)
          decreases currentSize
        {
          SpanStep(currentSize);
          EraseRangeAppend(old(mem), EraseBase(addr), done, SUBSECTOR);
          var erased := EraseOne(currentAddr);
          if !erased {
            status := Error;
            break;
          }
          currentAddr := currentAddr + SUBSECTOR;
          done := done + SUBSECTOR;
          currentSize := if currentSize > SUBSECTOR then currentSize - SUBSECTOR else 0;
          if currentSize == 0 {
            break;
          }
        }
      }
      Release();
      ErasedCells(old(mem), EraseBase(addr), EraseSpan(size), done);
      if status == Error {
        ErasedBetween(old(mem), EraseBase(addr), EraseSpan(size), done, done + SUBSECTOR, mem);
      }
    }
  }

  lemma EraseNone(mem: seq<Byte>, base: nat)
    requires base <= |mem|
    ensures EraseRange(mem, base, 0) == mem
  {
  }

  lemma SpanStep(size: nat)
    ensures EraseSpan(size) == SUBSECTOR + if size > SUBSECTOR then EraseSpan(size - SUBSECTOR) else 0
  {
  }

  /** What storing is for: erase a range, write it and read it. When all three calls succeed, the
      data comes back, and on a healthy part they do, from every aligned address and from every other one whose range the erase covers. */
  method StoredReadsBack(flash: Flash, addr: nat, data: seq<Byte>, buf: array<Byte>) returns (ok: bool)
    requires flash.Valid() && !flash.locked && 0 < |data| && addr + |data| <= FLASH_SIZE && buf.Length == |data|
    requires addr % SUBSECTOR == 0 || addr % SUBSECTOR + |data| <= EraseSpan(|data|)
    modifies flash, buf
    ensures flash.Valid() && !flash.locked && flash.refused == old(flash.refused)
    ensures ok ==> buf[..] == data
    ensures flash.healthy ==> ok
  {
    AlignedIsCovered(addr - addr % SUBSECTOR, |data|);
    EraseWriteRead(flash.mem, addr, data);
    hide EraseRange, LinearWrite, EraseBase, EraseSpan;
    ghost var before := flash.mem;
    var status, erased := flash.BlockErase(addr, |data|);
    if status != Ok {
      return false;
    }
    ghost var written;
    status, written := flash.Write(addr, data);
    if status != Ok {
      return false;
    }
    status := flash.Read(addr, |data|, buf);
    ok := status == Ok;
  }
}
