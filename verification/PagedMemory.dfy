/** Byte memories that are written one page at a time: the address counter of
    the part rolls over inside the page, while callers want one linear write. */
module PagedMemory {
  import Words

  type Byte = bv8

  /** An EEPROM cell takes the new value; a NOR flash cell can only lose bits. */
  datatype Mode = Overwrite | ClearBits

  function Combine(mode: Mode, cell: Byte, byte: Byte): Byte {
    match mode
    case Overwrite => byte
    case ClearBits => cell & byte
  }

  /** The device: each byte goes to the current address, which rolls over in its page. */
  function PageWrite(mode: Mode, mem: seq<Byte>, pageSize: nat, addr: nat, data: seq<Byte>): (r: seq<Byte>)
    requires pageSize > 0
    ensures |r| == |mem|
    decreases |data|
  {
    if data == [] then mem
    else
      var stored := if addr < |mem| then mem[addr := Combine(mode, mem[addr], data[0])] else mem;
      PageWrite(mode, stored, pageSize, addr / pageSize * pageSize + (addr % pageSize + 1) % pageSize, data[1..])
  }

  /** What the caller asked for: the bytes one after the other from `addr`. */
  function LinearWrite(mode: Mode, mem: seq<Byte>, addr: nat, data: seq<Byte>): (r: seq<Byte>)
    requires addr + |data| <= |mem|
    ensures |r| == |mem|
  {
    seq(|mem|, i requires 0 <= i < |mem| =>
      if addr <= i < addr + |data| then Combine(mode, mem[i], data[i - addr]) else mem[i])
  }

  /** Two linear writes back to back are one. */
  lemma LinearWriteAppend(mode: Mode, mem: seq<Byte>, addr: nat, first: seq<Byte>, second: seq<Byte>)
    requires addr + |first| + |second| <= |mem|
    ensures LinearWrite(mode, LinearWrite(mode, mem, addr, first), addr + |first|, second)
         == LinearWrite(mode, mem, addr, first + second)
  {
  }

  /** Inside one page the rolling counter does not roll: the page write is the linear one. */
  lemma {:induction false} PageWriteIsLinear(mode: Mode, mem: seq<Byte>, pageSize: nat, addr: nat, data: seq<Byte>)
    requires pageSize > 0 && addr % pageSize + |data| <= pageSize && addr + |data| <= |mem|
    ensures PageWrite(mode, mem, pageSize, addr, data) == LinearWrite(mode, mem, addr, data)
    decreases |data|
  {
    if data == [] {
      assert LinearWrite(mode, mem, addr, data) == mem;
    } else {
      var stored := mem[addr := Combine(mode, mem[addr], data[0])];
      assert stored == LinearWrite(mode, mem, addr, [data[0]]);
      if |data| > 1 {
        NextAddress(addr, pageSize);
        PageWriteIsLinear(mode, stored, pageSize, addr + 1, data[1..]);
        LinearWriteAppend(mode, mem, addr, [data[0]], data[1..]);
        assert [data[0]] + data[1..] == data;
      } else {
        assert data == [data[0]];
      }
    }
  }

  lemma {:induction false} NextAddress(addr: nat, pageSize: nat)
    requires pageSize > 0 && addr % pageSize + 1 < pageSize
    ensures addr / pageSize * pageSize + (addr % pageSize + 1) % pageSize == addr + 1
    ensures (addr + 1) % pageSize == addr % pageSize + 1
  {
    Words.SmallMod(addr % pageSize + 1, pageSize);
    Words.DivModUnique(addr + 1, addr / pageSize, pageSize, addr % pageSize + 1);
  }

  /** Past the end of the page it does roll: the last byte lands at the page's start,
      and the cell the caller meant is not written. */
  lemma {:induction false} PageWriteRolls(mode: Mode, mem: seq<Byte>, pageSize: nat, addr: nat, data: seq<Byte>)
    requires pageSize > 1 && addr % pageSize == pageSize - 1 && |data| == 2 && addr + 1 < |mem|
    ensures PageWrite(mode, mem, pageSize, addr, data)[addr + 1] == mem[addr + 1]
    ensures var start := addr - (pageSize - 1);
            PageWrite(mode, mem, pageSize, addr, data)[start] == Combine(mode, mem[start], data[1])
  {
    var start := addr - (pageSize - 1);
    var one := mem[addr := Combine(mode, mem[addr], data[0])];
    var two := one[start := Combine(mode, one[start], data[1])];
    assert addr / pageSize * pageSize + (addr % pageSize + 1) % pageSize == start;
    assert data[1..] == [data[1]];
    assert PageWrite(mode, mem, pageSize, addr, data) == PageWrite(mode, one, pageSize, start, [data[1]]);
    assert [data[1]][1..] == [];
    assert PageWrite(mode, one, pageSize, start, [data[1]]) == two;
  }

  /** After a complete overwrite the range reads back as the data, and nothing else changed. */
  lemma ReadBack(mem: seq<Byte>, addr: nat, data: seq<Byte>)
    requires addr + |data| <= |mem|
    ensures LinearWrite(Overwrite, mem, addr, data)[addr..addr + |data|] == data
    ensures LinearWrite(Overwrite, mem, addr, data)[..addr] == mem[..addr]
    ensures LinearWrite(Overwrite, mem, addr, data)[addr + |data|..] == mem[addr + |data|..]
  {
  }

  /** Programming erased cells stores the data. */
  lemma ProgramErased(mem: seq<Byte>, addr: nat, data: seq<Byte>)
    requires addr + |data| <= |mem|
    requires forall i :: addr <= i < addr + |data| ==> mem[i] == 0xFF
    ensures LinearWrite(ClearBits, mem, addr, data)[addr..addr + |data|] == data
  {
  }

  /** Every cell holds its old value or its intended one. */
  predicate Between(before: seq<Byte>, after: seq<Byte>, mem: seq<Byte>) {
    && |mem| == |before| == |after|
    && forall i :: 0 <= i < |mem| ==> mem[i] == before[i] || mem[i] == after[i]
  }

  // ----- A linear write cut into page-bounded chunks -----

  /** n bytes from addr stay in the page of addr. */
  predicate InPage(pageSize: nat, addr: nat, n: nat)
    requires pageSize > 0
  {
    addr % pageSize + n <= pageSize
  }

  predicate PageStart(pageSize: nat, addr: nat)
    requires pageSize > 0
  {
    addr % pageSize == 0
  }

  /** The size of the chunk at `cur`: to the end of its page or of the write. */
  function Chunk(pageSize: nat, cur: nat, end: nat): nat
    requires pageSize > 0 && cur <= end
  {
    if end - cur < pageSize - cur % pageSize then end - cur else pageSize - cur % pageSize
  }

  /** The memory after the first `done` bytes of a write. */
  function PartWritten(mode: Mode, mem: seq<Byte>, addr: nat, data: seq<Byte>, done: nat): (r: seq<Byte>)
    requires done <= |data| && addr + |data| <= |mem|
    ensures |r| == |mem|
  {
    LinearWrite(mode, mem, addr, data[..done])
  }

  lemma PartWrittenEnds(mode: Mode, mem: seq<Byte>, addr: nat, data: seq<Byte>)
    requires addr + |data| <= |mem|
    ensures PartWritten(mode, mem, addr, data, 0) == mem
    ensures PartWritten(mode, mem, addr, data, |data|) == LinearWrite(mode, mem, addr, data)
  {
    assert data[..|data|] == data;
  }

  /** The next chunk extends the part that is written. */
  lemma PartWrittenExtends(mode: Mode, mem: seq<Byte>, addr: nat, data: seq<Byte>, done: nat, n: nat)
    requires addr + |data| <= |mem| && done + n <= |data|
    ensures LinearWrite(mode, PartWritten(mode, mem, addr, data, done), addr + done, data[done..][..n])
         == PartWritten(mode, mem, addr, data, done + n)
  {
    LinearWriteAppend(mode, mem, addr, data[..done], data[done..][..n]);
    assert data[..done] + data[done..][..n] == data[..done + n];
  }

  /** Chunks are not empty, stay in their page, and end on a page boundary or at the end. */
  lemma {:induction false} ChunkEnds(pageSize: nat, cur: nat, end: nat)
    requires pageSize > 0 && cur < end
    ensures 0 < Chunk(pageSize, cur, end) && cur + Chunk(pageSize, cur, end) <= end
    ensures InPage(pageSize, cur, Chunk(pageSize, cur, end))
    ensures cur + Chunk(pageSize, cur, end) < end ==> PageStart(pageSize, cur + Chunk(pageSize, cur, end))
  {
    var n := Chunk(pageSize, cur, end);
    if cur + n < end {
      Words.DivModUnique(cur + n, cur / pageSize + 1, pageSize, 0);
    }
  }

  /** What a split write leaves behind: `done` bytes, ending on a page boundary, are
      written in full. If it stopped cleanly nothing else happened; otherwise each byte
      of the next chunk holds its old or its intended value, and the rest is untouched. */
  predicate SplitOutcome(mode: Mode, pageSize: nat, clean: bool, before: seq<Byte>, after: seq<Byte>,
                         addr: nat, data: seq<Byte>, done: nat)
    requires pageSize > 0 && addr + |data| <= |before|
  {
    && done <= |data|
    && (done == 0 || done == |data| || PageStart(pageSize, addr + done))
    && if clean then
         after == PartWritten(mode, before, addr, data, done)
       else
         var next := done + Chunk(pageSize, addr + done, addr + |data|);
         && done < next <= |data|
         && Between(PartWritten(mode, before, addr, data, done), PartWritten(mode, before, addr, data, next), after)
  }

  lemma ChunkStopped(mode: Mode, pageSize: nat, before: seq<Byte>, after: seq<Byte>, addr: nat, data: seq<Byte>, done: nat)
    requires pageSize > 0 && addr + |data| <= |before| && done < |data|
    requires done == 0 || PageStart(pageSize, addr + done)
    requires var mid := PartWritten(mode, before, addr, data, done);
             var n := Chunk(pageSize, addr + done, addr + |data|);
             Between(mid, LinearWrite(mode, mid, addr + done, data[done..][..n]), after)
    ensures SplitOutcome(mode, pageSize, false, before, after, addr, data, done)
  {
    ChunkEnds(pageSize, addr + done, addr + |data|);
    PartWrittenExtends(mode, before, addr, data, done, Chunk(pageSize, addr + done, addr + |data|));
  }

  lemma SplitCleanly(mode: Mode, pageSize: nat, before: seq<Byte>, addr: nat, data: seq<Byte>, done: nat)
    requires pageSize > 0 && addr + |data| <= |before| && done <= |data|
    requires done == 0 || done == |data| || PageStart(pageSize, addr + done)
    ensures SplitOutcome(mode, pageSize, true, before, PartWritten(mode, before, addr, data, done), addr, data, done)
  {
  }

  /** A write that went through to its end. */
  lemma SplitDone(mode: Mode, pageSize: nat, before: seq<Byte>, addr: nat, data: seq<Byte>)
    requires pageSize > 0 && addr + |data| <= |before|
    ensures SplitOutcome(mode, pageSize, true, before, LinearWrite(mode, before, addr, data), addr, data, |data|)
  {
    PartWrittenEnds(mode, before, addr, data);
  }

  /** Nothing outside [base, base + n) has changed. */
  predicate OnlyWithin(before: seq<Byte>, after: seq<Byte>, base: nat, n: nat) {
    |after| == |before| && forall i :: 0 <= i < |before| && !(base <= i < base + n) ==> after[i] == before[i]
  }

  lemma NothingWritten(mem: seq<Byte>, base: nat, n: nat)
    ensures OnlyWithin(mem, mem, base, n)
  {
  }

  /** Whatever a split write leaves behind, it touched only its range. */
  lemma SplitWithin(mode: Mode, pageSize: nat, clean: bool, before: seq<Byte>, after: seq<Byte>,
                    addr: nat, data: seq<Byte>, done: nat)
    requires pageSize > 0 && addr + |data| <= |before|
    requires SplitOutcome(mode, pageSize, clean, before, after, addr, data, done)
    ensures OnlyWithin(before, after, addr, |data|)
  {
  }
}
