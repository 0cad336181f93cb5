/** What each function code of modbus_tcp.c does with the bytes of a request, in the terms of
    the MODBUS Application Protocol (V1.1b3, sections 6.1 to 6.5 and 6.11): addresses and counts
    are two bytes, the first counting 256 times; coils are bits, the first in the lowest place. */
module ModbusWire {
  import opened Wrappers
  import opened Words
  import opened Bytes
  import opened ModbusBits
  import opened ModbusPdu

  /** The number two bytes stand for on the wire. */
  function Number(first: Byte, second: Byte): nat {
    256 * (first as nat) + (second as nat)
  }

  lemma WordIsNumber(first: Byte, second: Byte)
    ensures Word(first, second) == Number(first, second)
  {
    WordIs(first, second);
  }

  /** Functions other than 1, 2 and 15 have no bit loops. */
  lemma NoBitLoops(t: Tables, req: seq<Byte>)
    requires |req| >= 12 && req[7] != 1 && req[7] != 2 && req[7] != 15
    ensures Supported(t, req)
  {
    hide Start, Count;
  }

  lemma StartIs(req: seq<Byte>)
    requires |req| >= 12
    ensures Start(req) == Number(req[8], req[9])
    ensures Count(req) == Number(req[10], req[11])
  {
    hide Word, Number;
    WordIsNumber(req[8], req[9]);
    WordIsNumber(req[10], req[11]);
  }

  lemma CountByteIs(n: nat)
    ensures Val(CountByte(n)) == n % 256
  {
    hide Val, ByteOfNumber;
  }

  // ----- Function 5 -----

  lemma Coil(req: seq<Byte>)
    requires |req| >= 12
    ensures SecondWord(req) == 0xFF00 <==> req[10] == 0xFF && req[11] == 0
    ensures SecondWord(req) == 0 <==> req[10] == 0 && req[11] == 0
  {
    WordIs(req[10], req[11]);
    hide Word;
    FullByte(req[10]);
    FullByte(req[11]);
  }

  lemma FullByte(b: Byte)
    ensures (b as nat == 255 <==> b == 0xFF) && (b as nat == 0 <==> b == 0)
  {
  }

  /** FF 00 switches the addressed coil on and 00 00 switches it off, and the request's address and
      value come back; any other value, and an address outside the table, is refused. */
  lemma SingleCoil(t: Tables, req: seq<Byte>)
    requires |req| >= 12 && req[7] == 5
    ensures Supported(t, req)
    ensures var a := Number(req[8], req[9]);
            Respond(t, req) ==
              if t.coils.Some? && a < |t.coils.value| && req[10..12] == [0xFF, 0] then
                (Normal(req[8..12]), t.(coils := Some(t.coils.value[a := 1])))
              else if t.coils.Some? && a < |t.coils.value| && req[10..12] == [0, 0] then
                (Normal(req[8..12]), t.(coils := Some(t.coils.value[a := 0])))
              else
                (Refused, t)
  {
    hide Number, FirstWord, SecondWord, Echo, Start, Count, Supported, Respond;
    NoBitLoops(t, req);
    Answers5(t, req);
    StartIs(req);
    Coil(req);
    EchoIs(req);
    assert req[10..12] == [req[10], req[11]];
  }

  lemma Answers5(t: Tables, req: seq<Byte>)
    requires |req| >= 12 && req[7] == 5 && Supported(t, req)
    ensures Respond(t, req) == WriteSingle(t, req)
  {
    hide WriteSingle, Supported, Start, Count;
  }

  lemma OneIs()
    ensures Number(0, 1) == 1
  {
  }

  /** Function 5 followed by function 1 on that one coil: the answer is the bit that was sent. */
  lemma SingleCoilReadsBack(t: Tables, write: seq<Byte>, read: seq<Byte>)
    requires |write| >= 12 && write[7] == 5 && |read| >= 12 && read[7] == 1
    requires read[8..10] == write[8..10] && read[10..12] == [0, 1]
    requires t.coils.Some? && Number(write[8], write[9]) < |t.coils.value|
    requires write[10..12] == [0xFF, 0] || write[10..12] == [0, 0]
    ensures Supported(t, write) && Supported(Respond(t, write).1, read)
    ensures Respond(Respond(t, write).1, read).0 == Normal([1, if write[10..12] == [0xFF, 0] then 1 else 0])
  {
    hide Number, Respond, Supported, ReadBits, Start, Count;
    SingleCoil(t, write);
    var t' := Respond(t, write).1;
    assert read[8] == read[8..10][0] == write[8] && read[9] == read[8..10][1] == write[9];
    assert read[10] == read[10..12][0] && read[11] == read[10..12][1];
    StartIs(write);
    StartIs(read);
    OneIs();
    UsuallySupported(t', read);
    ReadEffect(t', read);
    ReadOne(t'.coils, Start(write));
  }

  // ----- Functions 1 and 2 -----

  /** Bit i of packed bytes, the first in the lowest place of the first byte. */
  predicate IsPacked(bytes: seq<Byte>, items: seq<Byte>) {
    && |bytes| == (|items| + 7) / 8
    && (forall i :: 0 <= i < |items| ==> (bytes[i / 8] >> (i % 8)) & 1 == if items[i] != 0 then 1 else 0)
    && (forall i :: |items| <= i < 8 * |bytes| ==> (bytes[i / 8] >> (i % 8)) & 1 == 0)
  }

  lemma PackIsPacked(items: seq<Byte>)
    ensures IsPacked(Pack(items), items)
  {
    forall i: nat | i < 8 * |Pack(items)|
      ensures (Pack(items)[i / 8] >> (i % 8)) & 1 == if i < |items| && items[i] != 0 then 1 else 0
    {
      PackedBit(items, i);
    }
  }

  lemma PackedBit(items: seq<Byte>, i: nat)
    requires i / 8 < BytesFor(|items|)
    ensures (Pack(items)[i / 8] >> (i % 8)) & 1 == if i < |items| && items[i] != 0 then 1 else 0
  {
    hide Bit, Pack;
    PackBit(items, i / 8, i % 8);
    ShiftDownIsBit(Pack(items)[i / 8], i % 8);
    assert 8 * (i / 8) + i % 8 == i;
  }

  /** The answer to a read of n bits from s on: the number of bytes and the packed bits, or a refusal
      when the range is not in the table or its bytes, counted in 8 bits, do not fit the reply. */
  predicate ShowsBits(a: Answer, table: Option<seq<Byte>>, s: nat, n: nat) {
    if table.Some? && s < |table.value| && s + n <= |table.value| && (n + 7) / 8 % 256 <= 250 then
      a.Normal? && |a.body| > 0 && Val(a.body[0]) == (n + 7) / 8 && IsPacked(a.body[1..], table.value[s..s + n])
    else
      a.Refused?
  }

  lemma ReadBitsShows(table: Option<seq<Byte>>, s: nat, n: nat)
    requires table.Some? && BitReadAccepted(s, n, |table.value|) ==> n <= 2000
    ensures ShowsBits(ReadBits(table, s, n), table, s, n)
  {
    hide Pack, CountByte, IsPacked, Val;
    if table.Some? && BitReadAccepted(s, n, |table.value|) {
      PackIsPacked(table.value[s..s + n]);
      CountByteIs(BytesFor(n));
    }
  }

  /** Function 1 answers from the coils and function 2 from the discrete inputs. */
  lemma BitsRead(t: Tables, req: seq<Byte>)
    requires |req| >= 12 && (req[7] == 1 || req[7] == 2) && Supported(t, req)
    ensures Respond(t, req).1 == t
    ensures ShowsBits(Respond(t, req).0, if req[7] == 1 then t.coils else t.inputs,
                      Number(req[8], req[9]), Number(req[10], req[11]))
  {
    hide Number, ReadBits, ShowsBits, BitReadAccepted, Start, Count;
    StartIs(req);
    ReadBitsShows(if req[7] == 1 then t.coils else t.inputs, Start(req), Count(req));
  }

  // ----- Function 3 -----

  /** The answer to a read of n registers from s on: the number of bytes, then the high and the low
      byte of each register; a refusal outside the table or beyond 125 registers. */
  predicate ShowsRegisters(a: Answer, table: Option<seq<Uint16>>, s: nat, n: nat) {
    if table.Some? && s < |table.value| && s + n <= |table.value| && n <= 125 then
      && a.Normal? && |a.body| == 1 + 2 * n && Val(a.body[0]) == 2 * n
      && forall i :: 0 <= i < n ==> Number(a.body[1 + 2 * i], a.body[2 + 2 * i]) == table.value[s + i]
    else
      a.Refused?
  }

  lemma RegistersCounted(table: Option<seq<Uint16>>, s: nat, n: nat)
    ensures var a := ReadRegisters(table, s, n);
            if table.Some? && s < |table.value| && s + n <= |table.value| && n <= 125 then
              a.Normal? && |a.body| == 1 + 2 * n && a.body[0] == CountByte(2 * n)
            else
              a.Refused?
  {
    hide RegisterBytes, CountByte;
  }

  lemma ReadRegistersShows(table: Option<seq<Uint16>>, s: nat, n: nat)
    ensures ShowsRegisters(ReadRegisters(table, s, n), table, s, n)
  {
    hide ReadRegisters, CountByte, Number, Val;
    var a := ReadRegisters(table, s, n);
    RegistersCounted(table, s, n);
    if a.Normal? {
      CountByteIs(2 * n);
      forall i: nat | i < n
        ensures Number(a.body[1 + 2 * i], a.body[2 + 2 * i]) == table.value[s + i]
      {
        RegisterShown(table, s, n, i);
      }
    }
  }

  lemma RegisterShown(table: Option<seq<Uint16>>, s: nat, n: nat, i: nat)
    requires ReadRegisters(table, s, n).Normal? && i < n
    ensures var body := ReadRegisters(table, s, n).body;
            |body| == 1 + 2 * n && Number(body[1 + 2 * i], body[2 + 2 * i]) == table.value[s + i]
  {
    hide ReadRegisters, Word, Number;
    var body := ReadRegisters(table, s, n).body;
    ReadShowsRegisters(table, s, n, i);
    WordIsNumber(body[1 + 2 * i], body[2 + 2 * i]);
  }

  /** Function 3 answers from the holding registers. */
  lemma RegistersRead(t: Tables, req: seq<Byte>)
    requires |req| >= 12 && req[7] == 3
    ensures Supported(t, req) && Respond(t, req).1 == t
    ensures ShowsRegisters(Respond(t, req).0, t.holdings,
                           Number(req[8], req[9]), Number(req[10], req[11]))
  {
    hide Number, ReadRegisters, ShowsRegisters, Start, Count;
    NoBitLoops(t, req);
    StartIs(req);
    ReadRegistersShows(t.holdings, Start(req), Count(req));
  }

  // ----- Function 15 -----

  /** A range in the table whose number of bytes, counted in 8 bits, is byte 12 and in the frame. */
  predicate CoilsFit(t: Tables, req: seq<Byte>, s: nat, n: nat) {
    && t.coils.Some? && s < |t.coils.value| && s + n <= |t.coils.value|
    && (n + 7) / 8 % 256 + 13 <= |req| && Val(req[12]) == (n + 7) / 8 % 256
  }

  lemma FitsIsAccepted(t: Tables, req: seq<Byte>)
    requires |req| >= 12
    ensures CoilsFit(t, req, Start(req), Count(req)) <==> MultipleCoilsAccepted(t, req)
  {
    hide Start, Count, CountByte, Val;
    CountByteIs(BytesFor(Count(req)));
    if |req| > 12 {
      SameNumber(req[12], CountByte(BytesFor(Count(req))));
    }
  }

  /** Entry s + i is bit i of the data for the n entries from s on; the others are as before. */
  predicate StoresBits(before: seq<Byte>, after: seq<Byte>, data: seq<Byte>, s: nat, n: nat) {
    && |after| == |before| && s + n <= |after| && Holds(data, n)
    && (forall i :: 0 <= i < n ==> after[s + i] == (data[i / 8 % 256] >> (i % 8)) & 1)
    && (forall m :: 0 <= m < |after| && !(s <= m < s + n) ==> after[m] == before[m])
  }

  lemma UnpackStores(coils: seq<Byte>, data: seq<Byte>, s: nat, n: nat)
    requires s + n <= |coils| && Holds(data, n)
    ensures StoresBits(coils, StoreCoils(coils, s, Unpack(data, n)), data, s, n)
  {
    hide Unpack, Bit;
    var after := StoreCoils(coils, s, Unpack(data, n));
    forall i | 0 <= i < n
      ensures after[s + i] == (data[i / 8 % 256] >> (i % 8)) & 1
    {
      UnpackedBit(data, n, i);
    }
  }

  /** Function 15 on what fits: the request's address and count come back, and coil s + i is bit i
      of the data. */
  lemma MultipleCoils(t: Tables, req: seq<Byte>, s: nat, n: nat)
    requires |req| >= 12 && req[7] == 15 && Supported(t, req)
    requires s == Number(req[8], req[9]) && n == Number(req[10], req[11])
    requires CoilsFit(t, req, s, n)
    ensures var (a, t') := Respond(t, req);
            && a == Normal(req[8..12]) && t' == t.(coils := t'.coils)
            && t'.coils.Some? && StoresBits(t.coils.value, t'.coils.value, req[13..], s, n)
  {
    hide *;
    StartIs(req);
    FitsIsAccepted(t, req);
    Answers15(t, req);
    EchoIs(req);
    Stored15(t, req);
  }

  lemma Stored15(t: Tables, req: seq<Byte>)
    requires |req| >= 12 && req[7] == 15 && Supported(t, req) && MultipleCoilsAccepted(t, req)
    ensures var t' := Respond(t, req).1;
            && 13 <= |req| && t.coils.Some? && t'.coils.Some?
            && StoresBits(t.coils.value, t'.coils.value, req[13..], Start(req), Count(req))
  {
    hide *;
    WriteEffect(t, req);
    UnpackStores(t.coils.value, req[13..], Start(req), Count(req));
  }

  /** Function 15 on anything else is refused. */
  lemma MultipleCoilsRefused(t: Tables, req: seq<Byte>)
    requires |req| >= 12 && req[7] == 15 && Supported(t, req)
    requires !CoilsFit(t, req, Number(req[8], req[9]), Number(req[10], req[11]))
    ensures Respond(t, req) == (Refused, t)
  {
    hide *;
    StartIs(req);
    FitsIsAccepted(t, req);
    Answers15(t, req);
  }

  lemma UnpackedBit(data: seq<Byte>, n: nat, i: nat)
    requires Holds(data, n) && i < n
    ensures Unpack(data, n)[i] == (data[i / 8 % 256] >> (i % 8)) & 1
  {
    hide Bit;
    ShiftDownIsBit(data[i / 8 % 256], i % 8);
  }

  lemma Answers15(t: Tables, req: seq<Byte>)
    requires |req| >= 12 && req[7] == 15 && Supported(t, req)
    ensures MultipleCoilsAccepted(t, req) ==>
              && Respond(t, req).0 == Normal(Echo(req))
              && Respond(t, req).1.inputs == t.inputs && Respond(t, req).1.holdings == t.holdings
    ensures !MultipleCoilsAccepted(t, req) ==> Respond(t, req) == (Refused, t)
  {
    hide Start, Count, Echo, Unpack, MultipleCoilsAccepted;
  }

  // ----- The rest -----

  /** Function 4 answers a read of no register with a byte count of 0; every other function is refused. */
  lemma OthersRefused(t: Tables, req: seq<Byte>)
    requires |req| >= 12 && req[7] !in {1, 2, 3, 5, 15}
    ensures Supported(t, req)
    ensures Respond(t, req) == (if req[7] == 4 && req[10..12] == [0, 0] then Normal([0]) else Refused, t)
  {
    hide Start, Count, SecondWord;
    NoBitLoops(t, req);
    Coil(req);
    assert req[10..12] == [req[10], req[11]];
    CountIsSecond(req);
  }

  lemma CountIsSecond(req: seq<Byte>)
    requires |req| >= 12
    ensures Count(req) == SecondWord(req)
  {
  }
}
