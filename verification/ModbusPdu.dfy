/** applications/services/net/modbus_tcp/modbus_tcp.c, handle_modbus_pdu: the answer
    to one request frame, as a function of the request and the tables, and the C
    code's byte-by-byte construction of it. */
module ModbusPdu {
  import opened Wrappers
  import opened Bytes
  import opened ModbusBits
  import opened Words

  /** The server's data: a table is absent when its pointer is NULL. */
  datatype Tables = Tables(coils: Option<seq<Byte>>, inputs: Option<seq<Byte>>, holdings: Option<seq<Uint16>>)

  const RESPONSE_SIZE: nat := 260

  // ----- Requests -----

  function Function(req: seq<Byte>): Byte
    requires |req| >= 12
  {
    req[7]
  }

  function FirstWord(req: seq<Byte>): Uint16
    requires |req| >= 12
  {
    Word(req[8], req[9])
  }

  function SecondWord(req: seq<Byte>): Uint16
    requires |req| >= 12
  {
    Word(req[10], req[11])
  }

  /** [start, start + num) lies in a table of `size` entries. */
  predicate InTable(start: nat, num: nat, size: nat) {
    start < size && start + num <= size
  }

  function Start(req: seq<Byte>): nat
    requires |req| >= 12
  {
    FirstWord(req)
  }

  function Count(req: seq<Byte>): nat
    requires |req| >= 12
  {
    SecondWord(req)
  }

  // ----- Answers -----

  /** What follows the function code, or a refusal. */
  datatype Answer = Normal(body: seq<Byte>) | Refused

  /** The tests of functions 1 and 2 on a table of `size` entries. */
  predicate BitReadAccepted(start: nat, num: nat, size: nat) {
    InTable(start, num, size) && BytesFor(num) % 256 + 9 < RESPONSE_SIZE
  }

  function ReadBits(table: Option<seq<Byte>>, start: nat, num: nat): Answer {
    if table.Some? && BitReadAccepted(start, num, |table.value|) then
      Normal([CountByte(BytesFor(num))] + Pack(table.value[start..start + num]))
    else
      Refused
  }

  /** The registers' bytes, most significant first. */
  function RegisterBytes(words: seq<Uint16>): (b: seq<Byte>)
    ensures |b| == 2 * |words|
  {
    if words == [] then []
    else RegisterBytes(words[..|words| - 1]) + [HighByte(words[|words| - 1]), LowByte(words[|words| - 1])]
  }

  function ReadRegisters(table: Option<seq<Uint16>>, start: nat, num: nat): Answer {
    if table.Some? && InTable(start, num, |table.value|) && num * 2 + 9 < RESPONSE_SIZE then
      Normal([CountByte(num * 2)] + RegisterBytes(table.value[start..start + num]))
    else
      Refused
  }

  /** The echo of the request's address and value. */
  function Echo(req: seq<Byte>): seq<Byte>
    requires |req| >= 12
  {
    [HighByte(FirstWord(req)), LowByte(FirstWord(req)), HighByte(SecondWord(req)), LowByte(SecondWord(req))]
  }

  lemma EchoIs(req: seq<Byte>)
    requires |req| >= 12
    ensures Echo(req) == req[8..12]
  {
    hide Word, HighByte, LowByte;
    BytesOfWord(req[8], req[9]);
    BytesOfWord(req[10], req[11]);
  }

  function StoreCoils(coils: seq<Byte>, start: nat, items: seq<Byte>): (c: seq<Byte>)
    requires start + |items| <= |coils|
    ensures |c| == |coils|
  {
    coils[..start] + items + coils[start + |items|..]
  }

  /** The value a function 5 request stores. */
  function CoilValue(req: seq<Byte>): Byte
    requires |req| >= 12
  {
    if SecondWord(req) == 0xFF00 then 1 else 0
  }

  predicate SingleCoilAccepted(t: Tables, req: seq<Byte>)
    requires |req| >= 12
  {
    && t.coils.Some? && Start(req) < |t.coils.value|
    && (SecondWord(req) == 0x0000 || SecondWord(req) == 0xFF00)
  }

  predicate MultipleCoilsAccepted(t: Tables, req: seq<Byte>)
    requires |req| >= 12
  {
    var start, num := Start(req), Count(req);
    && t.coils.Some? && InTable(start, num, |t.coils.value|)
    && BytesFor(num) % 256 + 13 <= |req| && req[12] == CountByte(BytesFor(num))
  }

  /** The request keeps the bit loops inside their buffers: an accepted read of bits has at most 2000 of
      them, and the bytes of an accepted function 15 are in the frame. */
  predicate Supported(t: Tables, req: seq<Byte>)
    requires |req| >= 12
  {
    && (Function(req) == 1 && t.coils.Some? && BitReadAccepted(Start(req), Count(req), |t.coils.value|) ==>
          Count(req) <= 2000)
    && (Function(req) == 2 && t.inputs.Some? && BitReadAccepted(Start(req), Count(req), |t.inputs.value|) ==>
          Count(req) <= 2000)
    && (Function(req) == 15 && MultipleCoilsAccepted(t, req) ==> Count(req) <= 2040 || 269 <= |req|)
  }

  predicate SameSize<T>(a: Option<seq<T>>, b: Option<seq<T>>) {
    (a.Some? <==> b.Some?) && (a.Some? ==> |a.value| == |b.value|)
  }

  predicate SameSizes(t: Tables, t': Tables) {
    SameSize(t.coils, t'.coils) && SameSize(t.inputs, t'.inputs) && SameSize(t.holdings, t'.holdings)
  }

  /** What a request does to the buffers depends on the tables' sizes alone. */
  lemma SupportedBySizes(t: Tables, t': Tables, req: seq<Byte>)
    requires |req| >= 12 && SameSizes(t, t')
    ensures Supported(t, req) <==> Supported(t', req)
  {
  }

  function WriteSingle(t: Tables, req: seq<Byte>): (r: (Answer, Tables))
    requires |req| >= 12
    ensures SameSizes(t, r.1)
  {
    if SingleCoilAccepted(t, req) then
      (Normal(Echo(req)), t.(coils := Some(t.coils.value[Start(req) := CoilValue(req)])))
    else
      (Refused, t)
  }

  lemma DataHeld(t: Tables, req: seq<Byte>)
    requires |req| >= 12 && MultipleCoilsAccepted(t, req) && (Count(req) <= 2040 || 269 <= |req|)
    ensures |req| >= 13 && Holds(req[13..], Count(req))
  {
    hide Count, Start, CountByte;
  }

  function WriteMultiple(t: Tables, req: seq<Byte>): (r: (Answer, Tables))
    requires |req| >= 12 && (MultipleCoilsAccepted(t, req) ==> Count(req) <= 2040 || 269 <= |req|)
    ensures SameSizes(t, r.1)
  {
    if MultipleCoilsAccepted(t, req) then
      DataHeld(t, req);
      (Normal(Echo(req)), t.(coils := Some(StoreCoils(t.coils.value, Start(req), Unpack(req[13..], Count(req))))))
    else
      (Refused, t)
  }

  /** The answer and the tables after it. Functions 6 and 16, and all others, are refused;
      function 4 answers an empty read when no register is asked for. */
  function Respond(t: Tables, req: seq<Byte>): (r: (Answer, Tables))
    requires |req| >= 12 && Supported(t, req)
    ensures SameSizes(t, r.1)
  {
    var f := Function(req);
    if f == 2 then (ReadBits(t.inputs, Start(req), Count(req)), t)
    else if f == 1 then (ReadBits(t.coils, Start(req), Count(req)), t)
    else if f == 5 then WriteSingle(t, req)
    else if f == 15 then WriteMultiple(t, req)
    else if f == 3 then (ReadRegisters(t.holdings, Start(req), Count(req)), t)
    else if f == 4 && Count(req) == 0 then (Normal([0]), t)
    else (Refused, t)
  }

  /** The answer with its function code; a refusal is the code plus 128, and exception code 4. */
  function Pdu(req: seq<Byte>, a: Answer): seq<Byte>
    requires |req| >= 12
  {
    if a.Normal? then [req[7]] + a.body else [req[7] | 0x80, 4]
  }

  /** The value of the length field for n bytes after it. */
  function LengthField(n: nat): Uint16 {
    n % 0x1_0000
  }

  /** The reply frame: the request's identifiers, the length of what follows the length
      field, and the answer. */
  function ReplyFrame(req: seq<Byte>, a: Answer): seq<Byte>
    requires |req| >= 12
  {
    var pdu := Pdu(req, a);
    var n := LengthField(|pdu| + 1);
    req[..4] + [HighByte(n), LowByte(n), req[6]] + pdu
  }

  // ----- What a client can rely on -----

  lemma ReadBitsAccepted(table: Option<seq<Byte>>, start: nat, num: nat)
    requires table.Some? && InTable(start, num, |table.value|) && num <= 2000
    ensures ReadBits(table, start, num).Normal?
  {
  }

  lemma ReadBitsSize(table: Option<seq<Byte>>, start: nat, num: nat)
    requires ReadBits(table, start, num).Normal? && num <= 2040
    ensures num <= 2000 && start + num <= |table.value|
    ensures var body := ReadBits(table, start, num).body;
            |body| == 1 + BytesFor(num) <= 251 && body[0] == CountByte(BytesFor(num))
    ensures ReadBits(table, start, num).body[1..] == Pack(table.value[start..start + num])
  {
    hide CountByte, Pack;
  }

  /** Whatever the table's size, the bytes the packing loop of an accepted read touches lie in the
      buffer exactly for the 2000 entries that section 6.1 of the standard allows. */
  lemma PackingFitsIff(start: nat, num: nat, size: nat)
    requires BitReadAccepted(start, num, size)
    ensures (forall i :: 0 <= i < num ==> PackingIndex(i) < RESPONSE_SIZE) <==> num <= 2000
  {
    if num > 2040 {
      assert PackingIndex(2040) >= RESPONSE_SIZE;
    }
  }

  /** The byte of the buffer that holds entry i. */
  function PackingIndex(i: nat): nat {
    9 + ByteOf(i)
  }

  /** Which requests are accepted and leave the buffer: more than 2040 entries, whose number of
      bytes looks small again in 8 bits. The larger counts in between are refused. */
  lemma LeavesBufferIff(start: nat, num: nat, size: nat)
    ensures BitReadAccepted(start, num, size) && (exists i :: 0 <= i < num && PackingIndex(i) >= RESPONSE_SIZE)
       <==> InTable(start, num, size) && num > 2040 && BytesFor(num) % 256 <= 250
  {
    if num > 2040 {
      assert PackingIndex(2040) >= RESPONSE_SIZE;
    }
  }

  /** The smallest such request, and a larger one that is refused. */
  lemma LeavesBuffer()
    ensures BitReadAccepted(0, 2041, 2041) && PackingIndex(2040) == 264 >= RESPONSE_SIZE
    ensures !BitReadAccepted(0, 4050, 4050)
  {
  }

  /** The byte of a function 15 frame that holds bit i. */
  function DataIndex(i: nat): nat {
    13 + ByteOf(i)
  }

  /** Whatever the table's size, the bytes the loop of an accepted function 15 reads lie in the frame
      exactly when there are at most 2040 coils or the frame has the 269 bytes an 8-bit index can name. */
  lemma DataInFrameIff(t: Tables, req: seq<Byte>)
    requires |req| >= 12 && MultipleCoilsAccepted(t, req)
    ensures (forall i :: 0 <= i < Count(req) ==> DataIndex(i) < |req|) <==> Count(req) <= 2040 || 269 <= |req|
  {
    var num := Count(req);
    assert BytesFor(num) % 256 + 13 <= |req|;
    hide Count, CountByte, MultipleCoilsAccepted;
    DataFits(num, |req|);
  }

  /** A request for 2041 of 2041 coils with a byte count of 0 and no data is accepted. */
  lemma DataLeavesFrame(t: Tables, req: seq<Byte>)
    requires |req| == 13 && Start(req) == 0 && Count(req) == 2041 && req[12] == 0
    requires t.coils.Some? && |t.coils.value| == 2041
    ensures MultipleCoilsAccepted(t, req) && DataIndex(2040) >= |req|
  {
    hide Start, Count;
    assert BytesFor(2041) % 256 == 0;
  }

  lemma DataFits(num: nat, size: nat)
    requires BytesFor(num) % 256 + 13 <= size
    ensures (forall i :: 0 <= i < num ==> DataIndex(i) < size) <==> num <= 2040 || 269 <= size
  {
    assert DataIndex(2040) == 268;
  }

  /** A request is supported exactly when the bit loops stay inside the reply buffer and the frame. */
  lemma SupportedIff(t: Tables, req: seq<Byte>)
    requires |req| >= 12
    ensures Supported(t, req) <==>
            && (Function(req) == 1 && t.coils.Some? && BitReadAccepted(Start(req), Count(req), |t.coils.value|) ==>
                  forall i :: 0 <= i < Count(req) ==> PackingIndex(i) < RESPONSE_SIZE)
            && (Function(req) == 2 && t.inputs.Some? && BitReadAccepted(Start(req), Count(req), |t.inputs.value|) ==>
                  forall i :: 0 <= i < Count(req) ==> PackingIndex(i) < RESPONSE_SIZE)
            && (Function(req) == 15 && MultipleCoilsAccepted(t, req) ==>
                  forall i :: 0 <= i < Count(req) ==> DataIndex(i) < |req|)
  {
    hide Start, Count, MultipleCoilsAccepted, BitReadAccepted, PackingIndex, DataIndex;
    if t.coils.Some? && BitReadAccepted(Start(req), Count(req), |t.coils.value|) {
      PackingFitsIff(Start(req), Count(req), |t.coils.value|);
    }
    if t.inputs.Some? && BitReadAccepted(Start(req), Count(req), |t.inputs.value|) {
      PackingFitsIff(Start(req), Count(req), |t.inputs.value|);
    }
    if MultipleCoilsAccepted(t, req) {
      DataInFrameIff(t, req);
    }
  }

  /** In particular every request for at most 2040 entries, and every request on smaller tables. */
  lemma UsuallySupported(t: Tables, req: seq<Byte>)
    requires |req| >= 12
    requires || Count(req) <= 2040
             || ((t.coils.Some? ==> |t.coils.value| <= 2040) && (t.inputs.Some? ==> |t.inputs.value| <= 2040))
    ensures Supported(t, req)
  {
    hide Start, Count, CountByte;
  }

  lemma AnswerSize(t: Tables, req: seq<Byte>)
    requires |req| >= 12 && Supported(t, req)
    ensures var a := Respond(t, req).0; a.Normal? ==> 1 <= |a.body| <= 251
  {
    hide Start, Count, FirstWord, SecondWord, Pack, RegisterBytes, SingleCoilAccepted, MultipleCoilsAccepted;
    var start, num := Start(req), Count(req);
    if Function(req) == 2 && ReadBits(t.inputs, start, num).Normal? {
      ReadBitsSize(t.inputs, start, num);
    }
    if Function(req) == 1 && ReadBits(t.coils, start, num).Normal? {
      ReadBitsSize(t.coils, start, num);
    }
    hide ReadBits;
  }

  lemma HighBitSet(b: Byte)
    ensures (b | 0x80) & 0x80 != 0
  {
  }

  lemma NormalIsLowCode(t: Tables, req: seq<Byte>)
    requires |req| >= 12 && Supported(t, req) && Respond(t, req).0.Normal?
    ensures req[7] & 0x80 == 0
  {
    hide ReadBits, ReadRegisters, WriteSingle, WriteMultiple, Count, Start;
    assert req[7] in {1, 2, 3, 4, 5, 15};
  }

  lemma RefusalKeepsTables(t: Tables, req: seq<Byte>)
    requires |req| >= 12 && Supported(t, req) && Respond(t, req).0.Refused?
    ensures Respond(t, req).1 == t
  {
    hide ReadBits, ReadRegisters, Count, Start;
  }

  /** Every reply fits the 260-byte buffer, echoes transaction, protocol and unit, and its
      length field counts the bytes after it. The high bit of the function code tells a
      refusal, which has exception code 4 and leaves every table as it was. */
  lemma ReplyShape(t: Tables, req: seq<Byte>)
    requires |req| >= 12 && Supported(t, req)
    ensures var (a, t') := Respond(t, req);
            var r := ReplyFrame(req, a);
            && 9 <= |r| < RESPONSE_SIZE
            && r[..4] == req[..4] && r[6] == req[6]
            && Word(r[4], r[5]) == |r| - 6
            && (r[7] & 0x80 != 0 <==> a.Refused?)
            && (a.Normal? ==> r[7] == req[7] && r[8..] == a.body)
            && (a.Refused? ==> |r| == 9 && r[7] == req[7] | 0x80 && r[8] == 4 && t' == t)
  {
    hide Respond, Word, HighByte, LowByte;
    AnswerSize(t, req);
    var a := Respond(t, req).0;
    if a.Normal? {
      NormalIsLowCode(t, req);
    } else {
      RefusalKeepsTables(t, req);
    }
    var r := ReplyFrame(req, a);
    WordOfBytes(|r| - 6);
    HighBitSet(req[7]);
  }

  /** The same of the two bytes on the wire. */
  lemma ReplyLength(t: Tables, req: seq<Byte>)
    requires |req| >= 12 && Supported(t, req)
    ensures var r := ReplyFrame(req, Respond(t, req).0);
            9 <= |r| && 256 * (r[4] as nat) + (r[5] as nat) + 6 == |r|
  {
    hide *;
    ReplyShape(t, req);
    var r := ReplyFrame(req, Respond(t, req).0);
    WordIs(r[4], r[5]);
  }

  /** The coils a request may write. */
  predicate Addresses(req: seq<Byte>, i: nat)
    requires |req| >= 12
  {
    || (Function(req) == 5 && i == Start(req))
    || (Function(req) == 15 && Start(req) <= i < Start(req) + Count(req))
  }

  /** Only an accepted function 5 or 15 changes anything, and only the addressed coils. */
  lemma OnlyAddressedCoilsChange(t: Tables, req: seq<Byte>, i: nat)
    requires |req| >= 12 && Supported(t, req)
    ensures var t' := Respond(t, req).1;
            && t'.inputs == t.inputs && t'.holdings == t.holdings
            && (t'.coils.Some? <==> t.coils.Some?)
            && (t.coils.Some? ==>
                  && |t'.coils.value| == |t.coils.value|
                  && (i < |t.coils.value| && !Addresses(req, i) ==> t'.coils.value[i] == t.coils.value[i]))
  {
    hide ReadBits, ReadRegisters, Unpack, Word;
    if Function(req) == 15 && MultipleCoilsAccepted(t, req) {
      WriteEffect(t, req);
    } else {
      hide StoreCoils, MultipleCoilsAccepted;
    }
  }

  /** What an accepted function 15 does. */
  lemma WriteEffect(t: Tables, req: seq<Byte>)
    requires |req| >= 12 && Supported(t, req) && req[7] == 15 && MultipleCoilsAccepted(t, req)
    ensures var start, num := Start(req), Count(req);
            && t.coils.Some? && 13 <= |req| && Holds(req[13..], num) && start + num <= |t.coils.value|
            && (num <= 2040 ==> 13 + BytesFor(num) <= |req|)
            && Respond(t, req).1.coils == Some(StoreCoils(t.coils.value, start, Unpack(req[13..], num)))
  {
    DataHeld(t, req);
    hide Word, StoreCoils, Unpack, ReadBits, ReadRegisters;
  }

  /** A normal answer to function 1 or 2 holds one bit for each entry asked for, in order,
      and zeros after the last. */
  lemma ReadShowsTable(table: Option<seq<Byte>>, start: nat, num: nat, k: nat, j: nat)
    requires ReadBits(table, start, num).Normal? && num <= 2040
    requires k < BytesFor(num) && j < 8
    ensures |ReadBits(table, start, num).body| == 1 + BytesFor(num) && start + num <= |table.value|
    ensures Bit(ReadBits(table, start, num).body[1 + k], j) <==> 8 * k + j < num && table.value[start + 8 * k + j] != 0
  {
    ReadBitsSize(table, start, num);
    hide ReadBits, Pack, Bit;
    var items := table.value[start..start + num];
    assert ReadBits(table, start, num).body[1..][k] == Pack(items)[k];
    PackBit(items, k, j);
  }

  lemma {:induction false} RegisterBytesAt(words: seq<Uint16>, i: nat)
    requires i < |words|
    ensures Word(RegisterBytes(words)[2 * i], RegisterBytes(words)[2 * i + 1]) == words[i]
  {
    hide Word, HighByte, LowByte;
    if i == |words| - 1 {
      WordOfBytes(words[i]);
    } else {
      RegisterBytesAt(words[..|words| - 1], i);
    }
  }

  /** A normal answer to function 3 holds the registers asked for, in order. */
  lemma ReadShowsRegisters(table: Option<seq<Uint16>>, start: nat, num: nat, i: nat)
    requires ReadRegisters(table, start, num).Normal? && i < num
    ensures var body := ReadRegisters(table, start, num).body;
            |body| == 1 + 2 * num && Word(body[1 + 2 * i], body[2 + 2 * i]) == table.value[start + i]
  {
    RegisterBytesAt(table.value[start..start + num], i);
  }

  /** What function 1 answers. */
  lemma ReadEffect(t: Tables, req: seq<Byte>)
    requires |req| >= 12 && Function(req) == 1 && Supported(t, req)
    ensures Respond(t, req) == (ReadBits(t.coils, Start(req), Count(req)), t)
  {
  }

  lemma StoredItems(coils: seq<Byte>, start: nat, items: seq<Byte>)
    requires start + |items| <= |coils|
    ensures StoreCoils(coils, start, items)[start..start + |items|] == items
  {
  }

  /** Function 15 followed by function 1 on the same range: the read returns the written
      bytes, with the unused high bits of the last one zero. */
  lemma WriteThenRead(t: Tables, write: seq<Byte>, read: seq<Byte>, k: nat, j: nat)
    requires |write| >= 12 && Supported(t, write) && Function(write) == 15 && MultipleCoilsAccepted(t, write)
    requires |read| >= 12 && Function(read) == 1
    requires FirstWord(read) == FirstWord(write) && SecondWord(read) == SecondWord(write)
    requires Count(write) <= 2000 && k < BytesFor(Count(write)) && j < 8
    ensures 13 + k < |write| && Supported(Respond(t, write).1, read)
    ensures var num := Count(write);
            var a := Respond(Respond(t, write).1, read).0;
            && a.Normal? && |a.body| == 1 + BytesFor(num)
            && (Bit(a.body[1 + k], j) <==> 8 * k + j < num && Bit(write[13 + k], j))
            && (8 * k + 8 <= num ==> a.body[1 + k] == write[13 + k])
  {
    hide Word, Bit, Pack, Unpack, StoreCoils, ReadBits, Respond;
    assert Start(read) == Start(write) && Count(read) == Count(write);
    UsuallySupported(Respond(t, write).1, read);
    hide FirstWord, SecondWord;
    var start, num := Start(write), Count(write);
    WriteEffect(t, write);
    var t' := Respond(t, write).1;
    ReadEffect(t', read);
    var data := write[13..];
    StoredItems(t.coils.value, start, Unpack(data, num));
    ReadBitsAccepted(t'.coils, start, num);
    ReadBitsSize(t'.coils, start, num);
    assert ReadBits(t'.coils, start, num).body[1..][k] == Pack(Unpack(data, num))[k];
    PackUnpack(data, num, k, j);
    if 8 * k + 8 <= num {
      PackUnpackFullByte(data, num, k);
    }
  }

  lemma WriteSingleEffect(t: Tables, req: seq<Byte>)
    requires |req| >= 12 && Supported(t, req) && Function(req) == 5 && SingleCoilAccepted(t, req)
    ensures Start(req) < |t.coils.value| && Respond(t, req).1.coils == Some(t.coils.value[Start(req) := CoilValue(req)])
  {
  }

  lemma ReadOne(table: Option<seq<Byte>>, start: nat)
    requires table.Some? && start < |table.value| && table.value[start] <= 1
    ensures ReadBits(table, start, 1) == Normal([1, table.value[start]])
  {
    hide Pack, ReadBits;
    ReadBitsAccepted(table, start, 1);
    ReadBitsSize(table, start, 1);
    NumOne();
    var v := table.value[start];
    assert table.value[start..start + 1] == [v];
    PackOne(v);
    var body := ReadBits(table, start, 1).body;
    assert body == [body[0]] + body[1..];
  }

  /** Function 5 followed by function 1 on that coil reads the value written. */
  lemma WriteSingleThenRead(t: Tables, write: seq<Byte>, read: seq<Byte>)
    requires |write| >= 12 && Supported(t, write) && Function(write) == 5 && SingleCoilAccepted(t, write)
    requires |read| >= 12 && Function(read) == 1 && FirstWord(read) == FirstWord(write) && SecondWord(read) == 1
    ensures Supported(Respond(t, write).1, read)
    ensures Respond(Respond(t, write).1, read).0 == Normal([1, CoilValue(write)])
  {
    NumOne();
    assert Start(read) == Start(write) && Count(read) == 1;
    UsuallySupported(Respond(t, write).1, read);
    hide Word, Start, Count, Respond, SingleCoilAccepted, ReadBits;
    WriteSingleEffect(t, write);
    var t' := Respond(t, write).1;
    ReadEffect(t', read);
    ReadOne(t'.coils, Start(write));
  }

  lemma NumOne()
    ensures CountByte(BytesFor(1)) == 1
  {
    hide ByteOfNumber;
    SameNumber(CountByte(1), 1);
  }

  lemma PackOne(v: Byte)
    requires v == 0 || v == 1
    ensures Pack([v]) == [v]
  {
    assert BytesFor(1) == 1;
    assert PackByte([v], 0, 1) == v;
    forall j | 0 <= j < 8
      ensures Bit(Pack([v])[0], j) <==> Bit(v, j)
    {
      PackBit([v], 0, j);
    }
    SameBits(Pack([v])[0], v);
  }
}
