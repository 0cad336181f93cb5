/** applications/services/net/modbus_tcp/modbus_tcp.c as written: the request handler
    that fills a 260-byte buffer, and the read-event handler that cuts frames off the
    receive buffer. */
module ModbusServer {
  import opened Wrappers
  import opened Words
  import opened Bytes
  import opened ModbusBits
  import opened ModbusPdu
  import opened ModbusFraming

  // ----- Filling the response buffer -----

  /** The bits packed after the first `i` rounds, as seen at byte k. */
  function RoundsAt(i: nat, k: nat): nat {
    if i <= 8 * k then 0 else if i >= 8 * k + 8 then 8 else i - 8 * k
  }

  lemma {:induction false} PackBytePast(items: seq<Byte>, base: nat, count: nat)
    requires count <= 8 && base + count >= |items|
    ensures PackByte(items, base, 8) == PackByte(items, base, count)
    decreases 8 - count
  {
    if count < 8 {
      PackBytePast(items, base, count + 1);
    }
  }

  /** The packed bytes after the first `i` rounds of the loop. */
  function PackedSoFar(items: seq<Byte>, i: nat): (p: seq<Byte>)
    ensures |p| == BytesFor(|items|)
  {
    seq(BytesFor(|items|), k requires k >= 0 => PackByte(items, 8 * k, RoundsAt(i, k)))
  }

  lemma PackedStart(items: seq<Byte>)
    ensures PackedSoFar(items, 0) == seq(BytesFor(|items|), k => 0)
  {
  }

  lemma PackedStep(items: seq<Byte>, i: nat)
    requires i < |items|
    ensures var p := PackedSoFar(items, i);
            PackedSoFar(items, i + 1) == p[i / 8 := p[i / 8] | if items[i] != 0 then Mask(i % 8) else 0]
  {
    hide PackByte, Mask;
    var p, q := PackedSoFar(items, i), PackedSoFar(items, i + 1);
    forall k | 0 <= k < |p| && k != i / 8
      ensures q[k] == p[k]
    {
      assert RoundsAt(i + 1, k) == RoundsAt(i, k);
    }
    RoundsStep(i);
    PackByteStep(items, i / 8, i % 8, p[i / 8]);
  }

  lemma RoundsStep(i: nat)
    ensures RoundsAt(i, i / 8) == i % 8 && RoundsAt(i + 1, i / 8) == i % 8 + 1
    ensures 8 * (i / 8) + i % 8 == i
  {
  }

  lemma PackByteStep(items: seq<Byte>, k: nat, j: nat, b: Byte)
    requires j < 8 && 8 * k + j < |items| && b == PackByte(items, 8 * k, j)
    ensures PackByte(items, 8 * k, j + 1) == b | if items[8 * k + j] != 0 then Mask(j) else 0
  {
    assert b | 0 == b;
  }

  lemma PackedDone(items: seq<Byte>)
    ensures PackedSoFar(items, |items|) == Pack(items)
  {
    forall k | 0 <= k < BytesFor(|items|)
      ensures PackedSoFar(items, |items|)[k] == Pack(items)[k]
    {
      if RoundsAt(|items|, k) < 8 {
        PackBytePast(items, 8 * k, RoundsAt(|items|, k));
      }
    }
  }

  lemma ByteIndex(i: nat, num: nat)
    requires i < num
    ensures i / 8 < BytesFor(num)
  {
  }

  method ClearBytes(response: array<Byte>, from: nat, num: nat)
    requires from + num <= response.Length
    modifies response
    ensures response[..from] == old(response[..from])
    ensures response[from..from + num] == seq(num, k => 0)
  {
    for k := 0 to num
      invariant response[..from] == old(response[..from])
      invariant forall p :: from <= p < from + k ==> response[p] == 0
    {
      response[from + k] := 0;
    }
  }

  /** response_data[byte_index] |= (item ? 1 : 0) << bit_index */
  method OrInto(response: array<Byte>, byteIndex: nat, bitIndex: nat, item: Byte, count: nat)
    requires byteIndex < count && bitIndex < 8 && 9 + count <= response.Length
    modifies response
    ensures response[..9] == old(response[..9])
    ensures var before := old(response[9..9 + count]);
            response[9..9 + count] ==
              before[byteIndex := before[byteIndex] | if item != 0 then Mask(bitIndex) else 0]
  {
    var bit: Byte := if item != 0 then 1 else 0;
    ShiftIsMask(bitIndex);
    hide Mask;
    response[9 + byteIndex] := response[9 + byteIndex] | (bit << bitIndex);
  }

  /** memset, then one `|=` for each item. */
  method PackInto(response: array<Byte>, table: array<Byte>, start: nat, num: nat)
    requires response.Length == RESPONSE_SIZE && response != table
    requires start + num <= table.Length && 9 + BytesFor(num) <= RESPONSE_SIZE
    modifies response
    ensures response[9..9 + BytesFor(num)] == Pack(table[start..start + num])
    ensures response[..9] == old(response[..9])
  {
    hide Pack, PackedSoFar, Mask, BytesFor;
    ghost var items := table[start..start + num];
    ClearBytes(response, 9, BytesFor(num));
    PackedStart(items);
    for i := 0 to num
      invariant table[start..start + num] == items
      invariant response[..9] == old(response[..9])
      invariant response[9..9 + BytesFor(num)] == PackedSoFar(items, i)
    {
      ByteIndex(i, num);
      var byteIndex, bitIndex := i / 8 % 256, i % 8;
      assert items[i] == table[start + i];
      PackedStep(items, i);
      OrInto(response, byteIndex, bitIndex, table[start + i], BytesFor(num));
    }
    PackedDone(items);
  }

  lemma RegisterBytesStep(words: seq<Uint16>, i: nat)
    requires i < |words|
    ensures RegisterBytes(words[..i + 1]) == RegisterBytes(words[..i]) + [HighByte(words[i]), LowByte(words[i])]
  {
    hide HighByte, LowByte;
    assert words[..i + 1][..i] == words[..i];
  }

  method StoreWord(response: array<Byte>, at: nat, val: Uint16)
    requires 9 <= at && at + 2 <= response.Length
    modifies response
    ensures response[..at] == old(response[..at])
    ensures response[at..at + 2] == [HighByte(val), LowByte(val)]
  {
    response[at] := HighByte(val);
    response[at + 1] := LowByte(val);
  }

  /** A byte buffer and a register table that share no memory. */
  ghost predicate Apart(bytes: array?<Byte>, registers: array?<Uint16>) {
    bytes != null ==> (bytes as object) != registers
  }

  /** Two bytes for each register, most significant first. */
  method RegistersInto(response: array<Byte>, table: array<Uint16>, start: nat, num: nat)
    requires response.Length == RESPONSE_SIZE && Apart(response, table)
    requires start + num <= table.Length && 9 + 2 * num <= RESPONSE_SIZE
    modifies response
    ensures response[9..9 + 2 * num] == RegisterBytes(table[start..start + num])
    ensures response[..9] == old(response[..9])
  {
    hide HighByte, LowByte, RegisterBytes;
    ghost var words: seq<Uint16> := table[start..start + num];
    NoRegisters(words);
    for i := 0 to num
      invariant response[..9 + 2 * i] == old(response[..9]) + RegisterBytes(words[..i])
    {
      ghost var before := response[..9 + 2 * i];
      StoreWord(response, 9 + 2 * i, table[start + i]);
      RegisterBytesStep(words, i);
      assert words[i] == table[start + i];
      assert response[..9 + 2 * (i + 1)] == before + response[9 + 2 * i..9 + 2 * i + 2];
    }
    assert words[..num] == words;
    assert response[..9 + 2 * num][..9] == response[..9] && response[..9 + 2 * num][9..] == response[9..9 + 2 * num];
  }

  lemma NoRegisters(words: seq<Uint16>)
    ensures RegisterBytes(words[..0]) == []
  {
  }

  /** Stores 0 or 1 for each bit received. */
  method UnpackInto(coils: array<Byte>, start: nat, num: nat, data: seq<Byte>)
    requires start + num <= coils.Length && Holds(data, num)
    modifies coils
    ensures coils[..] == StoreCoils(old(coils[..]), start, Unpack(data, num))
  {
    for i := 0 to num
      invariant forall m :: 0 <= m < coils.Length && !(start <= m < start + i) ==> coils[m] == old(coils[m])
      invariant forall m :: 0 <= m < i ==> coils[start + m] == Unpack(data, num)[m]
    {
      var byteIndex, bitIndex := i / 8 % 256, i % 8;
      ShiftDownIsBit(data[byteIndex], bitIndex);
      var bitValue := (data[byteIndex] >> bitIndex) & 0x01;
      coils[start + i] := bitValue;
    }
    assert forall m :: start <= m < start + num ==> coils[m] == coils[start + (m - start)];
  }

  /** The address and value words, written back in network order. */
  method EchoInto(response: array<Byte>, first: Uint16, second: Uint16)
    requires response.Length == RESPONSE_SIZE
    modifies response
    ensures response[8..12] == [HighByte(first), LowByte(first), HighByte(second), LowByte(second)]
    ensures response[..8] == old(response[..8])
  {
    response[8], response[9] := HighByte(first), LowByte(first);
    response[10], response[11] := HighByte(second), LowByte(second);
  }

  // ----- The handlers of the functions -----

  function TableOf<T>(table: array?<T>, size: nat): Option<seq<T>>
    requires table != null ==> size <= table.Length
    reads table
  {
    if table == null then None else Some(table[..size])
  }

  /** What a handler leaves for the common end: a success or the bare nine bytes are sent
      as they are, anything else becomes an exception. */
  predicate Delivers(a: Answer, success: bool, responseLen: nat, response: seq<Byte>) {
    && responseLen <= |response|
    && if a.Normal? then
         (success || responseLen == 9) && responseLen == 8 + |a.body| && response[8..responseLen] == a.body
       else
         !success && responseLen != 9
  }

  /** Functions 1 and 2. */
  method ReadBitsInto(table: array?<Byte>, size: nat, start: nat, num: nat, response: array<Byte>)
    returns (success: bool, responseLen: nat)
    requires table != null ==> size <= table.Length && table != response && (BitReadAccepted(start, num, size) ==> num <= 2000)
    requires response.Length == RESPONSE_SIZE
    modifies response
    ensures response[..8] == old(response[..8])
    ensures Delivers(ReadBits(old(TableOf(table, size)), start, num), success, responseLen, response[..])
  {
    hide Pack, CountByte;
    success, responseLen := false, 0;
    if table != null && start < size && start + num <= size {
      ghost var items := table[..size][start..start + num];
      var bytesCount := BytesFor(num) % 256;
      if bytesCount + 9 < RESPONSE_SIZE {
        assert bytesCount == BytesFor(num) && table[start..start + num] == items;
        PackInto(response, table, start, num);
        response[8] := CountByte(BytesFor(num));
        responseLen := 9 + bytesCount;
        success := true;
        assert response[8..responseLen] == [response[8]] + Pack(items);
        assert response[..][8..responseLen] == response[8..responseLen];
      }
    }
  }

  /** Function 3. */
  method ReadRegistersInto(table: array?<Uint16>, size: nat, start: nat, num: nat, response: array<Byte>)
    returns (success: bool, responseLen: nat)
    requires table != null ==> size <= table.Length
    requires response.Length == RESPONSE_SIZE && Apart(response, table)
    modifies response
    ensures response[..8] == old(response[..8])
    ensures Delivers(ReadRegisters(old(TableOf(table, size)), start, num), success, responseLen, response[..])
  {
    hide RegisterBytes, CountByte;
    success, responseLen := false, 0;
    if table != null && start < size && start + num <= size {
      ghost var words: seq<Uint16> := table[..size][start..start + num];
      if num * 2 + 9 < RESPONSE_SIZE {
        assert table[start..start + num] == words;
        RegistersInto(response, table, start, num);
        response[8] := CountByte(num * 2);
        responseLen := 9 + num * 2;
        success := true;
        assert response[8..responseLen] == [response[8]] + RegisterBytes(words);
        assert response[..][8..responseLen] == response[8..responseLen];
      }
    }
  }

  method CopyHeader(req: seq<Byte>, response: array<Byte>)
    requires |req| >= 12 && response.Length == RESPONSE_SIZE
    modifies response
    ensures response[..8] == req[..8]
  {
    for i := 0 to 8
      invariant forall m :: 0 <= m < i ==> response[m] == req[m]
    {
      response[i] := req[i];
    }
  }

  /** Turns anything that was not a success, nor the bare nine bytes, into an exception. */
  method FinishPdu(req: seq<Byte>, ghost a: Answer, success: bool, prepared: nat, response: array<Byte>)
    returns (responseLen: nat)
    requires |req| >= 12 && response.Length == RESPONSE_SIZE
    requires response[..8] == req[..8] && Delivers(a, success, prepared, response[..])
    modifies response
    ensures 7 <= responseLen <= RESPONSE_SIZE
    ensures response[..7] == req[..7] && response[7..responseLen] == Pdu(req, a)
  {
    responseLen := prepared;
    assert response[..7] == response[..8][..7] && response[7] == response[..8][7];
    if !success && responseLen != 9 {
      responseLen := 9;
      response[7] := response[7] | 0x80;
      response[8] := 4;
    } else {
      assert response[..][8..responseLen] == response[8..responseLen];
      assert response[7..responseLen] == [response[7]] + response[8..responseLen];
    }
  }

  /** The common end: the exception, then the length field. */
  method Finish(req: seq<Byte>, ghost a: Answer, success: bool, prepared: nat, response: array<Byte>)
    returns (reply: seq<Byte>)
    requires |req| >= 12 && response.Length == RESPONSE_SIZE
    requires response[..8] == req[..8] && Delivers(a, success, prepared, response[..])
    modifies response
    ensures reply == ReplyFrame(req, a)
  {
    hide HighByte, LowByte, LengthField, Delivers, Pdu, ReplyFrame;
    var responseLen := FinishPdu(req, a, success, prepared, response);
    ghost var head, pdu := response[..7], response[7..responseLen];
    var n := LengthField(responseLen - 6);
    response[4], response[5] := HighByte(n), LowByte(n);
    assert response[7..responseLen] == pdu;
    assert response[..4] == head[..4] && response[6] == head[6];
    reply := response[..responseLen];
    FrameIs(req, a, reply);
  }

  /** The parts of a reply frame. */
  lemma FrameIs(req: seq<Byte>, a: Answer, reply: seq<Byte>)
    requires |req| >= 12 && |reply| >= 7 && reply[..4] == req[..4] && reply[6] == req[6] && reply[7..] == Pdu(req, a)
    requires var n := LengthField(|reply| - 6);
             reply[4] == HighByte(n) && reply[5] == LowByte(n)
    ensures reply == ReplyFrame(req, a)
  {
    hide HighByte, LowByte, LengthField, Pdu;
    assert reply == reply[..4] + [reply[4], reply[5], reply[6]] + reply[7..];
  }

  lemma CountNone()
    ensures CountByte(0) == 0
  {
  }

  // ----- The server -----

  /** ModbusTcpApi without callbacks, and the connection's buffers. */
  class Server {
    const coils: array?<Byte>
    const coilsSize: Uint16
    const inputs: array?<Byte>
    const inputsSize: Uint16
    const holdings: array?<Uint16>
    const holdingsSize: Uint16
    var recv: seq<Byte>
    var sent: seq<seq<Byte>>
    ghost var handled: seq<seq<Byte>>

    /** The tables hold what their sizes say, and the coils share no memory with another table. */
    ghost predicate Valid() {
      && (coils != null ==> coilsSize <= coils.Length)
      && (inputs != null ==> inputsSize <= inputs.Length)
      && (holdings != null ==> holdingsSize <= holdings.Length)
      && (coils != null ==> coils != inputs) && Apart(coils, holdings)
    }

    /** The response buffer is none of the tables. */
    ghost predicate Separate(response: array<Byte>) {
      response != coils && response != inputs && Apart(response, holdings)
    }

    ghost function View(): (t: Tables)
      requires Valid()
      reads coils, inputs, holdings
    {
      Tables(TableOf(coils, coilsSize), TableOf(inputs, inputsSize), TableOf(holdings, holdingsSize))
    }

    constructor (coils: array?<Byte>, coilsSize: Uint16, inputs: array?<Byte>, inputsSize: Uint16,
                 holdings: array?<Uint16>, holdingsSize: Uint16)
      requires coils != null ==> coilsSize <= coils.Length
      requires inputs != null ==> inputsSize <= inputs.Length
      requires holdings != null ==> holdingsSize <= holdings.Length
      requires (coils != null ==> coils != inputs) && Apart(coils, holdings)
      ensures Valid() && recv == [] && sent == [] && handled == []
      ensures this.coils == coils && this.inputs == inputs && this.holdings == holdings
    {
      this.coils, this.coilsSize := coils, coilsSize;
      this.inputs, this.inputsSize := inputs, inputsSize;
      this.holdings, this.holdingsSize := holdings, holdingsSize;
      recv, sent, handled := [], [], [];
    }

    /** Function 5. */
    method WriteSingleInto(req: seq<Byte>, response: array<Byte>) returns (success: bool, responseLen: nat)
      requires Valid() && |req| >= 12
      requires response.Length == RESPONSE_SIZE && Separate(response)
      modifies response, coils
      ensures response[..8] == old(response[..8])
      ensures var (a, t) := WriteSingle(old(View()), req);
              Delivers(a, success, responseLen, response[..]) && View() == t
    {
      hide Word, HighByte, LowByte;
      success, responseLen := false, 0;
      var start, value := Word(req[8], req[9]), Word(req[10], req[11]);
      if coils != null && start < coilsSize {
        if value == 0x0000 || value == 0xFF00 {
          coils[start] := if value == 0xFF00 then 1 else 0;
          assert coils[..coilsSize] == old(coils[..coilsSize])[start := coils[start]];
          EchoInto(response, Word(req[8], req[9]), value);
          responseLen := 12;
          success := true;
          assert response[..][8..12] == response[8..12];
        }
      }
    }

    /** Function 15. The byte count is read even from a 12-byte frame, which has none. */
    method WriteMultipleInto(req: seq<Byte>, response: array<Byte>) returns (success: bool, responseLen: nat)
      requires Valid() && |req| >= 12 && (MultipleCoilsAccepted(View(), req) ==> Count(req) <= 2040 || 269 <= |req|)
      requires response.Length == RESPONSE_SIZE && Separate(response)
      modifies response, coils
      ensures response[..8] == old(response[..8])
      ensures var (a, t) := WriteMultiple(old(View()), req);
              Delivers(a, success, responseLen, response[..]) && View() == t
    {
      hide CountByte, Unpack, Word;
      success, responseLen := false, 0;
      var start, num := Word(req[8], req[9]), Word(req[10], req[11]);
      if coils != null && start < coilsSize && start + num <= coilsSize {
        var byteCount: Byte := *;
        if |req| > 12 {
          byteCount := req[12];
        }
        var expectedBytes := BytesFor(num) % 256;
        if byteCount == CountByte(BytesFor(num)) && expectedBytes + 13 <= |req| {
          DataHeld(View(), req);
          UnpackInto(coils, start, num, req[13..]);
          StoreCoilsPrefix(old(coils[..]), coilsSize, start, Unpack(req[13..], num));
          EchoInto(response, Word(req[8], req[9]), Word(req[10], req[11]));
          responseLen := 12;
          success := true;
          assert response[..][8..12] == response[8..12];
        }
      }
    }

    /** Functions 4, 6 and 16, which are not implemented beyond the bytes they prepare. */
    method UnimplementedInto(req: seq<Byte>, response: array<Byte>) returns (responseLen: nat)
      requires |req| >= 12 && req[7] in {4, 6, 16} && response.Length == RESPONSE_SIZE
      modifies response
      ensures response[..8] == old(response[..8])
      ensures Delivers(if req[7] == 4 && Count(req) == 0 then Normal([0]) else Refused, false, responseLen, response[..])
    {
      hide Word, HighByte, LowByte, CountByte;
      CountNone();
      responseLen := 0;
      var num := Word(req[10], req[11]);
      if req[7] == 6 || (req[7] == 16 && num * 2 + 10 < RESPONSE_SIZE) {
        EchoInto(response, Word(req[8], req[9]), Word(req[10], req[11]));
        responseLen := 12;
      } else if req[7] == 4 && num * 2 + 9 < RESPONSE_SIZE {
        response[8] := CountByte(num * 2);
        responseLen := 9 + num * 2;
        assert response[..][8..9] == [response[8]];
      }
    }

    /** The chain of function codes. */
    method Dispatch(req: seq<Byte>, response: array<Byte>) returns (success: bool, responseLen: nat)
      requires Valid() && |req| >= 12 && Supported(View(), req)
      requires response.Length == RESPONSE_SIZE && Separate(response)
      modifies response, coils
      ensures response[..8] == old(response[..8])
      ensures var (a, t) := Respond(old(View()), req);
              Delivers(a, success, responseLen, response[..]) && View() == t
    {
      hide ReadBits, ReadRegisters, WriteSingle, WriteMultiple, Word;
      var func := req[7];
      success, responseLen := false, 0;
      if func == 2 {
        success, responseLen := ReadBitsInto(inputs, inputsSize, Word(req[8], req[9]), Word(req[10], req[11]), response);
      } else if func == 1 {
        success, responseLen := ReadBitsInto(coils, coilsSize, Word(req[8], req[9]), Word(req[10], req[11]), response);
      } else if func == 5 {
        success, responseLen := WriteSingleInto(req, response);
      } else if func == 15 {
        success, responseLen := WriteMultipleInto(req, response);
      } else if func == 3 {
        success, responseLen := ReadRegistersInto(holdings, holdingsSize, Word(req[8], req[9]), Word(req[10], req[11]), response);
      } else if func == 4 || func == 6 || func == 16 {
        responseLen := UnimplementedInto(req, response);
      }
    }

    /** handle_modbus_pdu on the first `len` bytes of the receive buffer. */
    method HandlePdu(buf: seq<Byte>, len: nat)
      requires Valid() && len <= |buf| && (len >= 12 ==> Supported(View(), buf[..len]))
      modifies `sent, coils
      ensures len < 12 ==> sent == old(sent) && View() == old(View())
      ensures len >= 12 ==>
                var (a, t) := Respond(old(View()), buf[..len]);
                sent == old(sent) + [ReplyFrame(buf[..len], a)] && View() == t
    {
      if len < 12 {
        return;
      }
      hide Respond, ReplyFrame, Delivers;
      var req := buf[..len];
      var response := new Byte[RESPONSE_SIZE];
      CopyHeader(req, response);
      var success, responseLen := Dispatch(req, response);
      var reply := Finish(req, Respond(old(View()), req).0, success, responseLen, response);
      sent := sent + [reply];
    }

    /** modbus_ev_handler on a read event that appended `chunk` to the buffer. */
    method OnReadEvent(chunk: seq<Byte>)
      requires Valid() && AllSupported(View(), NewFrames(recv + chunk))
      modifies this, coils
      ensures Connection(handled, recv) == OnRead(old(Connection(handled, recv)), chunk)
      ensures var frames := handled[|old(handled)|..];
              frames == NewFrames(old(recv) + chunk) &&
              var (t, replies) := Serve(old(View()), frames);
              |frames| <= 1 && sent == old(sent) + replies && View() == t
    {
      hide Respond, ReplyFrame, Word, Supported;
      recv := recv + chunk;
      if |recv| < 7 {
        return;
      }
      var len: nat := Word(recv[4], recv[5]);
      if |recv| < len + 6 {
        return;
      }
      ghost var frame := recv[..len + 6];
      HandlePdu(recv, len + 6);
      handled := handled + [frame];
      recv := recv[len + 6..];
      ServeOne(old(View()), frame);
      assert handled[|old(handled)|..] == [frame];
    }
  }

  /** What a read event hands over from the buffer. */
  function NewFrames(buffer: seq<Byte>): seq<seq<Byte>> {
    if HasFrame(buffer) then [buffer[..FrameLength(buffer)]] else []
  }

  lemma StoreCoilsPrefix(buffer: seq<Byte>, size: nat, start: nat, items: seq<Byte>)
    requires start + |items| <= size <= |buffer|
    ensures StoreCoils(buffer, start, items)[..size] == StoreCoils(buffer[..size], start, items)
  {
  }

  lemma ServeOne(t: Tables, frame: seq<Byte>)
    requires |frame| >= 12 ==> Supported(t, frame)
    ensures AllSupported(t, [frame])
    ensures Serve(t, [frame]) ==
              if |frame| < 12 then (t, [])
              else var (a, t') := Respond(t, frame); (t', [ReplyFrame(frame, a)])
  {
    hide Respond, ReplyFrame;
    var frames := [frame];
    assert frames[..|frames| - 1] == [];
    if |frame| >= 12 {
      var none: seq<seq<Byte>>, reply := [], ReplyFrame(frame, Respond(t, frame).0);
      assert none + [reply] == [reply];
    }
  }
}
