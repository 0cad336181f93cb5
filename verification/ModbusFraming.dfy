/** How read events cut a Modbus TCP byte stream into request frames (header of the
    MODBUS Messaging on TCP/IP Implementation Guide V1.0b, section 3.1.3). */
module ModbusFraming {
  import opened Bytes
  import opened ModbusBits
  import opened ModbusPdu

  /** The length a header announces, with the six bytes up to the length field. */
  function FrameLength(s: seq<Byte>): (n: nat)
    requires |s| >= 7
    ensures n >= 6
  {
    Word(s[4], s[5]) + 6
  }

  /** The buffer starts with a complete frame. */
  predicate HasFrame(s: seq<Byte>) {
    |s| >= 7 && |s| >= FrameLength(s)
  }

  /** All the frames that can be cut off, one after the other. */
  function Frames(s: seq<Byte>): seq<seq<Byte>>
    decreases |s|
  {
    if HasFrame(s) then [s[..FrameLength(s)]] + Frames(s[FrameLength(s)..]) else []
  }

  function Flat(parts: seq<seq<Byte>>): seq<Byte> {
    if parts == [] then [] else Flat(parts[..|parts| - 1]) + parts[|parts| - 1]
  }

  // ----- One connection -----

  /** What was handed to the request handler so far, and what waits in the buffer. */
  datatype Connection = Connection(handled: seq<seq<Byte>>, buffer: seq<Byte>)

  /** One read event: the bytes that arrived are appended, then at most one frame is handled. */
  function OnRead(c: Connection, chunk: seq<Byte>): Connection {
    var b := c.buffer + chunk;
    if HasFrame(b) then Connection(c.handled + [b[..FrameLength(b)]], b[FrameLength(b)..])
    else Connection(c.handled, b)
  }

  function Run(chunks: seq<seq<Byte>>): Connection {
    if chunks == [] then Connection([], [])
    else OnRead(Run(chunks[..|chunks| - 1]), chunks[|chunks| - 1])
  }

  /** A complete frame is cut off the same way however many bytes follow it. */
  lemma {:induction false} FirstFrame(s: seq<Byte>, more: seq<Byte>)
    requires HasFrame(s)
    ensures Frames(s + more) == [s[..FrameLength(s)]] + Frames(s[FrameLength(s)..] + more)
  {
    hide Word;
    var n := FrameLength(s);
    assert FrameLength(s + more) == n;
    hide FrameLength;
    assert (s + more)[..n] == s[..n];
    assert (s + more)[n..] == s[n..] + more;
  }

  /** For every split of a stream into read events: the handled frames and the buffer are
      all the bytes received, at most one frame is handled at each event, and whatever
      arrives later, the frames of the whole stream are the handled ones followed by
      those of the buffer and the rest. */
  lemma {:induction false} RunIsGreedy(chunks: seq<seq<Byte>>, more: seq<Byte>)
    ensures var c := Run(chunks);
            && Flat(c.handled) + c.buffer == Flat(chunks)
            && |c.handled| <= |chunks|
            && Frames(Flat(chunks) + more) == c.handled + Frames(c.buffer + more)
  {
    if chunks != [] {
      var front, chunk := chunks[..|chunks| - 1], chunks[|chunks| - 1];
      var c := Run(front);
      RunIsGreedy(front, chunk + more);
      var b := c.buffer + chunk;
      EventGreedy(Flat(front), c, chunk, more);
    }
  }

  lemma FlatThen(parts: seq<seq<Byte>>, part: seq<Byte>)
    ensures Flat(parts + [part]) == Flat(parts) + part
  {
    assert (parts + [part])[..|parts|] == parts;
  }

  /** One event of that induction. */
  lemma {:induction false} EventGreedy(received: seq<Byte>, c: Connection, chunk: seq<Byte>, more: seq<Byte>)
    requires Flat(c.handled) + c.buffer == received
    requires Frames(received + (chunk + more)) == c.handled + Frames(c.buffer + (chunk + more))
    ensures var c' := OnRead(c, chunk);
            && Flat(c'.handled) + c'.buffer == received + chunk
            && Frames(received + chunk + more) == c'.handled + Frames(c'.buffer + more)
  {
    hide Frames, FrameLength, Flat;
    var b := c.buffer + chunk;
    assert received + (chunk + more) == received + chunk + more;
    assert c.buffer + (chunk + more) == b + more;
    if HasFrame(b) {
      FirstFrame(b, more);
      hide HasFrame;
      var frame, rest := b[..FrameLength(b)], b[FrameLength(b)..];
      FlatThen(c.handled, frame);
      Regrouped(Flat(c.handled), c.buffer, chunk, frame, rest);
      assert c.handled + ([frame] + Frames(rest + more)) == (c.handled + [frame]) + Frames(rest + more);
    } else {
      assert Flat(c.handled) + c.buffer + chunk == Flat(c.handled) + b;
    }
  }

  lemma Regrouped(done: seq<Byte>, buffer: seq<Byte>, chunk: seq<Byte>, frame: seq<Byte>, rest: seq<Byte>)
    requires buffer + chunk == frame + rest
    ensures done + frame + rest == done + buffer + chunk
  {
    assert done + frame + rest == done + (frame + rest);
  }

  predicate Comparable<T(==)>(a: seq<T>, b: seq<T>) {
    a <= b || b <= a
  }

  /** Two splits of one stream, or of a stream and its beginning, never hand over different
      frames: one list of handled frames is a prefix of the other. */
  lemma {:induction false} SplitsAgree(one: seq<seq<Byte>>, two: seq<seq<Byte>>)
    requires Flat(one) <= Flat(two)
    ensures Run(one).handled <= Frames(Flat(two)) && Run(two).handled <= Frames(Flat(two))
    ensures Comparable(Run(one).handled, Run(two).handled)
  {
    var more := Flat(two)[|Flat(one)|..];
    RunIsGreedy(one, more);
    RunIsGreedy(two, []);
    assert Flat(one) + more == Flat(two);
    assert Flat(two) + [] == Flat(two);
    PrefixesComparable(Run(one).handled, Run(two).handled, Frames(Flat(two)));
  }

  lemma PrefixesComparable<T>(a: seq<T>, b: seq<T>, whole: seq<T>)
    requires a <= whole && b <= whole
    ensures Comparable(a, b)
  {
    assert a == whole[..|a|] && b == whole[..|b|];
  }

  // ----- Whole requests -----

  /** The bytes 4 and 5 of a frame count what follows them (section 3.1.3 of the guide). */
  predicate WellFormed(r: seq<Byte>) {
    |r| >= 7 && 256 * (r[4] as nat) + (r[5] as nat) + 6 == |r|
  }

  lemma {:induction false} FlatCons(parts: seq<seq<Byte>>)
    requires parts != []
    ensures Flat(parts) == parts[0] + Flat(parts[1..])
  {
    var front, last := parts[..|parts| - 1], parts[|parts| - 1];
    if front != [] {
      FlatCons(front);
      assert front[1..] == parts[1..][..|parts| - 2];
      assert parts[0] + Flat(front[1..]) + last == parts[0] + (Flat(front[1..]) + last);
    }
  }

  predicate AllWellFormed(requests: seq<seq<Byte>>) {
    forall i :: 0 <= i < |requests| ==> WellFormed(requests[i])
  }

  lemma HeadAndTail(requests: seq<seq<Byte>>)
    requires AllWellFormed(requests) && requests != []
    ensures WellFormed(requests[0]) && AllWellFormed(requests[1..])
  {
  }

  lemma FrameOfRequest(r: seq<Byte>, more: seq<Byte>)
    requires WellFormed(r)
    ensures HasFrame(r + more) && FrameLength(r + more) == |r|
  {
    WordIs(r[4], r[5]);
    hide Word;
    assert (r + more)[4] == r[4] && (r + more)[5] == r[5];
  }

  lemma {:induction false} CutOff(r: seq<Byte>, more: seq<Byte>)
    requires WellFormed(r)
    ensures Frames(r + more) == [r] + Frames(more)
  {
    hide FrameLength, HasFrame, WellFormed;
    FrameOfRequest(r, more);
    assert (r + more)[..|r|] == r && (r + more)[|r|..] == more;
  }

  /** A stream of requests, with whatever follows it, is cut into exactly these requests. */
  lemma {:induction false} RequestsAreFrames(requests: seq<seq<Byte>>, more: seq<Byte>)
    requires AllWellFormed(requests)
    ensures Frames(Flat(requests) + more) == requests + Frames(more)
  {
    if requests == [] {
      hide Frames;
      assert Flat(requests) + more == more;
    } else {
      hide *;
      HeadAndTail(requests);
      var r, rest := requests[0], Flat(requests[1..]) + more;
      FlatCons(requests);
      assert Flat(requests) + more == r + rest;
      CutOff(r, rest);
      RequestsAreFrames(requests[1..], more);
      assert requests == [r] + requests[1..];
      assert [r] + (requests[1..] + Frames(more)) == requests + Frames(more);
    }
  }

  /** However a stream of requests, or a beginning of it, is split into read events, only its
      requests are handled, once each and in order. */
  lemma {:induction false} OnlyRequestsHandled(requests: seq<seq<Byte>>, chunks: seq<seq<Byte>>)
    requires AllWellFormed(requests)
    requires Flat(chunks) <= Flat(requests)
    ensures Run(chunks).handled <= requests
  {
    hide *;
    NoFrames();
    RequestsAreFrames(requests, []);
    var more := Flat(requests)[|Flat(chunks)|..];
    RunIsGreedy(chunks, more);
    assert Flat(requests) + [] == Flat(requests) == Flat(chunks) + more;
    assert requests + Frames([]) == requests;
  }

  lemma NoFrames()
    ensures Frames([]) == []
  {
  }

  lemma {:induction false} FlatJoin(a: seq<seq<Byte>>, b: seq<seq<Byte>>)
    ensures Flat(a + b) == Flat(a) + Flat(b)
  {
    if b == [] {
      assert a + b == a;
    } else {
      var front, last := b[..|b| - 1], b[|b| - 1];
      FlatJoin(a, front);
      assert a + b == (a + front) + [last];
      FlatThen(a + front, last);
      assert Flat(a) + Flat(front) + last == Flat(a) + (Flat(front) + last);
    }
  }

  function Least(a: nat, b: nat): nat {
    if a <= b then a else b
  }

  /** Once a stream of requests has arrived, in whatever pieces, every later read event handles
      one more of them until none is left, whatever bytes it brings. */
  lemma {:induction false} EventsHandleRequests(requests: seq<seq<Byte>>, chunks: seq<seq<Byte>>, later: seq<seq<Byte>>)
    requires AllWellFormed(requests)
    requires Flat(chunks) == Flat(requests)
    ensures requests[..Least(|requests|, |Run(chunks).handled| + |later|)] <= Run(chunks + later).handled
  {
    hide Frames, Run, Flat, WellFormed, AllWellFormed;
    RequestsAreFrames(requests, Flat(later));
    RunIsGreedy(chunks + later, []);
    FlatJoin(chunks, later);
    var c := Run(chunks + later);
    assert Flat(chunks + later) + [] == Flat(requests) + Flat(later);
    assert c.buffer + [] == c.buffer;
    assert c.handled + Frames(c.buffer) == requests + Frames(Flat(later));
    EnoughHandled(requests, chunks, later);
    var k := Least(|requests|, |Run(chunks).handled| + |later|);
    assert requests[..k] == (requests + Frames(Flat(later)))[..k] == c.handled[..k];
  }

  lemma {:induction false} RunThen(chunks: seq<seq<Byte>>, last: seq<Byte>)
    ensures Run(chunks + [last]) == OnRead(Run(chunks), last)
  {
    assert (chunks + [last])[..|chunks|] == chunks;
  }

  lemma {:induction false} EnoughHandled(requests: seq<seq<Byte>>, chunks: seq<seq<Byte>>, later: seq<seq<Byte>>)
    requires AllWellFormed(requests)
    requires Flat(chunks) == Flat(requests)
    ensures |Run(chunks + later).handled| >= Least(|requests|, |Run(chunks).handled| + |later|)
  {
    if later == [] {
      assert chunks + later == chunks;
    } else {
      hide Run, Flat, AllWellFormed, HasFrame, FrameLength;
      var front, last := later[..|later| - 1], later[|later| - 1];
      EnoughHandled(requests, chunks, front);
      assert chunks + later == (chunks + front) + [last];
      RunThen(chunks + front, last);
      FlatJoin(chunks, front);
      if |Run(chunks + front).handled| < |requests| {
        OneMore(requests, chunks + front, last);
      }
    }
  }

  /** With a request left in the buffer the next event handles a frame. */
  lemma OneMore(requests: seq<seq<Byte>>, chunks: seq<seq<Byte>>, last: seq<Byte>)
    requires AllWellFormed(requests)
    requires Flat(requests) <= Flat(chunks) && |Run(chunks).handled| < |requests|
    ensures HasFrame(Run(chunks).buffer + last)
  {
    hide *;
    var more := Flat(chunks)[|Flat(requests)|..];
    RequestsAreFrames(requests, more + last);
    RunIsGreedy(chunks, last);
    assert Flat(chunks) + last == Flat(requests) + (more + last);
    NoFrameNoFrames(Run(chunks).buffer + last);
  }

  lemma NoFrameNoFrames(b: seq<Byte>)
    ensures HasFrame(b) || Frames(b) == []
  {
  }

  // ----- The replies -----

  /** Every frame that is not dropped is supported. */
  predicate AllSupported(t: Tables, frames: seq<seq<Byte>>) {
    forall i :: 0 <= i < |frames| && |frames[i]| >= 12 ==> Supported(t, frames[i])
  }

  /** The tables and the replies after a list of frames; frames below 12 bytes are dropped. */
  function Serve(t: Tables, frames: seq<seq<Byte>>): (r: (Tables, seq<seq<Byte>>))
    requires AllSupported(t, frames)
    ensures SameSizes(t, r.0)
  {
    if frames == [] then (t, [])
    else
      var (t1, replies) := Serve(t, frames[..|frames| - 1]);
      var req := frames[|frames| - 1];
      if |req| < 12 then (t1, replies)
      else
        SupportedBySizes(t, t1, req);
        var (answer, t2) := Respond(t1, req);
        (t2, replies + [ReplyFrame(req, answer)])
  }

  lemma {:induction false} ServePrefix(t: Tables, a: seq<seq<Byte>>, b: seq<seq<Byte>>)
    requires AllSupported(t, b) && a <= b
    ensures AllSupported(t, a) && Serve(t, a).1 <= Serve(t, b).1
  {
    if |a| < |b| {
      hide Respond, ReplyFrame, Supported;
      ServePrefix(t, a, b[..|b| - 1]);
    } else {
      assert a == b;
    }
  }

  /** The client can cut the replies apart by their length fields as well. */
  lemma {:induction false} RepliesAreFrames(t: Tables, frames: seq<seq<Byte>>, more: seq<Byte>)
    requires AllSupported(t, frames)
    ensures AllWellFormed(Serve(t, frames).1)
    ensures Frames(Flat(Serve(t, frames).1) + more) == Serve(t, frames).1 + Frames(more)
  {
    RepliesWellFormed(t, frames);
    hide Serve, Frames, Flat, WellFormed;
    RequestsAreFrames(Serve(t, frames).1, more);
  }

  lemma {:induction false} RepliesWellFormed(t: Tables, frames: seq<seq<Byte>>)
    requires AllSupported(t, frames)
    ensures AllWellFormed(Serve(t, frames).1)
  {
    if frames != [] {
      hide Respond, ReplyFrame, Supported, Word;
      var front, req := frames[..|frames| - 1], frames[|frames| - 1];
      RepliesWellFormed(t, front);
      var t1 := Serve(t, front).0;
      if |req| >= 12 {
        SupportedBySizes(t, t1, req);
        ReplyLength(t1, req);
      }
    }
  }

  /** However the network splits a client's bytes, the replies it gets are the same list,
      cut off at the same or a later point. */
  lemma RepliesAgree(t: Tables, one: seq<seq<Byte>>, two: seq<seq<Byte>>)
    requires Flat(one) <= Flat(two) && AllSupported(t, Frames(Flat(two)))
    ensures AllSupported(t, Run(one).handled) && AllSupported(t, Run(two).handled)
    ensures Comparable(Serve(t, Run(one).handled).1, Serve(t, Run(two).handled).1)
  {
    SplitsAgree(one, two);
    hide Supported, Run, Frames, Serve;
    ServePrefix(t, Run(one).handled, Frames(Flat(two)));
    ServePrefix(t, Run(two).handled, Frames(Flat(two)));
    PrefixesComparable(Serve(t, Run(one).handled).1, Serve(t, Run(two).handled).1, Serve(t, Frames(Flat(two))).1);
  }
}
