/**
 The bounded line reader `readline` of src/sock.c.

 The reader fills a caller buffer of capacity `maxlen` one byte at a time,
 calling `read(fd, &c, 1)` directly (not `safe_read`). It stops after storing
 a newline, when `maxlen - 1` bytes are stored, at end-of-stream or at a read
 failure other than EINTR; an EINTR failure retries the same buffer slot.

 The descriptor is an oracle: a script of read outcomes, one per `read` call,
 after whose end the peer has closed the connection (every further `read`
 returns 0). `Scan` is the reference definition of the reader on a script;
 `ReadLineInto` is the imperative reader over an array, proved to agree with it.
 */
module LineReader {
  import opened SysCalls

  type Byte = bv8

  const NEWLINE: Byte := 10
  const NUL: Byte := 0

  /** What one `read(fd, &c, 1)` call yields: a byte (rc == 1), end-of-stream (rc == 0) or a failure with its errno. */
  datatype ReadOutcome = Got(c: Byte) | EndOfStream | Failed(errno: int)

  /** Why the reader stopped. */
  datatype Stop = NewlineSeen | BufferFull | StreamEnded | ReadFailed

  /**
   The observable result of one call: the return value `rc`, the bytes stored at
   the front of the buffer, whether a NUL was written right after them, the number
   of `read` calls made and the reason for stopping.
   */
  datatype LineResult = LineResult(rc: int, stored: seq<Byte>, terminated: bool, calls: nat, stop: Stop)

  /** The outcome of read number `k + 1`: past the script's end the peer has closed. */
  function ReadAt(outs: seq<ReadOutcome>, k: nat): ReadOutcome {
    if k < |outs| then outs[k] else EndOfStream
  }

  /** The next `read` on the remaining script. */
  function Next(outs: seq<ReadOutcome>): ReadOutcome {
    ReadAt(outs, 0)
  }

  /**
   The reader from the point where `stored` bytes are in the buffer (so the C
   loop counter `n` is `|stored| + 1`) and `done` calls have been made, with
   `outs` the outcomes still to come.
   */
  function Scan(outs: seq<ReadOutcome>, maxlen: nat, stored: seq<Byte>, done: nat): (r: LineResult)
    ensures |stored| <= |r.stored| && r.stored[..|stored|] == stored
    ensures done <= r.calls <= done + |outs| + 1
    ensures |stored| < maxlen ==> |r.stored| < maxlen
    decreases |outs|
  {
    if |stored| + 1 >= maxlen then
      LineResult(|stored| + 1, stored, true, done, BufferFull)
    else
      match Next(outs)
      case Got(c) =>
        if c == NEWLINE then LineResult(|stored| + 1, stored + [c], true, done + 1, NewlineSeen)
        else Scan(outs[1..], maxlen, stored + [c], done + 1)
      case EndOfStream =>
        if |stored| == 0 then LineResult(0, stored, false, done + 1, StreamEnded)
        else LineResult(|stored| + 1, stored, true, done + 1, StreamEnded)
      case Failed(e) =>
        if e == EINTR then Scan(outs[1..], maxlen, stored, done + 1)
        else LineResult(-1, stored, false, done + 1, ReadFailed)
  }

  /** `readline` on the script `outs` with a buffer of capacity `maxlen`. */
  function ReadLine(outs: seq<ReadOutcome>, maxlen: nat): LineResult {
    Scan(outs, maxlen, [], 0)
  }

  /** The outcomes the first `m` calls see: past the script's end they add only end-of-stream. */
  function Seen(outs: seq<ReadOutcome>, m: nat): seq<ReadOutcome> {
    if m <= |outs| then outs[..m] else outs
  }

  /** The bytes among a run of outcomes, in order. */
  function Bytes(outs: seq<ReadOutcome>): seq<Byte> {
    if |outs| == 0 then []
    else (if outs[0].Got? then [outs[0].c] else []) + Bytes(outs[1..])
  }

  /** A read after which the reader goes on to the next slot or retries the same one. */
  predicate Continues(o: ReadOutcome) {
    (o.Got? && o.c != NEWLINE) || (o.Failed? && o.errno == EINTR)
  }

  predicate NoNewline(s: seq<Byte>) {
    forall j :: 0 <= j < |s| ==> s[j] != NEWLINE
  }

  /** A run of outcomes that each deliver one byte of `data`. */
  function Deliver(data: seq<Byte>): seq<ReadOutcome> {
    seq(|data|, j requires 0 <= j < |data| => Got(data[j]))
  }

  /** The script without its EINTR failures. */
  function StripInterrupts(outs: seq<ReadOutcome>): seq<ReadOutcome> {
    if |outs| == 0 then []
    else if outs[0] == Failed(EINTR) then StripInterrupts(outs[1..])
    else [outs[0]] + StripInterrupts(outs[1..])
  }

  lemma BytesAppend(a: seq<ReadOutcome>, b: seq<ReadOutcome>)
    ensures Bytes(a + b) == Bytes(a) + Bytes(b)
  {
    if |a| == 0 {
      assert a + b == b;
    } else {
      assert (a + b)[1..] == a[1..] + b;
    }
  }

  /**
   All writes stay inside the buffer: with `maxlen >= 1` at most `maxlen - 1`
   bytes are stored, and a terminator, if written, lands at index `|stored|`,
   at most `maxlen - 1`.
   */
  lemma InBounds(outs: seq<ReadOutcome>, maxlen: nat)
    requires maxlen >= 1
    ensures var r := ReadLine(outs, maxlen);
      |r.stored| <= maxlen - 1 && (r.terminated ==> |r.stored| < maxlen)
  {
  }

  /**
   With capacity 0 the loop body never runs, but the NUL still goes to index 0:
   one past the end of an empty buffer. `readline` then returns 1.
   */
  lemma ZeroCapacityWritesOutside(outs: seq<ReadOutcome>)
    ensures var r := ReadLine(outs, 0);
      r.terminated && r.stored == [] && r.rc == 1 && r.calls == 0
  {
  }

  /** The first `m >= 1` reads see the first outcome and then what `m - 1` reads see of the rest. */
  lemma SeenStep(outs: seq<ReadOutcome>, m: nat)
    requires |outs| > 0 && m >= 1
    ensures Bytes(Seen(outs, m)) == Bytes([outs[0]]) + Bytes(Seen(outs[1..], m - 1))
  {
    assert Seen(outs, m) == [outs[0]] + Seen(outs[1..], m - 1);
    BytesAppend([outs[0]], Seen(outs[1..], m - 1));
  }

  /** One step of `StoredFromStream`: a read that lets the scan go on adds its byte, if any, in front. */
  lemma StoredStep(outs: seq<ReadOutcome>, r: LineResult, stored: seq<Byte>, done: nat)
    requires |outs| > 0 && r.calls >= done + 1
    requires r.stored == (if outs[0].Got? then stored + [outs[0].c] else stored) + Bytes(Seen(outs[1..], r.calls - (done + 1)))
    ensures r.stored == stored + Bytes(Seen(outs, r.calls - done))
  {
    SeenStep(outs, r.calls - done);
    assert Bytes([outs[0]]) == if outs[0].Got? then [outs[0].c] else [];
  }

  /** The stored bytes are exactly the bytes the reads delivered, in stream order. */
  lemma {:induction false} StoredFromStream(outs: seq<ReadOutcome>, maxlen: nat, stored: seq<Byte>, done: nat)
    ensures var r := Scan(outs, maxlen, stored, done);
      r.stored == stored + Bytes(Seen(outs, r.calls - done))
    decreases |outs|
  {
    if |stored| + 1 < maxlen && |outs| > 0 && Continues(outs[0]) {
      var r := Scan(outs, maxlen, stored, done);
      var next := if outs[0].Got? then stored + [outs[0].c] else stored;
      assert r == Scan(outs[1..], maxlen, next, done + 1);
      StoredFromStream(outs[1..], maxlen, next, done + 1);
      StoredStep(outs, r, stored, done);
    } else if |stored| + 1 < maxlen && |outs| > 0 {
      assert Seen(outs, 1) == [outs[0]];
    }
  }

  /** A newline can only be the last stored byte, and it is there exactly when the reader stopped because of it. */
  lemma {:induction false} NewlineOnlyLast(outs: seq<ReadOutcome>, maxlen: nat, stored: seq<Byte>, done: nat)
    requires NoNewline(stored)
    ensures var r := Scan(outs, maxlen, stored, done);
      && (forall j :: 0 <= j < |r.stored| - 1 ==> r.stored[j] != NEWLINE)
      && (r.stop == NewlineSeen <==> (|r.stored| > 0 && r.stored[|r.stored| - 1] == NEWLINE))
    decreases |outs|
  {
    if |stored| + 1 < maxlen {
      match Next(outs)
      case Got(c) =>
        if c != NEWLINE {
          NewlineOnlyLast(outs[1..], maxlen, stored + [c], done + 1);
        }
      case EndOfStream =>
      case Failed(e) =>
        if e == EINTR {
          NewlineOnlyLast(outs[1..], maxlen, stored, done + 1);
        }
    }
  }

  /** The bytes of `readline` are a prefix-ordered copy of the stream, and only the final one may be a newline. */
  lemma StoredIsStreamBytes(outs: seq<ReadOutcome>, maxlen: nat)
    ensures var r := ReadLine(outs, maxlen);
      && r.stored == Bytes(Seen(outs, r.calls))
      && (forall j :: 0 <= j < |r.stored| - 1 ==> r.stored[j] != NEWLINE)
      && (r.stop == NewlineSeen <==> (|r.stored| > 0 && r.stored[|r.stored| - 1] == NEWLINE))
  {
    var r := ReadLine(outs, maxlen);
    StoredFromStream(outs, maxlen, [], 0);
    assert [] + Bytes(Seen(outs, r.calls - 0)) == Bytes(Seen(outs, r.calls));
    NewlineOnlyLast(outs, maxlen, [], 0);
  }

  /**
   The return value, case by case: a completed line returns its length, a full
   buffer `|stored| + 1`, end-of-stream after `k >= 1` bytes `k + 1`, immediate
   end-of-stream 0 and a hard failure -1; the last two write no terminator.
   */
  lemma {:induction false} ReturnCodes(outs: seq<ReadOutcome>, maxlen: nat, stored: seq<Byte>, done: nat)
    requires |stored| < maxlen
    ensures var r := Scan(outs, maxlen, stored, done);
      && (r.stop == NewlineSeen ==> r.rc == |r.stored| >= 1 && r.terminated)
      && (r.stop == BufferFull ==> r.rc == maxlen && |r.stored| == maxlen - 1 && r.terminated)
      && (r.stop == StreamEnded && r.stored == [] ==> r.rc == 0 && !r.terminated)
      && (r.stop == StreamEnded && r.stored != [] ==> r.rc == |r.stored| + 1 && r.terminated)
      && (r.stop == ReadFailed ==> r.rc == -1 && !r.terminated)
      && (r.stop != BufferFull ==> r.rc < maxlen)
    decreases |outs|
  {
    if |stored| + 1 < maxlen {
      match Next(outs)
      case Got(c) =>
        if c != NEWLINE {
          ReturnCodes(outs[1..], maxlen, stored + [c], done + 1);
        }
      case EndOfStream =>
      case Failed(e) =>
        if e == EINTR {
          ReturnCodes(outs[1..], maxlen, stored, done + 1);
        }
    }
  }

  /**
   The return value tells the outcomes apart only partly: 0 means immediate
   end-of-stream, -1 a hard failure, `maxlen` a full buffer, and any positive
   value a terminated buffer.
   */
  lemma ReturnCodeMeaning(outs: seq<ReadOutcome>, maxlen: nat)
    requires maxlen >= 1
    ensures var r := ReadLine(outs, maxlen);
      && (r.rc == 0 <==> (r.stop == StreamEnded && r.stored == []))
      && (r.rc == -1 <==> r.stop == ReadFailed)
      && (r.terminated <==> r.rc >= 1)
      && (r.rc == maxlen <==> r.stop == BufferFull)
  {
    ReturnCodes(outs, maxlen, [], 0);
  }

  /** Every outcome of the run lets the reader go on. */
  predicate AllContinue(run: seq<ReadOutcome>) {
    forall j :: 0 <= j < |run| ==> Continues(run[j])
  }

  /** A full buffer is full because of a stored byte: the last read, if any, delivered one. */
  lemma {:induction false} FullAfterStoredByte(outs: seq<ReadOutcome>, maxlen: nat, stored: seq<Byte>, done: nat)
    ensures var r := Scan(outs, maxlen, stored, done);
      r.stop == BufferFull && r.calls > done ==> r.calls - done <= |outs| && outs[r.calls - done - 1].Got?
    decreases |outs|
  {
    var r := Scan(outs, maxlen, stored, done);
    var m := r.calls - done;
    if |stored| + 1 < maxlen && |outs| > 0 && Continues(outs[0]) {
      match outs[0]
      case Got(c) =>
        FullAfterStoredByte(outs[1..], maxlen, stored + [c], done + 1);
        if r.stop == BufferFull && m >= 2 {
          assert outs[m - 1] == outs[1..][m - 2];
        }
      case Failed(e) =>
        FullAfterStoredByte(outs[1..], maxlen, stored, done + 1);
        // the retried slot still has room, so the scan that follows reads again
        assert r == Scan(outs[1..], maxlen, stored, done + 1);
        assert m >= 2;
        if r.stop == BufferFull {
          assert outs[m - 1] == outs[1..][m - 2];
        }
    }
  }

  /** Every read but the last lets the reader go on; with a full buffer, every read does. */
  lemma {:induction false} ContinuingReads(outs: seq<ReadOutcome>, maxlen: nat, stored: seq<Byte>, done: nat)
    ensures var r := Scan(outs, maxlen, stored, done);
      && (r.stop == BufferFull ==> r.calls - done <= |outs| && AllContinue(outs[..r.calls - done]))
      && (r.stop != BufferFull ==> 1 <= r.calls - done && r.calls - done - 1 <= |outs| && AllContinue(outs[..r.calls - done - 1]))
    decreases |outs|
  {
    var r := Scan(outs, maxlen, stored, done);
    var m := r.calls - done;
    if |stored| + 1 < maxlen && |outs| > 0 && Continues(outs[0]) {
      match outs[0] {
        case Got(c) =>
          ContinuingReads(outs[1..], maxlen, stored + [c], done + 1);
        case Failed(e) =>
          ContinuingReads(outs[1..], maxlen, stored, done + 1);
      }
      if r.stop == BufferFull {
        assert outs[..m] == [outs[0]] + outs[1..][..m - 1];
      } else {
        assert outs[..m - 1] == [outs[0]] + outs[1..][..m - 2];
      }
    } else {
      assert outs[..0] == [];
    }
  }

  /**
   Every read but the last either stored a non-newline byte or was an EINTR
   failure. A full buffer stops right after the read that stored its last
   byte (or before any read), with no further read, not even an EINTR retry.
   */
  lemma {:induction false} ReadsBeforeStop(outs: seq<ReadOutcome>, maxlen: nat, stored: seq<Byte>, done: nat)
    ensures var r := Scan(outs, maxlen, stored, done);
      && (r.stop == BufferFull ==> r.calls - done <= |outs| && AllContinue(outs[..r.calls - done]))
      && (r.stop == BufferFull && r.calls > done ==> outs[r.calls - done - 1].Got?)
      && (r.stop != BufferFull ==> 1 <= r.calls - done && r.calls - done - 1 <= |outs| && AllContinue(outs[..r.calls - done - 1]))
  {
    ContinuingReads(outs, maxlen, stored, done);
    FullAfterStoredByte(outs, maxlen, stored, done);
  }

  /** The last read explains the stop: a newline, end-of-stream, or a failure other than EINTR. */
  lemma {:induction false} LastReadExplainsStop(outs: seq<ReadOutcome>, maxlen: nat, stored: seq<Byte>, done: nat)
    ensures var r := Scan(outs, maxlen, stored, done);
      r.stop != BufferFull ==>
        && 1 <= r.calls - done && r.calls - done - 1 <= |outs|
        && (r.stop == NewlineSeen ==> ReadAt(outs, r.calls - done - 1) == Got(NEWLINE))
        && (r.stop == StreamEnded ==> ReadAt(outs, r.calls - done - 1) == EndOfStream)
        && (r.stop == ReadFailed ==> ReadAt(outs, r.calls - done - 1).Failed? && ReadAt(outs, r.calls - done - 1).errno != EINTR)
    decreases |outs|
  {
    if |stored| + 1 < maxlen && |outs| > 0 && Continues(outs[0]) {
      var r := Scan(outs, maxlen, stored, done);
      match outs[0] {
        case Got(c) =>
          LastReadExplainsStop(outs[1..], maxlen, stored + [c], done + 1);
        case Failed(e) =>
          LastReadExplainsStop(outs[1..], maxlen, stored, done + 1);
      }
      var m := r.calls - done;
      if r.stop != BufferFull {
        assert ReadAt(outs, m - 1) == ReadAt(outs[1..], m - 2);
      }
    }
  }

  /** An EINTR failure retries the same slot: the count and the buffer stay as they were. */
  lemma InterruptRetriesSameSlot(outs: seq<ReadOutcome>, maxlen: nat, stored: seq<Byte>, done: nat)
    requires |stored| + 1 < maxlen
    ensures Scan([Failed(EINTR)] + outs, maxlen, stored, done) == Scan(outs, maxlen, stored, done + 1)
  {
    assert ([Failed(EINTR)] + outs)[1..] == outs;
  }

  /**
   EINTR failures anywhere in the stream are invisible: without them the reader
   returns the same value, stores the same bytes and stops for the same reason.
   */
  lemma {:induction false} InterruptsInvisible(outs: seq<ReadOutcome>, maxlen: nat, stored: seq<Byte>, d1: nat, d2: nat)
    ensures Scan(StripInterrupts(outs), maxlen, stored, d1).(calls := 0) == Scan(outs, maxlen, stored, d2).(calls := 0)
    decreases |outs|
  {
    if |stored| + 1 < maxlen && |outs| > 0 {
      var s := StripInterrupts(outs);
      if outs[0] == Failed(EINTR) {
        InterruptsInvisible(outs[1..], maxlen, stored, d1, d2 + 1);
      } else {
        assert s[0] == outs[0] && s[1..] == StripInterrupts(outs[1..]);
        match outs[0]
        case Got(c) =>
          if c != NEWLINE {
            InterruptsInvisible(outs[1..], maxlen, stored + [c], d1 + 1, d2 + 1);
          }
        case EndOfStream =>
        case Failed(e) =>
      }
    }
  }

  lemma ReadLineIgnoresInterrupts(outs: seq<ReadOutcome>, maxlen: nat)
    ensures ReadLine(StripInterrupts(outs), maxlen).(calls := 0) == ReadLine(outs, maxlen).(calls := 0)
  {
    InterruptsInvisible(outs, maxlen, [], 0, 0);
  }

  /** A delivery run is its first byte's read followed by the run of the rest. */
  lemma DeliverStep(data: seq<Byte>)
    requires |data| > 0
    ensures Deliver(data) == [Got(data[0])] + Deliver(data[1..])
  {
    assert Deliver(data)[1..] == Deliver(data[1..]);
  }

  /** Bytes other than newline, with room left, are stored one per read and the reader carries on. */
  lemma {:induction false} ConsumeBytes(data: seq<Byte>, tail: seq<ReadOutcome>, maxlen: nat, stored: seq<Byte>, done: nat)
    requires NoNewline(data)
    requires |stored| + |data| < maxlen
    ensures Scan(Deliver(data) + tail, maxlen, stored, done) == Scan(tail, maxlen, stored + data, done + |data|)
    decreases |data|
  {
    if |data| > 0 {
      var rest := Deliver(data[1..]) + tail;
      DeliverStep(data);
      assert Deliver(data) + tail == [Got(data[0])] + rest;
      assert data[0] != NEWLINE;
      assert Scan([Got(data[0])] + rest, maxlen, stored, done) == Scan(rest, maxlen, stored + [data[0]], done + 1) by {
        assert ([Got(data[0])] + rest)[1..] == rest;
      }
      ConsumeBytes(data[1..], tail, maxlen, stored + [data[0]], done + 1);
      assert stored + [data[0]] + data[1..] == stored + data;
    } else {
      assert Deliver(data) + tail == tail;
      assert stored + data == stored;
    }
  }

  /** A line of `|data| + 1` bytes ending in its only newline, with room for it, is returned whole: `rc` is its length. */
  lemma CompleteLine(data: seq<Byte>, rest: seq<ReadOutcome>, maxlen: nat)
    requires NoNewline(data)
    requires |data| + 1 < maxlen
    ensures ReadLine(Deliver(data + [NEWLINE]) + rest, maxlen)
         == LineResult(|data| + 1, data + [NEWLINE], true, |data| + 1, NewlineSeen)
  {
    assert Deliver(data + [NEWLINE]) + rest == Deliver(data) + ([Got(NEWLINE)] + rest);
    ConsumeBytes(data, [Got(NEWLINE)] + rest, maxlen, [], 0);
  }

  /** `maxlen - 1` bytes without a newline fill the buffer: they are stored, terminated, and `rc` is `maxlen`. */
  lemma FullBuffer(data: seq<Byte>, rest: seq<ReadOutcome>, maxlen: nat)
    requires maxlen >= 1 && |data| == maxlen - 1
    requires NoNewline(data)
    ensures ReadLine(Deliver(data) + rest, maxlen) == LineResult(maxlen, data, true, maxlen - 1, BufferFull)
  {
    ConsumeBytes(data, rest, maxlen, [], 0);
  }

  /**
   End-of-stream after `k` bytes: with `k == 0` the result is 0 and nothing is
   written; otherwise the `k` bytes are terminated and `rc` is `k + 1`.
   */
  lemma EndAfter(data: seq<Byte>, rest: seq<ReadOutcome>, maxlen: nat)
    requires NoNewline(data)
    requires |data| + 1 < maxlen
    ensures ReadLine(Deliver(data) + ([EndOfStream] + rest), maxlen)
         == if data == [] then LineResult(0, [], false, 1, StreamEnded)
            else LineResult(|data| + 1, data, true, |data| + 1, StreamEnded)
  {
    ConsumeBytes(data, [EndOfStream] + rest, maxlen, [], 0);
  }

  /** A non-EINTR failure after `k` bytes returns -1; the `k` bytes stay in the buffer, unterminated. */
  lemma FailAfter(data: seq<Byte>, e: int, rest: seq<ReadOutcome>, maxlen: nat)
    requires NoNewline(data)
    requires |data| + 1 < maxlen && e != EINTR
    ensures ReadLine(Deliver(data) + ([Failed(e)] + rest), maxlen)
         == LineResult(-1, data, false, |data| + 1, ReadFailed)
  {
    ConsumeBytes(data, [Failed(e)] + rest, maxlen, [], 0);
  }

  /** The request line "GET / HTTP/1.0\r\n" read with capacity 17 or more comes back byte for byte. */
  lemma RequestLine(rest: seq<ReadOutcome>, maxlen: nat)
    requires maxlen >= 17
    ensures var line: seq<Byte> := [71, 69, 84, 32, 47, 32, 72, 84, 84, 80, 47, 49, 46, 48, 13, 10];
      ReadLine(Deliver(line) + rest, maxlen) == LineResult(16, line, true, 16, NewlineSeen)
  {
    var data: seq<Byte> := [71, 69, 84, 32, 47, 32, 72, 84, 84, 80, 47, 49, 46, 48, 13];
    assert NoNewline(data);
    CompleteLine(data, rest, maxlen);
    assert data + [NEWLINE] == [71, 69, 84, 32, 47, 32, 72, 84, 84, 80, 47, 49, 46, 48, 13, 10];
  }

  /**
   The imperative reader: fills `buf` through a moving write position as the C
   does and returns `readline`'s value and the number of `read` calls.
   */
  method ReadLineInto(outs: seq<ReadOutcome>, buf: array<Byte>, maxlen: nat) returns (rc: int, calls: nat)
    requires 1 <= maxlen <= buf.Length
    modifies buf
    ensures var r := ReadLine(outs, maxlen);
      && rc == r.rc && calls == r.calls
      && |r.stored| < maxlen && buf[..|r.stored|] == r.stored
      && (r.terminated ==> buf[|r.stored|] == NUL)
      && forall j :: |r.stored| + (if r.terminated then 1 else 0) <= j < buf.Length ==> buf[j] == old(buf[j])
  {
    var n := 1;      // the C loop counter
    var ptr := 0;    // the write position
    calls := 0;
    while n < maxlen
      invariant 1 <= n <= maxlen && ptr == n - 1
      invariant calls <= |outs|
      invariant Scan(outs[calls..], maxlen, buf[..ptr], calls) == ReadLine(outs, maxlen)
      invariant forall j :: ptr <= j < buf.Length ==> buf[j] == old(buf[j])
      decreases |outs| - calls
    {
      var o := ReadAt(outs, calls);
      assert o == Next(outs[calls..]);
      calls := calls + 1;
      match o
      case Got(c) =>
        buf[ptr] := c;
        ptr := ptr + 1;
        assert buf[..ptr] == buf[..ptr - 1] + [c];
        assert outs[calls - 1..][1..] == outs[calls..];
        if c == NEWLINE {
          break;
        }
        n := n + 1;
      case EndOfStream =>
        if n == 1 {
          rc := 0;
          return;
        }
        break;
      case Failed(e) =>
        assert outs[calls - 1..][1..] == outs[calls..];
        if e == EINTR {
          continue;
        }
        rc := -1;
        return;
    }
    buf[ptr] := NUL;
    rc := n;
  }
}
