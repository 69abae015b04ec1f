# Socket primitives of tinyproxy, modelled in Dafny

This project models the pure logic of tinyproxy's socket layer (`src/sock.c`).
It covers the bounded line reader `readline`, the interrupt-safe wrappers
`safe_read` and `safe_write`, and the blocking-mode controller
`socket_nonblocking` / `socket_blocking`. Every system call becomes an oracle:

- `read` as `readline` uses it (one byte per call) is a script of
  `ReadOutcome`s: a byte, end-of-stream, or a failure with its `errno`. Past
  the end of the script the peer has closed, so every further read returns 0.
  Any run of `readline` that ends reads a finite prefix of the stream, so no
  ending run is lost.
- `read`/`write` as the wrappers use them is a script of `SysResult`s (return
  value and `errno`), one per attempt.
- `fcntl` is a table from open descriptors to their 32-bit status flags.

Files:

- `syscalls.dfy` (module `SysCalls`): EINTR (4, the Linux value), the
  result of one system call, and what counts as an interruption.
- `safe_io.dfy` (module `SafeIo`): `safe_write` and `safe_read` as loops,
  and the reference `FirstSettled` / `Settled` they are proved against.
- `line_reader.dfy` (module `LineReader`): `Scan`/`ReadLine` define
  `readline` on a script. `ReadLineInto` is the same reader over an array,
  filled through a moving write position as in the C, and is proved to agree
  with `ReadLine`. The lemmas pin down the bounds, the bytes stored, and the
  return value.
- `blocking_mode.dfy` (module `BlockingMode`): the two mode switches as
  `bv32` flag arithmetic over the descriptor table.

The return value of `readline` is irregular, and the model keeps it exactly
as the C computes it. The C returns its loop counter `n`, which starts at 1
and goes up after every stored byte that is not a newline. So:

- a line ending in a newline returns the number of bytes stored, newline included;
- a full buffer returns `maxlen`, although only `maxlen - 1` bytes are stored;
- end-of-stream after `k >= 1` bytes returns `k + 1`;
- end-of-stream before any byte returns 0 and writes no NUL;
- a failure other than EINTR returns -1 and leaves the bytes read so far in
  the buffer, with no NUL after them.

`readline` calls `read` directly, not `safe_read`. It retries an EINTR failure
by jumping back to read into the same buffer slot.

The comment above `readline` (src/sock.c:232-237) promises a result that is
"always" NUL-terminated. The code does not keep that promise on every path,
and the model follows the code: no NUL is written on the immediate
end-of-stream path or on the failure path. With `maxlen == 0` the loop body
never runs, but the NUL is still written to index 0, outside the buffer, and
the call returns 1. `ZeroCapacityWritesOutside` records this. `ReadLineInto`
requires `maxlen >= 1`.

`ReadLine` only starts `Scan` in the C's initial state: an empty buffer and
`n = 1` (src/sock.c:247). The `LineReader.Scan` row covers it, and the lemmas
below state their properties of `readline` through it.

## Model

| member | source | states |
|---|---|---|
| SafeIo.FirstSettled | src/sock.c:210-212 | the attempt whose result is returned is the first one that is not an EINTR failure; every earlier attempt was one |
| SafeIo.SafeWrite | src/sock.c:206-215 | `write` is retried exactly while it fails with EINTR; the first other result (short count, zero or failure) is returned unchanged, after exactly that many calls |
| SafeIo.SafeRead | src/sock.c:221-230 | `read` is retried exactly while it fails with EINTR; the first other result is returned unchanged, after exactly that many calls |
| SafeIo.WrappersAgree | src/sock.c:225-229 | a wrapper's result and call count are determined: they equal the reference `Settled` and `FirstSettled + 1` |
| SafeIo.FirstAttemptFinal | src/sock.c:210-214 | a first attempt that is not an interruption (a short count, 0, or a non-EINTR failure) is the result; no retry follows |
| SafeIo.RetryTransparent | src/sock.c:225-229 | any number of EINTR failures before an attempt leave the returned value unchanged; they only add calls |
| LineReader.Scan | src/sock.c:247-267 | bytes already in the buffer stay there; the reader makes at most one read per remaining outcome plus the closing one; a buffer not yet full never gets `maxlen` or more bytes |
| LineReader.InBounds | src/sock.c:232-237 | with `maxlen >= 1`, at most `maxlen - 1` bytes are stored and the NUL lands at an index below `maxlen`, so every write stays in the buffer |
| LineReader.ZeroCapacityWritesOutside | src/sock.c:247-267 | with `maxlen == 0` no read happens, yet the NUL is written at index 0, outside an empty buffer, and 1 is returned |
| LineReader.StoredFromStream | src/sock.c:249-252 | the stored bytes are exactly the bytes the reads delivered, in stream order, continuing what was already stored |
| LineReader.NewlineOnlyLast | src/sock.c:249-252 | a newline can only be the last stored byte, and it is last exactly when the reader stopped on it |
| LineReader.StoredIsStreamBytes | src/sock.c:247-252 | the buffer holds the bytes of the outcomes read, in order; only the last can be a newline, which is there iff the line was completed |
| LineReader.ReturnCodes | src/sock.c:247-267 | newline stop returns the stored length (at least 1), full buffer returns `maxlen` with `maxlen - 1` bytes, end-of-stream after k >= 1 bytes returns k + 1, immediate end-of-stream returns 0, failure returns -1; only the last two write no NUL |
| LineReader.ReturnCodeMeaning | src/sock.c:247-267 | 0 is returned iff end-of-stream came before any byte, -1 iff a read failed with an errno other than EINTR, `maxlen` iff the buffer filled up; the buffer is terminated iff the result is positive |
| LineReader.ReadsBeforeStop | src/sock.c:247-262 | every read before the last stored a non-newline byte or was an EINTR failure; a full buffer stops right after the read that stored its last byte, with no further read, not even an EINTR retry |
| LineReader.ContinuingReads | src/sock.c:247-262 | every read before the stopping one stored a non-newline byte or was an EINTR failure; with a full buffer every read was of that kind |
| LineReader.FullAfterStoredByte | src/sock.c:247-252 | a buffer that fills up after at least one read was filled by a stored byte: the last read delivered a byte, and no EINTR retry follows it |
| LineReader.LastReadExplainsStop | src/sock.c:249-261 | the final read is the newline, the end-of-stream, or the non-EINTR failure that caused the stop |
| LineReader.InterruptRetriesSameSlot | src/sock.c:258-260 | an EINTR failure moves neither the loop counter nor the write position: the reader continues as if the failure had not happened, one call later |
| LineReader.InterruptsInvisible | src/sock.c:258-260 | removing every EINTR failure from the stream changes neither the return value, the stored bytes, the NUL nor the reason for stopping |
| LineReader.ReadLineIgnoresInterrupts | src/sock.c:247-267 | `readline` on a stream and on the same stream without its EINTR failures is observably the same |
| LineReader.ConsumeBytes | src/sock.c:247-252 | with room left, non-newline bytes are stored one per read, in order, and the reader carries on |
| LineReader.CompleteLine | src/sock.c:249-252 | a line ending in its only newline that fits in `maxlen - 1` comes back whole and NUL-terminated, its length is returned, and nothing after the newline is read |
| LineReader.FullBuffer | src/sock.c:265-267 | `maxlen - 1` bytes without a newline are stored and NUL-terminated, `maxlen` is returned, and no further read is made |
| LineReader.EndAfter | src/sock.c:253-257 | end-of-stream after k bytes returns 0 with nothing written when k is 0, else k + 1 with the k bytes NUL-terminated |
| LineReader.FailAfter | src/sock.c:258-261 | a non-EINTR failure after k bytes returns -1; the k bytes stay in the buffer with no NUL |
| LineReader.RequestLine | src/sock.c:249-252 | the request line "GET / HTTP/1.0\r\n" read with capacity 17 or more comes back as its 16 bytes, and 16 is returned |
| LineReader.ReadLineInto | src/sock.c:238-268 | the array reader returns what `ReadLine` says, holds the stored bytes at the front of the buffer, writes the NUL only when `ReadLine` says so, and leaves every other cell as it was |
| BlockingMode.SocketNonblocking | src/sock.c:91-99 | on an open descriptor O_NONBLOCK becomes set, every other flag bit and every other descriptor is unchanged, and 0 is returned; otherwise -1 is returned and nothing changes |
| BlockingMode.SocketBlocking | src/sock.c:104-112 | on an open descriptor O_NONBLOCK becomes clear, every other flag bit and every other descriptor is unchanged, and 0 is returned; otherwise -1 is returned and nothing changes |
| BlockingMode.NonblockBitSet | src/sock.c:97-98 | after the change, bit 11 (O_NONBLOCK) has the requested value |
| BlockingMode.OtherBitsKept | src/sock.c:110-111 | after the change, each of the 31 other bits is as it was read |
| BlockingMode.NonblockingIdempotent | src/sock.c:97-98 | setting non-blocking mode a second time changes nothing and returns the same value |
| BlockingMode.BlockingIdempotent | src/sock.c:110-111 | restoring blocking mode a second time changes nothing and returns the same value |
| BlockingMode.BlockingUndoesNonblocking | src/sock.c:91-112 | non-blocking followed by blocking restores the original flags of a socket that was blocking |
| BlockingMode.NonblockingUndoesBlocking | src/sock.c:91-112 | blocking followed by non-blocking restores the original flags of a socket that was non-blocking |

## Left out

- `opensock` (src/sock.c:52-86): it only sequences the DNS cache (`dnscache`, which is not part of this model), `socket`, `connect` and logging. There is no logic of its own to model.
- `listen_sock` (src/sock.c:120-149): `socket`, `setsockopt`, `bind`, `listen`, `inet_addr` and `htons` are platform calls, and their results are unchecked; the global `config.ipAddr` is configuration.
- `getpeer_ip` and `getpeer_string` (src/sock.c:155-200): `getpeername`, `inet_ntoa` and `gethostbyaddr` are foreign calls; `strlcpy` comes from `utils`, which is not part of this model.
- The process-wide mutex (src/sock.c:36-39, 190-196): it exists only for concurrency, which the model does not cover.
- The descriptor argument of `readline`, `safe_read` and `safe_write`, and `readline`'s `assert(fd >= 0)` / `assert(ptr != NULL)` (src/sock.c:244-245): the outcome script stands for the descriptor, and the buffer is a Dafny array that cannot be null. Only the blocking-mode functions keep `sock >= 0` as a precondition.
- The buffer and count passed to `safe_read`/`safe_write`: the wrappers pass them unchanged to every attempt, and the oracle's results already say how many bytes moved.
- Streams that fail with EINTR forever: the C loops for ever on them. A finite script cannot express this, so the model does not cover it.
- The `ssize_t` cast of `n` in `readline`: the model returns `n` as an unbounded integer. Capacities above `SSIZE_MAX` would wrap in C.
- `fcntl`'s own filtering of `F_SETFL` (the kernel ignores access-mode bits) is left out: the table stores whatever is written. The failing path is modelled: on a descriptor that is not open, `F_GETFL` yields -1 (all bits set) and the `F_SETFL` that follows fails too, leaving the table unchanged.
