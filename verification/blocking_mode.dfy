/**
 The blocking-mode controller of src/sock.c: `socket_nonblocking` and
 `socket_blocking`.

 Each reads a descriptor's status flags with `fcntl(sock, F_GETFL, 0)` and
 writes them back with `fcntl(sock, F_SETFL, ...)`, the O_NONBLOCK bit set or
 cleared and every other bit as read. `fcntl` is an oracle: a table of the
 status flags of each open descriptor, as a C `int` seen as 32 bits.
 */
module BlockingMode {

  type Flags = bv32

  /** The non-blocking status flag (Linux value, octal 04000). */
  const O_NONBLOCK: Flags := 0x800

  /** The C `int` -1, as `fcntl` returns it on failure, seen as 32 bits. */
  const ALL_ONES: Flags := 0xFFFF_FFFF

  /** The status flags of every open descriptor. */
  type FdTable = map<int, Flags>

  /** The descriptor table after an `F_SETFL` call and the call's return value. */
  datatype FcntlResult = FcntlResult(table: FdTable, rc: int)

  /** `fcntl(sock, F_GETFL, 0)`: the flags of an open descriptor, -1 for any other. */
  function GetFlags(t: FdTable, sock: int): Flags {
    if sock in t then t[sock] else ALL_ONES
  }

  /** `fcntl(sock, F_SETFL, flags)`: records the flags and returns 0, or fails with -1 on a descriptor that is not open. */
  function SetFlags(t: FdTable, sock: int, flags: Flags): FcntlResult {
    if sock in t then FcntlResult(t[sock := flags], 0) else FcntlResult(t, -1)
  }

  predicate IsNonblocking(t: FdTable, sock: int)
    requires sock in t
  {
    t[sock] & O_NONBLOCK != 0
  }

  /** Bit `i` of a flags word. */
  function Bit(x: Flags, i: bv5): bool {
    (x >> i) & 1 == 1
  }

  /** The flags `after` are `before` with O_NONBLOCK forced to `on`; every other bit is kept. */
  predicate OnlyNonblockChanged(before: Flags, after: Flags, on: bool) {
    && (after & O_NONBLOCK != 0) == on
    && after & !O_NONBLOCK == before & !O_NONBLOCK
  }

  /** `socket_nonblocking`: sets O_NONBLOCK on `sock` and returns the `F_SETFL` result. */
  function SocketNonblocking(t: FdTable, sock: int): (r: FcntlResult)
    requires sock >= 0
    ensures sock in t ==> r.rc == 0 && sock in r.table && OnlyNonblockChanged(t[sock], r.table[sock], true)
    ensures sock !in t ==> r.rc == -1 && r.table == t
    ensures r.table.Keys == t.Keys
    ensures forall fd :: fd in t && fd != sock ==> r.table[fd] == t[fd]
  {
    var flags := GetFlags(t, sock);
    SetFlags(t, sock, flags | O_NONBLOCK)
  }

  /** `socket_blocking`: clears O_NONBLOCK on `sock` and returns the `F_SETFL` result. */
  function SocketBlocking(t: FdTable, sock: int): (r: FcntlResult)
    requires sock >= 0
    ensures sock in t ==> r.rc == 0 && sock in r.table && OnlyNonblockChanged(t[sock], r.table[sock], false)
    ensures sock !in t ==> r.rc == -1 && r.table == t
    ensures r.table.Keys == t.Keys
    ensures forall fd :: fd in t && fd != sock ==> r.table[fd] == t[fd]
  {
    var flags := GetFlags(t, sock);
    SetFlags(t, sock, flags & !O_NONBLOCK)
  }

  /** O_NONBLOCK is bit 11 of the flags word, and a change to it leaves that bit `on`. */
  lemma NonblockBitSet(before: Flags, after: Flags, on: bool)
    requires OnlyNonblockChanged(before, after, on)
    ensures Bit(after, 11) == on
  {
  }

  /** Bit by bit: a change to O_NONBLOCK keeps all 31 other bits. */
  lemma OtherBitsKept(before: Flags, after: Flags, on: bool, i: bv5)
    requires OnlyNonblockChanged(before, after, on)
    requires i != 11
    ensures Bit(after, i) == Bit(before, i)
  {
    assert ((after & !O_NONBLOCK) >> i) & 1 == ((before & !O_NONBLOCK) >> i) & 1;
  }

  /** Setting non-blocking mode twice is the same as setting it once. */
  lemma NonblockingIdempotent(t: FdTable, sock: int)
    requires sock >= 0
    ensures var r := SocketNonblocking(t, sock);
      SocketNonblocking(r.table, sock) == r
  {
  }

  /** Restoring blocking mode twice is the same as restoring it once. */
  lemma BlockingIdempotent(t: FdTable, sock: int)
    requires sock >= 0
    ensures var r := SocketBlocking(t, sock);
      SocketBlocking(r.table, sock) == r
  {
    if sock in t {
      BlockingIdempotentOpen(t, sock);
    } else {
      BlockingIdempotentClosed(t, sock);
    }
  }

  /** On an open descriptor the second call writes back the flags the first one left. */
  lemma BlockingIdempotentOpen(t: FdTable, sock: int)
    requires sock >= 0 && sock in t
    ensures var r := SocketBlocking(t, sock);
      SocketBlocking(r.table, sock) == r
  {
  }

  /** On a descriptor that is not open both calls fail and leave the table alone. */
  lemma BlockingIdempotentClosed(t: FdTable, sock: int)
    requires sock >= 0 && sock !in t
    ensures var r := SocketBlocking(t, sock);
      SocketBlocking(r.table, sock) == r
  {
  }

  /** Non-blocking then blocking gives back the original table when the socket started out blocking. */
  lemma BlockingUndoesNonblocking(t: FdTable, sock: int)
    requires sock >= 0
    requires sock in t ==> !IsNonblocking(t, sock)
    ensures SocketBlocking(SocketNonblocking(t, sock).table, sock).table == t
  {
  }

  /** Blocking then non-blocking gives back the original table when the socket started out non-blocking. */
  lemma NonblockingUndoesBlocking(t: FdTable, sock: int)
    requires sock >= 0
    requires sock in t ==> IsNonblocking(t, sock)
    ensures SocketNonblocking(SocketBlocking(t, sock).table, sock).table == t
  {
  }
}
