/**
 The interrupt-safe wrappers `safe_write` and `safe_read` of src/sock.c.

 Each wrapper repeats its system call while the call fails with EINTR and
 returns the first other result unchanged: a byte count (short or not), zero
 or a genuine failure. The system call is an oracle: `outs[j]` is what the
 (j+1)-th attempt returns, so a wrapper call is a walk along `outs`.
 */
module SafeIo {
  import opened SysCalls

  /** Some attempt in the script is not an interruption, so the retry loop ends within it. */
  predicate Settles(outs: seq<SysResult>) {
    exists k :: 0 <= k < |outs| && !Interrupted(outs[k])
  }

  /** The attempt whose result a wrapper hands back: the first one that is not an interruption. */
  function FirstSettled(outs: seq<SysResult>): (k: nat)
    requires Settles(outs)
    ensures k < |outs| && !Interrupted(outs[k])
    ensures forall j :: 0 <= j < k ==> Interrupted(outs[j])
  {
    if !Interrupted(outs[0]) then 0
    else
      assert Settles(outs[1..]) by {
        var k :| 0 <= k < |outs| && !Interrupted(outs[k]);
        assert outs[1..][k - 1] == outs[k];
      }
      1 + FirstSettled(outs[1..])
  }

  /** What a wrapper returns on the script `outs`. */
  function Settled(outs: seq<SysResult>): int
    requires Settles(outs)
  {
    outs[FirstSettled(outs)].ret
  }

  /**
   A wrapper that made `calls` attempts and returned `len` retried exactly while
   the attempt was interrupted and returned the last attempt's value unchanged.
   */
  predicate RetriedUntilSettled(outs: seq<SysResult>, len: int, calls: nat) {
    && 1 <= calls <= |outs|
    && len == outs[calls - 1].ret && !Interrupted(outs[calls - 1])
    && forall j :: 0 <= j < calls - 1 ==> Interrupted(outs[j])
  }

  /**
   `safe_write`: `write` is called until it does not fail with EINTR.
   `calls` is the number of `write` calls made.
   */
  method SafeWrite(outs: seq<SysResult>) returns (len: int, calls: nat)
    requires Settles(outs)
    ensures RetriedUntilSettled(outs, len, calls)
  {
    var r := outs[0];
    calls := 1;
    while Interrupted(r)
      invariant 1 <= calls <= |outs|
      invariant r == outs[calls - 1]
      invariant forall j :: 0 <= j < calls - 1 ==> Interrupted(outs[j])
      decreases |outs| - calls
    {
      ghost var k :| 0 <= k < |outs| && !Interrupted(outs[k]);
      assert calls <= k;
      r := outs[calls];
      calls := calls + 1;
    }
    len := r.ret;
  }

  /**
   `safe_read`: `read` is called until it does not fail with EINTR.
   `calls` is the number of `read` calls made.
   */
  method SafeRead(outs: seq<SysResult>) returns (len: int, calls: nat)
    requires Settles(outs)
    ensures RetriedUntilSettled(outs, len, calls)
  {
    var r := outs[0];
    calls := 1;
    while Interrupted(r)
      invariant 1 <= calls <= |outs|
      invariant r == outs[calls - 1]
      invariant forall j :: 0 <= j < calls - 1 ==> Interrupted(outs[j])
      decreases |outs| - calls
    {
      ghost var k :| 0 <= k < |outs| && !Interrupted(outs[k]);
      assert calls <= k;
      r := outs[calls];
      calls := calls + 1;
    }
    len := r.ret;
  }

  /** Both wrappers return exactly what the reference `Settled` says, after `FirstSettled + 1` calls. */
  lemma WrappersAgree(outs: seq<SysResult>, len: int, calls: nat)
    requires RetriedUntilSettled(outs, len, calls)
    ensures Settles(outs)
    ensures calls == FirstSettled(outs) + 1 && len == Settled(outs)
  {
  }

  /**
   A first attempt that is not an interruption ends the wrapper at once:
   a short count, zero and a non-EINTR failure are all returned unchanged.
   */
  lemma FirstAttemptFinal(outs: seq<SysResult>)
    requires |outs| > 0 && !Interrupted(outs[0])
    ensures Settles(outs) && FirstSettled(outs) == 0 && Settled(outs) == outs[0].ret
  {
  }

  /**
   Interruptions before an attempt are invisible to the caller: prefixing any
   number of EINTR failures changes only how many calls are made, not the result.
   */
  lemma {:induction false} RetryTransparent(pre: seq<SysResult>, outs: seq<SysResult>)
    requires forall j :: 0 <= j < |pre| ==> Interrupted(pre[j])
    requires Settles(outs)
    ensures Settles(pre + outs)
    ensures FirstSettled(pre + outs) == |pre| + FirstSettled(outs)
    ensures Settled(pre + outs) == Settled(outs)
  {
    if pre == [] {
      assert pre + outs == outs;
    } else {
      RetryTransparent(pre[1..], outs);
      assert (pre + outs)[1..] == pre[1..] + outs;
    }
  }
}
