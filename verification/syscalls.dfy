/**
 * How the loader's thin syscall wrappers classify what the bpf(2) system
 * call hands back. The call itself is not modelled: its result `(r1, errno)`
 * is an input.
 */
module Syscalls {
  import opened Wrappers
  import opened Bits

  /** Linux errno values the wrappers test for (asm-generic/errno-base.h). */
  const EPERM: nat := 1
  const ENOENT: nat := 2
  const ENOMEM: nat := 12
  const EINVAL: nat := 22

  /** What `unix.Syscall` returns: the raw result register and the errno (0 if none). */
  datatype Reply = Reply(r1: u64, errno: nat)

  /**
   * The kernel's convention for commands that return 0 on success (lookup,
   * next key): the call fails, returning -1, exactly when it sets errno.
   */
  predicate FollowsErrnoConvention(reply: Reply)
  {
    reply.r1 != 0 <==> reply.errno != 0
  }

  /** The errors `BpfCreateMap` distinguishes by message. */
  datatype CreateError = ErrNoMem | ErrPerm | ErrInval | ErrUnknown

  /** Go's `(found bool, err error)` pair; `err` carries the errno when it is non-nil. */
  datatype LookupResult = LookupResult(found: bool, err: Option<nat>)

  /**
   * `BpfCreateMap` after its syscall: any errno is an error, named after
   * ENOMEM, EPERM or EINVAL or else "unknown"; no errno gives `int(r1)` as the fd.
   */
  function BpfCreateMap(reply: Reply): (r: Result<int, CreateError>)
    ensures r.Ok? <==> reply.errno == 0
    ensures r.Ok? ==> r.value == ToInt64(reply.r1)
    ensures r == Err(ErrNoMem) <==> reply.errno == ENOMEM
    ensures r == Err(ErrPerm) <==> reply.errno == EPERM
    ensures r == Err(ErrInval) <==> reply.errno == EINVAL
    ensures r == Err(ErrUnknown) <==> reply.errno !in {0, ENOMEM, EPERM, EINVAL}
  {
    if reply.errno != 0 then
      if reply.errno == ENOMEM then Err(ErrNoMem)
      else if reply.errno == EPERM then Err(ErrPerm)
      else if reply.errno == EINVAL then Err(ErrInval)
      else Err(ErrUnknown)
    else
      Ok(ToInt64(reply.r1))
  }

  /**
   * `BpfMapLookupElem` after its syscall: it looks at the result register
   * `int64(r1)`; a non-zero result with ENOENT is a silent miss, any other
   * non-zero result an error carrying the errno.
   */
  function BpfMapLookupElem(reply: Reply): (r: LookupResult)
    ensures r.found <==> reply.r1 == 0
    ensures r.err.None? <==> (reply.r1 == 0 || reply.errno == ENOENT)
    ensures r.err.Some? ==> !r.found && r.err.value == reply.errno
  {
    var ret := ToInt64(reply.r1);
    if ret != 0 then
      if reply.errno == ENOENT then LookupResult(false, None)
      else LookupResult(false, Some(reply.errno))
    else
      LookupResult(true, None)
  }

  /**
   * `BpfMapGetNextKey` after its syscall: it looks at the errno; ENOENT
   * means the key was the last one (end of iteration), any other errno is
   * an error.
   */
  function BpfMapGetNextKey(reply: Reply): (r: LookupResult)
    ensures r.found <==> reply.errno == 0
    ensures r.err.None? <==> (reply.errno == 0 || reply.errno == ENOENT)
    ensures r.err.Some? ==> !r.found && r.err.value == reply.errno
  {
    if reply.errno != 0 then
      if reply.errno == ENOENT then LookupResult(false, None)
      else LookupResult(false, Some(reply.errno))
    else
      LookupResult(true, None)
  }

  /** A lookup miss reported by the kernel is neither "found" nor an error. */
  lemma LookupMissIsSilent(reply: Reply)
    requires reply.errno == ENOENT && FollowsErrnoConvention(reply)
    ensures BpfMapLookupElem(reply) == LookupResult(false, None)
  {
  }

  /**
   * The lookup wrapper tests r1 and the next-key wrapper tests errno, yet
   * for every reply that follows the kernel's convention they classify it
   * the same way.
   */
  lemma LookupAgreesWithNextKey(reply: Reply)
    requires FollowsErrnoConvention(reply)
    ensures BpfMapLookupElem(reply) == BpfMapGetNextKey(reply)
  {
  }

  /** Without the convention the two differ: r1 == -1 with errno 0 is a non-nil "errno 0" for lookup. */
  lemma LookupDiffersWithoutConvention()
    ensures BpfMapLookupElem(Reply(0xFFFF_FFFF_FFFF_FFFF, 0)) == LookupResult(false, Some(0))
    ensures BpfMapGetNextKey(Reply(0xFFFF_FFFF_FFFF_FFFF, 0)) == LookupResult(true, None)
  {
  }
}
