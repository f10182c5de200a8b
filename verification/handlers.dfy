/**
  The session-table request handlers: Display streams the table into one
  bounded buffer, Count replies with the table's size, and the router checks
  the translator mode and the request size before dispatching on the
  operation code. The kernel's collaborators are the fields of `Env`.
 */
module SessionHandlers {
  import opened SessionTypes
  import opened NlBuffer
  import opened Walker
  import opened Wire
  import opened Trace

  /** Operation codes of the Jool request header (host order). */
  const OP_DISPLAY: u16 := 1
  const OP_COUNT: u16 := 2

  datatype CountOutcome = CountOutcome(error: int, count: u64)

  /**
    What the handlers learn from code outside this model: the translator
    mode, the request-size check, the privilege check, the negotiated
    response size (in records) and the allocation result, and the table's
    iteration and count primitives.
   */
  datatype Env = Env(
    siit: bool,
    sizeError: int,
    privileged: bool,
    responseMaxSize: nat,
    initError: int,
    walker: (L4Proto, Option<ResumeKey>, Buffer) -> WalkOutcome,
    counter: L4Proto -> CountOutcome)

  /** The resume point handed to the walker: present only for an anchored request. */
  function ResumeKeyOf(d: DisplayRequest): (k: Option<ResumeKey>)
    ensures k.Some? <==> d.connectionSet
    ensures k.Some? ==> k.value.remote4 == d.remote4 && k.value.local4 == d.local4
  {
    if d.connectionSet then Some(ResumeKey(d.remote4, d.local4)) else None
  }

  /** The walk Display performs once the privilege check and the allocation succeeded. */
  function DisplayWalk(env: Env, req: SessionRequest): WalkOutcome {
    env.walker(req.l4Proto, ResumeKeyOf(req.display), EmptyBuffer(env.responseMaxSize))
  }

  /** Display refused by the privilege check: no buffer, no table access. */
  function DisplayDenied(): (h: Handled)
    ensures Disciplined(h) && h.reply == ErrorReply(-EPERM)
    ensures !AttemptsAllocation(h.trace) && !TouchesTable(h.trace)
    ensures Frees(h.trace) == 0
  {
    Handled(ErrorReply(-EPERM), [PrivCheck(false), Respond])
  }

  /** Display whose buffer could not be allocated: the error is replied, nothing walked or freed. */
  function DisplayAllocFailed(error: int): (h: Handled)
    requires error != 0
    ensures Disciplined(h) && h.reply == ErrorReply(error)
    ensures !TouchesTable(h.trace) && Frees(h.trace) == 0 && Allocations(h.trace) == 0
  {
    Handled(ErrorReply(error), [PrivCheck(true), BufInit(error), Respond])
  }

  /**
    Display after a successful allocation: the walk decides between sending
    the buffer (with pending data when the walk stopped early) and replying
    with the walk's error; the buffer is freed last on both paths.
   */
  function DisplayWalked(proto: L4Proto, key: Option<ResumeKey>, w: WalkOutcome): (h: Handled)
    ensures Disciplined(h)
    ensures Frees(h.trace) == 1 && SetPending(w.result > 0) in h.trace
    ensures Walk(proto, key) in h.trace
    ensures forall e :: e in h.trace && e.Walk? ==> e == Walk(proto, key)
    ensures w.result >= 0 ==> h.reply == BufferReply(w.buffer.records, w.result > 0)
    ensures w.result < 0 ==> h.reply == ErrorReply(w.result)
  {
    var buffer := SetPendingData(w.buffer, w.result > 0);
    var reply := if w.result >= 0 then BufferReply(buffer.records, buffer.pending) else ErrorReply(w.result);
    Handled(reply, [PrivCheck(true), BufInit(0), Walk(proto, key), SetPending(w.result > 0), Respond, Free])
  }

  function Display(env: Env, req: SessionRequest): (h: Handled)
    ensures Disciplined(h)
    ensures !env.privileged ==>
              h.reply == ErrorReply(-EPERM) && !AttemptsAllocation(h.trace) && !TouchesTable(h.trace)
    ensures env.privileged && env.initError != 0 ==>
              h.reply == ErrorReply(env.initError) && Frees(h.trace) == 0 && !TouchesTable(h.trace)
    ensures TouchesTable(h.trace) <==> env.privileged && env.initError == 0
    ensures forall e :: e in h.trace && e.Walk? ==>
              && e.proto == req.l4Proto
              && (e.key.Some? <==> req.display.connectionSet)
              && (e.key.Some? ==> e.key.value == ResumeKey(req.display.remote4, req.display.local4))
    ensures env.privileged && env.initError == 0 ==>
              var w := DisplayWalk(env, req);
              && Frees(h.trace) == 1
              && SetPending(w.result > 0) in h.trace
              && (w.result >= 0 ==> h.reply == BufferReply(w.buffer.records, w.result > 0))
              && (w.result < 0 ==> h.reply == ErrorReply(w.result))
  {
    if !env.privileged then DisplayDenied()
    else if env.initError != 0 then DisplayAllocFailed(env.initError)
    else
      var key := ResumeKeyOf(req.display);
      var h := DisplayWalked(req.l4Proto, key, env.walker(req.l4Proto, key, EmptyBuffer(env.responseMaxSize)));
      assert Walk(req.l4Proto, key).AccessesTable();
      h
  }

  function Count(env: Env, req: SessionRequest): (h: Handled)
    ensures Disciplined(h)
    ensures !ChecksPrivilege(h.trace) && !AttemptsAllocation(h.trace)
    ensures h.trace[0] == CountQuery(req.l4Proto)
    ensures var c := env.counter(req.l4Proto);
            && (c.error != 0 ==> h.reply == ErrorReply(c.error))
            && (c.error == 0 ==> h.reply.CountReply? && |h.reply.payload| == 8
                                 && DecodeLE(h.reply.payload) == c.count)
  {
    var c := env.counter(req.l4Proto);
    if c.error != 0 then
      Handled(ErrorReply(c.error), [CountQuery(req.l4Proto), Respond])
    else
      Handled(CountReply(U64Bytes(c.count)), [CountQuery(req.l4Proto), Respond])
  }

  /** Dispatch on the operation code of a request that passed the mode and size checks. */
  function Dispatch(env: Env, operation: u16, req: SessionRequest): (h: Handled)
    ensures Disciplined(h)
    ensures operation == OP_DISPLAY ==> h == Display(env, req)
    ensures operation == OP_COUNT ==> h == Count(env, req)
    ensures operation != OP_DISPLAY && operation != OP_COUNT ==>
              && h.reply == ErrorReply(-EINVAL)
              && !ChecksPrivilege(h.trace) && !AttemptsAllocation(h.trace) && !TouchesTable(h.trace)
  {
    if operation == OP_DISPLAY then Display(env, req)
    else if operation == OP_COUNT then Count(env, req)
    else Handled(ErrorReply(-EINVAL), [Respond])
  }

  function HandleSessionConfig(env: Env, operation: u16, req: SessionRequest): (h: Handled)
    ensures Disciplined(h)
    ensures env.siit ==>
              && h.reply == ErrorReply(-EINVAL)
              && !ValidatesSize(h.trace) && !ChecksPrivilege(h.trace) && !TouchesTable(h.trace)
    ensures !env.siit && env.sizeError != 0 ==>
              && h.reply == ErrorReply(env.sizeError)
              && !ChecksPrivilege(h.trace) && !AttemptsAllocation(h.trace) && !TouchesTable(h.trace)
    ensures !env.siit && env.sizeError == 0 ==>
              var d := Dispatch(env, operation, req);
              h.reply == d.reply && h.trace == [SiitQuery(false), ValidateSize(0)] + d.trace
  {
    if env.siit then
      Handled(ErrorReply(-EINVAL), [SiitQuery(true), Respond])
    else if env.sizeError != 0 then
      Handled(ErrorReply(env.sizeError), [SiitQuery(false), ValidateSize(env.sizeError), Respond])
    else
      var pre := [SiitQuery(false), ValidateSize(0)];
      var d := Dispatch(env, operation, req);
      PrefixKeepsDiscipline(pre, d);
      Handled(d.reply, pre + d.trace)
  }

  // ---------------------------------------------------------------------
  // Display driven by the walker of the Walker module.

  /**
    A privileged display whose walker projects `entries` (the selection the
    table makes for the request's protocol and resume key), all of which
    have expirers: the reply carries the first records that fit, in order,
    and announces pending data exactly when some did not fit.
   */
  lemma DisplaySendsWhatFits(env: Env, req: SessionRequest, entries: seq<SessionEntry>, now: nat, toMsecs: nat -> nat)
    requires !env.siit && env.sizeError == 0 && env.privileged && env.initError == 0
    requires DisplayWalk(env, req) == Foreach(entries, now, toMsecs, EmptyBuffer(env.responseMaxSize))
    requires AllHaveExpirer(entries)
    ensures HandleSessionConfig(env, OP_DISPLAY, req).reply
            == BufferReply(Views(entries[..Min(env.responseMaxSize, |entries|)], now, toMsecs),
                           env.responseMaxSize < |entries|)
  {
    ForeachValidEntries(entries, now, toMsecs, env.responseMaxSize);
  }

  /**
    A record without an expirer that the walk reaches makes the whole display
    fail with -EINVAL: the records already written are discarded, not sent.
   */
  lemma DisplayDiscardsPartialOnFault(env: Env, req: SessionRequest, entries: seq<SessionEntry>,
                                      now: nat, toMsecs: nat -> nat, j: nat)
    requires !env.siit && env.sizeError == 0 && env.privileged && env.initError == 0
    requires DisplayWalk(env, req) == Foreach(entries, now, toMsecs, EmptyBuffer(env.responseMaxSize))
    requires j < |entries| && j <= env.responseMaxSize
    requires AllHaveExpirer(entries[..j]) && !HasExpirer(entries[j])
    ensures HandleSessionConfig(env, OP_DISPLAY, req).reply == ErrorReply(-EINVAL)
  {
    ForeachMissingExpirer(entries, now, toMsecs, env.responseMaxSize, j);
  }

  /**
    Count is not guarded by the privilege check: its outcome does not depend
    on the caller's privilege at all.
   */
  lemma CountIgnoresPrivilege(env: Env, req: SessionRequest)
    ensures HandleSessionConfig(env.(privileged := false), OP_COUNT, req)
            == HandleSessionConfig(env.(privileged := true), OP_COUNT, req)
  {
  }

  /**
    Display is guarded: an unprivileged caller gets -EPERM whatever the
    table, the buffer allocation or the request would have produced.
   */
  lemma DisplayDeniedRegardless(env: Env, req: SessionRequest)
    requires !env.siit && env.sizeError == 0 && !env.privileged
    ensures var h := HandleSessionConfig(env, OP_DISPLAY, req);
            h.reply == ErrorReply(-EPERM) && !TouchesTable(h.trace) && !AttemptsAllocation(h.trace)
  {
    var d := Display(env, req);
    var h := HandleSessionConfig(env, OP_DISPLAY, req);
    assert h.trace == [SiitQuery(false), ValidateSize(0)] + d.trace;
    forall e | e in h.trace ensures !e.AccessesTable() && !e.BufInit? {
      assert e in [SiitQuery(false), ValidateSize(0)] || e in d.trace;
    }
  }

  /**
    In SIIT mode nothing about the request or the collaborators matters: every
    request gets the same -EINVAL answer.
   */
  lemma SiitAnswersAlike(env1: Env, env2: Env, op1: u16, op2: u16, req1: SessionRequest, req2: SessionRequest)
    requires env1.siit && env2.siit
    ensures HandleSessionConfig(env1, op1, req1) == HandleSessionConfig(env2, op2, req2)
  {
  }
}
