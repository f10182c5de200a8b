/**
  What a request handler does, as an ordered list of the collaborator calls
  it makes, together with the one reply it sends. Resource and ordering
  properties of the handlers are properties of this trace.
 */
module Trace {
  import opened SessionTypes

  /** The reply sent back over Netlink. */
  datatype Reply =
    | ErrorReply(code: int)                                  // nlcore_respond
    | BufferReply(records: seq<SessionView>, pending: bool)  // nlbuffer_send
    | CountReply(payload: seq<byte>)                         // nlcore_respond_struct

  /**
    The collaborator calls a handler makes, in order. `Respond` marks the
    moment the one reply (recorded beside the trace) is sent.
   */
  datatype Event =
    | SiitQuery(siit: bool)
    | ValidateSize(error: int)
    | PrivCheck(privileged: bool)
    | BufInit(error: int)
    | Walk(proto: L4Proto, key: Option<ResumeKey>)
    | SetPending(pending: bool)
    | CountQuery(countProto: L4Proto)
    | Respond
    | Free
  {
    predicate AccessesTable() {
      Walk? || CountQuery?
    }
  }

  datatype Handled = Handled(reply: Reply, trace: seq<Event>)

  function Replies(t: seq<Event>): nat {
    multiset(t)[Respond]
  }

  function Allocations(t: seq<Event>): nat {
    multiset(t)[BufInit(0)]
  }

  function Frees(t: seq<Event>): nat {
    multiset(t)[Free]
  }

  predicate TouchesTable(t: seq<Event>) {
    exists e :: e in t && e.AccessesTable()
  }

  predicate ChecksPrivilege(t: seq<Event>) {
    exists e :: e in t && e.PrivCheck?
  }

  predicate AttemptsAllocation(t: seq<Event>) {
    exists e :: e in t && e.BufInit?
  }

  predicate ValidatesSize(t: seq<Event>) {
    exists e :: e in t && e.ValidateSize?
  }

  /**
    The discipline every request obeys: exactly one reply, and an error reply
    never carries 0; every allocated buffer is freed exactly once, and the
    free is the last thing done.
   */
  predicate Disciplined(h: Handled) {
    && Replies(h.trace) == 1
    && (h.reply.ErrorReply? ==> h.reply.code != 0)
    && Frees(h.trace) == Allocations(h.trace)
    && (Frees(h.trace) > 0 ==> h.trace[|h.trace| - 1] == Free)
  }

  /**
    Prefixing a disciplined handling with checks that neither reply, allocate
    nor free keeps it disciplined.
   */
  lemma PrefixKeepsDiscipline(pre: seq<Event>, h: Handled)
    requires Disciplined(h)
    requires forall e :: e in pre ==> !e.Respond? && !e.BufInit? && !e.Free?
    ensures Disciplined(Handled(h.reply, pre + h.trace))
  {
    var t := pre + h.trace;
    assert multiset(t) == multiset(pre) + multiset(h.trace);
    assert Respond !in pre && BufInit(0) !in pre && Free !in pre;
  }
}
