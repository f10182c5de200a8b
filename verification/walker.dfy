/**
  The contract the display handler consumes from the session table's
  iteration primitive, made concrete: the walker calls the projector on each
  selected record in order and stops at the first non-zero callback result,
  returning it (0 when every record was visited). Which records are selected
  (protocol filter, resume position, table order) is the table's business;
  `entries` is that selection.
 */
module Walker {
  import opened SessionTypes
  import opened NlBuffer
  import opened Projector

  datatype WalkOutcome = WalkOutcome(result: int, buffer: Buffer)

  /** The views of records that all have expirers, in order. */
  function Views(entries: seq<SessionEntry>, now: nat, toMsecs: nat -> nat): (vs: seq<SessionView>)
    requires AllHaveExpirer(entries)
    ensures |vs| == |entries|
    ensures forall i :: 0 <= i < |entries| ==> vs[i] == Project(entries[i], now, toMsecs)
  {
    if |entries| == 0 then []
    else [Project(entries[0], now, toMsecs)] + Views(entries[1..], now, toMsecs)
  }

  /**
    The callback-driven walk. `k` records were written; they are the
    projections of the first `k` entries. The walk ended for exactly one of
    three reasons: every entry was written (0), the next entry has an expirer
    but did not fit (WRITE_FULL), or the next entry has no expirer (-EINVAL).
   */
  function Foreach(entries: seq<SessionEntry>, now: nat, toMsecs: nat -> nat, b: Buffer): (w: WalkOutcome)
    requires b.Valid()
    ensures w.buffer.Valid() && w.buffer.capacity == b.capacity && w.buffer.pending == b.pending
    ensures |b.records| <= |w.buffer.records| && w.buffer.records[..|b.records|] == b.records
    ensures var k := |w.buffer.records| - |b.records|;
            && k <= |entries|
            && (forall i :: 0 <= i < k ==>
                  HasExpirer(entries[i]) && w.buffer.records[|b.records| + i] == Project(entries[i], now, toMsecs))
            && (w.result == 0 ==> k == |entries|)
            && (w.result != 0 ==> k < |entries|)
            && (w.result > 0 ==> w.result == WRITE_FULL && HasExpirer(entries[k])
                                 && |w.buffer.records| == b.capacity)
            && (w.result < 0 ==> w.result == -EINVAL && !HasExpirer(entries[k]))
    ensures w.result == 0 || w.result == WRITE_FULL || w.result == -EINVAL
    decreases |entries|
  {
    if |entries| == 0 then WalkOutcome(0, b)
    else
      var step := EntryToUserspace(entries[0], now, toMsecs, b);
      if step.code != 0 then WalkOutcome(step.code, step.buffer)
      else Foreach(entries[1..], now, toMsecs, step.buffer)
  }

  /**
    When every selected record has an expirer, the walk writes as many of them
    as fit and stops early exactly when some did not fit.
   */
  lemma ForeachValidEntries(entries: seq<SessionEntry>, now: nat, toMsecs: nat -> nat, capacity: nat)
    requires AllHaveExpirer(entries)
    ensures var w := Foreach(entries, now, toMsecs, EmptyBuffer(capacity));
            && (w.result == 0 <==> |entries| <= capacity)
            && (w.result == WRITE_FULL <==> capacity < |entries|)
            && w.buffer.records == Views(entries[..Min(capacity, |entries|)], now, toMsecs)
  {
    var w := Foreach(entries, now, toMsecs, EmptyBuffer(capacity));
    var k := |w.buffer.records|;
    if w.result < 0 {
      assert false;
    }
    assert k == Min(capacity, |entries|);
    var vs := Views(entries[..k], now, toMsecs);
    assert |vs| == k;
    forall i | 0 <= i < k
      ensures w.buffer.records[i] == vs[i]
    {
      assert entries[..k][i] == entries[i];
    }
  }

  /**
    A record without an expirer that the walk reaches before the buffer
    fills aborts the walk with -EINVAL: it is checked before anything is
    written, so a full buffer does not hide it.
   */
  lemma ForeachMissingExpirer(entries: seq<SessionEntry>, now: nat, toMsecs: nat -> nat, capacity: nat, j: nat)
    requires j < |entries| && j <= capacity
    requires AllHaveExpirer(entries[..j]) && !HasExpirer(entries[j])
    ensures Foreach(entries, now, toMsecs, EmptyBuffer(capacity)).result == -EINVAL
  {
    ForeachFaultFrom(entries, now, toMsecs, EmptyBuffer(capacity), j);
  }

  /** The same, from a buffer that already holds records but still has room for `j` more. */
  lemma {:induction false} ForeachFaultFrom(entries: seq<SessionEntry>, now: nat, toMsecs: nat -> nat, b: Buffer, j: nat)
    requires b.Valid() && j < |entries| && |b.records| + j <= b.capacity
    requires AllHaveExpirer(entries[..j]) && !HasExpirer(entries[j])
    ensures Foreach(entries, now, toMsecs, b).result == -EINVAL
    decreases j
  {
    if j > 0 {
      assert entries[..j][0] == entries[0];
      var step := EntryToUserspace(entries[0], now, toMsecs, b);
      var rest := entries[1..];
      var written := rest[..j - 1];
      assert AllHaveExpirer(written) by {
        forall i | 0 <= i < |written| ensures HasExpirer(written[i]) {
          assert written[i] == entries[..j][i + 1];
        }
      }
      assert rest[j - 1] == entries[j];
      ForeachFaultFrom(rest, now, toMsecs, step.buffer, j - 1);
    }
  }

  function Min(a: nat, b: nat): nat {
    if a <= b then a else b
  }

  // ---------------------------------------------------------------------
  // Pagination: userspace re-issues the display with the last received
  // pair as resume key, and the table resumes strictly after it. Here the
  // resumed selection is the suffix that follows the records written. Each
  // page is a separate request, projected at its own clock reading:
  // `clock(p)` is the jiffies value while page `p` is built.

  datatype Page = Page(records: seq<SessionView>, pending: bool)

  /** The pages a complete paginated dump of `entries` produces, starting with page number `page`. */
  function Dump(entries: seq<SessionEntry>, clock: nat -> nat, page: nat, toMsecs: nat -> nat, capacity: nat): (pages: seq<Page>)
    requires AllHaveExpirer(entries) && capacity > 0
    ensures |pages| > 0
    decreases |entries|
  {
    var w := Foreach(entries, clock(page), toMsecs, EmptyBuffer(capacity));
    var k := |w.buffer.records|;
    if w.result > 0 then
      assert AllHaveExpirer(entries[k..]) by {
        forall i | 0 <= i < |entries[k..]| ensures HasExpirer(entries[k..][i]) {
          assert entries[k..][i] == entries[k + i];
        }
      }
      [Page(w.buffer.records, true)] + Dump(entries[k..], clock, page + 1, toMsecs, capacity)
    else [Page(w.buffer.records, false)]
  }

  function Concat(pages: seq<Page>): seq<SessionView> {
    if |pages| == 0 then [] else pages[0].records + Concat(pages[1..])
  }

  lemma ConcatCons(p: Page, tail: seq<Page>)
    ensures Concat([p] + tail) == p.records + Concat(tail)
  {
    assert ([p] + tail)[1..] == tail;
  }

  /** The page, counted from 0, that the i-th record of a dump lands on: i div capacity. */
  function PageOf(i: nat, capacity: nat): nat
    requires capacity > 0
    decreases i
  {
    if i < capacity then 0 else 1 + PageOf(i - capacity, capacity)
  }

  /**
    One step of the dump: a page that stopped early is followed by the dump
    of the records after it, as the next page.
   */
  lemma DumpStep(entries: seq<SessionEntry>, clock: nat -> nat, page: nat, toMsecs: nat -> nat, capacity: nat)
    requires AllHaveExpirer(entries) && capacity > 0
    ensures var pages := Dump(entries, clock, page, toMsecs, capacity);
            if capacity < |entries| then
              && AllHaveExpirer(entries[capacity..])
              && pages == [Page(Views(entries[..capacity], clock(page), toMsecs), true)]
                          + Dump(entries[capacity..], clock, page + 1, toMsecs, capacity)
            else
              pages == [Page(Views(entries, clock(page), toMsecs), false)]
  {
    ForeachValidEntries(entries, clock(page), toMsecs, capacity);
    if capacity >= |entries| {
      assert entries[..|entries|] == entries;
    }
  }

  /**
    The records of a dump as they should arrive: the first `capacity` records
    projected at `clock(page)`, the rest as the dump's next page onward.
   */
  function PagedViews(entries: seq<SessionEntry>, clock: nat -> nat, page: nat, toMsecs: nat -> nat,
                      capacity: nat): (vs: seq<SessionView>)
    requires AllHaveExpirer(entries) && capacity > 0
    ensures |vs| == |entries|
    decreases |entries|
  {
    if |entries| <= capacity then Views(entries, clock(page), toMsecs)
    else
      assert forall i :: 0 <= i < |entries| - capacity ==> entries[capacity..][i] == entries[capacity + i];
      Views(entries[..capacity], clock(page), toMsecs)
        + PagedViews(entries[capacity..], clock, page + 1, toMsecs, capacity)
  }

  /**
    Each record of a dump is projected at the clock of the page it lands on,
    page `page + PageOf(i, capacity)`.
   */
  lemma {:induction false} PagedViewsAt(entries: seq<SessionEntry>, clock: nat -> nat, page: nat,
                                        toMsecs: nat -> nat, capacity: nat, i: nat)
    requires AllHaveExpirer(entries) && capacity > 0 && i < |entries|
    ensures PagedViews(entries, clock, page, toMsecs, capacity)[i]
            == Project(entries[i], clock(page + PageOf(i, capacity)), toMsecs)
    decreases |entries|
  {
    if |entries| > capacity {
      var rest := entries[capacity..];
      assert AllHaveExpirer(rest) by {
        assert forall k :: 0 <= k < |rest| ==> rest[k] == entries[capacity + k];
      }
      var first := Views(entries[..capacity], clock(page), toMsecs);
      var later := PagedViews(rest, clock, page + 1, toMsecs, capacity);
      assert PagedViews(entries, clock, page, toMsecs, capacity) == first + later;
      if i < capacity {
        assert entries[..capacity][i] == entries[i];
      } else {
        PagedViewsAt(rest, clock, page + 1, toMsecs, capacity, i - capacity);
        assert rest[i - capacity] == entries[i];
      }
    }
  }

  /**
    A paginated dump is complete and exact: concatenating the pages gives
    every record once, in order, each projected at the clock of the request
    that carried its page.
   */
  lemma {:induction false} DumpCoversTable(entries: seq<SessionEntry>, clock: nat -> nat, page: nat,
                                           toMsecs: nat -> nat, capacity: nat)
    requires AllHaveExpirer(entries) && capacity > 0
    ensures Concat(Dump(entries, clock, page, toMsecs, capacity)) == PagedViews(entries, clock, page, toMsecs, capacity)
    decreases |entries|
  {
    DumpStep(entries, clock, page, toMsecs, capacity);
    if capacity < |entries| {
      var rest := entries[capacity..];
      var first := Views(entries[..capacity], clock(page), toMsecs);
      DumpCoversTable(rest, clock, page + 1, toMsecs, capacity);
      ConcatCons(Page(first, true), Dump(rest, clock, page + 1, toMsecs, capacity));
    } else {
      ConcatCons(Page(Views(entries, clock(page), toMsecs), false), []);
    }
  }

  /**
    Every page of a dump but the last is full and announces pending data;
    the last one does not.
   */
  lemma {:induction false} DumpPendingUntilLast(entries: seq<SessionEntry>, clock: nat -> nat, page: nat,
                                                toMsecs: nat -> nat, capacity: nat)
    requires AllHaveExpirer(entries) && capacity > 0
    ensures var pages := Dump(entries, clock, page, toMsecs, capacity);
            && !pages[|pages| - 1].pending
            && (forall i :: 0 <= i < |pages| - 1 ==> pages[i].pending && |pages[i].records| == capacity)
    decreases |entries|
  {
    DumpStep(entries, clock, page, toMsecs, capacity);
    if capacity < |entries| {
      var rest := entries[capacity..];
      DumpPendingUntilLast(rest, clock, page + 1, toMsecs, capacity);
      var tail := Dump(rest, clock, page + 1, toMsecs, capacity);
      var pages := Dump(entries, clock, page, toMsecs, capacity);
      forall i | 0 <= i < |pages| - 1
        ensures pages[i].pending && |pages[i].records| == capacity
      {
        if i > 0 {
          assert pages[i] == tail[i - 1];
        }
      }
    }
  }
}
