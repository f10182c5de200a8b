# Jool NAT64 session-table export, modelled in Dafny

This project models the kernel side of Jool's session-table export
(`mod/common/nl/session.c`). A privileged userspace client asks, over
Netlink, to display the NAT64 session table of one transport protocol, page
by page, or to count its entries. The model covers four parts:

- **Entry projector** (`session_entry_to_userspace`), module `Projector`.
  It refuses a session whose expirer is missing. Otherwise it copies the four
  transport addresses and the state, computes the remaining lifetime
  (deadline = last update + expirer timeout, clamped at 0), and writes the
  view into the bounded response buffer.
- **Table walk**, module `Walker`. `sessiondb_foreach` drives the projector
  over the selected sessions and stops at the first non-zero callback result.
  `Walker.Foreach` is a reference model of that contract. Pagination is
  modelled by resuming after the records already sent.
- **Display and Count handlers**, module `SessionHandlers`.
  - Display performs the privilege gate, then the buffer allocation, then the
    optional resume key, then the walk.
  - It derives "pending data" from the walk result, sends the buffer or
    replies with the error, and frees the buffer.
  - Count replies with the count error or with the 8-byte count.
- **Router** (`handle_session_config`). It rejects SIIT mode, validates the
  request size, and dispatches on the operation code.

Collaborators whose code is outside the model are fields of
`SessionHandlers.Env`:

- the SIIT-mode query, the request-size check, and the privilege check;
- the response size and the buffer-allocation result;
- the table walker and the table counter.

Each handler returns a `Trace.Handled`: the one reply sent, plus the ordered
list of collaborator calls made. `Trace.Disciplined` states the resource rules
every request obeys:

- exactly one reply is sent;
- an error reply never carries 0;
- every allocated buffer is freed exactly once, as the last action.

Time is measured in jiffies as a `nat`. The kernel's jiffies-to-milliseconds
conversion is the parameter `toMsecs`; some lemmas assume it is monotone.

Three different faults are all answered with `-EINVAL`: the router's
rejection in SIIT mode (session.c:87), an unknown operation code
(session.c:105), and a session without an expirer (session.c:14). The
projector does not log the missing expirer; it only returns the code.

## Model

| member | source | states |
|---|---|---|
| `Projector.ToUserspace` | mod/common/nl/session.c:13-25 | a record without expirer is refused with -EINVAL, and only then; otherwise the view is the record's projection |
| `Projector.Project` | mod/common/nl/session.c:16-25 | the view keeps src6, dst6, src4, dst4 and state unchanged; dying time is 0 once the deadline (update time + timeout) is not after now, and otherwise the conversion of the jiffies left to it |
| `Projector.RemainingJiffies` | mod/common/nl/session.c:22-25 | the jiffies left until the deadline, measured with one clock sample: 0 once the deadline is reached, otherwise the distance from now to it |
| `Projector.EntryToUserspace` | mod/common/nl/session.c:7-28 | the walker callback: without an expirer it returns -EINVAL and leaves the buffer untouched; otherwise it appends the projection when there is room and returns 0, and returns the positive full code with the buffer unchanged when there is not |
| `Projector.DyingTimeNonIncreasing` | mod/common/nl/session.c:22-25 | with a monotone conversion, projecting later never reports a longer remaining lifetime |
| `Projector.DyingTimeAtMostTimeout` | mod/common/nl/session.c:22-25 | a session observed after its last update never reports more than its full timeout |
| `Projector.AsWrittenRemainingJiffies` | mod/common/nl/session.c:22-25 | the source's computation with separate clock reads for the comparison and the subtraction, in wrapping 64-bit arithmetic; equal to the single-read value when both reads agree |
| `Projector.AsWrittenDoubleReadWraps` | mod/common/nl/session.c:23-24 | a deadline of 10 with the clock at 9 for the comparison and at 11 for the subtraction gives 2^64-1 jiffies, where one read gives 0 |
| `Walker.Foreach` | mod/common/nl/session.c:52-54 | the walk writes the projections of a prefix of the selection, in order; it ends with 0 when every record was written, with the full code when the next record has an expirer but did not fit, and with -EINVAL when the next record has no expirer |
| `Walker.ForeachValidEntries` | mod/common/nl/session.c:52-55 | when every record has an expirer, the buffer holds the views of the first min(capacity, n) records; the walk stops early exactly when the selection exceeds the capacity |
| `Walker.ForeachMissingExpirer` | mod/common/nl/session.c:13-14 | a missing expirer that the walk reaches before the buffer fills aborts the walk with -EINVAL, even if the buffer is exactly full |
| `Walker.DumpCoversTable` | mod/common/nl/session.c:47-55 | resuming after each page's last record, with each page built by its own request at its own clock reading, the concatenated pages hold every record of the selection once, in order, with no duplicates and no gaps |
| `Walker.PagedViewsAt` | mod/common/nl/session.c:22-25 | in such a dump, the i-th record is projected at the clock reading of the request whose page it lands on, page number i div capacity |
| `Walker.DumpPendingUntilLast` | mod/common/nl/session.c:55 | every page but the last is full and carries pending data; the last page does not |
| `SessionHandlers.ResumeKeyOf` | mod/common/nl/session.c:47-50 | the walker gets a resume key exactly when connection_set is true, and that key is the request's (remote4, local4) |
| `SessionHandlers.DisplayDenied` | mod/common/nl/session.c:38-39 | an unprivileged display replies -EPERM, with no allocation attempt and no table access |
| `SessionHandlers.DisplayAllocFailed` | mod/common/nl/session.c:43-45 | a failed allocation replies with its error; the table is not walked and nothing is freed |
| `SessionHandlers.DisplayWalked` | mod/common/nl/session.c:52-61 | after a successful allocation, pending data is set to (walk result > 0); a non-negative result sends the buffer, a negative one replies with that code; the buffer is freed once, last |
| `SessionHandlers.Display` | mod/common/nl/session.c:30-62 | the display handler: one reply per request; the table is walked if and only if the privilege check and the allocation both succeed; the walk uses the request's protocol and resume key; the reply is the walk's buffer or its error |
| `SessionHandlers.Count` | mod/common/nl/session.c:64-77 | no privilege check and no buffer; a non-zero count error is replied as is, otherwise the reply is 8 bytes that decode to the count |
| `SessionHandlers.Dispatch` | mod/common/nl/session.c:97-105 | OP_DISPLAY goes to Display, OP_COUNT goes to Count, and any other code gets -EINVAL without privilege check, allocation or table access |
| `SessionHandlers.HandleSessionConfig` | mod/common/nl/session.c:79-106 | SIIT mode is answered -EINVAL before size validation and dispatch; a size error is replied before any handler runs; every path sends exactly one reply and frees what it allocates |
| `SessionHandlers.DisplaySendsWhatFits` | mod/common/nl/session.c:52-61 | with the reference walker and valid records, a display returns the first records that fit, in order, and has pending data exactly when some did not fit |
| `SessionHandlers.DisplayDiscardsPartialOnFault` | mod/common/nl/session.c:56-58 | a missing expirer reached during the walk turns the whole display into -EINVAL; records already written are not sent |
| `SessionHandlers.CountIgnoresPrivilege` | mod/common/nl/session.c:64-77 | a count's trace and reply are the same for privileged and unprivileged callers |
| `SessionHandlers.DisplayDeniedRegardless` | mod/common/nl/session.c:38-39 | through the router, an unprivileged display gets -EPERM without allocation or table access, whatever the table holds |
| `SessionHandlers.SiitAnswersAlike` | mod/common/nl/session.c:85-88 | in SIIT mode every request gets the same reply and trace, whatever the operation, payload or collaborators |
| `Wire.U64Bytes` | mod/common/nl/session.c:76 | the count payload is 8 bytes that decode back to the count |
| `Wire.DecodeEncode` | mod/common/nl/session.c:76 | decoding the little-endian encoding of a number that fits gives the number back |
| `Wire.EncodeDecode` | mod/common/nl/session.c:76 | re-encoding a decoded byte string gives the same bytes |

## Left out

- Netlink plumbing is abstract. `nlcore_respond`, `nlcore_respond_struct` and `nlbuffer_send` become the single `Respond` event. `get_jool_hdr` and the payload cast are not modelled. The int a handler returns (the status of sending the reply) is not modelled, because it is transport I/O.
- `nlbuffer_init_response`, `nlbuffer_response_max_size` and `validate_request_size` are inputs in `Env`, because their bodies are not part of this model.
- `nlbuffer_write` is modelled as "append if there is room, else return a positive full code". Capacity is counted in records, because every `session_entry_usr` has the same size. Its byte layout and padding are not modelled.
- The `sessiondb_foreach` internals are not modelled: protocol filtering, the table order, resume-key lookup and locking. The walker is an `Env` function; `Walker.Foreach` models only its callback contract.
- Walker.DumpCoversTable: pagination resumes at the suffix after the records already sent. It assumes the table resumes strictly after the key and is not mutated between pages.
- Walker.Dump: assumes at least one record fits in a response. With a response size below one record, every page comes back empty with pending data set, and userspace pagination never advances.
- Walker.Foreach: projects every record of one walk at a single `jiffies` value. The source reads `jiffies` again for each record, so later records of the same page may see a later clock.
- `sessiondb_count` is an `Env` function from protocol to (error, count).
- `verify_superpriv` and `xlat_is_siit` are boolean inputs.
- `jiffies` is a `nat` parameter and `jiffies_to_msecs` is the parameter `toMsecs`.
- Projector.Project: does not model the wrap-around of `update_time + timeout` in `unsigned long`, or the wrap of `jiffies` itself, because the source has no handling for either and both are kernel timekeeping.
- Wire.U64Bytes: the count is copied from host memory. The model assumes a little-endian host; a big-endian host would send the reversed bytes.
- `be16_to_cpu` is not modelled: the operation code enters already in host order. The values of `OP_DISPLAY` and `OP_COUNT` come from a header that is not part of this model. The model uses 1 and 2, and only their distinctness matters.
- `log_debug` and `log_err` are not modelled, because they have no behavioural effect.
- The Count-versus-Display consistency is not modelled, because it depends on the table and not on this code.
- `src/usr/argp/wargp/pool4.h` is not modelled, because it only declares prototypes.

## Findings

| source | as written | input that shows it | evidently intended | confidence | as-written member | corrected member |
|---|---|---|---|---|---|---|
| mod/common/nl/session.c:23-24 | `jiffies` is volatile and is read twice: once for `dying_time > jiffies` and once for `dying_time - jiffies`, in unsigned long | deadline 10, `jiffies` 9 at the comparison and 11 at the subtraction (two ticks between the reads): the remaining time wraps to 2^64-1 jiffies, far more than any timeout | read the clock once, so a passed deadline yields 0 | low (needs two clock ticks between adjacent reads); not executed | `Projector.AsWrittenDoubleReadWraps` | `Projector.RemainingJiffies` |

The corrected computation uses one clock sample. `Projector.Project` uses it,
and so does everything built on `Project`. With a monotone conversion,
`Projector.DyingTimeAtMostTimeout` proves the dying time never exceeds the
session's timeout.
