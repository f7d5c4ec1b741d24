/** The two upload handlers of src/main.rs: `POST /firmware/chunk`
    (118-197) and `POST /firmware/finish` (198-219). Each request runs to
    completion before the next one starts (a single uploader), and every
    command a handler sends is consumed by the writer as it is sent. */
module Ingress {
  import opened Common
  import opened Text
  import opened Writer

  /** One decoded multipart entry: its field name and its data. */
  datatype Part = Part(name: string, data: seq<byte>)

  /** What a handler reads from a request. `parts` is the output of the
      multipart decoder for the extracted boundary: `None` when reading the
      body or any of its entries fails. */
  datatype Request = Request(contentLen: Option<u64>, contentType: Option<string>, parts: Option<seq<Part>>)

  /** The errors a handler returns through `?` or `Err(..)`. */
  datatype Failure =
    | NoBoundary     // content type missing, or not multipart/form-data with a boundary
    | BadBody        // the body could not be read or decoded
    | NoIndex        // no `index` part, or its text is not a usize
    | NoChunk        // no `chunk` part
    | ChannelClosed  // `send` failed: the writer thread has exited

  datatype Outcome =
    | Status(code: nat, body: string)  // a response written by the handler
    | Failed(why: Failure)             // the handler returned an error
    | Hang                             // the handler waits for the ready flag forever

  const TOO_BIG: Outcome := Status(413, "Request too big")
  const FINISH_OK: Outcome := Status(200, "ok")

  /** The state a request can change: the writer and `bytes_written`. */
  datatype Sys = Sys(writer: WriterState, bytesWritten: usize)

  /** The state after a request, its reply, and the commands it sent. */
  datatype Handled = Handled(sys: Sys, reply: Outcome, emitted: seq<Update>)

  // -----------------------------------------------------------------------
  // Size guard and boundary (src/main.rs:123-136, 203-208)
  // -----------------------------------------------------------------------

  /** `content_len().unwrap_or(0) as usize <= MAX_LEN`. */
  function WithinLimit(contentLen: Option<u64>): (ok: bool)
    ensures contentLen.None? ==> ok
    ensures contentLen.Some? && contentLen.value < USIZE_MODULUS ==>
      (ok <==> contentLen.value <= MAX_LEN)
  {
    AsUsize(contentLen.GetOr(0)) <= MAX_LEN
  }

  const BOUNDARY_KEY: string := "boundary="
  const MULTIPART: string := "multipart/form-data"

  /** The boundary: the content type is split at the first `boundary=`;
      the text before it must start with `multipart/form-data` and the
      text after it is the boundary, quotes and later parameters included. */
  function Boundary(contentType: Option<string>): (r: Option<string>)
    ensures contentType.None? ==> r.None?
    ensures r.Some? ==>
      exists k :: FirstOccurrence(contentType.value, BOUNDARY_KEY, k)
        && StartsWith(contentType.value[..k], MULTIPART)
        && r.value == contentType.value[k + |BOUNDARY_KEY|..]
  {
    match contentType
    case None => None
    case Some(ct) =>
      match SplitOnce(ct, BOUNDARY_KEY)
      case None => None
      case Some((before, after)) => if StartsWith(before, MULTIPART) then Some(after) else None
  }

  ghost predicate FirstOccurrence(s: string, pat: string, k: int) {
    OccursAt(s, pat, k) && forall j :: 0 <= j < k ==> !OccursAt(s, pat, j)
  }

  lemma FirstOccurrenceUnique(s: string, pat: string, k1: int, k2: int)
    requires FirstOccurrence(s, pat, k1) && FirstOccurrence(s, pat, k2)
    ensures k1 == k2
  {
  }

  lemma BoundaryAccepted(ct: string, b: string)
    ensures Boundary(Some(ct)) == Some(b) <==>
      exists k :: FirstOccurrence(ct, BOUNDARY_KEY, k) && StartsWith(ct[..k], MULTIPART)
                  && b == ct[k + |BOUNDARY_KEY|..]
  {
    var r := SplitOnce(ct, BOUNDARY_KEY);
    if r.Some? {
      var k := |r.value.0|;
      assert FirstOccurrence(ct, BOUNDARY_KEY, k);
      assert ct[..k] == r.value.0;
      assert ct[k + |BOUNDARY_KEY|..] == r.value.1;
      forall k' | FirstOccurrence(ct, BOUNDARY_KEY, k')
        ensures k' == k
      {
        FirstOccurrenceUnique(ct, BOUNDARY_KEY, k, k');
      }
    }
  }

  lemma BoundaryRejected(ct: string)
    ensures Boundary(Some(ct)).None? <==>
      forall k :: FirstOccurrence(ct, BOUNDARY_KEY, k) ==> !StartsWith(ct[..k], MULTIPART)
  {
    var r := SplitOnce(ct, BOUNDARY_KEY);
    if r.Some? {
      var k := |r.value.0|;
      assert FirstOccurrence(ct, BOUNDARY_KEY, k);
      assert ct[..k] == r.value.0;
      forall k' | FirstOccurrence(ct, BOUNDARY_KEY, k')
        ensures k' == k
      {
        FirstOccurrenceUnique(ct, BOUNDARY_KEY, k, k');
      }
    }
  }

  // -----------------------------------------------------------------------
  // Part selection (src/main.rs:143-160) and the index (162)
  // -----------------------------------------------------------------------

  /** The data of the last part named `name`: a later part overwrites an earlier one. */
  function LastPart(parts: seq<Part>, name: string): (r: Option<seq<byte>>)
    ensures r.Some? ==> exists i :: 0 <= i < |parts| && parts[i] == Part(name, r.value)
    ensures r.None? ==> forall i :: 0 <= i < |parts| ==> parts[i].name != name
    decreases |parts|
  {
    if parts == [] then None
    else if parts[|parts| - 1].name == name then Some(parts[|parts| - 1].data)
    else LastPart(parts[..|parts| - 1], name)
  }

  /** `parts[i]` is named `name` and no later part is. */
  ghost predicate LastNamed(parts: seq<Part>, name: string, i: int) {
    0 <= i < |parts| && parts[i].name == name
    && forall j :: i < j < |parts| ==> parts[j].name != name
  }

  lemma {:induction false} LastNamedFound(parts: seq<Part>, name: string, i: int)
    requires LastNamed(parts, name, i)
    ensures LastPart(parts, name) == Some(parts[i].data)
    decreases |parts|
  {
    var n := |parts| - 1;
    if i < n {
      assert parts[n].name != name;
      assert LastNamed(parts[..n], name, i);
      LastNamedFound(parts[..n], name, i);
    }
  }

  lemma {:induction false} FoundLastNamed(parts: seq<Part>, name: string)
    requires LastPart(parts, name).Some?
    ensures exists i :: LastNamed(parts, name, i) && parts[i].data == LastPart(parts, name).value
    decreases |parts|
  {
    var n := |parts| - 1;
    if parts[n].name == name {
      assert LastNamed(parts, name, n);
    } else {
      FoundLastNamed(parts[..n], name);
      var i :| LastNamed(parts[..n], name, i) && parts[..n][i].data == LastPart(parts[..n], name).value;
      assert LastNamed(parts, name, i);
    }
  }

  lemma LastPartFound(parts: seq<Part>, name: string, d: seq<byte>)
    ensures LastPart(parts, name) == Some(d) <==>
      exists i :: 0 <= i < |parts| && parts[i] == Part(name, d)
                  && forall j :: i < j < |parts| ==> parts[j].name != name
  {
    if LastPart(parts, name) == Some(d) {
      FoundLastNamed(parts, name);
      var i :| LastNamed(parts, name, i) && parts[i].data == d;
      assert parts[i] == Part(name, d);
    }
    if i :| 0 <= i < |parts| && parts[i] == Part(name, d)
            && forall j :: i < j < |parts| ==> parts[j].name != name {
      assert LastNamed(parts, name, i);
      LastNamedFound(parts, name, i);
    }
  }

  lemma {:induction false} LastPartMissing(parts: seq<Part>, name: string)
    ensures LastPart(parts, name).None? <==> forall i :: 0 <= i < |parts| ==> parts[i].name != name
    decreases |parts|
  {
    if parts != [] {
      var n := |parts| - 1;
      LastPartMissing(parts[..n], name);
      assert forall i :: 0 <= i < n ==> parts[..n][i] == parts[i];
    }
  }

  /** The loop over the decoded entries: `chunk` and `index` keep the data
      of the last part with that name, other names are skipped. */
  method SelectParts(parts: seq<Part>) returns (chunk: Option<seq<byte>>, index: Option<seq<byte>>)
    ensures chunk == LastPart(parts, "chunk")
    ensures index == LastPart(parts, "index")
  {
    chunk, index := None, None;
    var i := 0;
    while i < |parts|
      invariant 0 <= i <= |parts|
      invariant chunk == LastPart(parts[..i], "chunk")
      invariant index == LastPart(parts[..i], "index")
    {
      var entry := parts[i];
      assert parts[..i + 1][..i] == parts[..i];
      if entry.name == "chunk" {
        chunk := Some(entry.data);
      } else if entry.name == "index" {
        index := Some(entry.data);
      }
      i := i + 1;
    }
    assert parts[..i] == parts;
  }

  /** `index.and_then(|i| i.parse().ok())`. */
  function ParseIndex(text: Option<seq<byte>>): (r: Option<usize>)
    ensures text.None? ==> r.None?
    ensures r.Some? ==>
      && text.Some? && |text.value| > 0
      && var digits := if text.value[0] == PLUS then text.value[1..] else text.value;
         |digits| > 0 && AllDigits(digits) && r.value == DigitsValue(digits)
  {
    match text
    case None => None
    case Some(s) => ParseUsize(s)
  }

  // -----------------------------------------------------------------------
  // The handlers as functions of the state before the request
  // -----------------------------------------------------------------------

  /** The chunk handler from the index check on (src/main.rs:166-195).
      `startOk` and `writeOk` are the outcomes of the flash calls the
      writer makes for the `Start` and the `Chunk` this request sends. */
  function ChunkAfterDecode(sys: Sys, index: usize, chunk: Option<seq<byte>>, startOk: bool, writeOk: bool): (r: Handled)
    ensures (|r.emitted| > 0 && r.emitted[0] == Start) <==> index == 0 && ChannelOpen(sys.writer)
    ensures r.emitted == [] ==> r.sys == sys
    ensures r.reply.Status? ==>
      && chunk.Some? && |r.emitted| > 0 && r.emitted[|r.emitted| - 1] == Chunk(chunk.value)
      && r.sys.bytesWritten == WrappingAdd(sys.bytesWritten, |chunk.value|)
      && r.reply == Status(200, Decimal(r.sys.bytesWritten))
    ensures !r.reply.Status? ==> r.sys.bytesWritten == sys.bytesWritten
    ensures |r.emitted| <= 2
    ensures forall i :: 0 <= i < |r.emitted| ==>
      (i == 0 && r.emitted[i] == Start)
      || (i == |r.emitted| - 1 && r.emitted[i].Chunk? && chunk == Some(r.emitted[i].payload))
  {
    if index == 0 && !ChannelOpen(sys.writer) then Handled(sys, Failed(ChannelClosed), [])
    else
      var w1 := if index == 0 then Step(sys.writer, Start, startOk) else sys.writer;
      var sent: seq<Update> := if index == 0 then [Start] else [];
      if chunk.None? then Handled(Sys(w1, sys.bytesWritten), Failed(NoChunk), sent)
      else if !ChannelOpen(w1) then Handled(Sys(w1, sys.bytesWritten), Failed(ChannelClosed), sent)
      else
        var u := Chunk(chunk.value);
        var w2 := Step(w1, u, writeOk);
        if !SetsReady(w1, u, writeOk) then Handled(Sys(w2, sys.bytesWritten), Hang, sent + [u])
        else
          var total := WrappingAdd(sys.bytesWritten, |chunk.value|);
          Handled(Sys(w2, total), Status(200, Decimal(total)), sent + [u])
  }

  /** What the chunk handler makes of a request before it sends anything
      (src/main.rs:123-164): an early reply, or the parsed index and the
      chunk part, if any. */
  datatype Checked = Reject(reply: Outcome) | Accept(index: usize, chunk: Option<seq<byte>>)

  function CheckChunkRequest(req: Request): (c: Checked)
    ensures c.Accept? <==>
      && WithinLimit(req.contentLen) && Boundary(req.contentType).Some? && req.parts.Some?
      && ParseIndex(LastPart(req.parts.value, "index")).Some?
    ensures c.Accept? ==>
      && ParseIndex(LastPart(req.parts.value, "index")) == Some(c.index)
      && c.chunk == LastPart(req.parts.value, "chunk")
    ensures !WithinLimit(req.contentLen) ==> c == Reject(TOO_BIG)
    ensures c.Reject? ==> c.reply in {TOO_BIG, Failed(NoBoundary), Failed(BadBody), Failed(NoIndex)}
  {
    if !WithinLimit(req.contentLen) then Reject(TOO_BIG)
    else if Boundary(req.contentType).None? then Reject(Failed(NoBoundary))
    else if req.parts.None? then Reject(Failed(BadBody))
    else
      var index := ParseIndex(LastPart(req.parts.value, "index"));
      if index.None? then Reject(Failed(NoIndex))
      else Accept(index.value, LastPart(req.parts.value, "chunk"))
  }

  /** The chunk handler once the request is decoded: the early reply, or
      the rest of the handler from the index check on. */
  function ChunkChecked(sys: Sys, c: Checked, startOk: bool, writeOk: bool): Handled {
    match c
    case Reject(reply) => Handled(sys, reply, [])
    case Accept(index, chunk) => ChunkAfterDecode(sys, index, chunk, startOk, writeOk)
  }

  /** `POST /firmware/chunk`. */
  function ChunkRequest(sys: Sys, req: Request, startOk: bool, writeOk: bool): (r: Handled)
    ensures r.emitted != [] ==> CheckChunkRequest(req).Accept?
    ensures |r.emitted| <= 2
    ensures forall i :: 0 <= i < |r.emitted| ==>
      (i == 0 && r.emitted[i] == Start)
      || (i == |r.emitted| - 1 && r.emitted[i].Chunk?
          && CheckChunkRequest(req).chunk == Some(r.emitted[i].payload))
  {
    ChunkChecked(sys, CheckChunkRequest(req), startOk, writeOk)
  }

  /** The finish handler once its size guard is evaluated (`fits`). */
  function FinishChecked(sys: Sys, fits: bool, flashOk: bool): Handled {
    if !fits then Handled(sys, TOO_BIG, [])
    else if !ChannelOpen(sys.writer) then Handled(sys, Failed(ChannelClosed), [])
    else Handled(Sys(Step(sys.writer, Finish, flashOk), sys.bytesWritten), FINISH_OK, [Finish])
  }

  /** `POST /firmware/finish`. */
  function FinishRequest(sys: Sys, req: Request, flashOk: bool): (r: Handled)
    ensures r.sys.bytesWritten == sys.bytesWritten
    ensures r.reply == FINISH_OK <==> WithinLimit(req.contentLen) && ChannelOpen(sys.writer)
    ensures r.reply == FINISH_OK ==> r.emitted == [Finish] && r.sys.writer == Step(sys.writer, Finish, flashOk)
    ensures r.reply != FINISH_OK ==> r.emitted == [] && r.sys == sys
  {
    FinishChecked(sys, WithinLimit(req.contentLen), flashOk)
  }

  /** A request that passes every check of the chunk handler before 166
      and carries this index and this chunk. */
  predicate Upload(req: Request, index: usize, chunk: seq<byte>) {
    CheckChunkRequest(req) == Accept(index, Some(chunk))
  }

  // -----------------------------------------------------------------------
  // Properties of one request
  // -----------------------------------------------------------------------

  /** An oversized request is answered 413 and changes and sends nothing. */
  lemma OversizedIsRejected(sys: Sys, req: Request, startOk: bool, writeOk: bool)
    requires req.contentLen.Some? && MAX_LEN < req.contentLen.value < USIZE_MODULUS
    ensures ChunkRequest(sys, req, startOk, writeOk) == Handled(sys, TOO_BIG, [])
    ensures FinishRequest(sys, req, startOk) == Handled(sys, TOO_BIG, [])
  {
  }

  /** From the index check on, the handler can only fail on the channel or
      the missing chunk, hang, or acknowledge. */
  lemma AfterDecodeReplies(sys: Sys, index: usize, chunk: Option<seq<byte>>, startOk: bool, writeOk: bool)
    ensures var r := ChunkAfterDecode(sys, index, chunk, startOk, writeOk).reply;
      r in {Failed(ChannelClosed), Failed(NoChunk), Hang} || (r.Status? && r.code == 200)
  {
  }

  /** Every failure detected before the index check sends nothing and
      changes nothing. */
  lemma EarlyErrorsChangeNothing(sys: Sys, req: Request, startOk: bool, writeOk: bool)
    ensures var h := ChunkRequest(sys, req, startOk, writeOk);
      h.reply in {TOO_BIG, Failed(NoBoundary), Failed(BadBody), Failed(NoIndex)} ==>
        h.emitted == [] && h.sys == sys
  {
    var c := CheckChunkRequest(req);
    if c.Accept? {
      AfterDecodeReplies(sys, c.index, c.chunk, startOk, writeOk);
    }
  }

  /** A request changes the state only through the commands it sends. */
  lemma {:induction false} NothingSentNothingChanged(sys: Sys, req: Request, startOk: bool, writeOk: bool)
    ensures var h := ChunkRequest(sys, req, startOk, writeOk);
      h.emitted == [] ==> h.sys == sys
  {
  }

  /** Index 0 sends `Start` before the chunk is looked for, so an index-0
      request without a chunk leaves exactly that `Start` consumed and fails. */
  lemma StartBeforeChunkCheck(sys: Sys, req: Request, startOk: bool, writeOk: bool)
    requires WithinLimit(req.contentLen) && Boundary(req.contentType).Some? && req.parts.Some?
    requires ParseIndex(LastPart(req.parts.value, "index")) == Some(0)
    requires LastPart(req.parts.value, "chunk").None?
    requires ChannelOpen(sys.writer)
    ensures ChunkRequest(sys, req, startOk, writeOk)
         == Handled(Sys(Step(sys.writer, Start, startOk), sys.bytesWritten), Failed(NoChunk), [Start])
  {
  }

  /** A chunk is acknowledged exactly when the writer, after the optional
      `Start`, holds an open update and the write succeeds; then the update
      grows by the chunk, the counter by its length, and the reply is the
      new total. */
  lemma ChunkAcknowledged(sys: Sys, req: Request, startOk: bool, writeOk: bool, index: usize, chunk: seq<byte>)
    requires Upload(req, index, chunk)
    ensures var h := ChunkRequest(sys, req, startOk, writeOk);
      var w1 := if index == 0 then Step(sys.writer, Start, startOk) else sys.writer;
      (h.reply.Status? <==> w1.Active? && writeOk)
      && (h.reply.Status? ==>
            && h.sys.writer == Active(w1.target + chunk)
            && h.sys.bytesWritten == WrappingAdd(sys.bytesWritten, |chunk|)
            && h.reply == Status(200, Decimal(h.sys.bytesWritten)))
  {
  }

  /** The counter moves only on an acknowledged chunk: an abort, a failed
      write, a dead writer or any request error leave it as it was. */
  lemma CounterOnlyOnAck(sys: Sys, req: Request, startOk: bool, writeOk: bool)
    ensures var h := ChunkRequest(sys, req, startOk, writeOk);
      h.sys.bytesWritten != sys.bytesWritten ==> h.reply.Status? && h.reply.code == 200
  {
  }

  /** The declared index matters only as "zero or not": a nonzero index
      that disagrees with the counter is logged and otherwise ignored. */
  lemma MismatchIgnored(sys: Sys, a: usize, b: usize, chunk: Option<seq<byte>>, startOk: bool, writeOk: bool)
    requires a != 0 && b != 0
    ensures ChunkAfterDecode(sys, a, chunk, startOk, writeOk) == ChunkAfterDecode(sys, b, chunk, startOk, writeOk)
  {
  }

  /** The handler blocks for ever exactly when its chunk was sent but the
      writer did not write it: the writer has then exited, or the device
      is restarting. */
  lemma HangMeansWriterGone(sys: Sys, req: Request, startOk: bool, writeOk: bool)
    ensures var h := ChunkRequest(sys, req, startOk, writeOk);
      h.reply == Hang ==> (h.sys.writer.Dead? || h.sys.writer.Completed?)
                          && h.sys.bytesWritten == sys.bytesWritten
                          && |h.emitted| > 0 && h.emitted[|h.emitted| - 1].Chunk?
    ensures var h := ChunkRequest(sys, req, startOk, writeOk);
      (|h.emitted| > 0 && h.emitted[|h.emitted| - 1].Chunk?
       && (h.sys.writer.Dead? || h.sys.writer.Completed?)) ==> h.reply == Hang
  {
    var c := CheckChunkRequest(req);
    if c.Accept? {
      HangAfterDecode(sys, c.index, c.chunk, startOk, writeOk);
    }
  }

  lemma HangAfterDecode(sys: Sys, index: usize, chunk: Option<seq<byte>>, startOk: bool, writeOk: bool)
    ensures var h := ChunkAfterDecode(sys, index, chunk, startOk, writeOk);
      (h.reply == Hang <==>
         |h.emitted| > 0 && h.emitted[|h.emitted| - 1].Chunk?
         && (h.sys.writer.Dead? || h.sys.writer.Completed?))
      && (h.reply == Hang ==> h.sys.bytesWritten == sys.bytesWritten)
  {
    var h := ChunkAfterDecode(sys, index, chunk, startOk, writeOk);
    if h.reply == Hang {
      var w1 := if index == 0 then Step(sys.writer, Start, startOk) else sys.writer;
      assert !SetsReady(w1, Chunk(chunk.value), writeOk);
    }
  }

  /** A second index-0 upload inside a session aborts it with its `Start`
      and then kills the writer with its `Chunk`; the counter is kept. */
  lemma SecondStartKillsWriter(sys: Sys, req: Request, startOk: bool, writeOk: bool, chunk: seq<byte>)
    requires sys.writer.Active?
    requires Upload(req, 0, chunk)
    ensures var h := ChunkRequest(sys, req, startOk, writeOk);
      h.sys == Sys(Dead, sys.bytesWritten)
      && h.reply == (if startOk then Hang else Failed(ChannelClosed))
  {
  }

  /** The finish handler replies "ok" in every writer state it can reach,
      without waiting for the writer; it fails only once the writer is gone. */
  lemma FinishAlwaysOk(sys: Sys, req: Request, flashOk: bool)
    requires WithinLimit(req.contentLen)
    ensures var h := FinishRequest(sys, req, flashOk);
      (h.reply == FINISH_OK <==> !sys.writer.Dead?)
      && (sys.writer.Idle? ==> h.sys.writer == Dead)
      && (sys.writer.Active? ==>
            h.sys.writer == (if flashOk then Completed(sys.writer.target) else Dead))
      && h.sys.bytesWritten == sys.bytesWritten
  {
  }

  /** The chunk handler up to the index check: it reads the request only. */
  method CheckChunk(req: Request) returns (c: Checked)
    ensures c == CheckChunkRequest(req)
  {
    var len := AsUsize(req.contentLen.GetOr(0));
    if len > MAX_LEN {
      return Reject(TOO_BIG);
    }
    var boundary := Boundary(req.contentType);
    if boundary.None? {
      return Reject(Failed(NoBoundary));
    }
    if req.parts.None? {
      return Reject(Failed(BadBody));
    }
    var chunk, indexText := SelectParts(req.parts.value);
    var index := ParseIndex(indexText);
    if index.None? {
      return Reject(Failed(NoIndex));
    }
    return Accept(index.value, chunk);
  }

  // -----------------------------------------------------------------------
  // The handlers as they run against the shared state
  // -----------------------------------------------------------------------

  class Server {
    const writer: UpdateWriter
    /** `bytes_written` (src/main.rs:57). */
    var bytesWritten: usize
    /** Every command sent on the channel so far, in order. */
    ghost var sent: seq<Update>

    /** Between requests the ready flag is down: only a chunk write sets
        it, and the request that sent that chunk clears it. */
    ghost predicate Valid()
      reads this, writer
    {
      !writer.ready
    }

    function Snapshot(): Sys
      reads this, writer
    {
      Sys(writer.state, bytesWritten)
    }

    constructor (otaOk: bool)
      ensures Valid() && fresh(writer)
      ensures Snapshot() == Sys(if otaOk then Idle else Dead, 0)
      ensures sent == []
    {
      writer := new UpdateWriter(otaOk);
      bytesWritten := 0;
      sent := [];
    }

    /** `send` on the channel, followed by the writer consuming the command. */
    method Send(u: Update, flashOk: bool) returns (delivered: bool)
      modifies this, writer
      ensures delivered == ChannelOpen(old(writer.state))
      ensures writer.state == (if delivered then Step(old(writer.state), u, flashOk) else old(writer.state))
      ensures writer.ready == (old(writer.ready) || (delivered && SetsReady(old(writer.state), u, flashOk)))
      ensures sent == (if delivered then old(sent) + [u] else old(sent))
      ensures bytesWritten == old(bytesWritten)
    {
      if writer.state.Dead? {
        return false;
      }
      sent := sent + [u];
      if Receiving(writer.state) {
        writer.Recv(u, flashOk);
      }
      return true;
    }

    /** The chunk handler from the index check on. */
    method HandleChecked(c: Checked, startOk: bool, writeOk: bool) returns (out: Outcome)
      requires Valid()
      modifies this, writer
      ensures Valid()
      ensures var h := ChunkChecked(old(Snapshot()), c, startOk, writeOk);
        out == h.reply && Snapshot() == h.sys && sent == old(sent) + h.emitted
    {
      if c.Reject? {
        return c.reply;
      }
      if c.index == 0 {
        var ok := Send(Start, startOk);
        if !ok {
          return Failed(ChannelClosed);
        }
      }
      if c.chunk.None? {
        return Failed(NoChunk);
      }
      var chunkLen := |c.chunk.value|;
      var ok := Send(Chunk(c.chunk.value), writeOk);
      if !ok {
        return Failed(ChannelClosed);
      }
      if !writer.ready {
        // the writer will never raise the flag: the wait never ends
        return Hang;
      }
      writer.ready := false;
      var oldTotal := bytesWritten;
      bytesWritten := WrappingAdd(bytesWritten, chunkLen);
      // oldTotal != index is only logged
      var total := bytesWritten;
      return Status(200, Decimal(total));
    }

    /** `POST /firmware/chunk` against the shared state. */
    method HandleChunk(req: Request, startOk: bool, writeOk: bool) returns (out: Outcome)
      requires Valid()
      modifies this, writer
      ensures Valid()
      ensures var h := ChunkRequest(old(Snapshot()), req, startOk, writeOk);
        out == h.reply && Snapshot() == h.sys && sent == old(sent) + h.emitted
    {
      var c := CheckChunk(req);
      out := HandleChecked(c, startOk, writeOk);
    }

    method HandleFinish(req: Request, flashOk: bool) returns (out: Outcome)
      requires Valid()
      modifies this, writer
      ensures Valid()
      ensures var h := FinishRequest(old(Snapshot()), req, flashOk);
        out == h.reply && Snapshot() == h.sys && sent == old(sent) + h.emitted
    {
      var len := AsUsize(req.contentLen.GetOr(0));
      if len > MAX_LEN {
        return TOO_BIG;
      }
      var ok := Send(Finish, flashOk);
      if !ok {
        return Failed(ChannelClosed);
      }
      return FINISH_OK;
    }
  }
}
