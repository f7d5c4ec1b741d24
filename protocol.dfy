/** The upload protocol over many requests: the two handlers run one after
    the other against the shared writer and counter. */
module Protocol {
  import opened Common
  import opened Text
  import opened Writer
  import opened Ingress

  /** One request to either endpoint, as raw HTTP input, with the outcomes
      of the flash calls the writer makes for the commands it sends. */
  datatype Post =
    | PostChunk(req: Request, startOk: bool, writeOk: bool)
    | PostFinish(req: Request, flashOk: bool)

  /** Running one request's handler against the shared state. */
  function HandlePost(sys: Sys, p: Post): Handled {
    match p
    case PostChunk(req, startOk, writeOk) => ChunkRequest(sys, req, startOk, writeOk)
    case PostFinish(req, flashOk) => FinishRequest(sys, req, flashOk)
  }

  /** The state after running the handlers for `ps` in order, and the replies. */
  function ServePosts(sys: Sys, ps: seq<Post>): (r: (Sys, seq<Outcome>))
    ensures |r.1| == |ps|
    decreases |ps|
  {
    if ps == [] then (sys, [])
    else
      var h := HandlePost(sys, ps[0]);
      var rest := ServePosts(h.sys, ps[1..]);
      (rest.0, [h.reply] + rest.1)
  }

  /** A request reduced to what its handler works out from the request
      alone, before it touches the writer or the counter: for a chunk, the
      early reply or the index and chunk (`CheckChunkRequest`); for a finish,
      whether the size guard lets it through. */
  datatype Event =
    | ChunkPost(checked: Checked, startOk: bool, writeOk: bool)
    | FinishPost(fits: bool, flashOk: bool)

  function Decode(p: Post): Event {
    match p
    case PostChunk(req, startOk, writeOk) => ChunkPost(CheckChunkRequest(req), startOk, writeOk)
    case PostFinish(req, flashOk) => FinishPost(WithinLimit(req.contentLen), flashOk)
  }

  function DecodeAll(ps: seq<Post>): (es: seq<Event>)
    ensures |es| == |ps|
    ensures forall i :: 0 <= i < |ps| ==> es[i] == Decode(ps[i])
  {
    if ps == [] then [] else [Decode(ps[0])] + DecodeAll(ps[1..])
  }

  function Handle(sys: Sys, e: Event): Handled {
    match e
    case ChunkPost(checked, startOk, writeOk) => ChunkChecked(sys, checked, startOk, writeOk)
    case FinishPost(fits, flashOk) => FinishChecked(sys, fits, flashOk)
  }

  /** The state after serving `es` in order, and the replies. */
  function Serve(sys: Sys, es: seq<Event>): (r: (Sys, seq<Outcome>))
    ensures |r.1| == |es|
    decreases |es|
  {
    if es == [] then (sys, [])
    else
      var h := Handle(sys, es[0]);
      var rest := Serve(h.sys, es[1..]);
      (rest.0, [h.reply] + rest.1)
  }

  lemma ServeCons(sys: Sys, e: Event, es: seq<Event>)
    ensures var h := Handle(sys, e);
      Serve(sys, [e] + es) == (Serve(h.sys, es).0, [h.reply] + Serve(h.sys, es).1)
  {
    assert ([e] + es)[0] == e;
    assert ([e] + es)[1..] == es;
  }

  /** Serving the requests is serving what they decode to: the decoding
      does not depend on the state, so it can be done up front. */
  lemma {:induction false} ServeDecoded(sys: Sys, ps: seq<Post>)
    ensures ServePosts(sys, ps) == Serve(sys, DecodeAll(ps))
    decreases |ps|
  {
    if ps != [] {
      var h := HandlePost(sys, ps[0]);
      assert h == Handle(sys, Decode(ps[0]));
      ServeDecoded(h.sys, ps[1..]);
      assert DecodeAll(ps) == [Decode(ps[0])] + DecodeAll(ps[1..]);
      ServeCons(sys, Decode(ps[0]), DecodeAll(ps[1..]));
    }
  }

  lemma {:induction false} ServeAppend(sys: Sys, a: seq<Event>, b: seq<Event>)
    ensures Serve(sys, a + b).0 == Serve(Serve(sys, a).0, b).0
    ensures Serve(sys, a + b).1 == Serve(sys, a).1 + Serve(Serve(sys, a).0, b).1
    decreases |a|
  {
    if a == [] {
      assert a + b == b;
    } else {
      var h := Handle(sys, a[0]);
      assert a + b == [a[0]] + (a[1..] + b);
      assert a == [a[0]] + a[1..];
      ServeCons(sys, a[0], a[1..] + b);
      ServeCons(sys, a[0], a[1..]);
      ServeAppend(h.sys, a[1..], b);
      var x := Serve(h.sys, a[1..]).1;
      var y := Serve(Serve(h.sys, a[1..]).0, b).1;
      assert [h.reply] + (x + y) == ([h.reply] + x) + y;
    }
  }

  // -----------------------------------------------------------------------
  // A dead writer is dead for good
  // -----------------------------------------------------------------------

  /** A request's early reply, if it has one, is a 413 or a failure. */
  predicate EarlyReplyFails(e: Event) {
    e.ChunkPost? && e.checked.Reject? ==> e.checked.reply == TOO_BIG || e.checked.reply.Failed?
  }

  lemma DecodedEarlyReplyFails(p: Post)
    ensures EarlyReplyFails(Decode(p))
  {
  }

  /** Once the writer has exited no request changes anything and none
      succeeds: every send fails, so a fresh index-0 upload cannot start a
      new session without a restart of the device. */
  lemma {:induction false} DeadForever(bw: usize, es: seq<Event>)
    requires forall i :: 0 <= i < |es| ==> EarlyReplyFails(es[i])
    ensures Serve(Sys(Dead, bw), es).0 == Sys(Dead, bw)
    ensures forall i :: 0 <= i < |es| ==>
      Serve(Sys(Dead, bw), es).1[i] == TOO_BIG || Serve(Sys(Dead, bw), es).1[i].Failed?
    decreases |es|
  {
    if es != [] {
      var h := Handle(Sys(Dead, bw), es[0]);
      assert h.sys == Sys(Dead, bw);
      assert EarlyReplyFails(es[0]);
      assert h.reply == TOO_BIG || h.reply.Failed?;
      DeadForever(bw, es[1..]);
      ServeCons(Sys(Dead, bw), es[0], es[1..]);
      assert es == [es[0]] + es[1..];
    }
  }

  /** An upload with a nonzero index while no session is open kills the
      writer (its `Chunk` reaches the idle loop) and hangs the request. */
  lemma UploadWithoutStartIsFatal(bw: usize, e: Event, index: usize, chunk: seq<byte>)
    requires e.ChunkPost? && e.checked == Accept(index, Some(chunk)) && index != 0
    ensures Handle(Sys(Idle, bw), e) == Handled(Sys(Dead, bw), Hang, [Chunk(chunk)])
  {
  }

  // -----------------------------------------------------------------------
  // The counter across requests
  // -----------------------------------------------------------------------

  /** The length of the chunk a request carries, if it has one. */
  function ChunkLen(e: Event): nat {
    if e.ChunkPost? && e.checked.Accept? && e.checked.chunk.Some?
    then |e.checked.chunk.value|
    else 0
  }

  /** A chunk request whose reply is 200 acknowledged its chunk. */
  predicate Acknowledged(e: Event, h: Handled) {
    e.ChunkPost? && h.reply.Status? && h.reply.code == 200
  }

  /** The total length of the chunks acknowledged while serving `es`. */
  function Acked(sys: Sys, es: seq<Event>): nat
    decreases |es|
  {
    if es == [] then 0
    else
      var h := Handle(sys, es[0]);
      (if Acknowledged(es[0], h) then ChunkLen(es[0]) else 0) + Acked(h.sys, es[1..])
  }

  lemma CounterStep(sys: Sys, e: Event)
    ensures var h := Handle(sys, e);
      h.sys.bytesWritten
        == WrappingAdd(sys.bytesWritten, if Acknowledged(e, h) then ChunkLen(e) else 0)
  {

  }

  /** The counter is never reset: after any sequence of requests, across
      aborted, dead and completed sessions alike, it is its start value plus
      the length of every acknowledged chunk, modulo 2^32. */
  lemma {:induction false} CounterAccumulates(sys: Sys, es: seq<Event>)
    ensures Serve(sys, es).0.bytesWritten == WrappingAdd(sys.bytesWritten, Acked(sys, es))
    decreases |es|
  {
    if es != [] {
      var h := Handle(sys, es[0]);
      var n := if Acknowledged(es[0], h) then ChunkLen(es[0]) else 0;
      var rest := Acked(h.sys, es[1..]);
      assert Serve(sys, es).0 == Serve(h.sys, es[1..]).0;
      assert Acked(sys, es) == n + rest;
      CounterStep(sys, es[0]);
      CounterAccumulates(h.sys, es[1..]);
      WrappingAddChain(sys.bytesWritten, h.sys.bytesWritten, Serve(sys, es).0.bytesWritten, n, rest);
    }
  }

  // -----------------------------------------------------------------------
  // Sessions
  // -----------------------------------------------------------------------

  /** A well-formed upload is handled from its index check on. */
  lemma HandleUpload(sys: Sys, e: Event, index: usize, chunk: seq<byte>)
    requires e.ChunkPost? && e.checked == Accept(index, Some(chunk))
    ensures Handle(sys, e) == ChunkAfterDecode(sys, index, Some(chunk), e.startOk, e.writeOk)
  {
  }

  lemma ServeTwo(sys: Sys, e1: Event, e2: Event)
    ensures var h1 := Handle(sys, e1);
      var h2 := Handle(h1.sys, e2);
      Serve(sys, [e1, e2]) == (h2.sys, [h1.reply, h2.reply])
  {
    var h1 := Handle(sys, e1);
    var h2 := Handle(h1.sys, e2);
    assert [e1] + [e2] == [e1, e2];
    assert [e2] + [] == [e2];
    ServeCons(sys, e1, [e2]);
    ServeCons(h1.sys, e2, []);
    assert [h2.reply] + [] == [h2.reply];
    assert [h1.reply] + [h2.reply] == [h1.reply, h2.reply];
  }

  /** The concatenation of a list of chunks. */
  function Concat(chunks: seq<seq<byte>>): seq<byte> {
    if chunks == [] then [] else chunks[0] + Concat(chunks[1..])
  }

  /** A well-formed upload with a nonzero index whose chunk is written. */
  predicate Continues(e: Event, chunk: seq<byte>) {
    && e.ChunkPost?
    && e.writeOk
    && e.checked.Accept?
    && e.checked.index != 0
    && e.checked.chunk == Some(chunk)
  }

  predicate AllContinue(es: seq<Event>, chunks: seq<seq<byte>>) {
    |es| == |chunks| && forall i :: 0 <= i < |es| ==> Continues(es[i], chunks[i])
  }

  /** One upload inside a session. */
  lemma ContinueStep(t: seq<byte>, bw: usize, e: Event, c: seq<byte>)
    requires Continues(e, c)
    ensures Handle(Sys(Active(t), bw), e)
         == Handled(Sys(Active(t + c), WrappingAdd(bw, |c|)), Status(200, Decimal(WrappingAdd(bw, |c|))), [Chunk(c)])
  {
    HandleUpload(Sys(Active(t), bw), e, e.checked.index, c);
    assert [] + [Chunk(c)] == [Chunk(c)];
  }

  lemma AllContinueTail(es: seq<Event>, chunks: seq<seq<byte>>)
    requires AllContinue(es, chunks) && es != []
    ensures Continues(es[0], chunks[0]) && AllContinue(es[1..], chunks[1..])
  {
    forall i | 0 <= i < |es| - 1 ensures Continues(es[1..][i], chunks[1..][i]) {
      assert Continues(es[i + 1], chunks[i + 1]);
    }
  }

  /** Counting two byte strings one after the other counts their concatenation. */
  lemma CountAppend(bw: usize, x: seq<byte>, y: seq<byte>)
    ensures WrappingAdd(WrappingAdd(bw, |x|), |y|) == WrappingAdd(bw, |x + y|)
  {
    WrappingAddTwice(bw, |x|, |y|);
  }

  /** `replies` acknowledge `chunks` one by one, each with the counter's
      total after that chunk, starting from `bw`. */
  predicate RunningTotals(replies: seq<Outcome>, bw: usize, chunks: seq<seq<byte>>) {
    |replies| == |chunks|
    && forall i :: 1 <= i <= |replies| ==>
         replies[i - 1] == Status(200, Decimal(WrappingAdd(bw, |Concat(chunks[..i])|)))
  }

  lemma RunningTotalsCons(bw: usize, chunks: seq<seq<byte>>, rest: seq<Outcome>)
    requires chunks != []
    requires RunningTotals(rest, WrappingAdd(bw, |chunks[0]|), chunks[1..])
    ensures RunningTotals([Status(200, Decimal(WrappingAdd(bw, |chunks[0]|)))] + rest, bw, chunks)
  {
    var c := chunks[0];
    var bw' := WrappingAdd(bw, |c|);
    var replies := [Status(200, Decimal(bw'))] + rest;
    forall i | 1 <= i <= |replies|
      ensures replies[i - 1] == Status(200, Decimal(WrappingAdd(bw, |Concat(chunks[..i])|)))
    {
      if i == 1 {
        assert chunks[..1] == [c];
        assert chunks[..1][1..] == [];
        assert Concat(chunks[..1]) == c;
      } else {
        var k := i - 1;
        assert chunks[..i][1..] == chunks[1..][..k];
        assert Concat(chunks[..i]) == c + Concat(chunks[1..][..k]);
        WrappingAddTwice(bw, |c|, |Concat(chunks[1..][..k])|);
      }
    }
  }

  /** Serving an in-session upload and then more requests: the upload is
      acknowledged with the new total and the rest are served from the
      grown update. */
  lemma ServeContinue(t: seq<byte>, bw: usize, e: Event, c: seq<byte>, tail: seq<Event>)
    requires Continues(e, c)
    ensures var bw' := WrappingAdd(bw, |c|);
      var rest := Serve(Sys(Active(t + c), bw'), tail);
      Serve(Sys(Active(t), bw), [e] + tail) == (rest.0, [Status(200, Decimal(bw'))] + rest.1)
  {
    ContinueStep(t, bw, e, c);
    ServeCons(Sys(Active(t), bw), e, tail);
  }

  /** Inside a session every further upload is appended to the open update
      and acknowledged with the running total, whatever its index says. */
  lemma {:induction false} ContinueSession(t: seq<byte>, bw: usize, es: seq<Event>, chunks: seq<seq<byte>>)
    requires AllContinue(es, chunks)
    ensures Serve(Sys(Active(t), bw), es).0
            == Sys(Active(t + Concat(chunks)), WrappingAdd(bw, |Concat(chunks)|))
    ensures RunningTotals(Serve(Sys(Active(t), bw), es).1, bw, chunks)
    decreases |es|
  {
    if es == [] {
      assert t + Concat(chunks) == t;
    } else {
      var c := chunks[0];
      var bw' := WrappingAdd(bw, |c|);
      AllContinueTail(es, chunks);
      ContinueSession(t + c, bw', es[1..], chunks[1..]);
      assert es == [es[0]] + es[1..];
      ServeContinue(t, bw, es[0], c, es[1..]);
      var rest := Serve(Sys(Active(t + c), bw'), es[1..]);
      assert Concat(chunks) == c + Concat(chunks[1..]);
      CountAppend(bw, c, Concat(chunks[1..]));
      assert t + c + Concat(chunks[1..]) == t + Concat(chunks);
      RunningTotalsCons(bw, chunks, rest.1);
    }
  }

  /** An index-0 upload to an idle writer, with both flash calls
      succeeding, opens an update holding exactly its chunk. */
  lemma OpenStep(bw: usize, e: Event, c: seq<byte>)
    requires e.ChunkPost? && e.startOk && e.writeOk && e.checked == Accept(0, Some(c))
    ensures Handle(Sys(Idle, bw), e)
         == Handled(Sys(Active(c), WrappingAdd(bw, |c|)), Status(200, Decimal(WrappingAdd(bw, |c|))), [Start, Chunk(c)])
  {
    HandleUpload(Sys(Idle, bw), e, 0, c);
    assert [] + c == c;
    assert [Start] + [Chunk(c)] == [Start, Chunk(c)];
  }

  /** An index-0 upload to an idle writer opens an update holding its
      chunk and is acknowledged with the new total; later requests are
      served from there. */
  lemma ServeOpen(bw: usize, first: Event, c0: seq<byte>, tail: seq<Event>)
    requires first.ChunkPost? && first.startOk && first.writeOk && first.checked == Accept(0, Some(c0))
    ensures var bw' := WrappingAdd(bw, |c0|);
      var rest := Serve(Sys(Active(c0), bw'), tail);
      Serve(Sys(Idle, bw), [first] + tail) == (rest.0, [Status(200, Decimal(bw'))] + rest.1)
  {
    OpenStep(bw, first, c0);
    ServeCons(Sys(Idle, bw), first, tail);
  }

  /** In-session uploads followed by a well-formed, successful finish
      request complete the update with every chunk in order. */
  lemma {:induction false} ServeClose(t: seq<byte>, bw: usize, es: seq<Event>, chunks: seq<seq<byte>>, fin: Event)
    requires AllContinue(es, chunks)
    requires fin == FinishPost(true, true)
    ensures Serve(Sys(Active(t), bw), es + [fin])
         == (Sys(Completed(t + Concat(chunks)), WrappingAdd(bw, |Concat(chunks)|)),
             Serve(Sys(Active(t), bw), es).1 + [FINISH_OK])
  {
    var s1 := Sys(Active(t), bw);
    ContinueSession(t, bw, es, chunks);
    var s2 := Serve(s1, es).0;
    assert Handle(s2, fin) == Handled(Sys(Completed(t + Concat(chunks)), s2.bytesWritten), FINISH_OK, [Finish]);
    ServeCons(s2, fin, []);
    assert [fin] + [] == [fin];
    var last := Serve(s2, [fin]);
    assert last == (Sys(Completed(t + Concat(chunks)), s2.bytesWritten), [FINISH_OK] + []);
    ServeAppend(s1, es, [fin]);
    var r := Serve(s1, es + [fin]);
    assert r.0 == last.0;
    assert r.1 == Serve(s1, es).1 + last.1;
    assert [FINISH_OK] + [] == [FINISH_OK];
  }

  /** A whole upload from an idle writer: an index-0 upload, further
      uploads, then `/firmware/finish`. The image the writer completes is
      exactly the chunks in order, every chunk is acknowledged with the
      running total and the finish request is answered "ok". */
  lemma FullSession(bw: usize, first: Event, c0: seq<byte>, es: seq<Event>, chunks: seq<seq<byte>>, fin: Event)
    requires first.ChunkPost? && first.startOk && first.writeOk && first.checked == Accept(0, Some(c0))
    requires AllContinue(es, chunks)
    requires fin == FinishPost(true, true)
    ensures var r := Serve(Sys(Idle, bw), [first] + es + [fin]);
      && r.0 == Sys(Completed(c0 + Concat(chunks)), WrappingAdd(bw, |c0 + Concat(chunks)|))
      && |r.1| == |es| + 2
      && RunningTotals(r.1[..|es| + 1], bw, [c0] + chunks)
      && r.1[|es| + 1] == FINISH_OK
  {
    var bw1 := WrappingAdd(bw, |c0|);
    var s1 := Sys(Active(c0), bw1);
    var r := Serve(Sys(Idle, bw), [first] + es + [fin]);
    var closed := Serve(s1, es + [fin]);
    var acks := Serve(s1, es).1;
    assert r == (closed.0, [Status(200, Decimal(bw1))] + closed.1) by {
      assert [first] + es + [fin] == [first] + (es + [fin]);
      ServeOpen(bw, first, c0, es + [fin]);
    }
    assert closed == (Sys(Completed(c0 + Concat(chunks)), WrappingAdd(bw1, |Concat(chunks)|)), acks + [FINISH_OK]) by {
      ServeClose(c0, bw1, es, chunks, fin);
    }
    CountAppend(bw, c0, Concat(chunks));
    assert r.0 == closed.0;
    assert r.1 == [Status(200, Decimal(bw1))] + acks + [FINISH_OK] by {
    }
    assert RunningTotals(r.1[..|es| + 1], bw, [c0] + chunks) by {
      assert r.1[..|es| + 1] == [Status(200, Decimal(bw1))] + acks;
      ContinueSession(c0, bw1, es, chunks);
      assert ([c0] + chunks)[0] == c0 && ([c0] + chunks)[1..] == chunks;
      RunningTotalsCons(bw, [c0] + chunks, acks);
    }
  }

  /** The client's protocol: index 0 first, then each upload declares the
      total acknowledged so far. With nonempty chunks totalling less than
      2^32, the counter ends at exactly the total length and the image is
      the chunks in order. */
  lemma MatchingIndices(first: Event, c0: seq<byte>, es: seq<Event>, chunks: seq<seq<byte>>, fin: Event)
    requires first.ChunkPost? && first.startOk && first.writeOk && first.checked == Accept(0, Some(c0))
    requires |c0| > 0 && |es| == |chunks|
    requires |c0 + Concat(chunks)| < USIZE_MODULUS
    requires forall i :: 0 <= i < |es| ==>
      && es[i].ChunkPost? && es[i].writeOk
      && |c0 + Concat(chunks[..i])| < USIZE_MODULUS
      && es[i].checked == Accept(|c0 + Concat(chunks[..i])|, Some(chunks[i]))
    requires fin == FinishPost(true, true)
    ensures Serve(Sys(Idle, 0), [first] + es + [fin]).0
            == Sys(Completed(c0 + Concat(chunks)), |c0 + Concat(chunks)|)
  {
    assert AllContinue(es, chunks) by {
      forall i | 0 <= i < |es| ensures Continues(es[i], chunks[i]) {
        assert |c0 + Concat(chunks[..i])| >= |c0| > 0;
      }
    }
    FullSession(0, first, c0, es, chunks, fin);
  }

  /** Why `MatchingIndices` needs a nonempty first chunk: after an empty
      index-0 upload the total is still 0, so the next upload that declares
      it has index 0 again. Its `Start` aborts the open update, its `Chunk`
      then reaches the idle writer, which exits, and the request waits for
      ever. */
  lemma EmptyFirstChunkRestarts(first: Event, e: Event, c: seq<byte>)
    requires first.ChunkPost? && first.startOk && first.writeOk && first.checked == Accept(0, Some([]))
    requires e.ChunkPost? && e.startOk && e.checked == Accept(|first.checked.chunk.value|, Some(c))
    ensures Serve(Sys(Idle, 0), [first, e]) == (Sys(Dead, 0), [Status(200, Decimal(0)), Hang])
  {
    OpenStep(0, first, []);
    assert Handle(Sys(Active([]), 0), e) == Handled(Sys(Dead, 0), Hang, [Start, Chunk(c)]);
    ServeTwo(Sys(Idle, 0), first, e);
  }

  // -----------------------------------------------------------------------
  // What the writer is sent
  // -----------------------------------------------------------------------

  /** The outcome of the flash call the writer makes for a command that the
      handler of `e` sends. */
  function FlashOutcome(e: Event, u: Update): bool {
    match e
    case ChunkPost(_, startOk, writeOk) => if u.Start? then startOk else writeOk
    case FinishPost(_, flashOk) => flashOk
  }

  function Deliveries(e: Event, sent: seq<Update>): (ds: seq<Delivery>)
    ensures |ds| == |sent|
    ensures forall i :: 0 <= i < |sent| ==> ds[i] == Delivery(sent[i], FlashOutcome(e, sent[i]))
  {
    if sent == [] then [] else [Delivery(sent[0], FlashOutcome(e, sent[0]))] + Deliveries(e, sent[1..])
  }

  /** Every command the handlers send while serving `es`, in order. */
  function Sent(sys: Sys, es: seq<Event>): seq<Delivery>
    decreases |es|
  {
    if es == [] then []
    else
      var h := Handle(sys, es[0]);
      Deliveries(es[0], h.emitted) + Sent(h.sys, es[1..])
  }

  /** One request moves the writer exactly as the thread does when it is
      sent that request's commands. */
  lemma HandleRuns(sys: Sys, e: Event)
    ensures var h := Handle(sys, e);
      h.sys.writer == Run(sys.writer, Deliveries(e, h.emitted))
  {
    var h := Handle(sys, e);
    var ds := Deliveries(e, h.emitted);
    if |ds| == 2 {
      assert ds == [ds[0]] + [ds[1]];
      RunAppend(sys.writer, [ds[0]], [ds[1]]);
      RunOne(sys.writer, ds[0]);
      RunOne(Step(sys.writer, ds[0].u, ds[0].flashOk), ds[1]);
    } else if |ds| == 1 {
      assert ds == [ds[0]];
      RunOne(sys.writer, ds[0]);
    }
  }

  /** Serving requests moves the writer as the thread does when it is sent
      all their commands in order. */
  lemma {:induction false} ServeRuns(sys: Sys, es: seq<Event>)
    ensures Serve(sys, es).0.writer == Run(sys.writer, Sent(sys, es))
    decreases |es|
  {
    if es != [] {
      var h := Handle(sys, es[0]);
      HandleRuns(sys, es[0]);
      ServeRuns(h.sys, es[1..]);
      RunAppend(sys.writer, Deliveries(es[0], h.emitted), Sent(h.sys, es[1..]));
    }
  }

  /** Whatever requests reach an idle writer, an image it completes is the
      chunks written between one `Start` and one `Finish` they sent. */
  lemma ServedImageIsSession(bw: usize, es: seq<Event>, img: seq<byte>)
    requires Serve(Sys(Idle, bw), es).0.writer == Completed(img)
    ensures exists i, j :: Session(Sent(Sys(Idle, bw), es), i, j, img)
  {
    ServeRuns(Sys(Idle, bw), es);
    IdleCompletes(Sent(Sys(Idle, bw), es), img);
  }

  // -----------------------------------------------------------------------
  // Scenarios
  // -----------------------------------------------------------------------

  /** Chunks of 4000, 4000 and 1000 bytes at indices 0, 4000 and 8000 are
      answered "4000", "8000" and "9000"; finishing answers "ok" and
      completes the image made of the three chunks. */
  lemma ThreeChunkUpload(e1: Event, e2: Event, e3: Event, fin: Event, c1: seq<byte>, c2: seq<byte>, c3: seq<byte>)
    requires |c1| == 4000 && |c2| == 4000 && |c3| == 1000
    requires e1.ChunkPost? && e1.startOk && e1.writeOk && e1.checked == Accept(0, Some(c1))
    requires e2.ChunkPost? && e2.writeOk && e2.checked == Accept(4000, Some(c2))
    requires e3.ChunkPost? && e3.writeOk && e3.checked == Accept(8000, Some(c3))
    requires fin == FinishPost(true, true)
    ensures Serve(Sys(Idle, 0), [e1, e2, e3, fin])
         == (Sys(Completed(c1 + c2 + c3), 9000),
             [Status(200, "4000"), Status(200, "8000"), Status(200, "9000"), FINISH_OK])
  {
    var chunks := [c2, c3];
    assert AllContinue([e2, e3], chunks) by {
      assert Continues(e2, c2) && Continues(e3, c3);
    }
    FullSession(0, e1, c1, [e2, e3], chunks, fin);
    assert [e1] + [e2, e3] + [fin] == [e1, e2, e3, fin];
    assert [c1] + chunks == [c1, c2, c3];
    ThreeTotals(Serve(Sys(Idle, 0), [e1, e2, e3, fin]), c1, c2, c3);
  }

  /** The outcome of the three-chunk upload, from the session facts alone. */
  lemma ThreeTotals(r: (Sys, seq<Outcome>), c1: seq<byte>, c2: seq<byte>, c3: seq<byte>)
    requires |c1| == 4000 && |c2| == 4000 && |c3| == 1000
    requires r.0 == Sys(Completed(c1 + Concat([c2, c3])), WrappingAdd(0, |c1 + Concat([c2, c3])|))
    requires |r.1| == 4 && RunningTotals(r.1[..3], 0, [c1, c2, c3]) && r.1[3] == FINISH_OK
    ensures r == (Sys(Completed(c1 + c2 + c3), 9000),
                  [Status(200, "4000"), Status(200, "8000"), Status(200, "9000"), FINISH_OK])
  {
    var all := [c1, c2, c3];
    var acks := r.1[..3];
    ConcatSmall(c1, c2, c3);
    assert all[..1] == [c1] && all[..2] == [c1, c2] && all[..3] == all;
    assert r.1[0] == acks[0] && r.1[1] == acks[1] && r.1[2] == acks[2];
    DecimalExamples();
    assert r.1 == [r.1[0], r.1[1], r.1[2], r.1[3]];
  }

  lemma ConcatSmall(a: seq<byte>, b: seq<byte>, c: seq<byte>)
    ensures Concat([a]) == a && Concat([a, b]) == a + b && Concat([b, c]) == b + c
    ensures Concat([a, b, c]) == a + b + c
  {
    assert Concat([c]) == c by { assert [c][1..] == []; }
    assert Concat([b]) == b by { assert [b][1..] == []; }
    assert Concat([a]) == a by { assert [a][1..] == []; }
    assert Concat([b, c]) == b + c by { assert [b, c][1..] == [c]; }
    assert Concat([a, b]) == a + b by { assert [a, b][1..] == [b]; }
    assert [a, b, c][1..] == [b, c];
  }

  /** An oversized index-0 request is refused with 413 and changes nothing,
      so a following well-formed index-0 upload opens a fresh session. */
  lemma OversizedThenFresh(bw: usize, big: Post, e: Event, c: seq<byte>)
    requires big.PostChunk? && big.req.contentLen.Some?
    requires MAX_LEN < big.req.contentLen.value < USIZE_MODULUS
    requires e.ChunkPost? && e.startOk && e.writeOk && e.checked == Accept(0, Some(c))
    ensures Serve(Sys(Idle, bw), [Decode(big), e])
         == (Sys(Active(c), WrappingAdd(bw, |c|)), [TOO_BIG, Status(200, Decimal(WrappingAdd(bw, |c|)))])
  {
    var sys := Sys(Idle, bw);
    OversizedIsRejected(sys, big.req, big.startOk, big.writeOk);
    assert Handle(sys, Decode(big)) == Handled(sys, TOO_BIG, []);
    OpenStep(bw, e, c);
    ServeTwo(sys, Decode(big), e);
  }

  /** The one way back into a session after a `Start` abort without killing
      the writer: an index-0 request with no chunk aborts the open update
      and fails, leaving the writer idle, and the next index-0 upload then
      opens a fresh update holding only its own chunk. */
  lemma AbortByChunklessRequest(t: seq<byte>, bw: usize, bare: Event, e: Event, c: seq<byte>)
    requires bare.ChunkPost? && bare.startOk && bare.checked == Accept(0, None)
    requires e.ChunkPost? && e.startOk && e.writeOk && e.checked == Accept(0, Some(c))
    ensures Serve(Sys(Active(t), bw), [bare, e])
         == (Sys(Active(c), WrappingAdd(bw, |c|)), [Failed(NoChunk), Status(200, Decimal(WrappingAdd(bw, |c|)))])
  {
    var sys := Sys(Active(t), bw);
    assert Handle(sys, bare) == Handled(Sys(Idle, bw), Failed(NoChunk), [Start]);
    OpenStep(bw, e, c);
    ServeTwo(sys, bare, e);
  }
}
