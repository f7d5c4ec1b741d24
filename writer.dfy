/** The update writer: the background thread of src/main.rs:67-105 that
    owns the flash handle and consumes `Update` commands in channel order.
    The outer `while let` loop is the `Idle` state and the inner one the
    `Active` state, which holds an initiated update. */
module Writer {
  import opened Common

  /** `enum Update` (src/main.rs:32-36). */
  datatype Update = Start | Chunk(payload: seq<byte>) | Finish

  datatype WriterState =
    | Idle                         // outer loop: waiting for `Start`
    | Active(target: seq<byte>)    // inner loop: the bytes written to the open update
    | Completed(image: seq<byte>)  // `complete()` succeeded and `restart()` never returns
    | Dead                         // the thread's closure returned; its receiver is gone

  /** The thread is blocked in one of its two `recv()` calls. */
  predicate Receiving(s: WriterState) {
    s.Idle? || s.Active?
  }

  /** A `send` succeeds exactly while the receiver is alive. In `Completed`
      the thread sits inside `restart()`, so sends are queued and never read. */
  predicate ChannelOpen(s: WriterState) {
    !s.Dead?
  }

  /** The state after the thread consumes `u`. `flashOk` is the outcome of
      the one flash call the command makes, if any: `initiate_update` for
      `Start` in `Idle`, `abort` for `Start` in `Active`, `write` for
      `Chunk` and `complete` for `Finish`. Every failing call is propagated
      by `?` and ends the thread. */
  function Step(s: WriterState, u: Update, flashOk: bool): (r: WriterState)
    ensures !Receiving(s) ==> r == s
    ensures Receiving(s) && !flashOk ==> r == Dead
    ensures s.Idle? && !u.Start? ==> r == Dead
    ensures r.Idle? ==> s.Active? && u.Start? && flashOk
    ensures r.Active? ==> (s.Idle? && u.Start? && r.target == [])
                          || (s.Active? && u.Chunk? && r.target == s.target + u.payload)
    ensures r.Completed? ==> r == s || (s == Active(r.image) && u.Finish? && flashOk)
  {
    match s
    case Idle =>
      if u.Start? && flashOk then Active([]) else Dead
    case Active(t) =>
      if !flashOk then Dead
      else (
        match u
        case Chunk(p) => Active(t + p)
        case Finish => Completed(t)
        case Start => Idle)
    case _ => s
  }

  /** The writer sets the shared ready flag exactly when it writes a chunk
      to an open update and the write succeeds. */
  predicate SetsReady(s: WriterState, u: Update, flashOk: bool) {
    s.Active? && u.Chunk? && flashOk
  }

  class UpdateWriter {
    var state: WriterState
    /** The `Mutex<bool>` of src/main.rs:62: set here, cleared by the chunk handler. */
    var ready: bool

    /** `EspOta::new()?` at the top of the thread; a failure ends it at once. */
    constructor (otaOk: bool)
      ensures state == (if otaOk then Idle else Dead)
      ensures !ready
    {
      state := if otaOk then Idle else Dead;
      ready := false;
    }

    method RecvStart(flashOk: bool)
      requires Receiving(state)
      modifies this
      ensures old(state).Idle? ==> state == (if flashOk then Active([]) else Dead)
      ensures old(state).Active? ==> state == (if flashOk then Idle else Dead)
      ensures ready == old(ready)
    {
      if state.Idle? {
        // initiate_update()?
        state := if flashOk then Active([]) else Dead;
      } else {
        // the open update is aborted, its bytes are never completed, and
        // the thread falls back to the outer loop; this Start is consumed
        state := if flashOk then Idle else Dead;
      }
    }

    method RecvChunk(payload: seq<byte>, flashOk: bool)
      requires Receiving(state)
      modifies this
      ensures old(state).Idle? ==> state == Dead
      ensures old(state).Active? ==>
        state == (if flashOk then Active(old(state).target + payload) else Dead)
      ensures ready == (old(ready) || (old(state).Active? && flashOk))
    {
      if state.Idle? {
        // no update is open: `_ => break` ends the thread for good
        state := Dead;
      } else if flashOk {
        state := Active(state.target + payload);
        ready := true;
      } else {
        // write()? fails while the lock is held; the flag is left alone
        state := Dead;
      }
    }

    method RecvFinish(flashOk: bool)
      requires Receiving(state)
      modifies this
      ensures old(state).Idle? ==> state == Dead
      ensures old(state).Active? ==>
        state == (if flashOk then Completed(old(state).target) else Dead)
      ensures ready == old(ready)
    {
      if state.Idle? {
        state := Dead;
      } else {
        // complete()? and then restart(), which does not return
        state := if flashOk then Completed(state.target) else Dead;
      }
    }

    /** One iteration of whichever loop the thread is in. */
    method Recv(u: Update, flashOk: bool)
      requires Receiving(state)
      modifies this
      ensures state == Step(old(state), u, flashOk)
      ensures ready == (old(ready) || SetsReady(old(state), u, flashOk))
    {
      match u
      case Start => RecvStart(flashOk);
      case Chunk(p) => RecvChunk(p, flashOk);
      case Finish => RecvFinish(flashOk);
    }
  }

  // -----------------------------------------------------------------------
  // Runs of the thread over a sequence of commands
  // -----------------------------------------------------------------------

  /** A command as the thread receives it, with the outcome of its flash call. */
  datatype Delivery = Delivery(u: Update, flashOk: bool)

  /** The state after the thread has been sent `ds` in order. Once it is no
      longer receiving, the remaining commands are never consumed. */
  function Run(s: WriterState, ds: seq<Delivery>): (r: WriterState)
    ensures !Receiving(s) ==> r == s
    ensures r.Completed? && !s.Completed? ==> exists i :: 0 <= i < |ds| && ds[i] == Delivery(Finish, true)
    decreases |ds|
  {
    if ds == [] || !Receiving(s) then s
    else
      var r := Run(Step(s, ds[0].u, ds[0].flashOk), ds[1..]);
      assert r.Completed? && !Step(s, ds[0].u, ds[0].flashOk).Completed? ==>
        exists i :: 1 <= i < |ds| && ds[i] == Delivery(Finish, true) by {
        if r.Completed? && !Step(s, ds[0].u, ds[0].flashOk).Completed? {
          var i :| 0 <= i < |ds[1..]| && ds[1..][i] == Delivery(Finish, true);
          assert ds[i + 1] == Delivery(Finish, true);
        }
      }
      r
  }

  predicate OkChunks(ds: seq<Delivery>) {
    forall i :: 0 <= i < |ds| ==> ds[i].u.Chunk? && ds[i].flashOk
  }

  /** The bytes carried by the `Chunk` commands of `ds`, in order. */
  function Payloads(ds: seq<Delivery>): seq<byte> {
    if ds == [] then []
    else (if ds[0].u.Chunk? then ds[0].u.payload else []) + Payloads(ds[1..])
  }

  /** Sending one command is one step. */
  lemma RunOne(s: WriterState, d: Delivery)
    ensures Run(s, [d]) == Step(s, d.u, d.flashOk)
  {
    assert [d][1..] == [];
  }

  lemma {:induction false} RunAppend(s: WriterState, a: seq<Delivery>, b: seq<Delivery>)
    ensures Run(s, a + b) == Run(Run(s, a), b)
    decreases |a|
  {
    if a == [] {
      assert a + b == b;
    } else if Receiving(s) {
      assert (a + b)[1..] == a[1..] + b;
      RunAppend(Step(s, a[0].u, a[0].flashOk), a[1..], b);
    }
  }

  /** Chunks written to an open update are appended to it, in order. */
  lemma {:induction false} ChunksAppend(t: seq<byte>, ds: seq<Delivery>)
    requires OkChunks(ds)
    ensures Run(Active(t), ds) == Active(t + Payloads(ds))
    decreases |ds|
  {
    if ds != [] {
      ChunksAppend(t + ds[0].u.payload, ds[1..]);
    }
  }

  /** A session opened from `Idle`, fed chunks and finished completes an
      image made of exactly those chunks. */
  lemma SessionImage(chunks: seq<Delivery>)
    requires OkChunks(chunks)
    ensures Run(Idle, [Delivery(Start, true)] + chunks + [Delivery(Finish, true)])
            == Completed(Payloads(chunks))
  {
    var ds := [Delivery(Start, true)] + chunks + [Delivery(Finish, true)];
    assert ds == [Delivery(Start, true)] + (chunks + [Delivery(Finish, true)]);
    RunAppend(Active([]), chunks, [Delivery(Finish, true)]);
    ChunksAppend([], chunks);
  }

  /** A command other than `Start` in `Idle` ends the thread, and nothing
      sent afterwards, not even a fresh `Start`, is ever consumed. */
  lemma OutOfSessionIsFatal(u: Update, flashOk: bool, rest: seq<Delivery>)
    requires !u.Start?
    ensures Run(Idle, [Delivery(u, flashOk)] + rest) == Dead
  {
    assert ([Delivery(u, flashOk)] + rest)[1..] == rest;
  }

  /** A `Start` inside a session aborts it and is consumed, so the next
      command must be another `Start`: a `Chunk` there ends the thread. */
  lemma RestartWithChunkIsFatal(t: seq<byte>, p: seq<byte>, abortOk: bool, writeOk: bool)
    ensures Run(Active(t), [Delivery(Start, abortOk), Delivery(Chunk(p), writeOk)]) == Dead
  {
    var ds := [Delivery(Start, abortOk), Delivery(Chunk(p), writeOk)];
    var rest := [Delivery(Chunk(p), writeOk)];
    assert ds[1..] == rest && rest[1..] == [];
    var mid := Step(Active(t), Start, abortOk);
    assert Run(Active(t), ds) == Run(mid, rest);
    if mid.Idle? {
      assert Run(mid, rest) == Run(Dead, []);
    }
  }

  /** After an abort the old bytes are gone: a second `Start` opens a fresh,
      empty update and the finished image holds only the new chunks. */
  lemma AbortDiscards(t: seq<byte>, chunks: seq<Delivery>)
    requires OkChunks(chunks)
    ensures Run(Active(t), [Delivery(Start, true), Delivery(Start, true)] + chunks + [Delivery(Finish, true)])
            == Completed(Payloads(chunks))
  {
    var tail := [Delivery(Start, true)] + chunks + [Delivery(Finish, true)];
    assert [Delivery(Start, true), Delivery(Start, true)] + chunks + [Delivery(Finish, true)]
        == [Delivery(Start, true)] + tail;
    SessionImage(chunks);
  }

  // -----------------------------------------------------------------------
  // Every completed image is the content of one session
  // -----------------------------------------------------------------------

  /** `ds[j]` finishes the update that was already open, holding `t`. */
  ghost predicate FinishesOpen(ds: seq<Delivery>, t: seq<byte>, j: int, img: seq<byte>) {
    0 <= j < |ds| && OkChunks(ds[..j]) && ds[j] == Delivery(Finish, true)
    && img == t + Payloads(ds[..j])
  }

  /** `ds[i]` opens an update, `ds[j]` completes it, and only successfully
      written chunks lie between them. */
  ghost predicate Session(ds: seq<Delivery>, i: int, j: int, img: seq<byte>) {
    0 <= i < j < |ds| && ds[i] == Delivery(Start, true) && ds[j] == Delivery(Finish, true)
    && OkChunks(ds[i + 1..j]) && img == Payloads(ds[i + 1..j])
  }

  lemma PayloadsCons(ds: seq<Delivery>, j: nat)
    requires 0 < j <= |ds|
    ensures Payloads(ds[..j]) == (if ds[0].u.Chunk? then ds[0].u.payload else []) + Payloads(ds[1..][..j - 1])
  {
    assert ds[..j][1..] == ds[1..][..j - 1];
  }

  /** A session found after the first command is a session of the whole run. */
  lemma SessionShift(ds: seq<Delivery>, i: int, j: int, img: seq<byte>)
    requires |ds| > 0 && Session(ds[1..], i, j, img)
    ensures Session(ds, i + 1, j + 1, img)
  {
    assert ds[i + 2..j + 1] == ds[1..][i + 1..j];
  }

  /** A successful chunk in front of an open update that is finished later. */
  lemma FinishesShift(ds: seq<Delivery>, t: seq<byte>, j: int, img: seq<byte>)
    requires |ds| > 0 && ds[0].u.Chunk? && ds[0].flashOk
    requires FinishesOpen(ds[1..], t + ds[0].u.payload, j, img)
    ensures FinishesOpen(ds, t, j + 1, img)
  {
    PayloadsCons(ds, j + 1);
    assert ds[..j + 1][1..] == ds[1..][..j];
    assert ds[..j + 1] == [ds[0]] + ds[1..][..j];
  }

  lemma {:induction false} ActiveCompletes(t: seq<byte>, ds: seq<Delivery>, img: seq<byte>)
    requires Run(Active(t), ds) == Completed(img)
    ensures (exists j :: FinishesOpen(ds, t, j, img)) || (exists i, j :: Session(ds, i, j, img))
    decreases |ds|, 1
  {
    var d := ds[0];
    var next := Step(Active(t), d.u, d.flashOk);
    assert Run(next, ds[1..]) == Completed(img);
    if next.Active? {
      assert d.u.Chunk? && d.flashOk && next.target == t + d.u.payload;
      ActiveCompletes(next.target, ds[1..], img);
      if j :| FinishesOpen(ds[1..], next.target, j, img) {
        FinishesShift(ds, t, j, img);
      } else {
        var i, j :| Session(ds[1..], i, j, img);
        SessionShift(ds, i, j, img);
      }
    } else if next.Completed? {
      assert FinishesOpen(ds, t, 0, img);
    } else if next.Idle? {
      IdleCompletes(ds[1..], img);
      var i, j :| Session(ds[1..], i, j, img);
      SessionShift(ds, i, j, img);
    }
  }

  /** Whatever the thread is sent after it starts idle, an image it
      completes is the concatenation of the chunks of one session. */
  lemma {:induction false} IdleCompletes(ds: seq<Delivery>, img: seq<byte>)
    requires Run(Idle, ds) == Completed(img)
    ensures exists i, j :: Session(ds, i, j, img)
    decreases |ds|, 0
  {
    var d := ds[0];
    assert d == Delivery(Start, true);
    assert Run(Active([]), ds[1..]) == Completed(img);
    ActiveCompletes([], ds[1..], img);
    if j :| FinishesOpen(ds[1..], [], j, img) {
      assert ds[1..j + 1] == ds[1..][..j];
      assert Session(ds, 0, j + 1, img);
    } else {
      var i, j :| Session(ds[1..], i, j, img);
      SessionShift(ds, i, j, img);
    }
  }
}
