/**
 The background rewrite of the append only file: a server keeps feeding its log
 while a child writes a snapshot; the bytes fed since the fork travel to the
 child through a pipe until a '!' handshake stops the sending, and the rest is
 appended by the server at the end.
 */
module AofRewrite {
  import opened Octets
  import opened AofBuffer

  /** Where the child stands in rewriteAppendOnlyFile. */
  datatype Phase =
    | Writing               // writes the snapshot, reads differences from time to time
    | Asked                 // sent '!' and waits for the answer
    | Acked                 // got the answer; reads the final difference
    | Finished(file: ByteString) // appended the difference to the file and exited with 0
    | Failed                // exited with an error or was killed

  /** A rewrite in progress: the three pipes and the two processes' shares of it. */
  datatype Rewrite = Rewrite(snapshot: ByteString, pipe: ByteString, stop: bool, listening: bool, asks: nat, acks: nat,
                             phase: Phase, diff: ByteString)

  /** The log file (with what still waits in aof_buf), the rewrite buffer, the rewrite if a child runs. */
  datatype Server = Idle(log: ByteString, buffer: ByteString) | Busy(log: ByteString, buffer: ByteString, rw: Rewrite)

  datatype Step =
    | Fork(snapshot: ByteString)
    | Feed(bytes: ByteString)
    | Send(n: nat)         // the pipe takes n bytes
    | Read(n: nat)         // the child reads n bytes
    | Ask
    | Answer(sent: bool)   // the server sees '!'; its answer may get lost
    | SeeAnswer
    | Finish
    | Fail
    | Done(written: bool)  // the server collects the child; the writes may fail
    | Stop                 // the log is switched off: the child is killed

  ghost predicate Enabled(s: Server, e: Step) {
    match e
    case Fork(_) => s.Idle?
    case Feed(_) => true
    case Send(n) => s.Busy? && !s.rw.stop && n <= |s.buffer|
    case Read(n) => s.Busy? && (s.rw.phase == Writing || s.rw.phase == Acked) && n <= |s.rw.pipe|
    case Ask => s.Busy? && s.rw.phase == Writing
    case Answer(_) => s.Busy? && s.rw.listening && s.rw.asks > 0
    case SeeAnswer => s.Busy? && s.rw.phase == Asked && s.rw.acks > 0
    case Finish => s.Busy? && s.rw.phase == Acked && s.rw.pipe == []
    case Fail => s.Busy? && !s.rw.phase.Finished?
    case Done(_) => s.Busy? && (s.rw.phase.Finished? || s.rw.phase.Failed?)
    case Stop => s.Busy?
  }

  function Apply(s: Server, e: Step): Server
    requires Enabled(s, e)
  {
    match e
    case Fork(snapshot) => Busy(s.log, s.buffer, Rewrite(snapshot, [], false, true, 0, 0, Writing, []))
    case Feed(b) => s.(log := s.log + b, buffer := if s.Busy? then s.buffer + b else s.buffer)
    case Send(n) => s.(buffer := s.buffer[n..], rw := s.rw.(pipe := s.rw.pipe + s.buffer[..n]))
    case Read(n) => s.(rw := s.rw.(diff := s.rw.diff + s.rw.pipe[..n], pipe := s.rw.pipe[n..]))
    case Ask => s.(rw := s.rw.(phase := Asked, asks := s.rw.asks + 1))
    case Answer(sent) =>
      s.(rw := s.rw.(stop := true, listening := false, asks := s.rw.asks - 1, acks := s.rw.acks + if sent then 1 else 0))
    case SeeAnswer => s.(rw := s.rw.(phase := Acked, acks := s.rw.acks - 1))
    case Finish => s.(rw := s.rw.(phase := Finished(s.rw.snapshot + s.rw.diff)))
    case Fail => s.(rw := s.rw.(phase := Failed))
    case Done(written) =>
      if s.rw.phase.Finished? && written then Idle(s.rw.phase.file + s.buffer, []) else Idle(s.log, [])
    case Stop => Idle(s.log, [])
  }

  /** Every step of the run is enabled in the state that the steps before it lead to. */
  ghost predicate Legal(log: ByteString, run: seq<Step>)
    decreases |run|, 0
  {
    run != [] ==> Legal(log, run[..|run| - 1]) && Enabled(After(log, run[..|run| - 1]), run[|run| - 1])
  }

  /** The state that a run leads to, from a server without a rewrite. */
  ghost function After(log: ByteString, run: seq<Step>): Server
    requires Legal(log, run)
    decreases |run|, 1
  {
    if run == [] then Idle(log, []) else Apply(After(log, run[..|run| - 1]), run[|run| - 1])
  }

  /** What was fed since the last fork of a run, in order. */
  function FedSinceFork(run: seq<Step>): ByteString {
    if run == [] then []
    else
      var e, before := run[|run| - 1], run[..|run| - 1];
      match e
      case Fork(_) => []
      case Feed(b) => FedSinceFork(before) + b
      case _ => FedSinceFork(before)
  }

  function LastSnapshot(run: seq<Step>): ByteString {
    if run == [] then []
    else if run[|run| - 1].Fork? then run[|run| - 1].snapshot
    else LastSnapshot(run[..|run| - 1])
  }

  /** Each byte fed since the fork is in exactly one place, and the places are in order. */
  ghost predicate Conserved(rw: Rewrite, buffer: ByteString, fed: ByteString) {
    && rw.diff + rw.pipe + buffer == fed
    && (rw.acks > 0 || rw.phase == Acked || rw.phase.Finished? ==> rw.stop)
    && (rw.phase.Finished? ==> rw.pipe == [] && rw.phase.file == rw.snapshot + rw.diff)
    && rw.asks + rw.acks <= 1
    && (rw.phase == Writing ==> rw.asks == 0 && rw.acks == 0 && rw.listening && !rw.stop)
  }

  ghost predicate Inv(s: Server, run: seq<Step>) {
    match s
    case Idle(_, buffer) => buffer == []
    case Busy(_, buffer, rw) => rw.snapshot == LastSnapshot(run) && Conserved(rw, buffer, FedSinceFork(run))
  }

  lemma StepConserves(s: Server, run: seq<Step>, e: Step)
    requires Inv(s, run) && Enabled(s, e)
    ensures Inv(Apply(s, e), run + [e])
  {
    var r := run + [e];
    assert r[..|r| - 1] == run && r[|r| - 1] == e;
    var fed := FedSinceFork(run);
    if s.Busy? {
      assert s.rw.diff + s.rw.pipe + s.buffer == fed;
      match e
      case Feed(b) => assert s.rw.diff + s.rw.pipe + (s.buffer + b) == fed + b;
      case Send(n) =>
        assert s.rw.diff + (s.rw.pipe + s.buffer[..n]) + s.buffer[n..] == fed by { assert s.buffer == s.buffer[..n] + s.buffer[n..]; }
      case Read(n) =>
        assert s.rw.diff + s.rw.pipe[..n] + s.rw.pipe[n..] + s.buffer == fed by { assert s.rw.pipe == s.rw.pipe[..n] + s.rw.pipe[n..]; }
      case _ =>
    }
  }

  /** The invariant holds in every state of every run. */
  lemma {:induction false} RunConserves(log: ByteString, run: seq<Step>)
    requires Legal(log, run)
    ensures Inv(After(log, run), run)
  {
    if run != [] {
      var before, e := run[..|run| - 1], run[|run| - 1];
      RunConserves(log, before);
      StepConserves(After(log, before), before, e);
      assert run == before + [e];
    }
  }

  /**
   Whenever a rewrite succeeds, however feeds, partial writes, reads and the
   handshake were interleaved, the new log is the snapshot followed by exactly
   the bytes fed since the fork: what the child took, then the residual buffer.
   */
  lemma RewriteConservation(log: ByteString, run: seq<Step>)
    requires Legal(log, run)
    requires After(log, run).Busy? && After(log, run).rw.phase.Finished?
    ensures var s := After(log, run);
            && Apply(s, Done(true)).log == LastSnapshot(run) + FedSinceFork(run)
            && s.rw.diff + s.buffer == FedSinceFork(run)
  {
    RunConserves(log, run);
    hide Legal, After, LastSnapshot, FedSinceFork;
    var s := After(log, run);
    assert s.rw.diff + [] + s.buffer == s.rw.diff + s.buffer;
    assert LastSnapshot(run) + s.rw.diff + s.buffer == LastSnapshot(run) + (s.rw.diff + s.buffer);
  }

  // ----- the log over a whole run -----

  /** The step makes the server switch to a rewritten log. */
  ghost predicate Switches(s: Server, e: Step) {
    e.Done? && e.written && s.Busy? && s.rw.phase.Finished?
  }

  /**
   The log that a run should leave: the last rewrite that succeeded stands for
   all that came before its fork, and nothing fed after that fork is missing.
   */
  ghost function ExpectedLog(log: ByteString, run: seq<Step>): ByteString
    requires Legal(log, run)
  {
    if run == [] then log
    else
      var before, e := run[..|run| - 1], run[|run| - 1];
      if Switches(After(log, before), e) then LastSnapshot(before) + FedSinceFork(before)
      else ExpectedLog(log, before) + if e.Feed? then e.bytes else []
  }

  lemma {:induction false} LogIsExpected(log: ByteString, run: seq<Step>)
    requires Legal(log, run)
    ensures After(log, run).log == ExpectedLog(log, run)
  {
    if run != [] {
      var before, e := run[..|run| - 1], run[|run| - 1];
      LogIsExpected(log, before);
      if Switches(After(log, before), e) {
        RewriteConservation(log, before);
      }
    }
  }

  /** A rewrite that failed or was killed leaves nothing behind: the next one starts empty. */
  lemma NextRewriteStartsEmpty(log: ByteString, run: seq<Step>, snapshot: ByteString)
    requires Legal(log, run) && After(log, run).Idle?
    ensures var t := Apply(After(log, run), Fork(snapshot));
            t.buffer == [] && t.rw.pipe == [] && t.rw.diff == []
  {
    RunConserves(log, run);
  }

  /** Once the child saw the answer, no byte enters the pipe any more. */
  lemma NothingSentAfterAnswer(log: ByteString, run: seq<Step>, n: nat)
    requires Legal(log, run)
    requires After(log, run).Busy? && (After(log, run).rw.phase == Acked || After(log, run).rw.phase.Finished?)
    ensures !Enabled(After(log, run), Send(n))
  {
    RunConserves(log, run);
  }

  /** Once the server saw the '!', it sends no more and answers no second one, whether its answer arrives or not. */
  lemma AnswerStopsSending(s: Server, sent: bool, n: nat, again: bool)
    requires Enabled(s, Answer(sent))
    ensures var t := Apply(s, Answer(sent)); !Enabled(t, Send(n)) && !Enabled(t, Answer(again)) && t.buffer == s.buffer
  {
  }

  /** aofReadDiffFromParent: reads pieces of at most 65536 bytes until the pipe is empty. */
  method ReadDiffFromParent(pipe: ByteString, diff: ByteString, sizes: nat -> nat) returns (rest: ByteString, total: ByteString, nread: nat)
    ensures rest == [] && total == diff + pipe && nread == |pipe|
  {
    rest, total, nread := pipe, diff, 0;
    while rest != []
      invariant total + rest == diff + pipe && nread + |rest| == |pipe|
      decreases |rest|
    {
      var limit := if 1 <= sizes(nread) <= 65536 then sizes(nread) else 65536;
      var n := if limit < |rest| then limit else |rest|;
      assert rest == rest[..n] + rest[n..];
      total, rest, nread := total + rest[..n], rest[n..], nread + n;
    }
  }

  /** The server's side of a rewrite, over the blocks of the rewrite buffer. */
  class LogServer {
    var log: ByteString
    var buffer: RewriteBuffer
    var busy: bool
    var rw: Rewrite

    ghost function Footprint(): set<object>
      reads this, buffer
    {
      {buffer} + buffer.Objects()
    }

    ghost predicate Valid()
      reads this, Footprint()
    {
      this !in Footprint() && buffer.Valid()
    }

    /** The state of the protocol. */
    ghost function Model(): Server
      requires Valid()
      reads this, Footprint()
    {
      if busy then Busy(log, buffer.Contents(), rw) else Idle(log, buffer.Contents())
    }

    constructor (log: ByteString)
      ensures Valid() && Model() == Idle(log, [])
    {
      this.log := log;
      buffer := new RewriteBuffer();
      busy := false;
    }

    /** The end of feedAppendOnlyFile. */
    method FeedLog(bytes: ByteString)
      requires Valid()
      modifies this, Footprint()
      ensures Valid() && Enabled(old(Model()), Feed(bytes)) && Model() == Apply(old(Model()), Feed(bytes))
    {
      hide RewriteBuffer.Contents, RewriteBuffer.Valid;
      log := log + bytes;
      if busy {
        buffer.Append(bytes);
      }
    }

    /** The pipe got writable: sends what it accepts. */
    method PipeWritable(accepted: seq<nat>)
      requires Valid() && busy
      modifies this, Footprint()
      ensures Valid()
      ensures old(!rw.stop && buffer.Contents() != []) && accepted != [] && accepted[0] > 0 ==> |rw.pipe| > |old(rw.pipe)|
      ensures Model() == old(Model()) || exists n :: Enabled(old(Model()), Send(n)) && Model() == Apply(old(Model()), Send(n))
    {
      hide RewriteBuffer.Contents, RewriteBuffer.Valid;
      ghost var before, unsent := Model(), buffer.Contents();
      var sent := buffer.SendToChild(rw.stop, accepted);
      if !rw.stop {
        rw := rw.(pipe := rw.pipe + sent);
        assert sent == unsent[..|sent|] && buffer.Contents() == unsent[|sent|..];
        assert Enabled(before, Send(|sent|)) && Model() == Apply(before, Send(|sent|));
      } else {
        assert unsent == [] + buffer.Contents();
        assert unsent == buffer.Contents();
      }
    }

    /** The child exited: appends the residual buffer to its file and switches to it. */
    method RewriteDone(taken: seq<nat>)
      requires Valid() && busy && (rw.phase.Finished? || rw.phase.Failed?) && |taken| == |buffer.blocks|
      modifies this
      ensures Valid() && Footprint() !! old(Footprint())
      ensures exists written :: Enabled(old(Model()), Done(written)) && Model() == Apply(old(Model()), Done(written))
      ensures old(rw.phase.Finished? && forall i :: 0 <= i < |buffer.blocks| ==> buffer.blocks[i].used <= taken[i]) ==>
                Enabled(old(Model()), Done(true)) && Model() == Apply(old(Model()), Done(true))
    {
      hide RewriteBuffer.Contents, RewriteBuffer.Valid;
      ghost var before := Model();
      var ok := false;
      if rw.phase.Finished? {
        var residual;
        ok, residual := buffer.WriteTo(taken);
        if ok {
          log := rw.phase.file + residual;
        }
      }
      buffer := new RewriteBuffer();
      busy := false;
      assert Enabled(before, Done(ok)) && Model() == Apply(before, Done(ok));
    }
  }
}
