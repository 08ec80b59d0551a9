// The background-job protocol shared by both editors' publish, pull and push
// handlers: the handler answers with the job's stream key at once, and the
// job writes its log lines to the key's hub stream and always closes that
// stream when it ends, whether it succeeded or failed.
//
// The job runs in a goroutine in the source; here it runs to completion
// before the handler's reply is returned, which is the only order the hub can
// observe once the goroutine is done.  The logger's line encoding is the
// `encode` parameter, the job's own output lines are `output`, and the failure
// flags of the individual socket writes are `fails`.
module EditorJobs {
  import opened WsHub

  datatype JobOutcome = Succeeded(elapsed: string) | Failed(reason: string)

  /** The message the job logs last: "<name> success in <elapsed>" or "<name> fail: <reason>". */
  function OutcomeMessage(name: string, o: JobOutcome): (r: string) {
    match o
    case Succeeded(e) => name + " success in " + e
    case Failed(r) => name + " fail: " + r
  }

  /** Everything a job streams, in order: its start line, its own output, its outcome line. */
  function JobLines(name: string, encode: string -> string, output: seq<string>, o: JobOutcome): (r: seq<string>) {
    [encode("start " + name)] + output + [encode(OutcomeMessage(name, o))]
  }

  lemma JobLinesShape(name: string, encode: string -> string, output: seq<string>, o: JobOutcome)
    ensures var r := JobLines(name, encode, output, o);
      |r| == |output| + 2 && r[0] == encode("start " + name)
      && r[1..|r| - 1] == output && r[|r| - 1] == encode(OutcomeMessage(name, o))
  {
    var r := JobLines(name, encode, output, o);
    assert r[1..|r| - 1] == output;
  }

  /** The hub after a job under `key` streamed `lines` and closed the key. */
  function AfterJob(h: State, key: string, lines: seq<string>): (r: State) {
    CloseStep(SendAllSteps(h, key, lines), key)
  }

  /**
   * Whatever the lines, the stream is closed after the job: no connection
   * stays attached under the key, every other key keeps its connection, and
   * the key's backlog has gained exactly the job's lines, in order.
   */
  lemma {:induction false} JobClosesStream(h: State, key: string, lines: seq<string>)
    ensures key !in AfterJob(h, key, lines).conns
    ensures AfterJob(h, key, lines).conns == h.conns - {key}
    ensures Buffered(AfterJob(h, key, lines).msg, key) == Buffered(h.msg, key) + Concat(lines)
  {
    BacklogAfterSends(h, key, lines);
  }

  /** A browser that subscribes to the key after the job ended is sent the job's whole log. */
  lemma {:induction false} LateViewerSeesWholeJob(h: State, key: string, lines: seq<string>, conn: Conn, rnd: nat)
    requires key != ""
    ensures var after := AddStep(AfterJob(h, key, lines), key, conn, rnd);
      after.wire[|after.wire| - 1] == Write(conn, Buffered(h.msg, key) + Concat(lines))
  {
    JobClosesStream(h, key, lines);
  }

  /** Streaming and closing keep the hub's replay invariant. */
  lemma {:induction false} JobKeepsSynced(h: State, key: string, lines: seq<string>)
    requires Synced(h)
    ensures Synced(AfterJob(h, key, lines))
  {
    SendsKeepSynced(h, key, lines);
    CloseKeepsSynced(SendAllSteps(h, key, lines), key);
  }

  lemma {:induction false} SendsKeepSynced(h: State, key: string, lines: seq<string>)
    requires Synced(h)
    ensures Synced(SendAllSteps(h, key, lines))
  {
    if lines != [] {
      SendsKeepSynced(h, key, lines[..|lines| - 1]);
      SendKeepsSynced(SendAllSteps(h, key, lines[..|lines| - 1]), key, lines[|lines| - 1], false);
    }
  }

  /** The hub state after Send does not depend on whether the socket write failed. */
  lemma SendStateIgnoresFailure(h: State, key: string, body: string, fails: bool)
    ensures SendStep(h, key, body, fails).0 == SendStep(h, key, body, false).0
  {
  }

  /** WsSink: the io.Writer a job's logger writes to; each write is one Send under the sink's key. */
  class WsSink {
    const hub: Hub
    const key: string

    constructor (hub: Hub, key: string)
      ensures this.hub == hub && this.key == key
    {
      this.hub := hub;
      this.key := key;
    }

    /** Write: `(0, err)` when the hub's Send fails, `(len(p), nil)` otherwise. */
    method Write(p: string, fails: bool) returns (n: nat, err: bool)
      modifies hub
      ensures (hub.Snapshot(), err) == SendStep(old(hub.Snapshot()), key, p, fails)
      ensures err ==> n == 0
      ensures !err ==> n == |p|
    {
      err := hub.Send(key, p, fails);
      if err {
        return 0, err;
      }
      return |p|, false;
    }
  }

  /**
   * The job goroutine: streams its lines under `key` and then, deferred,
   * closes the key.  Write errors are swallowed by the logger.
   */
  method RunJob(hub: Hub, key: string, name: string, encode: string -> string,
                output: seq<string>, o: JobOutcome, fails: seq<bool>)
    requires |fails| == |output| + 2
    modifies hub
    ensures hub.Snapshot() == AfterJob(old(hub.Snapshot()), key, JobLines(name, encode, output, o))
  {
    var lines := JobLines(name, encode, output, o);
    ghost var h0 := hub.Snapshot();
    var sink := new WsSink(hub, key);
    var i := 0;
    while i < |lines|
      invariant 0 <= i <= |lines|
      invariant sink.hub == hub && sink.key == key
      invariant hub.Snapshot() == SendAllSteps(h0, key, lines[..i])
    {
      ghost var before := hub.Snapshot();
      var _, _ := sink.Write(lines[i], fails[i]);
      SendStateIgnoresFailure(before, key, lines[i], fails[i]);
      assert lines[..i + 1][..i] == lines[..i];
      assert SendAllSteps(h0, key, lines[..i + 1]) == SendStep(before, key, lines[i], false).0;
      i := i + 1;
    }
    assert lines[..i] == lines;
    var _ := hub.Close(key);
  }

  /** How a task handler ends before its job starts. */
  datatype Setup = FsFailed | BuildFailed | Ready

  datatype Reply =
    | KeyReply(key: string)  // 200 with the stream key
    | Aborted(status: nat)   // c.AbortWithError(status, …)
    | Errored                // c.Error(…), answered by the error middleware

  /** The length of the random stream key each publish, pull or push handler draws. */
  const StreamKeyLength := 6

  /**
   * A publish, pull or push handler: a failing file-system factory aborts
   * with 400 before the key is drawn, and a failing builder is recorded as
   * an error; otherwise the job runs under `key`, the handler's random key
   * of StreamKeyLength characters, and the reply is that key.
   */
  method HandleTask(hub: Hub, setup: Setup, key: string, name: string, encode: string -> string,
                    output: seq<string>, o: JobOutcome, fails: seq<bool>) returns (r: Reply)
    requires |key| == StreamKeyLength
    requires |fails| == |output| + 2
    modifies hub
    ensures setup == FsFailed ==> r == Aborted(400) && hub.Snapshot() == old(hub.Snapshot())
    ensures setup == BuildFailed ==> r == Errored && hub.Snapshot() == old(hub.Snapshot())
    ensures setup == Ready ==> r == KeyReply(key) && |r.key| == StreamKeyLength && r.key != ""
    ensures setup == Ready ==> hub.Snapshot() == AfterJob(old(hub.Snapshot()), key, JobLines(name, encode, output, o))
  {
    match setup
    case FsFailed =>
      return Aborted(400);
    case BuildFailed =>
      return Errored;
    case Ready =>
      RunJob(hub, key, name, encode, output, o, fails);
      return KeyReply(key);
  }
}
