/**
 The dispatch bridge of tcp_transport.rs: connections that submit one request at a time, a
 bounded queue, worker threads, and a one-shot reply channel per request. Dispatch is an
 arbitrary call whose result is not known beforehand. A job stands for one `DispatchJob` together
 with its reply channel; jobs are numbered in the order they are created.
 */
module DispatchBridge {
  import opened Bytes

  /** Requests and responses, as the bytes that travel in their envelopes. */
  type Req = seq<byte>

  type Resp = seq<byte>

  /** Where a job is: waiting for room in the queue, queued, with a worker, answered, or lost with its worker. */
  datatype Stage =
    | Offered | Queued | Taken(worker: nat) | Dispatched(worker: nat, resp: Resp) | Answered(resp: Resp) | Lost

  datatype Job = Job(client: nat, index: nat, req: Req, stage: Stage)

  datatype Phase = Reading | Waiting(job: nat) | Writing(job: nat, resp: Resp) | Closed

  /** What a connection has read and written, and which job each response came from. */
  datatype Conn = Conn(requests: seq<Req>, responses: seq<Resp>, answeredBy: seq<nat>, phase: Phase)

  datatype Worker = Idle | Busy(job: nat) | Replying(job: nat, resp: Resp) | Dead

  /** One call of the dispatch function, with its arguments and its result. */
  datatype Call = Call(job: nat, client: nat, req: Req, resp: Resp)

  datatype State = State(
    conns: map<nat, Conn>, jobs: seq<Job>, queue: seq<nat>,
    workers: seq<Worker>, log: seq<Call>)

  datatype Action =
    | Accept(c: nat)
    | Receive(c: nat, req: Req)
    | Enqueue(c: nat)
    | Collect(c: nat)
    | Write(c: nat)
    | Close(c: nat)
    | Take(w: nat)
    | Dispatch(w: nat, result: Resp)
    | Reply(w: nat)
    | Crash(w: nat)

  function WorkerCount(requested: nat): (n: nat)
    ensures n >= 1 && n >= requested && (n == 1 || n == requested)
  {
    if requested < 1 then 1 else requested
  }

  function QueueDepth(requested: nat): (n: nat)
    ensures n >= 8 && n >= 4 * WorkerCount(requested) && (n == 8 || n == 4 * WorkerCount(requested))
  {
    var n := 4 * WorkerCount(requested);
    if n < 8 then 8 else n
  }

  function Initial(requested: nat): (s: State)
  {
    State(map[], [], [], seq(WorkerCount(requested), _ => Idle), [])
  }

  predicate WaitsAt(s: State, c: nat)
  {
    c in s.conns && s.conns[c].phase.Waiting? && s.conns[c].phase.job < |s.jobs|
  }

  predicate Holds(s: State, w: nat)
  {
    w < |s.workers| && s.workers[w].Busy? && s.workers[w].job < |s.jobs|
  }

  predicate Enabled(depth: nat, s: State, a: Action)
  {
    match a
    case Accept(c) => c !in s.conns
    case Receive(c, _) => c in s.conns && s.conns[c].phase.Reading?
    case Enqueue(c) => WaitsAt(s, c) && s.jobs[s.conns[c].phase.job].stage.Offered? && |s.queue| < depth
    case Collect(c) => WaitsAt(s, c) && s.jobs[s.conns[c].phase.job].stage.Answered?
    case Write(c) => c in s.conns && s.conns[c].phase.Writing?
    case Close(c) => c in s.conns && !s.conns[c].phase.Closed?
    case Take(w) => w < |s.workers| && s.workers[w].Idle? && s.queue != [] && s.queue[0] < |s.jobs|
    case Dispatch(w, _) => Holds(s, w)
    case Crash(w) => Holds(s, w)
    case Reply(w) => w < |s.workers| && s.workers[w].Replying? && s.workers[w].job < |s.jobs|
  }

  function Staged(jobs: seq<Job>, k: nat, stage: Stage): (r: seq<Job>)
    requires k < |jobs|
    ensures |r| == |jobs|
  {
    jobs[k := jobs[k].(stage := stage)]
  }

  function Step(depth: nat, s: State, a: Action): (r: State)
    requires Enabled(depth, s, a)
  {
    match a
    case Accept(c) => s.(conns := s.conns[c := Conn([], [], [], Reading)])
    case Receive(c, req) =>
      var conn := s.conns[c];
      s.(jobs := s.jobs + [Job(c, |conn.requests|, req, Offered)],
         conns := s.conns[c := conn.(requests := conn.requests + [req], phase := Waiting(|s.jobs|))])
    case Enqueue(c) =>
      var k := s.conns[c].phase.job;
      s.(jobs := Staged(s.jobs, k, Queued), queue := s.queue + [k])
    case Collect(c) =>
      var k := s.conns[c].phase.job;
      s.(conns := s.conns[c := s.conns[c].(phase := Writing(k, s.jobs[k].stage.resp))])
    case Write(c) =>
      var conn := s.conns[c];
      s.(conns := s.conns[c := Conn(conn.requests, conn.responses + [conn.phase.resp],
                                    conn.answeredBy + [conn.phase.job], Reading)])
    case Close(c) => s.(conns := s.conns[c := s.conns[c].(phase := Closed)])
    case Take(w) =>
      s.(jobs := Staged(s.jobs, s.queue[0], Taken(w)), queue := s.queue[1..], workers := s.workers[w := Busy(s.queue[0])])
    case Dispatch(w, result) =>
      var k := s.workers[w].job;
      s.(jobs := Staged(s.jobs, k, Dispatched(w, result)),
         workers := s.workers[w := Replying(k, result)],
         log := s.log + [Call(k, s.jobs[k].client, s.jobs[k].req, result)])
    case Reply(w) =>
      var k := s.workers[w].job;
      s.(jobs := Staged(s.jobs, k, Answered(s.workers[w].resp)), workers := s.workers[w := Idle])
    case Crash(w) => s.(jobs := Staged(s.jobs, s.workers[w].job, Lost), workers := s.workers[w := Dead])
  }

  // ---- the invariant -----------------------------------------------------------

  ghost predicate JobOk(s: State, k: nat)
    requires k < |s.jobs|
  {
    var j := s.jobs[k];
    && j.client in s.conns
    && j.index < |s.conns[j.client].requests|
    && j.req == s.conns[j.client].requests[j.index]
    && match j.stage
       case Queued => k in s.queue
       case Taken(w) => w < |s.workers| && s.workers[w] == Busy(k)
       case Dispatched(w, resp) => w < |s.workers| && s.workers[w] == Replying(k, resp) && Logged(s.log, k, resp)
       case Answered(resp) => Logged(s.log, k, resp)
       case _ => true
  }

  ghost predicate Logged(log: seq<Call>, k: nat, resp: Resp)
  {
    exists i :: 0 <= i < |log| && log[i].job == k && log[i].resp == resp
  }

  predicate SameRequest(i: Job, j: Job)
  {
    i.client == j.client && i.index == j.index
  }

  ghost predicate ConnOk(s: State, c: nat)
    requires c in s.conns
  {
    var conn := s.conns[c];
    && |conn.answeredBy| == |conn.responses|
    && (forall i {:trigger AnsweredOk(s, c, i)} :: 0 <= i < |conn.responses| ==> AnsweredOk(s, c, i))
    && match conn.phase
       case Reading => |conn.requests| == |conn.responses|
       case Waiting(k) => |conn.requests| == |conn.responses| + 1 && k < |s.jobs| && s.jobs[k].client == c && s.jobs[k].index == |conn.responses|
       case Writing(k, resp) =>
         && |conn.requests| == |conn.responses| + 1
         && k < |s.jobs| && s.jobs[k].client == c && s.jobs[k].index == |conn.responses| && s.jobs[k].stage == Answered(resp)
       case Closed => |conn.responses| <= |conn.requests| <= |conn.responses| + 1
  }

  /** Response `i` of connection `c` is the answer to the job of its request `i`. */
  ghost predicate AnsweredOk(s: State, c: nat, i: nat)
    requires c in s.conns && i < |s.conns[c].responses| == |s.conns[c].answeredBy|
  {
    var conn := s.conns[c];
    var k := conn.answeredBy[i];
    k < |s.jobs| && s.jobs[k].client == c && s.jobs[k].index == i && s.jobs[k].stage == Answered(conn.responses[i])
  }

  ghost predicate WorkerOk(s: State, w: nat)
    requires w < |s.workers|
  {
    match s.workers[w]
    case Busy(k) => k < |s.jobs| && s.jobs[k].stage == Taken(w)
    case Replying(k, resp) => k < |s.jobs| && s.jobs[k].stage == Dispatched(w, resp)
    case _ => true
  }

  /** A logged call was made with the job's own client and request, and the job has its result. */
  ghost predicate CallOk(s: State, call: Call)
  {
    && call.job < |s.jobs|
    && call.client == s.jobs[call.job].client && call.req == s.jobs[call.job].req
    && match s.jobs[call.job].stage
       case Dispatched(_, resp) => resp == call.resp
       case Answered(resp) => resp == call.resp
       case _ => false
  }

  ghost predicate JobsOk(s: State)
  {
    && (forall k {:trigger JobOk(s, k)} :: 0 <= k < |s.jobs| ==> JobOk(s, k))
    && (forall k, l {:trigger SameRequest(s.jobs[k], s.jobs[l])} ::
          0 <= k < l < |s.jobs| ==> !SameRequest(s.jobs[k], s.jobs[l]))
  }

  predicate QueueOk(s: State)
  {
    && (forall i {:trigger s.queue[i]} :: 0 <= i < |s.queue| ==> s.queue[i] < |s.jobs| && s.jobs[s.queue[i]].stage.Queued?)
    && (forall i, j {:trigger s.queue[i], s.queue[j]} :: 0 <= i < j < |s.queue| ==> s.queue[i] != s.queue[j])
  }

  ghost predicate LogOk(s: State)
  {
    && (forall i {:trigger CallOk(s, s.log[i])} :: 0 <= i < |s.log| ==> CallOk(s, s.log[i]))
    && (forall i, j {:trigger s.log[i].job, s.log[j].job} :: 0 <= i < j < |s.log| ==> s.log[i].job != s.log[j].job)
  }

  ghost predicate WorkersOk(s: State)
  {
    forall w {:trigger WorkerOk(s, w)} :: 0 <= w < |s.workers| ==> WorkerOk(s, w)
  }

  ghost predicate ConnsOk(s: State)
  {
    forall c {:trigger ConnOk(s, c)} :: c in s.conns ==> ConnOk(s, c)
  }

  ghost predicate Inv(depth: nat, s: State)
  {
    JobsOk(s) && QueueOk(s) && LogOk(s) && WorkersOk(s) && ConnsOk(s) && |s.queue| <= depth
  }

  // ---- connections ---------------------------------------------------------------

  /** Steps that change one connection and leave jobs, queue, workers and log alone. */
  lemma ConnStepKeeps(depth: nat, s: State, c: nat, conn: Conn)
    requires Inv(depth, s)
    requires c in s.conns ==> conn.requests == s.conns[c].requests
    requires ConnOk(s.(conns := s.conns[c := conn]), c)
    ensures Inv(depth, s.(conns := s.conns[c := conn]))
  {
    var s' := s.(conns := s.conns[c := conn]);
    forall k | 0 <= k < |s.jobs|
      ensures JobOk(s', k)
    {
      assert JobOk(s, k);
    }
    forall k, l | 0 <= k < l < |s.jobs|
      ensures !SameRequest(s'.jobs[k], s'.jobs[l])
    {
      assert !SameRequest(s.jobs[k], s.jobs[l]);
    }
    forall i | 0 <= i < |s.log|
      ensures CallOk(s', s'.log[i])
    {
      assert CallOk(s, s.log[i]);
    }
    forall w | 0 <= w < |s.workers|
      ensures WorkerOk(s', w)
    {
      assert WorkerOk(s, w);
    }
    forall d | d in s'.conns
      ensures ConnOk(s', d)
    {
      if d != c {
        OtherConn(s, s', d);
      }
    }
  }

  /** A connection's own invariant survives when its answered jobs and its waiting job do. */
  lemma OtherConn(s: State, s': State, d: nat)
    requires d in s.conns && d in s'.conns && s.conns[d] == s'.conns[d]
    requires ConnsOk(s) && |s.jobs| <= |s'.jobs|
    requires forall k {:trigger s'.jobs[k]} :: 0 <= k < |s.jobs| ==> Carries(s.jobs[k], s'.jobs[k])
    ensures ConnOk(s', d)
  {
    assert ConnOk(s, d);
    var conn := s.conns[d];
    forall i | 0 <= i < |conn.responses|
      ensures AnsweredOk(s', d, i)
    {
      assert AnsweredOk(s, d, i);
      assert Carries(s.jobs[conn.answeredBy[i]], s'.jobs[conn.answeredBy[i]]);
    }
    match conn.phase
    case Waiting(k) => assert Carries(s.jobs[k], s'.jobs[k]);
    case Writing(k, _) => assert Carries(s.jobs[k], s'.jobs[k]);
    case _ =>
  }

  /** Same request, and an answer once given stays. */
  ghost predicate Carries(j: Job, j': Job)
  {
    j.client == j'.client && j.index == j'.index && j.req == j'.req && (j.stage.Answered? ==> j'.stage == j.stage)
  }

  lemma CollectKeeps(depth: nat, s: State, c: nat)
    requires Inv(depth, s) && Enabled(depth, s, Collect(c))
    ensures Inv(depth, Step(depth, s, Collect(c)))
  {
    assert ConnOk(s, c);
    var s' := Step(depth, s, Collect(c));
    SameAnswers(s, s', c);
    ConnStepKeeps(depth, s, c, s'.conns[c]);
  }

  lemma CloseKeeps(depth: nat, s: State, c: nat)
    requires Inv(depth, s) && Enabled(depth, s, Close(c))
    ensures Inv(depth, Step(depth, s, Close(c)))
  {
    assert ConnOk(s, c);
    var s' := Step(depth, s, Close(c));
    SameAnswers(s, s', c);
    ConnStepKeeps(depth, s, c, s'.conns[c]);
  }

  lemma SameAnswers(s: State, s': State, c: nat)
    requires c in s.conns && c in s'.conns && s'.jobs == s.jobs && ConnOk(s, c)
    requires s'.conns[c].responses == s.conns[c].responses && s'.conns[c].answeredBy == s.conns[c].answeredBy
    ensures forall i {:trigger AnsweredOk(s', c, i)} :: 0 <= i < |s'.conns[c].responses| ==> AnsweredOk(s', c, i)
  {
    forall i | 0 <= i < |s'.conns[c].responses|
      ensures AnsweredOk(s', c, i)
    {
      assert AnsweredOk(s, c, i);
    }
  }

  lemma WriteKeeps(depth: nat, s: State, c: nat)
    requires Inv(depth, s) && Enabled(depth, s, Write(c))
    ensures Inv(depth, Step(depth, s, Write(c)))
  {
    assert ConnOk(s, c);
    var s' := Step(depth, s, Write(c));
    forall i | 0 <= i < |s'.conns[c].responses|
      ensures AnsweredOk(s', c, i)
    {
      if i < |s.conns[c].responses| {
        assert AnsweredOk(s, c, i);
      }
    }
    ConnStepKeeps(depth, s, c, s'.conns[c]);
  }

  lemma ReceiveKeeps(depth: nat, s: State, c: nat, req: Req)
    requires Inv(depth, s) && Enabled(depth, s, Receive(c, req))
    ensures Inv(depth, Step(depth, s, Receive(c, req)))
  {
    var s' := Step(depth, s, Receive(c, req));
    assert ConnOk(s, c);
    forall k | 0 <= k < |s'.jobs|
      ensures JobOk(s', k)
    {
      if k < |s.jobs| {
        assert JobOk(s, k);
      }
    }
    forall k, l | 0 <= k < l < |s'.jobs|
      ensures !SameRequest(s'.jobs[k], s'.jobs[l])
    {
      assert JobOk(s, k);
      if l < |s.jobs| {
        assert !SameRequest(s.jobs[k], s.jobs[l]);
      }
    }
    forall i | 0 <= i < |s.log|
      ensures CallOk(s', s'.log[i])
    {
      assert CallOk(s, s.log[i]);
    }
    forall w | 0 <= w < |s.workers|
      ensures WorkerOk(s', w)
    {
      assert WorkerOk(s, w);
    }
    ReceiveConns(depth, s, c, req);
  }

  lemma ReceiveConns(depth: nat, s: State, c: nat, req: Req)
    requires Inv(depth, s) && Enabled(depth, s, Receive(c, req))
    ensures ConnsOk(Step(depth, s, Receive(c, req)))
  {
    var s' := Step(depth, s, Receive(c, req));
    forall d | d in s'.conns
      ensures ConnOk(s', d)
    {
      if d != c {
        OtherConn(s, s', d);
      } else {
        assert ConnOk(s, c);
        forall i | 0 <= i < |s.conns[c].responses|
          ensures AnsweredOk(s', c, i)
        {
          assert AnsweredOk(s, c, i);
        }
      }
    }
  }

  // ---- jobs moving -----------------------------------------------------------------

  /** Moving one unanswered job to another stage, with queue, workers and log to match. */
  lemma JobStepKeeps(depth: nat, s: State, k: nat, s': State)
    requires Inv(depth, s) && k < |s.jobs| && !s.jobs[k].stage.Answered?
    requires |s'.jobs| == |s.jobs| && s'.conns == s.conns && s'.jobs == Staged(s.jobs, k, s'.jobs[k].stage)
    requires QueueOk(s') && LogOk(s') && WorkersOk(s') && |s'.queue| <= depth
    requires forall l {:trigger JobOk(s', l)} :: 0 <= l < |s'.jobs| ==> JobOk(s', l)
    ensures Inv(depth, s')
  {
    forall i, j | 0 <= i < j < |s'.jobs|
      ensures !SameRequest(s'.jobs[i], s'.jobs[j])
    {
      assert !SameRequest(s.jobs[i], s.jobs[j]);
    }
    forall d | d in s'.conns
      ensures ConnOk(s', d)
    {
      OtherConn(s, s', d);
    }
  }

  lemma EnqueueKeeps(depth: nat, s: State, c: nat)
    requires Inv(depth, s) && Enabled(depth, s, Enqueue(c))
    ensures Inv(depth, Step(depth, s, Enqueue(c)))
  {
    var s' := Step(depth, s, Enqueue(c));
    var k := s.conns[c].phase.job;
    forall l | 0 <= l < |s'.jobs|
      ensures JobOk(s', l)
    {
      assert JobOk(s, l);
      assert s'.queue[|s.queue|] == k;
    }
    LogFollows(s, s', k);
    forall w | 0 <= w < |s.workers|
      ensures WorkerOk(s', w)
    {
      assert WorkerOk(s, w);
    }
    JobStepKeeps(depth, s, k, s');
  }

  /** The log's invariant when a job that was never dispatched moves on undispatched. */
  lemma LogFollows(s: State, s': State, k: nat)
    requires LogOk(s) && k < |s.jobs| == |s'.jobs| && s'.log == s.log && s'.jobs == Staged(s.jobs, k, s'.jobs[k].stage)
    requires s.jobs[k].stage.Dispatched? ==> s'.jobs[k].stage == Answered(s.jobs[k].stage.resp)
    requires s.jobs[k].stage.Answered? ==> s'.jobs[k].stage == s.jobs[k].stage
    ensures LogOk(s')
  {
    forall i | 0 <= i < |s'.log|
      ensures CallOk(s', s'.log[i])
    {
      assert CallOk(s, s.log[i]);
    }
  }

  lemma TakeKeeps(depth: nat, s: State, w: nat)
    requires Inv(depth, s) && Enabled(depth, s, Take(w))
    ensures Inv(depth, Step(depth, s, Take(w)))
  {
    var s' := Step(depth, s, Take(w));
    var k := s.queue[0];
    forall l | 0 <= l < |s'.jobs|
      ensures JobOk(s', l)
    {
      assert JobOk(s, l);
      assert s.queue == [k] + s'.queue;
    }
    assert QueueOk(s') by {
      assert forall i :: 0 <= i < |s'.queue| ==> s'.queue[i] == s.queue[i + 1];
    }
    LogFollows(s, s', k);
    forall v | 0 <= v < |s'.workers|
      ensures WorkerOk(s', v)
    {
      assert WorkerOk(s, v);
    }
    JobStepKeeps(depth, s, k, s');
  }

  lemma CrashKeeps(depth: nat, s: State, w: nat)
    requires Inv(depth, s) && Enabled(depth, s, Crash(w))
    ensures Inv(depth, Step(depth, s, Crash(w)))
  {
    var s' := Step(depth, s, Crash(w));
    var k := s.workers[w].job;
    assert WorkerOk(s, w);
    forall l | 0 <= l < |s'.jobs|
      ensures JobOk(s', l)
    {
      assert JobOk(s, l);
    }
    LogFollows(s, s', k);
    forall v | 0 <= v < |s'.workers|
      ensures WorkerOk(s', v)
    {
      assert WorkerOk(s, v);
    }
    JobStepKeeps(depth, s, k, s');
  }

  lemma ReplyKeeps(depth: nat, s: State, w: nat)
    requires Inv(depth, s) && Enabled(depth, s, Reply(w))
    ensures Inv(depth, Step(depth, s, Reply(w)))
  {
    var s' := Step(depth, s, Reply(w));
    var k := s.workers[w].job;
    assert WorkerOk(s, w);
    forall l | 0 <= l < |s'.jobs|
      ensures JobOk(s', l)
    {
      assert JobOk(s, l);
    }
    LogFollows(s, s', k);
    forall v | 0 <= v < |s'.workers|
      ensures WorkerOk(s', v)
    {
      assert WorkerOk(s, v);
    }
    JobStepKeeps(depth, s, k, s');
  }

  lemma DispatchKeeps(depth: nat, s: State, w: nat, result: Resp)
    requires Inv(depth, s) && Enabled(depth, s, Dispatch(w, result))
    ensures Inv(depth, Step(depth, s, Dispatch(w, result)))
  {
    var s' := Step(depth, s, Dispatch(w, result));
    var k := s.workers[w].job;
    assert WorkerOk(s, w);
    forall l | 0 <= l < |s'.jobs|
      ensures JobOk(s', l)
    {
      assert JobOk(s, l);
      assert s'.log[|s.log|].job == k;
      assert forall i :: 0 <= i < |s.log| ==> s'.log[i] == s.log[i];
    }
    forall i | 0 <= i < |s'.log|
      ensures CallOk(s', s'.log[i]) && (i < |s.log| ==> s'.log[i].job != k)
    {
      if i < |s.log| {
        assert CallOk(s, s.log[i]);
      }
    }
    forall v | 0 <= v < |s'.workers|
      ensures WorkerOk(s', v)
    {
      assert WorkerOk(s, v);
    }
    JobStepKeeps(depth, s, k, s');
  }

  lemma StepKeeps(depth: nat, s: State, a: Action)
    requires Inv(depth, s) && Enabled(depth, s, a)
    ensures Inv(depth, Step(depth, s, a))
  {
    match a
    case Accept(c) => ConnStepKeeps(depth, s, c, Conn([], [], [], Reading));
    case Receive(c, req) => ReceiveKeeps(depth, s, c, req);
    case Enqueue(c) => EnqueueKeeps(depth, s, c);
    case Collect(c) => CollectKeeps(depth, s, c);
    case Write(c) => WriteKeeps(depth, s, c);
    case Close(c) => CloseKeeps(depth, s, c);
    case Take(w) => TakeKeeps(depth, s, w);
    case Dispatch(w, result) => DispatchKeeps(depth, s, w, result);
    case Reply(w) => ReplyKeeps(depth, s, w);
    case Crash(w) => CrashKeeps(depth, s, w);
  }

  // ---- runs --------------------------------------------------------------------------

  predicate Runs(depth: nat, s: State, actions: seq<Action>)
    decreases |actions|
  {
    actions == [] || (Enabled(depth, s, actions[0]) && Runs(depth, Step(depth, s, actions[0]), actions[1..]))
  }

  function Exec(depth: nat, s: State, actions: seq<Action>): (r: State)
    requires Runs(depth, s, actions)
    decreases |actions|
  {
    if actions == [] then s else Exec(depth, Step(depth, s, actions[0]), actions[1..])
  }

  lemma {:induction false} RunKeeps(depth: nat, s: State, actions: seq<Action>)
    requires Inv(depth, s) && Runs(depth, s, actions)
    ensures Inv(depth, Exec(depth, s, actions))
    decreases |actions|
  {
    if actions != [] {
      StepKeeps(depth, s, actions[0]);
      RunKeeps(depth, Step(depth, s, actions[0]), actions[1..]);
    }
  }

  ghost predicate Reachable(requested: nat, s: State)
  {
    exists actions :: IsRun(requested, actions, s)
  }

  ghost predicate IsRun(requested: nat, actions: seq<Action>, s: State)
  {
    Runs(QueueDepth(requested), Initial(requested), actions) && Exec(QueueDepth(requested), Initial(requested), actions) == s
  }

  lemma ReachableInv(requested: nat, s: State)
    requires Reachable(requested, s)
    ensures Inv(QueueDepth(requested), s)
  {
    var actions :| IsRun(requested, actions, s);
    var start: State := Initial(requested);
    RunKeeps(QueueDepth(requested), start, actions);
  }

  // ---- the guarantees ------------------------------------------------------------------

  /** Two calls of dispatch are never for the same request of the same connection. */
  lemma DispatchedAtMostOnce(requested: nat, s: State, i: nat, j: nat)
    requires Reachable(requested, s) && i < j < |s.log|
    ensures s.log[i].job < |s.jobs| && s.log[j].job < |s.jobs|
    ensures !SameRequest(s.jobs[s.log[i].job], s.jobs[s.log[j].job])
  {
    ReachableInv(requested, s);
    assert CallOk(s, s.log[i]) && CallOk(s, s.log[j]);
    var k, l := s.log[i].job, s.log[j].job;
    assert k < l ==> !SameRequest(s.jobs[k], s.jobs[l]);
    assert l < k ==> !SameRequest(s.jobs[l], s.jobs[k]);
  }

  /** The i-th response of a connection is what dispatch returned when called with that connection's id and its own i-th request. */
  lemma ResponsesMatchRequests(requested: nat, s: State, c: nat, i: nat)
    requires Reachable(requested, s) && c in s.conns && i < |s.conns[c].responses|
    ensures |s.conns[c].answeredBy| == |s.conns[c].responses| <= |s.conns[c].requests| <= |s.conns[c].responses| + 1
    ensures exists n :: 0 <= n < |s.log| && s.log[n].client == c && s.log[n].req == s.conns[c].requests[i]
              && s.log[n].resp == s.conns[c].responses[i] && s.log[n].job == s.conns[c].answeredBy[i]
  {
    ReachableInv(requested, s);
    assert ConnOk(s, c);
    var k := s.conns[c].answeredBy[i];
    assert AnsweredOk(s, c, i);
    assert JobOk(s, k);
    var n :| 0 <= n < |s.log| && s.log[n].job == k && s.log[n].resp == s.conns[c].responses[i];
    assert CallOk(s, s.log[n]);
  }

  lemma QueueIsBounded(requested: nat, s: State)
    requires Reachable(requested, s)
    ensures |s.queue| <= QueueDepth(requested)
  {
    ReachableInv(requested, s);
  }

  /** Some step of a worker, or of connection `c`, is possible. */
  ghost predicate CanMove(depth: nat, s: State, c: nat)
  {
    || Enabled(depth, s, Enqueue(c)) || Enabled(depth, s, Collect(c))
    || (exists w, resp :: WorkerCanMove(depth, s, w, resp))
  }

  predicate WorkerCanMove(depth: nat, s: State, w: nat, resp: Resp)
  {
    Enabled(depth, s, Take(w)) || Enabled(depth, s, Dispatch(w, resp)) || Enabled(depth, s, Reply(w))
  }

  /** No deadlock: while a worker lives, a connection that awaits an answer that is not lost never waits for nothing. */
  lemma NeverStuck(requested: nat, s: State, c: nat, w: nat)
    requires Reachable(requested, s) && WaitsAt(s, c) && !s.jobs[s.conns[c].phase.job].stage.Lost?
    requires w < |s.workers| && !s.workers[w].Dead?
    ensures CanMove(QueueDepth(requested), s, c)
  {
    ReachableInv(requested, s);
    var depth := QueueDepth(requested);
    var k := s.conns[c].phase.job;
    assert JobOk(s, k) && WorkerOk(s, w);
    match s.jobs[k].stage
    case Taken(v) => assert WorkerCanMove(depth, s, v, []);
    case Dispatched(v, _) => assert WorkerCanMove(depth, s, v, []);
    case Answered(_) =>
    case _ =>
      if s.queue != [] {
        assert s.queue[0] < |s.jobs|;
        assert WorkerCanMove(depth, s, w, []);
      }
  }

  // ---- every request can be answered -----------------------------------------------------

  /** Where a job stands in the queue. */
  function Place(queue: seq<nat>, k: nat): (n: nat)
    requires k in queue
    ensures n < |queue|
  {
    if queue[0] == k then 0 else 1 + Place(queue[1..], k)
  }

  /** How far the job of a waiting connection has come. */
  function StagesLeft(stage: Stage): (n: nat)
  {
    match stage
    case Offered => 4
    case Queued => 3
    case Taken(_) => 2
    case Dispatched(_, _) => 1
    case _ => 0
  }

  /** How many jobs must leave the queue before this one moves. */
  function JobsAhead(s: State, k: nat): (n: nat)
  {
    if k in s.queue then Place(s.queue, k) else |s.queue|
  }

  /** How many steps a living worker is from taking the next job. */
  function WorkerLeft(w: Worker): (n: nat)
  {
    match w
    case Busy(_) => 2
    case Replying(_, _) => 1
    case _ => 0
  }

  /** Connection `c` awaits an answer that is not lost, and worker `w` lives. */
  ghost predicate Hopeful(depth: nat, s: State, c: nat, w: nat)
  {
    && Inv(depth, s) && depth > 0 && WaitsAt(s, c) && !s.jobs[s.conns[c].phase.job].stage.Lost?
    && w < |s.workers| && !s.workers[w].Dead?
  }

  /** The step that brings the answer nearer. */
  function Helpful(depth: nat, s: State, c: nat, w: nat): (a: Action)
    requires WaitsAt(s, c) && w < |s.workers|
  {
    match s.jobs[s.conns[c].phase.job].stage
    case Taken(v) => Dispatch(v, [])
    case Dispatched(v, _) => Reply(v)
    case Answered(_) => Collect(c)
    case _ =>
      if s.jobs[s.conns[c].phase.job].stage.Offered? && |s.queue| < depth then Enqueue(c)
      else match s.workers[w]
           case Busy(_) => Dispatch(w, [])
           case Replying(_, _) => Reply(w)
           case _ => Take(w)
  }

  lemma {:induction false} PlaceBehind(queue: seq<nat>, k: nat)
    requires k in queue && queue[0] != k
    ensures k in queue[1..] && Place(queue, k) == 1 + Place(queue[1..], k)
  {
  }

  /** A step that leaves the connections alone and gets the answer of `c` nearer. */
  ghost predicate Nearer(depth: nat, s: State, s': State, c: nat, w: nat)
  {
    && Hopeful(depth, s, c, w) && Hopeful(depth, s', c, w) && s'.conns == s.conns
    && var k := s.conns[c].phase.job;
       var left, left' := StagesLeft(s.jobs[k].stage), StagesLeft(s'.jobs[k].stage);
       || left' < left
       || (left' == left && JobsAhead(s', k) < JobsAhead(s, k))
       || (left' == left && JobsAhead(s', k) == JobsAhead(s, k) && WorkerLeft(s'.workers[w]) < WorkerLeft(s.workers[w]))
  }

  /** The job itself moves: it is enqueued, dispatched or answered. */
  lemma JobHelps(depth: nat, s: State, c: nat, w: nat, a: Action)
    requires Hopeful(depth, s, c, w) && a == Helpful(depth, s, c, w) && (a.Enqueue? || s.jobs[s.conns[c].phase.job].stage.Taken? || s.jobs[s.conns[c].phase.job].stage.Dispatched?)
    ensures Enabled(depth, s, a) && Nearer(depth, s, Step(depth, s, a), c, w)
  {
    assert JobOk(s, s.conns[c].phase.job);
    StepKeeps(depth, s, a);
  }

  /** The worker finishes what it has. */
  lemma WorkerHelps(depth: nat, s: State, c: nat, w: nat, a: Action)
    requires Hopeful(depth, s, c, w) && a == Helpful(depth, s, c, w) && !a.Enqueue?
    requires var stage := s.jobs[s.conns[c].phase.job].stage; stage.Offered? || stage.Queued?
    requires !s.workers[w].Idle?
    ensures Enabled(depth, s, a) && Nearer(depth, s, Step(depth, s, a), c, w)
  {
    assert WorkerOk(s, w);
    StepKeeps(depth, s, a);
  }

  /** The worker takes the next job. */
  lemma TakeHelps(depth: nat, s: State, c: nat, w: nat, a: Action)
    requires Hopeful(depth, s, c, w) && a == Helpful(depth, s, c, w) && !a.Enqueue?
    requires var stage := s.jobs[s.conns[c].phase.job].stage; stage.Offered? || stage.Queued?
    requires s.workers[w].Idle?
    ensures Enabled(depth, s, a) && Nearer(depth, s, Step(depth, s, a), c, w)
  {
    var k := s.conns[c].phase.job;
    assert JobOk(s, k);
    assert s.queue != [];
    assert s.queue[0] < |s.jobs| && s.jobs[s.queue[0]].stage.Queued?;
    StepKeeps(depth, s, a);
    if k in s.queue {
      if s.queue[0] != k {
        PlaceBehind(s.queue, k);
      }
    } else {
      assert k !in s.queue[1..];
    }
  }

  lemma Helps(depth: nat, s: State, c: nat, w: nat, a: Action)
    requires Hopeful(depth, s, c, w) && a == Helpful(depth, s, c, w) && !s.jobs[s.conns[c].phase.job].stage.Answered?
    ensures Enabled(depth, s, a) && Nearer(depth, s, Step(depth, s, a), c, w)
  {
    var stage := s.jobs[s.conns[c].phase.job].stage;
    if a.Enqueue? || stage.Taken? || stage.Dispatched? {
      JobHelps(depth, s, c, w, a);
    } else if s.workers[w].Idle? {
      TakeHelps(depth, s, c, w, a);
    } else {
      WorkerHelps(depth, s, c, w, a);
    }
  }

  lemma RunFirst(depth: nat, s: State, a: Action, rest: seq<Action>)
    requires Enabled(depth, s, a) && Runs(depth, Step(depth, s, a), rest)
    ensures Runs(depth, s, [a] + rest) && Exec(depth, s, [a] + rest) == Exec(depth, Step(depth, s, a), rest)
  {
    assert ([a] + rest)[1..] == rest;
  }

  /** Connection `c` has got one more response. */
  predicate GotAnswer(s: State, t: State, c: nat)
  {
    c in s.conns && c in t.conns && |t.conns[c].responses| == |s.conns[c].responses| + 1 && t.conns[c].requests == s.conns[c].requests
  }

  lemma AnswerArrives(depth: nat, s: State, c: nat, w: nat) returns (actions: seq<Action>)
    requires Hopeful(depth, s, c, w) && s.jobs[s.conns[c].phase.job].stage.Answered?
    ensures Runs(depth, s, actions) && GotAnswer(s, Exec(depth, s, actions), c)
  {
    var s1 := Step(depth, s, Collect(c));
    RunFirst(depth, s1, Write(c), []);
    RunFirst(depth, s, Collect(c), [Write(c)] + []);
    actions := [Collect(c)] + ([Write(c)] + []);
  }

  lemma {:induction false} CanAnswer(depth: nat, s: State, c: nat, w: nat) returns (actions: seq<Action>)
    requires Hopeful(depth, s, c, w)
    ensures Runs(depth, s, actions) && GotAnswer(s, Exec(depth, s, actions), c)
    decreases StagesLeft(s.jobs[s.conns[c].phase.job].stage), JobsAhead(s, s.conns[c].phase.job), WorkerLeft(s.workers[w])
  {
    if s.jobs[s.conns[c].phase.job].stage.Answered? {
      actions := AnswerArrives(depth, s, c, w);
    } else {
      var a := Helpful(depth, s, c, w);
      Helps(depth, s, c, w, a);
      var rest := CanAnswer(depth, Step(depth, s, a), c, w);
      RunFirst(depth, s, a, rest);
      actions := [a] + rest;
    }
  }

  /** In every reachable state with a living worker, every awaited answer that is not lost can still arrive. */
  lemma EveryRequestCanBeAnswered(requested: nat, s: State, c: nat, w: nat) returns (actions: seq<Action>)
    requires Reachable(requested, s) && WaitsAt(s, c) && !s.jobs[s.conns[c].phase.job].stage.Lost?
    requires w < |s.workers| && !s.workers[w].Dead?
    ensures Runs(QueueDepth(requested), s, actions) && GotAnswer(s, Exec(QueueDepth(requested), s, actions), c)
  {
    ReachableInv(requested, s);
    actions := CanAnswer(QueueDepth(requested), s, c, w);
  }

  /** A new connection is served: whatever else is going on, its first request can be received and answered. */
  lemma FreshIsServed(depth: nat, s: State, c: nat, req: Req, w: nat) returns (actions: seq<Action>)
    requires Inv(depth, s) && depth > 0 && c !in s.conns && w < |s.workers| && !s.workers[w].Dead?
    ensures Runs(depth, s, actions)
    ensures var t := Exec(depth, s, actions); c in t.conns && t.conns[c].requests == [req] && |t.conns[c].responses| == 1
  {
    var s1 := Step(depth, s, Accept(c));
    StepKeeps(depth, s, Accept(c));
    var s2 := Step(depth, s1, Receive(c, req));
    StepKeeps(depth, s1, Receive(c, req));
    assert s2.conns[c].requests == [req] && s2.conns[c].responses == [];
    var rest := CanAnswer(depth, s2, c, w);
    RunFirst(depth, s1, Receive(c, req), rest);
    RunFirst(depth, s, Accept(c), [Receive(c, req)] + rest);
    actions := [Accept(c)] + ([Receive(c, req)] + rest);
  }

  /** A closed connection is done: nothing is read from it or written to it in any run. */
  lemma {:induction false} ClosedStays(depth: nat, s: State, c: nat, actions: seq<Action>)
    requires c in s.conns && s.conns[c].phase.Closed? && Runs(depth, s, actions)
    ensures c in Exec(depth, s, actions).conns && Exec(depth, s, actions).conns[c] == s.conns[c]
    decreases |actions|
  {
    if actions != [] {
      ClosedStays(depth, Step(depth, s, actions[0]), c, actions[1..]);
    }
  }

  lemma CloseIsFinal(depth: nat, s: State, c: nat, actions: seq<Action>)
    requires Enabled(depth, s, Close(c)) && Runs(depth, Step(depth, s, Close(c)), actions)
    ensures var t := Exec(depth, Step(depth, s, Close(c)), actions);
            && c in t.conns && t.conns[c].phase == Closed
            && t.conns[c].requests == s.conns[c].requests && t.conns[c].responses == s.conns[c].responses
  {
    ClosedStays(depth, Step(depth, s, Close(c)), c, actions);
  }

  // ---- connection ids --------------------------------------------------------------------

  /** The id of the `k`-th connection a shard accepts: `conn_seq` starts at `(shard << 32) | 1`. */
  function ConnId(shard: nat, k: nat): (id: nat)
  {
    (shard * U32 + 1 + k) % U64
  }

  /** Shard `s` has accepted `n` connections and all its ids so far fit in 64 bits. */
  predicate Fits(shard: nat, n: nat) { shard * U32 + n < U64 }

  /** Some id has been given out by both shards. */
  ghost predicate Clash(s: nat, n: nat, t: nat, m: nat)
  {
    exists k, l :: 0 <= k < n && 0 <= l < m && ConnId(s, k) == ConnId(t, l)
  }

  lemma PlainId(shard: nat, n: nat, k: nat)
    requires Fits(shard, n) && k < n
    ensures ConnId(shard, k) == shard * U32 + 1 + k
  {
  }

  /** Ids of one shard repeat exactly every 2^64 accepts. */
  lemma ShardIdsRepeatIff(shard: nat, k: nat, l: nat)
    requires k <= l
    ensures ConnId(shard, k) == ConnId(shard, l) <==> (l - k) % U64 == 0
  {
    SameRemainder(shard * U32 + 1 + k, l - k);
  }

  lemma SameRemainder(a: nat, d: nat)
    ensures a % U64 == (a + d) % U64 <==> d % U64 == 0
  {
    var q, r := a / U64, a % U64;
    var p, t := (a + d) / U64, (a + d) % U64;
    if r == t {
      assert d == (p - q) * U64;
      Multiple(p - q);
    }
    if d % U64 == 0 {
      Unique(a + d, q + d / U64, r);
    }
  }

  lemma Multiple(q: int)
    ensures q * U64 % U64 == 0
  {
  }

  lemma Unique(n: nat, q: int, r: nat)
    requires n == q * U64 + r && r < U64
    ensures n % U64 == r
  {
  }

  /** Two shards clash exactly when the lower one has run through the whole range up to the other's first id. */
  lemma ShardsClashIff(s: nat, n: nat, t: nat, m: nat)
    requires s < t && Fits(s, n) && Fits(t, m)
    ensures Clash(s, n, t, m) <==> m > 0 && n > (t - s) * U32
  {
    if m > 0 && n > (t - s) * U32 {
      PlainId(s, n, (t - s) * U32);
      PlainId(t, m, 0);
      assert ConnId(s, (t - s) * U32) == ConnId(t, 0);
    }
    if Clash(s, n, t, m) {
      var k, l :| 0 <= k < n && 0 <= l < m && ConnId(s, k) == ConnId(t, l);
      PlainId(s, n, k);
      PlainId(t, m, l);
    }
  }

  /** So ids are distinct while every shard has accepted at most 2^32 connections. */
  lemma ConnIdsDistinct(s: nat, n: nat, k: nat, t: nat, m: nat, l: nat)
    requires Fits(s, n) && Fits(t, m) && n <= U32 && m <= U32 && k < n && l < m && (s, k) != (t, l)
    ensures ConnId(s, k) != ConnId(t, l)
  {
    PlainId(s, n, k);
    PlainId(t, m, l);
  }
}
