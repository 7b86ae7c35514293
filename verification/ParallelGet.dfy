/**
 The all-or-nothing parallel GET of ffi.rs (`get_many_kv_batch`, embedded arm, and
 `get_kv_blocks` on top of it): one thread per key, and a relaxed `saw_miss` flag that lets a
 thread give up before it reads.
 */
module ParallelGet {
  import opened Bytes
  import opened BatchCodecs
  import opened Tallies

  /** What `get_kv` would answer for a key; a panicking thread counts as an error. */
  datatype Answer<E> = Hits(payload: seq<byte>) | Misses | Fails(error: E)

  type Reply<E> = Result<Option<seq<byte>>, E>

  datatype Thread<E> = Started | Cleared | SawMiss | Joined(reply: Reply<E>)

  /** `missStored`: some thread has executed its store to `saw_miss`. */
  datatype State<E> = State(threads: seq<Thread<E>>, missStored: bool)

  datatype Action = Load(i: nat, seen: bool) | Get(i: nat) | Store(i: nat)

  function Initial<E>(n: nat): (s: State<E>)
  {
    State(seq(n, _ => Started), false)
  }

  /** A relaxed load may always miss a store, but never sees one that was not made. */
  predicate Enabled<E>(s: State<E>, a: Action)
  {
    && a.i < |s.threads|
    && match a
       case Load(i, seen) => s.threads[i].Started? && (seen ==> s.missStored)
       case Get(i) => s.threads[i].Cleared?
       case Store(i) => s.threads[i].SawMiss?
  }

  function Step<E>(answers: seq<Answer<E>>, s: State<E>, a: Action): (r: State<E>)
    requires Enabled(s, a) && |answers| == |s.threads|
    ensures |r.threads| == |s.threads|
  {
    match a
    case Load(i, seen) => s.(threads := s.threads[i := if seen then Joined(Ok(None)) else Cleared])
    case Get(i) =>
      s.(threads := s.threads[i :=
        match answers[i]
        case Hits(payload) => Joined(Ok(Some(payload)))
        case Misses => SawMiss
        case Fails(error) => Joined(Err(error))])
    case Store(i) => State(s.threads[i := Joined(Ok(None))], true)
  }

  predicate Runs<E>(answers: seq<Answer<E>>, s: State<E>, actions: seq<Action>)
    requires |answers| == |s.threads|
    decreases |actions|
  {
    actions == [] || (Enabled(s, actions[0]) && Runs(answers, Step(answers, s, actions[0]), actions[1..]))
  }

  function Exec<E>(answers: seq<Answer<E>>, s: State<E>, actions: seq<Action>): (r: State<E>)
    requires |answers| == |s.threads| && Runs(answers, s, actions)
    ensures |r.threads| == |s.threads|
    decreases |actions|
  {
    if actions == [] then s else Exec(answers, Step(answers, s, actions[0]), actions[1..])
  }

  // ---- the invariant -----------------------------------------------------------

  predicate SomeMiss<E>(answers: seq<Answer<E>>)
  {
    exists k :: 0 <= k < |answers| && answers[k].Misses?
  }

  ghost predicate ThreadOk<E>(t: Thread<E>, answer: Answer<E>, missStored: bool)
  {
    match t
    case SawMiss => answer.Misses?
    case Joined(Ok(Some(payload))) => answer == Hits(payload)
    case Joined(Ok(None)) => answer.Misses? || missStored
    case Joined(Err(error)) => answer == Fails(error)
    case _ => true
  }

  ghost predicate Inv<E>(answers: seq<Answer<E>>, s: State<E>)
  {
    && |answers| == |s.threads|
    && (s.missStored ==> SomeMiss(answers))
    && (forall i {:trigger s.threads[i]} :: 0 <= i < |answers| ==> ThreadOk(s.threads[i], answers[i], s.missStored))
  }

  lemma StepKeeps<E>(answers: seq<Answer<E>>, s: State<E>, a: Action)
    requires Inv(answers, s) && Enabled(s, a)
    ensures Inv(answers, Step(answers, s, a))
  {
    assert ThreadOk(s.threads[a.i], answers[a.i], s.missStored);
    var s' := Step(answers, s, a);
    forall i | 0 <= i < |answers|
      ensures ThreadOk(s'.threads[i], answers[i], s'.missStored)
    {
      assert ThreadOk(s.threads[i], answers[i], s.missStored);
    }
  }

  lemma {:induction false} RunKeeps<E>(answers: seq<Answer<E>>, s: State<E>, actions: seq<Action>)
    requires Inv(answers, s) && Runs(answers, s, actions)
    ensures Inv(answers, Exec(answers, s, actions))
    decreases |actions|
  {
    if actions != [] {
      StepKeeps(answers, s, actions[0]);
      RunKeeps(answers, Step(answers, s, actions[0]), actions[1..]);
    }
  }

  // ---- collecting --------------------------------------------------------------

  predicate AllJoined<E>(s: State<E>)
  {
    forall i :: 0 <= i < |s.threads| ==> s.threads[i].Joined?
  }

  function Replies<E>(s: State<E>): (r: seq<Reply<E>>)
    requires AllJoined(s)
    ensures |r| == |s.threads|
  {
    seq(|s.threads|, i requires 0 <= i < |s.threads| => s.threads[i].reply)
  }

  /** The first reply that is not a payload decides; otherwise all payloads in key order. */
  function Collect<E>(replies: seq<Reply<E>>): (r: Result<Option<seq<seq<byte>>>, E>)
  {
    if replies == [] then Ok(Some([]))
    else match replies[0]
         case Err(e) => Err(e)
         case Ok(None) => Ok(None)
         case Ok(Some(payload)) =>
           match Collect(replies[1..])
           case Err(e) => Err(e)
           case Ok(None) => Ok(None)
           case Ok(Some(rest)) => Ok(Some([payload] + rest))
  }

  /** All replies before the i-th are payloads. */
  predicate PayloadsBefore<E>(replies: seq<Reply<E>>, i: nat)
    requires i <= |replies|
  {
    forall j {:trigger replies[j]} :: 0 <= j < i ==> replies[j].Ok? && replies[j].value.Some?
  }

  ghost predicate FailsFirst<E>(replies: seq<Reply<E>>, e: E)
  {
    exists i {:trigger replies[i]} :: 0 <= i < |replies| && replies[i] == Err(e) && PayloadsBefore(replies, i)
  }

  ghost predicate MissesFirst<E>(replies: seq<Reply<E>>)
  {
    exists i {:trigger replies[i]} :: 0 <= i < |replies| && replies[i] == Ok(None) && PayloadsBefore(replies, i)
  }

  /** The first reply that is not a payload decides. */
  lemma {:induction false} CollectMeans<E>(replies: seq<Reply<E>>)
    ensures match Collect(replies)
            case Err(e) => FailsFirst(replies, e)
            case Ok(None) => MissesFirst(replies)
            case Ok(Some(items)) =>
              |items| == |replies| && forall i :: 0 <= i < |replies| ==> replies[i] == Ok(Some(items[i]))
  {
    if replies != [] {
      CollectMeans(replies[1..]);
      assert forall i :: 1 <= i < |replies| ==> replies[i] == replies[1..][i - 1];
      assert PayloadsBefore(replies, 0);
      if replies[0].Ok? && replies[0].value.Some? {
        assert forall i :: 0 <= i < |replies| - 1 && PayloadsBefore(replies[1..], i) ==> PayloadsBefore(replies, i + 1);
      }
    }
  }

  // ---- the guarantee -----------------------------------------------------------

  predicate AllHit<E>(answers: seq<Answer<E>>)
  {
    forall i :: 0 <= i < |answers| ==> answers[i].Hits?
  }

  function Payloads<E>(answers: seq<Answer<E>>): (r: seq<seq<byte>>)
    requires AllHit(answers)
    ensures |r| == |answers|
  {
    seq(|answers|, i requires 0 <= i < |answers| => answers[i].payload)
  }

  lemma InvMeans<E>(answers: seq<Answer<E>>, s: State<E>)
    requires Inv(answers, s) && AllJoined(s)
    ensures match Collect(Replies(s))
            case Ok(Some(items)) => AllHit(answers) && items == Payloads(answers)
            case Ok(None) => SomeMiss(answers)
            case Err(e) => exists i :: 0 <= i < |answers| && answers[i] == Fails(e)
  {
    var replies := Replies(s);
    CollectMeans(replies);
    forall i | 0 <= i < |answers|
      ensures ThreadOk(Joined(replies[i]), answers[i], s.missStored)
    {
      assert ThreadOk(s.threads[i], answers[i], s.missStored);
    }
  }

  /**
   * For every schedule and every visibility of the flag: payloads come back, in key order,
   * exactly when every key hits; None only if some key missed; an error only if its key failed.
   */
  lemma ParallelGetIsAllOrNothing<E>(answers: seq<Answer<E>>, actions: seq<Action>)
    requires Runs(answers, Initial(|answers|), actions) && AllJoined(Exec(answers, Initial(|answers|), actions))
    ensures var r := Collect(Replies(Exec(answers, Initial(|answers|), actions)));
            && (r.Ok? && r.value.Some? <==> AllHit(answers))
            && (AllHit(answers) ==> r == Ok(Some(Payloads(answers))))
            && (r == Ok(None) ==> SomeMiss(answers))
            && (r.Err? ==> exists i :: 0 <= i < |answers| && answers[i] == Fails(r.error))
  {
    var s: State<E> := Initial(|answers|);
    assert Inv(answers, s);
    RunKeeps(answers, s, actions);
    InvMeans(answers, Exec(answers, s, actions));
  }

  /** From every state of every run the threads can all be brought to an end, so the guarantees above are never empty. */
  lemma {:induction false} CanFinish<E>(answers: seq<Answer<E>>, s: State<E>) returns (actions: seq<Action>)
    requires |answers| == |s.threads|
    ensures Runs(answers, s, actions) && AllJoined(Exec(answers, s, actions))
    decreases Tally(s.threads, ToGo())
  {
    if AllJoined(s) {
      actions := [];
    } else {
      var i :| 0 <= i < |s.threads| && !s.threads[i].Joined?;
      var a := match s.threads[i] case Started => Load(i, false) case Cleared => Get(i) case SawMiss => Store(i);
      var s' := Step(answers, s, a);
      TallyUpdate(s.threads, i, s'.threads[i], ToGo());
      assert s'.threads == s.threads[i := s'.threads[i]];
      var rest := CanFinish(answers, s');
      actions := [a] + rest;
      assert actions[1..] == rest;
    }
  }

  /** How many steps a thread has before it. */
  function ToGo<E>(): (f: Thread<E> -> nat)
  {
    (t: Thread<E>) => match t case Started => 3 case Cleared => 2 case SawMiss => 1 case Joined(_) => 0
  }

  /** A thread that sees the flag gives up: in no run does it read its key. */
  lemma {:induction false} SeenGivesUp<E>(answers: seq<Answer<E>>, s: State<E>, actions: seq<Action>, i: nat, j: nat)
    requires |answers| == |s.threads| && Runs(answers, s, actions)
    requires i < |actions| && actions[i].Load? && actions[i].seen && j < |actions|
    ensures actions[j] != Get(actions[i].i)
    decreases |actions|
  {
    var s' := Step(answers, s, actions[0]);
    if i > 0 && j > 0 {
      SeenGivesUp(answers, s', actions[1..], i - 1, j - 1);
    } else if j > 0 {
      StaysJoined(answers, s', actions[1..], actions[i].i, j - 1);
    } else if i > 0 && actions[0] == Get(actions[i].i) {
      NotStartedAgain(answers, s', actions[1..], actions[i].i, i - 1);
    }
  }

  /** A joined thread does nothing more. */
  lemma {:induction false} StaysJoined<E>(answers: seq<Answer<E>>, s: State<E>, actions: seq<Action>, thread: nat, j: nat)
    requires |answers| == |s.threads| && Runs(answers, s, actions)
    requires thread < |s.threads| && s.threads[thread].Joined? && j < |actions|
    ensures actions[j].i != thread
    decreases |actions|
  {
    if j > 0 {
      StaysJoined(answers, Step(answers, s, actions[0]), actions[1..], thread, j - 1);
    }
  }

  /** A thread loads the flag once. */
  lemma {:induction false} NotStartedAgain<E>(answers: seq<Answer<E>>, s: State<E>, actions: seq<Action>, thread: nat, j: nat)
    requires |answers| == |s.threads| && Runs(answers, s, actions)
    requires thread < |s.threads| && !s.threads[thread].Started? && j < |actions|
    ensures !(actions[j].Load? && actions[j].i == thread)
    decreases |actions|
  {
    if j > 0 {
      NotStartedAgain(answers, Step(answers, s, actions[0]), actions[1..], thread, j - 1);
    }
  }

  // ---- get_kv_blocks -------------------------------------------------------------

  datatype BlocksError<E> = Thread(error: E) | Codec(codec: WireCodecError) | WrongCount(got: nat)

  /** `get_kv_blocks`: the collected payloads travel through the bytes-batch codec. */
  function GetKvBlocks<E>(replies: seq<Reply<E>>): (r: Result<Option<seq<seq<byte>>>, BlocksError<E>>)
  {
    match Collect(replies)
    case Err(e) => Err(Thread(e))
    case Ok(None) => Ok(None)
    case Ok(Some(items)) =>
      match DecodeBytesBatch(EncodeBytesBatch(items))
      case Err(e) => Err(Codec(e))
      case Ok(decoded) => if |decoded| != |replies| then Err(WrongCount(|decoded|)) else Ok(Some(decoded))
  }

  /** Lookup order is kept through the codec whenever counts and lengths fit in 32 bits, and only then. */
  lemma BlocksComeBackIff<E>(answers: seq<Answer<E>>, actions: seq<Action>)
    requires Runs(answers, Initial(|answers|), actions) && AllJoined(Exec(answers, Initial(|answers|), actions))
    requires AllHit(answers)
    ensures var r := GetKvBlocks(Replies(Exec(answers, Initial(|answers|), actions)));
            r == Ok(Some(Payloads(answers))) <==> ItemsFit(Payloads(answers))
  {
    ParallelGetIsAllOrNothing(answers, actions);
    var items := Payloads(answers);
    BytesBatchIff(EncodeBytesBatch(items), items);
  }

  /**
   * What the caller can conclude: blocks are all the payloads in order; None means a miss, and a
   * miss without failing keys means None; an error is that of a failing key, or of a batch that
   * does not fit the codec.
   */
  lemma BlocksOutcome<E>(answers: seq<Answer<E>>, actions: seq<Action>)
    requires Runs(answers, Initial(|answers|), actions) && AllJoined(Exec(answers, Initial(|answers|), actions))
    ensures var r := GetKvBlocks(Replies(Exec(answers, Initial(|answers|), actions)));
            && (r == Ok(None) ==> SomeMiss(answers))
            && (SomeMiss(answers) && NoneFails(answers) ==> r == Ok(None))
            && (r.Err? && r.error.Thread? ==> exists i :: 0 <= i < |answers| && answers[i] == Fails(r.error.error))
            && (r.Err? && !r.error.Thread? ==> AllHit(answers) && !ItemsFit(Payloads(answers)))
            && (AllHit(answers) && ItemsFit(Payloads(answers)) ==> r == Ok(Some(Payloads(answers))))
            && (r.Ok? && r.value.Some? ==> AllHit(answers) && r.value.value == Payloads(answers))
  {
    ParallelGetIsAllOrNothing(answers, actions);
    if AllHit(answers) {
      BlocksComeBackIff(answers, actions);
      var items := Payloads(answers);
      var decoded := DecodeBytesBatch(EncodeBytesBatch(items));
      if decoded.Ok? {
        BytesBatchNeverLies(items, decoded.value);
      }
    }
  }

  predicate NoneFails<E>(answers: seq<Answer<E>>) { forall i :: 0 <= i < |answers| ==> !answers[i].Fails? }

  /** The collecting loop. */
  method CollectLoop<E>(replies: seq<Reply<E>>) returns (r: Result<Option<seq<seq<byte>>>, E>)
    ensures r == Collect(replies)
  {
    var items: seq<seq<byte>> := [];
    assert replies[0..] == replies;
    assert Collect(replies).Ok? && Collect(replies).value.Some? ==> [] + Collect(replies).value.value == Collect(replies).value.value;
    for i := 0 to |replies|
      invariant match Collect(replies[i..])
                case Err(e) => Collect(replies) == Err(e)
                case Ok(None) => Collect(replies) == Ok(None)
                case Ok(Some(rest)) => Collect(replies) == Ok(Some(items + rest))
    {
      assert replies[i..][1..] == replies[i + 1..];
      match replies[i]
      case Err(e) => return Err(e);
      case Ok(None) => return Ok(None);
      case Ok(Some(payload)) =>
        ghost var more := Collect(replies[i + 1..]);
        if more.Ok? && more.value.Some? {
          Associative(items, [payload], more.value.value);
        }
        items := items + [payload];
    }
    assert replies[|replies|..] == [] && items + [] == items;
    return Ok(Some(items));
  }
}
