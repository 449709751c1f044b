/** ConcurrentQueue.h with the scoped lock of Lock.h: a queue behind one mutex and one condition variable, as a
    step system with any number of threads. A producer broadcasts after it has released the mutex. */
module ConcurrentQueue {
  datatype Call<T> = Push(data: T) | Empty | TryPop | WaitAndPop | WaitAndPopFor(timeout: nat)

  /** What a call gives back; Nothing is the false of tryPop and of the timed waitAndPop. */
  datatype Reply<T> = Pushed | IsEmpty(empty: bool) | Popped(value: T) | Nothing

  /** Where a thread is. */
  datatype Place<T> =
    | Idle
    | Locking(call: Call<T>)                    // in the constructor of the scoped lock
    | Inside(call: Call<T>)                     // holds the mutex, at the start of the body or of the loop
    | HasPushed                                 // holds the mutex, its element is in the queue
    | Unlocked                                  // after lock.unlock(), before the broadcast
    | Asleep(call: Call<T>)                     // in the conditional wait
    | Relocking(call: Call<T>, expired: bool)   // woken up, waiting for the mutex
    | Leaving(reply: Reply<T>)                  // in the destructor of the scoped lock

  /** A thread: its place, m_locked of its scoped lock, and what it has done: the replies of its finished calls,
      the elements it removed, and how often its scoped locks locked and unlocked the mutex. */
  datatype Thread<T> = Thread(place: Place<T>, flag: bool, replies: seq<Reply<T>>, taken: seq<T>,
                              locks: nat, unlocks: nat)

  /** The mutex, m_queue, the threads, and everything that was ever pushed and popped, in order. */
  datatype State<T> = State(held: bool, queue: seq<T>, threads: seq<Thread<T>>, pushed: seq<T>, popped: seq<T>)

  /** One step: a thread starts a call, runs on from its place, wakes up for no reason, or has waited long enough. */
  datatype Step<T> = Start(t: nat, call: Call<T>) | Run(t: nat) | Wake(t: nat) | Expire(t: nat)

  // ----- the steps -----

  predicate Waits<T>(call: Call<T>) {
    call.WaitAndPop? || call.WaitAndPopFor?
  }

  /** A timeout of zero means no timeout. */
  predicate CanExpire<T>(call: Call<T>) {
    call.WaitAndPopFor? && call.timeout != 0
  }

  /** A thread is held up only by the mutex and by the conditional wait. */
  predicate CanRun<T>(s: State<T>, t: nat)
    requires t < |s.threads|
  {
    match s.threads[t].place
    case Idle => false
    case Asleep(_) => false
    case Locking(_) => !s.held
    case Relocking(_, _) => !s.held
    case _ => true
  }

  predicate Enabled<T>(s: State<T>, step: Step<T>) {
    step.t < |s.threads| &&
    match step
    case Start(t, _) => s.threads[t].place.Idle?
    case Run(t) => CanRun(s, t)
    case Wake(t) => s.threads[t].place.Asleep?
    case Expire(t) => s.threads[t].place.Asleep? && CanExpire(s.threads[t].place.call)
  }

  /** Everyone in the conditional wait leaves it. */
  function WakeAll<T>(threads: seq<Thread<T>>): seq<Thread<T>> {
    seq(|threads|, i requires 0 <= i < |threads| => WakeOne(threads[i]))
  }

  function WakeOne<T>(th: Thread<T>): Thread<T> {
    if th.place.Asleep? then th.(place := Relocking(th.place.call, false)) else th
  }

  /** Remove the oldest element and return with it. */
  function PopFront<T>(s: State<T>, t: nat): State<T>
    requires t < |s.threads| && |s.queue| > 0
  {
    var v, th := s.queue[0], s.threads[t];
    s.(queue := s.queue[1..], popped := s.popped + [v],
       threads := s.threads[t := th.(place := Leaving(Popped(v)), taken := th.taken + [v])])
  }

  function Return<T>(s: State<T>, t: nat, reply: Reply<T>): State<T>
    requires t < |s.threads|
  {
    s.(threads := s.threads[t := s.threads[t].(place := Leaving(reply))])
  }

  /** The bodies, with the mutex held. Going to sleep releases the mutex in the same step. */
  function RunBody<T>(s: State<T>, t: nat, call: Call<T>): State<T>
    requires t < |s.threads|
  {
    match call
    case Push(data) =>
      s.(queue := s.queue + [data], pushed := s.pushed + [data],
         threads := s.threads[t := s.threads[t].(place := HasPushed)])
    case Empty => Return(s, t, IsEmpty(|s.queue| == 0))
    case TryPop => if |s.queue| == 0 then Return(s, t, Nothing) else PopFront(s, t)
    case _ =>
      if |s.queue| > 0 then PopFront(s, t)
      else s.(held := false, threads := s.threads[t := s.threads[t].(place := Asleep(call))])
  }

  function RunOn<T>(s: State<T>, t: nat): State<T>
    requires t < |s.threads| && CanRun(s, t)
  {
    var th := s.threads[t];
    match th.place
    case Locking(call) =>
      s.(held := true, threads := s.threads[t := th.(place := Inside(call), flag := true, locks := th.locks + 1)])
    case Inside(call) => RunBody(s, t, call)
    case HasPushed =>
      s.(held := false, threads := s.threads[t := th.(place := Unlocked, flag := false, unlocks := th.unlocks + 1)])
    case Unlocked => s.(threads := WakeAll(s.threads)[t := th.(place := Leaving(Pushed))])
    case Relocking(call, expired) =>
      s.(held := true, threads := s.threads[t := th.(place := if expired then Leaving(Nothing) else Inside(call))])
    case Leaving(reply) =>
      var done := th.(place := Idle, replies := th.replies + [reply]);
      if th.flag then s.(held := false, threads := s.threads[t := done.(unlocks := th.unlocks + 1)])
      else s.(threads := s.threads[t := done])
    case _ => s
  }

  function Apply<T>(s: State<T>, step: Step<T>): State<T>
    requires Enabled(s, step)
  {
    var th := s.threads[step.t];
    match step
    case Start(t, call) => s.(threads := s.threads[t := th.(place := Locking(call))])
    case Run(t) => RunOn(s, t)
    case Wake(t) => s.(threads := s.threads[t := WakeOne(th)])
    case Expire(t) => s.(threads := s.threads[t := th.(place := Relocking(th.place.call, true))])
  }

  /** A new queue, before any call. */
  predicate Initial<T>(s: State<T>) {
    && !s.held && s.queue == [] && s.pushed == [] && s.popped == []
    && forall t :: 0 <= t < |s.threads| ==> s.threads[t] == Thread(Idle, false, [], [], 0, 0)
  }

  /** A run: every step is enabled in the state the steps before it lead to. */
  predicate IsRun<T>(s: State<T>, steps: seq<Step<T>>)
    decreases |steps|
  {
    |steps| == 0 || (Enabled(s, steps[0]) && IsRun(Apply(s, steps[0]), steps[1..]))
  }

  function After<T>(s: State<T>, steps: seq<Step<T>>): State<T>
    requires IsRun(s, steps)
    decreases |steps|
  {
    if |steps| == 0 then s else After(Apply(s, steps[0]), steps[1..])
  }

  // ----- what holds in every reachable state -----

  /** The thread is between a lock of the mutex and the unlock that belongs to it. */
  predicate Holds<T>(th: Thread<T>) {
    th.place.Inside? || th.place.HasPushed? || (th.place.Leaving? && th.flag)
  }

  /** The elements that the replies handed out. */
  function Values<T>(replies: seq<Reply<T>>): seq<T> {
    if |replies| == 0 then []
    else Values(replies[..|replies| - 1]) + Value(replies[|replies| - 1])
  }

  function Value<T>(reply: Reply<T>): seq<T> {
    if reply.Popped? then [reply.value] else []
  }

  /** The reply that a call on its way out will give. */
  function Pending<T>(place: Place<T>): seq<T> {
    if place.Leaving? then Value(place.reply) else []
  }

  /** The scoped lock exists and has not unlocked the mutex yet. */
  predicate Scoped<T>(th: Thread<T>) {
    match th.place
    case Idle => false
    case Locking(_) => false
    case Unlocked => false
    case Leaving(reply) => !reply.Pushed?
    case _ => true
  }

  /** Calls that have passed the constructor of their scoped lock but have not returned. */
  function Begun<T>(place: Place<T>): nat {
    if place.Idle? || place.Locking? then 0 else 1
  }

  ghost predicate ThreadOk<T>(th: Thread<T>) {
    && (Begun(th.place) == 1 ==> (th.flag <==> Scoped(th)))
    && th.locks == |th.replies| + Begun(th.place)
    && th.locks == th.unlocks + (if Scoped(th) then 1 else 0)
    && th.taken == Values(th.replies) + Pending(th.place)
    && (th.place.Asleep? || th.place.Relocking? ==> Waits(th.place.call))
    && (th.place.Relocking? && th.place.expired ==> CanExpire(th.place.call))
  }

  ghost predicate ThreadsOk<T>(s: State<T>) {
    forall t :: 0 <= t < |s.threads| ==> ThreadOk(s.threads[t])
  }

  /** At most one thread holds the mutex, and it is locked exactly when one does. */
  ghost predicate MutexOk<T>(s: State<T>) {
    && (s.held <==> exists t :: 0 <= t < |s.threads| && Holds(s.threads[t]))
    && forall t, u :: 0 <= t < u < |s.threads| ==> !(Holds(s.threads[t]) && Holds(s.threads[u]))
  }

  ghost predicate SomeoneAsleep<T>(s: State<T>) {
    exists t :: 0 <= t < |s.threads| && s.threads[t].place.Asleep?
  }

  /** A producer whose element is in the queue has yet to broadcast. */
  predicate Announces<T>(th: Thread<T>) {
    th.place.HasPushed? || th.place.Unlocked?
  }

  ghost predicate WakeupsOk<T>(s: State<T>) {
    |s.queue| > 0 && SomeoneAsleep(s) ==> exists t :: 0 <= t < |s.threads| && Announces(s.threads[t])
  }

  ghost predicate Inv<T>(s: State<T>) {
    ThreadsOk(s) && MutexOk(s) && WakeupsOk(s) && s.pushed == s.popped + s.queue
  }

  /** A step only changes the thread that takes it, except that a broadcast wakes up the others. */
  lemma OthersAfter<T>(s: State<T>, step: Step<T>, u: nat)
    requires Enabled(s, step) && u < |s.threads| && u != step.t
    ensures |Apply(s, step).threads| == |s.threads|
    ensures var th := s.threads[u];
            Apply(s, step).threads[u]
              == if step.Run? && s.threads[step.t].place.Unlocked? then WakeOne(th) else th
  {
  }

  lemma ThreadKept<T>(s: State<T>, step: Step<T>)
    requires Enabled(s, step) && ThreadOk(s.threads[step.t])
    ensures |Apply(s, step).threads| == |s.threads| && ThreadOk(Apply(s, step).threads[step.t])
  {
    hide ThreadOk, RunBody;
    var th := s.threads[step.t];
    if step.Run? && th.place.Leaving? {
      LeaveKept(s, step.t);
    } else if step.Run? && th.place.Inside? {
      BodyKept(s, step.t, th.place.call);
    } else {
      MoveKept(s, step);
    }
  }

  lemma MoveKept<T>(s: State<T>, step: Step<T>)
    requires Enabled(s, step) && ThreadOk(s.threads[step.t])
    requires step.Run? ==> !s.threads[step.t].place.Leaving? && !s.threads[step.t].place.Inside?
    ensures |Apply(s, step).threads| == |s.threads| && ThreadOk(Apply(s, step).threads[step.t])
  {
    hide RunBody, Values;
  }

  lemma LeaveKept<T>(s: State<T>, t: nat)
    requires t < |s.threads| && s.threads[t].place.Leaving? && ThreadOk(s.threads[t])
    ensures ThreadOk(RunOn(s, t).threads[t])
  {
    hide RunBody, Values, Value, WakeAll;
    var th := s.threads[t];
    var th' := RunOn(s, t).threads[t];
    assert Values(th'.replies) == Values(th.replies) + Value(th.place.reply) by {
      ReplyCounts(th.replies, th.place.reply);
    }
    assert Pending(th'.place) == [];
  }

  lemma BodyKept<T>(s: State<T>, t: nat, call: Call<T>)
    requires t < |s.threads| && s.threads[t].place == Inside(call) && ThreadOk(s.threads[t])
    ensures |RunBody(s, t, call).threads| == |s.threads| && ThreadOk(RunBody(s, t, call).threads[t])
  {
    hide Values;
  }

  lemma ReplyCounts<T>(replies: seq<Reply<T>>, reply: Reply<T>)
    ensures Values(replies + [reply]) == Values(replies) + Value(reply)
  {
    assert (replies + [reply])[..|replies|] == replies;
  }

  lemma ThreadsKept<T>(s: State<T>, step: Step<T>)
    requires ThreadsOk(s) && Enabled(s, step)
    ensures ThreadsOk(Apply(s, step))
  {
    hide Apply, ThreadOk;
    assert ThreadOk(s.threads[step.t]);
    forall u | 0 <= u < |Apply(s, step).threads|
      ensures ThreadOk(Apply(s, step).threads[u])
    {
      ThreadKept(s, step);
      if u != step.t {
        OthersAfter(s, step, u);
        WokenOk(s.threads[u]);
      }
    }
  }

  lemma WokenOk<T>(th: Thread<T>)
    requires ThreadOk(th)
    ensures ThreadOk(WakeOne(th))
  {
  }

  /** A thread only takes the mutex when it is free, and only gives it up when it holds it. */
  lemma MutexStep<T>(s: State<T>, step: Step<T>)
    requires Enabled(s, step) && ThreadOk(s.threads[step.t])
    ensures var s' := Apply(s, step);
            && |s'.threads| == |s.threads|
            && match (Holds(s.threads[step.t]), Holds(s'.threads[step.t]))
               case (false, true) => !s.held && s'.held
               case (true, false) => !s'.held
               case _ => s'.held == s.held
  {
    hide Values;
  }

  lemma MutexKept<T>(s: State<T>, step: Step<T>)
    requires ThreadsOk(s) && MutexOk(s) && Enabled(s, step)
    ensures MutexOk(Apply(s, step))
  {
    hide Apply, ThreadOk;
    var t, s' := step.t, Apply(s, step);
    MutexStep(s, step);
    forall u | 0 <= u < |s.threads| && u != t
      ensures Holds(s'.threads[u]) <==> Holds(s.threads[u])
    {
      OthersAfter(s, step, u);
    }
    if s'.held && !Holds(s'.threads[t]) {
      var u :| 0 <= u < |s.threads| && Holds(s.threads[u]);
      assert Holds(s'.threads[u]);
    }
  }

  lemma WakeupsKept<T>(s: State<T>, step: Step<T>)
    requires WakeupsOk(s) && Enabled(s, step)
    ensures WakeupsOk(Apply(s, step))
  {
    var t, s' := step.t, Apply(s, step);
    if |s'.queue| > 0 && SomeoneAsleep(s') {
      var u :| 0 <= u < |s'.threads| && s'.threads[u].place.Asleep?;
      if Announces(s'.threads[t]) {
      } else {
        assert s.threads[u].place.Asleep?;
        var p :| 0 <= p < |s.threads| && Announces(s.threads[p]);
        assert p != t && Announces(s'.threads[p]);
      }
    }
  }

  lemma HistoryKept<T>(s: State<T>, step: Step<T>)
    requires s.pushed == s.popped + s.queue && Enabled(s, step)
    ensures var s' := Apply(s, step); s'.pushed == s'.popped + s'.queue
  {
  }

  /** The invariant holds in every state of every run. */
  lemma {:induction false} InvKept<T>(s: State<T>, steps: seq<Step<T>>)
    requires Inv(s) && IsRun(s, steps)
    ensures Inv(After(s, steps))
    decreases |steps|
  {
    hide ThreadsOk, MutexOk, WakeupsOk, Apply;
    if |steps| > 0 {
      ThreadsKept(s, steps[0]);
      MutexKept(s, steps[0]);
      WakeupsKept(s, steps[0]);
      HistoryKept(s, steps[0]);
      InvKept(Apply(s, steps[0]), steps[1..]);
    }
  }

  lemma InitialInv<T>(s: State<T>)
    requires Initial(s)
    ensures Inv(s)
  {
  }

  lemma Reached<T>(s: State<T>, steps: seq<Step<T>>)
    requires Initial(s) && IsRun(s, steps)
    ensures Inv(After(s, steps))
  {
    InitialInv(s);
    InvKept(s, steps);
  }

  // ----- the promises, for every run from a new queue -----

  /** At most one thread is between its lock and its unlock of the mutex, and the mutex is locked just then. */
  lemma MutualExclusion<T>(s: State<T>, steps: seq<Step<T>>, t: nat, u: nat)
    requires Initial(s) && IsRun(s, steps)
    requires t < |After(s, steps).threads| && u < |After(s, steps).threads|
    ensures var end := After(s, steps);
            && (Holds(end.threads[t]) && Holds(end.threads[u]) ==> t == u)
            && (Holds(end.threads[t]) ==> end.held)
            && (end.held <==> exists v :: 0 <= v < |end.threads| && Holds(end.threads[v]))
  {
    Reached(s, steps);
  }

  /** Every finished call has locked the mutex once and its scoped lock has unlocked it once, whether early in
      unlock() or in the destructor; a call in progress has unlocked it at most once. */
  lemma ReleasedOnce<T>(s: State<T>, steps: seq<Step<T>>, t: nat)
    requires Initial(s) && IsRun(s, steps) && t < |After(s, steps).threads|
    ensures var th := After(s, steps).threads[t];
            && (th.place.Idle? ==> th.locks == th.unlocks == |th.replies|)
            && |th.replies| <= th.unlocks <= th.locks <= |th.replies| + 1
  {
    Reached(s, steps);
    assert ThreadOk(After(s, steps).threads[t]);
  }

  /** What was pushed is what was popped, in the same order, and then what is still in the queue. */
  lemma FirstInFirstOut<T>(s: State<T>, steps: seq<Step<T>>)
    requires Initial(s) && IsRun(s, steps)
    ensures var end := After(s, steps); end.pushed == end.popped + end.queue
  {
    Reached(s, steps);
  }

  /** A call that answers false has removed nothing; one that hands out an element has removed just that one. */
  lemma RemovesWhatItReturns<T>(s: State<T>, before: seq<Step<T>>, during: seq<Step<T>>, t: nat, reply: Reply<T>)
    requires Initial(s) && IsRun(s, before) && IsRun(After(s, before), during)
    requires t < |After(s, before).threads| && t < |After(After(s, before), during).threads|
    requires var th, th' := After(s, before).threads[t], After(After(s, before), during).threads[t];
             th.place.Idle? && th'.place.Idle? && th'.replies == th.replies + [reply]
    ensures var th, th' := After(s, before).threads[t], After(After(s, before), during).threads[t];
            && (reply == Nothing ==> th'.taken == th.taken)
            && (reply.Popped? ==> th'.taken == th.taken + [reply.value])
  {
    Reached(s, before);
    InvKept(After(s, before), during);
    var th, th' := After(s, before).threads[t], After(After(s, before), during).threads[t];
    assert ThreadOk(th) && ThreadOk(th');
    ReplyCounts(th.replies, reply);
  }

  /** All elements that the threads removed. */
  ghost function Taken<T>(threads: seq<Thread<T>>): multiset<T> {
    if |threads| == 0 then multiset{}
    else Taken(threads[..|threads| - 1]) + multiset(threads[|threads| - 1].taken)
  }

  lemma {:induction false} TakenUpdate<T>(threads: seq<Thread<T>>, t: nat, th: Thread<T>)
    requires t < |threads|
    ensures Taken(threads[t := th]) + multiset(threads[t].taken) == Taken(threads) + multiset(th.taken)
  {
    var last := |threads| - 1;
    var front, updated := threads[..last], threads[t := th];
    if t == last {
      assert updated[..last] == front;
    } else {
      TakenUpdate(front, t, th);
      assert updated[..last] == front[t := th] && updated[last] == threads[last];
      AddToBoth(Taken(front[t := th]), multiset(threads[t].taken), Taken(front), multiset(th.taken),
                multiset(threads[last].taken));
    }
  }

  lemma AddToBoth<T>(a: multiset<T>, b: multiset<T>, c: multiset<T>, d: multiset<T>, rest: multiset<T>)
    requires a + b == c + d
    ensures (a + rest) + b == (c + rest) + d
  {
    assert (a + rest) + b == (a + b) + rest;
    assert (c + rest) + d == (c + d) + rest;
  }

  lemma Cancel<T>(a: multiset<T>, b: multiset<T>, c: multiset<T>, d: multiset<T>)
    requires a + b == c + (b + d)
    ensures a == c + d
  {
    assert a == (a + b) - b;
    assert c + d == (c + (b + d)) - b;
  }

  lemma {:induction false} TakenWake<T>(threads: seq<Thread<T>>)
    ensures Taken(WakeAll(threads)) == Taken(threads)
  {
    if |threads| > 0 {
      TakenWake(threads[..|threads| - 1]);
      assert WakeAll(threads)[..|threads| - 1] == WakeAll(threads[..|threads| - 1]);
    }
  }

  lemma TakenStep<T>(s: State<T>, step: Step<T>)
    requires Enabled(s, step) && multiset(s.popped) == Taken(s.threads)
    ensures multiset(Apply(s, step).popped) == Taken(Apply(s, step).threads)
  {
    hide Taken;
    var t := step.t;
    var th, th' := s.threads[t], Apply(s, step).threads[t];
    if step.Run? && th.place.Unlocked? {
      TakenWake(s.threads);
      TakenUpdate(WakeAll(s.threads), t, th');
      Cancel(Taken(Apply(s, step).threads), multiset(th.taken), Taken(s.threads), multiset{});
    } else {
      TakenUpdate(s.threads, t, th');
      var v := PoppedStep(s, step);
      Cancel(Taken(Apply(s, step).threads), multiset(th.taken), Taken(s.threads), multiset(v));
    }
  }

  /** What a step removes, the thread that takes it gets. */
  lemma PoppedStep<T>(s: State<T>, step: Step<T>) returns (v: seq<T>)
    requires Enabled(s, step) && !(step.Run? && s.threads[step.t].place.Unlocked?)
    ensures |Apply(s, step).threads| == |s.threads|
    ensures var th' := Apply(s, step).threads[step.t];
            && Apply(s, step).threads == s.threads[step.t := th']
            && th'.taken == s.threads[step.t].taken + v && Apply(s, step).popped == s.popped + v
  {
    var th' := Apply(s, step).threads[step.t];
    if step.Run? && th'.place.Leaving? && th'.place.reply.Popped? && |s.queue| > 0 && !s.threads[step.t].place.Relocking? {
      v := [s.queue[0]];
    } else {
      v := [];
    }
  }

  lemma {:induction false} TakenKept<T>(s: State<T>, steps: seq<Step<T>>)
    requires IsRun(s, steps) && multiset(s.popped) == Taken(s.threads)
    ensures multiset(After(s, steps).popped) == Taken(After(s, steps).threads)
    decreases |steps|
  {
    hide Apply, Taken;
    if |steps| > 0 {
      TakenStep(s, steps[0]);
      TakenKept(Apply(s, steps[0]), steps[1..]);
    }
  }

  /** No element is lost, made up or handed out twice: what was pushed is what the threads have removed, together
      with what is still in the queue. */
  lemma Conservation<T>(s: State<T>, steps: seq<Step<T>>)
    requires Initial(s) && IsRun(s, steps)
    ensures var end := After(s, steps); multiset(end.pushed) == Taken(end.threads) + multiset(end.queue)
  {
    NothingTaken(s.threads);
    TakenKept(s, steps);
    FirstInFirstOut(s, steps);
  }

  lemma {:induction false} NothingTaken<T>(threads: seq<Thread<T>>)
    requires forall t :: 0 <= t < |threads| ==> threads[t].taken == []
    ensures Taken(threads) == multiset{}
  {
    if |threads| > 0 {
      NothingTaken(threads[..|threads| - 1]);
    }
  }

  /** Broadcasting outside the lock loses no wakeup: while someone sleeps although there is an element, a producer
      that has added one has yet to broadcast. When the mutex is free, it is between its unlock and its broadcast. */
  lemma NoLostWakeup<T>(s: State<T>, steps: seq<Step<T>>)
    requires Initial(s) && IsRun(s, steps)
    requires |After(s, steps).queue| > 0 && SomeoneAsleep(After(s, steps))
    ensures var end := After(s, steps);
            && (exists p :: 0 <= p < |end.threads| && Announces(end.threads[p]))
            && (!end.held ==> exists p :: 0 <= p < |end.threads| && end.threads[p].place.Unlocked?)
  {
    Reached(s, steps);
    var end := After(s, steps);
    var p :| 0 <= p < |end.threads| && Announces(end.threads[p]);
    if !end.held {
      assert !Holds(end.threads[p]);
    }
  }

  /** The only producer with an element to announce is the one that holds the mutex. */
  ghost predicate OnlyHolderAnnounces<T>(s: State<T>, p: nat) {
    && p < |s.threads| && s.threads[p].place.HasPushed?
    && forall q :: 0 <= q < |s.threads| && Announces(s.threads[q]) ==> q == p
  }

  /** Exactly when somebody is between unlock and broadcast although someone sleeps beside an element: always,
      except while the only producer with something to announce still holds the mutex. */
  lemma UnlockedExactly<T>(s: State<T>, steps: seq<Step<T>>)
    requires Initial(s) && IsRun(s, steps)
    requires |After(s, steps).queue| > 0 && SomeoneAsleep(After(s, steps))
    ensures var end := After(s, steps);
            (exists p :: 0 <= p < |end.threads| && end.threads[p].place.Unlocked?) <==>
              !exists p: nat :: OnlyHolderAnnounces(end, p)
  {
    hide ThreadsOk;
    Reached(s, steps);
    var end := After(s, steps);
    var p :| 0 <= p < |end.threads| && Announces(end.threads[p]);
    if end.threads[p].place.HasPushed? && !OnlyHolderAnnounces(end, p) {
      var q :| 0 <= q < |end.threads| && Announces(end.threads[q]) && q != p;
      OtherAnnounces(end, p, q);
    }
  }

  lemma OtherAnnounces<T>(s: State<T>, p: nat, q: nat)
    requires MutexOk(s) && p < |s.threads| && q < |s.threads| && p != q
    requires s.threads[p].place.HasPushed? && Announces(s.threads[q])
    ensures s.threads[q].place.Unlocked?
  {
    var first, second := if p < q then p else q, if p < q then q else p;
    assert !(Holds(s.threads[first]) && Holds(s.threads[second]));
  }

  // Two threads, both idle; then one of them asleep; then an element added by the other.

  const NEW_THREAD: Thread<int> := Thread(Idle, false, [], [], 0, 0)
  const SLEEPER: Thread<int> := Thread(Asleep(WaitAndPop), true, [], [], 1, 0)

  function BothIdle(): State<int> {
    State(false, [], [NEW_THREAD, NEW_THREAD], [], [])
  }

  function OneAsleep(): State<int> {
    State(false, [], [SLEEPER, NEW_THREAD], [], [])
  }

  function OneAdded(): State<int> {
    State(true, [7], [SLEEPER, Thread(HasPushed, true, [], [], 1, 0)], [7], [])
  }

  /** While the producer still holds the mutex, nobody need be between unlock and broadcast: a consumer falls
      asleep, then a producer adds an element. */
  lemma AsleepWhilePushing()
    ensures Initial(BothIdle())
    ensures var steps := [Start(0, WaitAndPop), Run(0), Run(0)] + [Start(1, Push(7)), Run(1), Run(1)];
            IsRun(BothIdle(), steps) && After(BothIdle(), steps) == OneAdded()
    ensures var end := OneAdded();
            && |end.queue| > 0 && end.held && SomeoneAsleep(end)
            && forall p :: 0 <= p < |end.threads| ==> !end.threads[p].place.Unlocked?
  {
    hide IsRun, After, BothIdle, OneAsleep;
    ProducerAdds();
    ConsumerSleeps([Start(1, Push(7)), Run(1), Run(1)], OneAdded());
    BothNew();
    assert OneAdded().threads[0].place.Asleep?;
  }

  lemma BothNew()
    ensures Initial(BothIdle())
  {
  }

  lemma ConsumerSleeps(rest: seq<Step<int>>, end: State<int>)
    requires IsRun(OneAsleep(), rest) && After(OneAsleep(), rest) == end
    ensures var steps := [Start(0, WaitAndPop), Run(0), Run(0)] + rest;
            IsRun(BothIdle(), steps) && After(BothIdle(), steps) == end
  {
    hide IsRun, After;
    var s1 := Apply(BothIdle(), Start(0, WaitAndPop));
    var s2 := Apply(s1, Run(0));
    assert Apply(s2, Run(0)) == OneAsleep();
    FollowStep(s2, Run(0), rest, end);
    FollowStep(s1, Run(0), [Run(0)] + rest, end);
    FollowStep(BothIdle(), Start(0, WaitAndPop), [Run(0)] + ([Run(0)] + rest), end);
    assert [Start(0, WaitAndPop)] + ([Run(0)] + ([Run(0)] + rest)) == [Start(0, WaitAndPop), Run(0), Run(0)] + rest;
  }

  lemma ProducerAdds()
    ensures var steps := [Start(1, Push(7)), Run(1), Run(1)];
            IsRun(OneAsleep(), steps) && After(OneAsleep(), steps) == OneAdded()
  {
    var s1 := Apply(OneAsleep(), Start(1, Push(7)));
    var s2 := Apply(s1, Run(1));
    assert Apply(s2, Run(1)) == OneAdded();
    FollowStep(s2, Run(1), [], OneAdded());
    FollowStep(s1, Run(1), [Run(1)] + [], OneAdded());
    FollowStep(OneAsleep(), Start(1, Push(7)), [Run(1)] + ([Run(1)] + []), OneAdded());
    assert [Start(1, Push(7))] + ([Run(1)] + ([Run(1)] + [])) == [Start(1, Push(7)), Run(1), Run(1)];
  }

  lemma FollowStep<T>(s: State<T>, step: Step<T>, rest: seq<Step<T>>, end: State<T>)
    requires Enabled(s, step) && IsRun(Apply(s, step), rest) && After(Apply(s, step), rest) == end
    ensures IsRun(s, [step] + rest) && After(s, [step] + rest) == end
  {
    assert ([step] + rest)[1..] == rest;
  }

  // ----- progress -----

  /** The steps a thread can still take by itself, counting the ones that its broadcast gives to others. */
  function Work<T>(place: Place<T>, n: nat): nat {
    match place
    case Idle => 0
    case Asleep(_) => 0
    case Leaving(_) => 1
    case Inside(call) => if call.Push? then 4 + 3 * n else 2
    case Locking(call) => if call.Push? then 5 + 3 * n else 3
    case HasPushed => 3 + 3 * n
    case Unlocked => 2 + 3 * n
    case Relocking(_, _) => 3
  }

  function TotalWork<T>(threads: seq<Thread<T>>, n: nat): nat {
    if |threads| == 0 then 0
    else TotalWork(threads[..|threads| - 1], n) + Work(threads[|threads| - 1].place, n)
  }

  lemma {:induction false} WorkUpdate<T>(threads: seq<Thread<T>>, t: nat, th: Thread<T>, n: nat)
    requires t < |threads|
    ensures TotalWork(threads[t := th], n) == TotalWork(threads, n) - Work(threads[t].place, n) + Work(th.place, n)
    decreases |threads|
  {
    hide Work;
    var last := |threads| - 1;
    var front := threads[..last];
    if t == last {
      assert threads[t := th][..last] == front;
    } else {
      WorkUpdate(front, t, th, n);
      assert threads[t := th][..last] == front[t := th];
    }
  }

  lemma {:induction false} WorkWake<T>(threads: seq<Thread<T>>, n: nat)
    ensures TotalWork(WakeAll(threads), n) <= TotalWork(threads, n) + 3 * |threads|
    decreases |threads|
  {
    if |threads| > 0 {
      WorkWake(threads[..|threads| - 1], n);
      assert WakeAll(threads)[..|threads| - 1] == WakeAll(threads[..|threads| - 1]);
    }
  }

  /** Every step that a thread takes by itself uses up some of the work. */
  lemma WorkShrinks<T>(s: State<T>, t: nat)
    requires Enabled(s, Run(t)) && ThreadOk(s.threads[t])
    ensures var s' := Apply(s, Run(t));
            |s'.threads| == |s.threads| && TotalWork(s'.threads, |s.threads|) < TotalWork(s.threads, |s.threads|)
  {
    hide TotalWork, Values;
    var th', n := Apply(s, Run(t)).threads[t], |s.threads|;
    if s.threads[t].place.Unlocked? {
      WorkWake(s.threads, n);
      WorkUpdate(WakeAll(s.threads), t, th', n);
    } else {
      WorkUpdate(s.threads, t, th', n);
    }
  }

  /** Left to themselves, without new calls, spurious wakeups or timeouts, the threads only take so many steps. */
  lemma {:induction false} RunsEnd<T>(s: State<T>, steps: seq<Step<T>>)
    requires Inv(s) && IsRun(s, steps) && forall i :: 0 <= i < |steps| ==> steps[i].Run?
    ensures |After(s, steps).threads| == |s.threads|
    ensures |steps| + TotalWork(After(s, steps).threads, |s.threads|) <= TotalWork(s.threads, |s.threads|)
    decreases |steps|
  {
    hide Apply, TotalWork, MutexOk, WakeupsOk;
    if |steps| > 0 {
      assert ThreadOk(s.threads[steps[0].t]);
      WorkShrinks(s, steps[0].t);
      ThreadsKept(s, steps[0]);
      MutexKept(s, steps[0]);
      WakeupsKept(s, steps[0]);
      HistoryKept(s, steps[0]);
      RunsEnd(Apply(s, steps[0]), steps[1..]);
    }
  }

  /** When no thread can run on by itself, the mutex is free, every thread is outside a call or asleep, and nobody
      sleeps while there is an element: no deadlock, and no wakeup that only a timeout could make good. */
  lemma Settled<T>(s: State<T>)
    requires Inv(s) && forall t :: 0 <= t < |s.threads| ==> !CanRun(s, t)
    ensures !s.held
    ensures forall t :: 0 <= t < |s.threads| ==> s.threads[t].place.Idle? || s.threads[t].place.Asleep?
    ensures |s.queue| > 0 ==> !SomeoneAsleep(s)
  {
    if s.held {
      var t :| 0 <= t < |s.threads| && Holds(s.threads[t]);
      assert CanRun(s, t);
    }
    forall t | 0 <= t < |s.threads|
      ensures s.threads[t].place.Idle? || s.threads[t].place.Asleep?
    {
      assert !CanRun(s, t);
    }
  }

  /** From any reachable state the threads settle after a bounded number of steps, in any order, and then no
      consumer waits for an element that is there. */
  lemma ElementsGetTaken<T>(s: State<T>, before: seq<Step<T>>, steps: seq<Step<T>>)
    requires Initial(s) && IsRun(s, before) && IsRun(After(s, before), steps)
    requires forall i :: 0 <= i < |steps| ==> steps[i].Run?
    ensures var now := After(s, before);
            && |steps| <= TotalWork(now.threads, |now.threads|)
            && var end := After(now, steps);
               (forall t :: 0 <= t < |end.threads| ==> !CanRun(end, t)) ==>
                 && !end.held
                 && (forall t :: 0 <= t < |end.threads| ==> end.threads[t].place.Idle? || end.threads[t].place.Asleep?)
                 && (|end.queue| == 0 || !SomeoneAsleep(end))
  {
    hide TotalWork, Inv;
    Reached(s, before);
    RunsEnd(After(s, before), steps);
    InvKept(After(s, before), steps);
    var end := After(After(s, before), steps);
    if forall t :: 0 <= t < |end.threads| ==> !CanRun(end, t) {
      Settled(end);
    }
  }
}
