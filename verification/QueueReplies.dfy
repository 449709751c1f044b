/** What each call of the queue answers, for every run from a new queue: what its body saw in the queue, and whether it
    ran out of time, determine the reply. */
module QueueReplies {
  import opened ConcurrentQueue

  /** A call that a thread has started: whether its time has run out, and the queue that its body saw last. */
  datatype Began<T> = Began(call: Call<T>, expired: bool, seen: seq<T>)

  /** push and empty tell no more than they should; tryPop hands out the oldest element, and nothing exactly when the
      queue is empty; waitAndPop always hands out the oldest element, unless it was given a time and it ran out. */
  predicate Answers<T(==)>(b: Began<T>, reply: Reply<T>) {
    match b.call
    case Push(_) => reply == Pushed
    case Empty => reply == IsEmpty(b.seen == [])
    case TryPop => reply == if b.seen == [] then Nothing else Popped(b.seen[0])
    case WaitAndPop => b.seen != [] && reply == Popped(b.seen[0])
    case WaitAndPopFor(timeout) =>
      if b.expired then timeout != 0 && reply == Nothing else b.seen != [] && reply == Popped(b.seen[0])
  }

  // ----- the calls of a run -----

  /** The calls that each thread has started, after one more step. */
  function Noted<T>(logs: seq<seq<Began<T>>>, s: State<T>, step: Step<T>): (next: seq<seq<Began<T>>>)
    requires |logs| == |s.threads| && step.t < |s.threads|
    ensures |next| == |logs|
  {
    var log := logs[step.t];
    match step
    case Start(t, call) => logs[t := log + [Began(call, false, [])]]
    case Run(t) =>
      if s.threads[t].place.Inside? && log != [] then logs[t := log[|log| - 1 := log[|log| - 1].(seen := s.queue)]] else logs
    case Expire(t) => if log != [] then logs[t := log[|log| - 1 := log[|log| - 1].(expired := true)]] else logs
    case Wake(_) => logs
  }

  function NotedAll<T>(logs: seq<seq<Began<T>>>, s: State<T>, steps: seq<Step<T>>): (end: seq<seq<Began<T>>>)
    requires |logs| == |s.threads| && IsRun(s, steps)
    ensures |end| == |logs|
    decreases |steps|
  {
    if steps == [] then logs
    else
      SameThreads(s, steps[0]);
      NotedAll(Noted(logs, s, steps[0]), Apply(s, steps[0]), steps[1..])
  }

  lemma SameThreads<T>(s: State<T>, step: Step<T>)
    requires Enabled(s, step)
    ensures |Apply(s, step).threads| == |s.threads|
  {
  }

  /** No calls at first. */
  function NoCalls<T>(n: nat): (logs: seq<seq<Began<T>>>)
    ensures |logs| == n
  {
    seq(n, _ => [])
  }

  // ----- what is known of a thread and its calls at any time -----

  ghost predicate Fits<T>(th: Thread<T>, log: seq<Began<T>>) {
    && |log| == |th.replies| + (if th.place.Idle? then 0 else 1)
    && (forall i :: 0 <= i < |th.replies| ==> Answers(log[i], th.replies[i]))
    && (!th.place.Idle? ==> AtPlace(th.place, log[|log| - 1]))
  }

  ghost predicate AtPlace<T>(place: Place<T>, b: Began<T>)
    requires !place.Idle?
  {
    match place
    case Locking(call) => b.call == call && !b.expired
    case Inside(call) => b.call == call && !b.expired
    case Asleep(call) => b.call == call && !b.expired && Waits(call)
    case Relocking(call, expired) =>
      b.call == call && b.expired == expired && Waits(call) && (expired ==> CanExpire(call))
    case HasPushed => b.call.Push?
    case Unlocked => b.call.Push?
    case Leaving(reply) => Answers(b, reply)
  }

  ghost predicate AllFit<T>(s: State<T>, logs: seq<seq<Began<T>>>) {
    |logs| == |s.threads| && forall t :: 0 <= t < |logs| ==> Fits(s.threads[t], logs[t])
  }

  // ----- every step keeps it -----

  lemma OwnFits<T>(s: State<T>, logs: seq<seq<Began<T>>>, step: Step<T>)
    requires |logs| == |s.threads| && Enabled(s, step) && Fits(s.threads[step.t], logs[step.t])
    ensures |Apply(s, step).threads| == |s.threads|
    ensures Fits(Apply(s, step).threads[step.t], Noted(logs, s, step)[step.t])
  {
    hide RunBody, Answers;
    var place := s.threads[step.t].place;
    if step.Run? && place.Inside? {
      BodyFits(s, logs, step.t, place.call);
    } else if step.Run? && place.Relocking? && place.expired {
      TimedOut(place.call, logs[step.t][|logs[step.t]| - 1]);
    } else if step.Run? && place.Unlocked? {
      HasAnswered(logs[step.t][|logs[step.t]| - 1]);
    }
  }

  lemma TimedOut<T>(call: Call<T>, b: Began<T>)
    requires AtPlace(Relocking(call, true), b)
    ensures Answers(b, Nothing)
  {
  }

  lemma HasAnswered<T>(b: Began<T>)
    requires b.call.Push?
    ensures Answers(b, Pushed)
  {
  }

  /** The body, with the mutex held. */
  lemma BodyFits<T>(s: State<T>, logs: seq<seq<Began<T>>>, t: nat, call: Call<T>)
    requires |logs| == |s.threads| && t < |s.threads| && s.threads[t].place == Inside(call) && Fits(s.threads[t], logs[t])
    ensures |Apply(s, Run(t)).threads| == |s.threads|
    ensures Fits(Apply(s, Run(t)).threads[t], Noted(logs, s, Run(t))[t])
  {
    hide Answers, RunBody;
    var log := logs[t];
    var b := log[|log| - 1].(seen := s.queue);
    BodyLeads(s, t, call, b);
    var th' := Apply(s, Run(t)).threads[t];
    assert Noted(logs, s, Run(t))[t] == log[|log| - 1 := b];
    assert forall i :: 0 <= i < |th'.replies| ==> log[|log| - 1 := b][i] == log[i];
  }

  lemma BodyLeads<T>(s: State<T>, t: nat, call: Call<T>, b: Began<T>)
    requires t < |s.threads| && s.threads[t].place == Inside(call) && b.call == call && !b.expired && b.seen == s.queue
    ensures |Apply(s, Run(t)).threads| == |s.threads|
    ensures var th' := Apply(s, Run(t)).threads[t];
            !th'.place.Idle? && AtPlace(th'.place, b) && th'.replies == s.threads[t].replies
  {
  }

  lemma OtherFits<T>(th: Thread<T>, log: seq<Began<T>>)
    requires Fits(th, log)
    ensures Fits(WakeOne(th), log)
  {
    hide Answers;
  }

  lemma StepFits<T>(s: State<T>, logs: seq<seq<Began<T>>>, step: Step<T>)
    requires AllFit(s, logs) && Enabled(s, step)
    ensures AllFit(Apply(s, step), Noted(logs, s, step))
  {
    hide Fits, Apply;
    OwnFits(s, logs, step);
    forall u | 0 <= u < |logs| && u != step.t
      ensures Fits(Apply(s, step).threads[u], Noted(logs, s, step)[u])
    {
      OthersAfter(s, step, u);
      OtherFits(s.threads[u], logs[u]);
    }
  }

  lemma {:induction false} RunFits<T>(s: State<T>, logs: seq<seq<Began<T>>>, steps: seq<Step<T>>)
    requires AllFit(s, logs) && IsRun(s, steps)
    ensures AllFit(After(s, steps), NotedAll(logs, s, steps))
    decreases |steps|
  {
    hide Apply, AllFit, Noted;
    FitSizes(s, logs);
    if steps != [] {
      StepFits(s, logs, steps[0]);
      SameThreads(s, steps[0]);
      RunFits(Apply(s, steps[0]), Noted(logs, s, steps[0]), steps[1..]);
    }
  }

  lemma FitSizes<T>(s: State<T>, logs: seq<seq<Began<T>>>)
    requires AllFit(s, logs)
    ensures |logs| == |s.threads|
  {
  }

  // ----- the promises -----

  /** In every run from a new queue every finished call has answered what its body saw, and a call on its way out is
      about to. */
  lemma RepliesFit<T>(s: State<T>, steps: seq<Step<T>>, t: nat)
    requires Initial(s) && IsRun(s, steps) && t < |After(s, steps).threads|
    ensures var th, logs := After(s, steps).threads[t], NotedAll(NoCalls(|s.threads|), s, steps);
            && t < |logs| && |th.replies| <= |logs[t]| <= |th.replies| + 1
            && (forall i :: 0 <= i < |th.replies| ==> Answers(logs[t][i], th.replies[i]))
            && (th.place.Leaving? ==> |logs[t]| == |th.replies| + 1 && Answers(logs[t][|th.replies|], th.place.reply))
  {
    hide IsRun, After, NotedAll, Answers;
    RunFits(s, NoCalls(|s.threads|), steps);
  }

  /** The body of tryPop, in any state: it answers false if and only if the queue is empty, and otherwise it takes and
      hands out the oldest element. */
  lemma TryPopTakes<T>(s: State<T>, t: nat)
    requires t < |s.threads| && s.threads[t].place == Inside(TryPop)
    ensures var s' := Apply(s, Run(t));
            && |s'.threads| == |s.threads|
            && s'.threads[t].place == Leaving(if s.queue == [] then Nothing else Popped(s.queue[0]))
            && s'.queue == (if s.queue == [] then [] else s.queue[1..])
  {
  }

  /** The body of empty tells whether the queue is empty, and leaves it alone. */
  lemma EmptyTells<T>(s: State<T>, t: nat)
    requires t < |s.threads| && s.threads[t].place == Inside(Empty)
    ensures var s' := Apply(s, Run(t));
            |s'.threads| == |s.threads| && s'.threads[t].place == Leaving(IsEmpty(s.queue == [])) && s'.queue == s.queue
  {
  }

  /** The bodies of waitAndPop take and hand out the oldest element if and only if there is one; otherwise the thread
      goes to sleep and the mutex is free. */
  lemma WaitTakes<T>(s: State<T>, t: nat, call: Call<T>)
    requires t < |s.threads| && s.threads[t].place == Inside(call) && Waits(call)
    ensures var s' := Apply(s, Run(t));
            && |s'.threads| == |s.threads|
            && if s.queue == [] then s'.threads[t].place == Asleep(call) && !s'.held && s'.queue == []
               else s'.threads[t].place == Leaving(Popped(s.queue[0])) && s'.queue == s.queue[1..]
  {
  }

  /** The body of push adds the element behind all others. */
  lemma PushAdds<T>(s: State<T>, t: nat, data: T)
    requires t < |s.threads| && s.threads[t].place == Inside(Push(data))
    ensures var s' := Apply(s, Run(t));
            |s'.threads| == |s.threads| && s'.threads[t].place == HasPushed && s'.queue == s.queue + [data]
  {
  }
}
