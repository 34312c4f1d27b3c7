/** PosixEnv::Schedule and BackgroundThreadMain of src/env/env_posix.cpp as a state machine: any number of callers
    of Schedule, one background thread, a mutex and a condition variable with spurious wakeups. */
module BackgroundQueue {
  import opened Bytes

  /** A task, and the one it schedules itself while it runs, if it does. */
  datatype Task = Task(id: nat, schedules: Option<Task>)

  /** Where the caller that holds the mutex is inside Schedule. */
  datatype Place = Entered | Started | Notified | Pushed

  datatype Lock = Free | Caller(place: Place, task: Task) | Background

  /** Wanting: about to lock at the top of the loop.  Woken: notified or woken spuriously, about to lock again.
      A task runs while the thread holds the mutex.  Calling: a task has called Schedule, which is about to lock. */
  datatype Thread = NotStarted | Wanting | Testing | Waiting | Woken | Running(task: Task) | Calling(task: Task)

  datatype State = State(
    queue: seq<Task>,       // background_work_queue_
    startedThread: bool,    // started_background_thread_
    lock: Lock,
    thread: Thread,
    scheduled: seq<Task>,   // every task pushed, in order
    begun: seq<Task>)       // every task whose execution began, in order

  datatype Event =
    | Call(task: Task) | Start | Notify | Push | Return
    | Lock | Test | CallFromTask | LockFromTask | Finish | WakeSpuriously

  const INIT := State([], false, Free, NotStarted, [], [])

  predicate At(s: State, place: Place) {
    s.lock.Caller? && s.lock.place == place
  }

  predicate Enabled(s: State, e: Event) {
    match e
    case Call(_) => s.lock.Free?
    case Start => At(s, Entered)
    case Notify => At(s, Started)
    case Push => At(s, Notified)
    case Return => At(s, Pushed)
    case Lock => (s.thread.Wanting? || s.thread.Woken?) && s.lock.Free?
    case Test => s.thread.Testing?
    case CallFromTask => s.thread.Running? && s.thread.task.schedules.Some?
    case LockFromTask => s.thread.Calling? && s.thread.task.schedules.Some? && s.lock.Free?
    case Finish => s.thread.Running? && s.thread.task.schedules.None?
    case WakeSpuriously => s.thread.Waiting?
  }

  function Apply(s: State, e: Event): State
    requires Enabled(s, e)
  {
    match e
    case Call(task) => s.(lock := Caller(Entered, task))
    case Start =>
      var t := s.(lock := s.lock.(place := Started));
      if s.startedThread then t else t.(startedThread := true, thread := Wanting)
    case Notify =>
      var t := s.(lock := s.lock.(place := Notified));
      if s.queue == [] && s.thread.Waiting? then t.(thread := Woken) else t
    case Push =>
      s.(lock := s.lock.(place := Pushed), queue := s.queue + [s.lock.task], scheduled := s.scheduled + [s.lock.task])
    case Return => s.(lock := Free)
    case Lock => s.(lock := Background, thread := Testing)
    case Test =>
      if s.queue == [] then s.(lock := Free, thread := Waiting)
      else s.(thread := Running(s.queue[0]), queue := s.queue[1..], begun := s.begun + [s.queue[0]])
    case CallFromTask => s.(thread := Calling(s.thread.task))
    case LockFromTask =>
      s.(lock := Caller(Entered, s.thread.task.schedules.value), thread := Running(s.thread.task.(schedules := None)))
    case Finish => s.(lock := Free, thread := Wanting)
    case WakeSpuriously => s.(thread := Woken)
  }

  /** The states along a run: events one after the other from the initial state. */
  ghost predicate Reaches(events: seq<Event>, s: State) {
    if events == [] then s == INIT
    else
      var e := events[|events| - 1];
      exists before :: Reaches(events[..|events| - 1], before) && Enabled(before, e) && s == Apply(before, e)
  }

  ghost predicate Inv(s: State) {
    // Nothing is lost, repeated or reordered.
    && s.begun + s.queue == s.scheduled
    // The thread holds the mutex exactly while it tests the queue or runs a task, and a task's own call of Schedule
    // does not let go of it.
    && (s.lock.Background? <==> s.thread.Testing? || s.thread.Running? || s.thread.Calling?)
    && (s.thread.Calling? ==> s.thread.task.schedules.Some?)
    && (s.startedThread <==> !s.thread.NotStarted?)
    && (s.thread.NotStarted? ==> s.queue == [] && (s.lock.Caller? ==> At(s, Entered)))
    // No lost wakeup: the thread waits only while the queue is empty and nobody is about to push.
    && (s.thread.Waiting? ==> s.queue == [] && !At(s, Notified) && !At(s, Pushed))
  }

  lemma StepKeeps(s: State, e: Event)
    requires Inv(s) && Enabled(s, e)
    ensures Inv(Apply(s, e))
  {
    match e
    case Push =>
      assert s.begun + (s.queue + [s.lock.task]) == (s.begun + s.queue) + [s.lock.task];
    case Test =>
      if s.queue != [] {
        assert (s.begun + [s.queue[0]]) + s.queue[1..] == s.begun + s.queue;
      }
    case _ =>
  }

  lemma {:induction false} RunKeeps(events: seq<Event>, s: State)
    requires Reaches(events, s)
    ensures Inv(s)
  {
    if events != [] {
      var e := events[|events| - 1];
      var before :| Reaches(events[..|events| - 1], before) && Enabled(before, e) && s == Apply(before, e);
      RunKeeps(events[..|events| - 1], before);
      StepKeeps(before, e);
    }
  }

  /** In every reachable state the tasks begun and the tasks queued are the tasks scheduled, in order, and the
      thread is not waiting while a task is queued. */
  lemma NoLostWakeup(events: seq<Event>, s: State)
    requires Reaches(events, s)
    ensures s.begun + s.queue == s.scheduled
    ensures s.queue != [] ==> s.startedThread && !s.thread.Waiting?
    ensures s.queue != [] && s.lock.Free? ==> Enabled(s, Event.Lock)
  {
    RunKeeps(events, s);
  }

  // ---------- progress ----------

  /** What the caller inside Schedule, or else the thread, does next. */
  function Next(s: State): Event {
    match s.lock
    case Caller(Entered, _) => Start
    case Caller(Started, _) => Notify
    case Caller(Notified, _) => Push
    case Caller(Pushed, _) => Return
    case Background =>
      if s.thread.Testing? then Test
      else if s.thread.Calling? then LockFromTask
      else if s.thread.Running? && s.thread.task.schedules.Some? then CallFromTask
      else Finish
    case Free => Event.Lock
  }

  /** How many such steps there are until the next task begins. */
  function StepsLeft(s: State): nat {
    match s.lock
    case Caller(Entered, _) => 6
    case Caller(Started, _) => 5
    case Caller(Notified, _) => 4
    case Caller(Pushed, _) => 3
    case Background => if s.thread.Testing? then 1 else 3
    case Free => 2
  }

  function Follow(s: State, n: nat): State
    decreases n
  {
    if n == 0 || !Enabled(s, Next(s)) then s else Follow(Apply(s, Next(s)), n - 1)
  }

  /** The thread runs a task that calls Schedule, or waits in that call. */
  predicate SchedulesItself(s: State) {
    (s.thread.Running? || s.thread.Calling?) && s.thread.task.schedules.Some?
  }

  /** Without any new call, the first queued task begins within six steps, exactly if the thread is not running a
      task that calls Schedule. */
  lemma {:induction false} QueuedTaskBegins(s: State, n: nat)
    requires Inv(s) && s.queue != [] && n == StepsLeft(s)
    ensures Follow(s, n).begun == (if SchedulesItself(s) then s.begun else s.begun + [s.queue[0]])
    decreases n
  {
    if SchedulesItself(s) {
      ScheduleNeverReturns(s, n);
    } else {
      var t := Apply(s, Next(s));
      StepKeeps(s, Next(s));
      if s.thread.Testing? {
        assert Follow(t, 0) == t;
      } else {
        QueuedTaskBegins(t, n - 1);
      }
    }
  }

  /** However long it goes on, no task begins any more. */
  lemma {:induction false} ScheduleNeverReturns(s: State, n: nat)
    requires Inv(s) && SchedulesItself(s)
    ensures Follow(s, n).begun == s.begun && Follow(s, n).lock.Background?
    ensures forall e :: Enabled(s, e) ==> s.thread.Running? && e == CallFromTask
    decreases n
  {
    if n > 0 && Enabled(s, Next(s)) {
      StepKeeps(s, Next(s));
      ScheduleNeverReturns(Apply(s, Next(s)), n - 1);
    }
  }

  /** A reachable state is stuck exactly if a task waits for the mutex in its own call of Schedule. */
  lemma StuckExactly(events: seq<Event>, s: State)
    requires Reaches(events, s)
    ensures (forall e :: !Enabled(s, e)) <==> s.thread.Calling?
  {
    RunKeeps(events, s);
    var e := if s.lock.Free? then Call(Task(0, None)) else Next(s);
    assert !s.thread.Calling? ==> Enabled(s, e);
  }
}
