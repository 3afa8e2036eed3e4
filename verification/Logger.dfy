/** The asynchronous logger (logging/logger.cpp) as interleaved steps of producers, one consumer thread,
    flushing callers and the destructor, around one mutex.  The log file is open. */
module Logger {
  type Line = string

  /** Where the consumer stands: waiting or about to wait, without the lock; holding the lock between two
      lines; writing a line without it; done writing and about to take it again; gone. */
  datatype Worker = Waiting | Draining | Writing(line: Line) | Relocking | Exited

  /** `pushed` is a history variable: every line put in the queue, in order. */
  datatype State = State(queue: seq<Line>, written: seq<Line>, worker: Worker, exitFlag: bool, pushed: seq<Line>)
  {
    /** The consumer holds the mutex, so nobody else touches the queue. */
    predicate LockedByWorker() {
      worker.Draining?
    }

    function InFlight(): seq<Line> {
      if worker.Writing? then [worker.line] else []
    }
  }

  const START := State([], [], Waiting, false, [])

  datatype Step =
    | Push(line: Line)       // a producer whose line passed the level test, under the lock
    | Wake                   // the wait's predicate holds and the consumer takes the lock
    | Take                   // pop the front line and release the lock
    | Write                  // write the line, without the lock
    | Relock                 // take the lock again
    | Finish                 // the queue is empty: leave, if asked to, else wait again
    | RequestExit            // the destructor sets the flag, without the lock

  predicate Enabled(s: State, step: Step) {
    match step
    case Push(_) => !s.LockedByWorker()
    case Wake => s.worker.Waiting? && (s.queue != [] || s.exitFlag)
    case Take => s.worker.Draining? && s.queue != []
    case Write => s.worker.Writing?
    case Relock => s.worker.Relocking?
    case Finish => s.worker.Draining? && s.queue == []
    case RequestExit => true
  }

  function Next(s: State, step: Step): State
    requires Enabled(s, step)
  {
    match step
    case Push(line) => s.(queue := s.queue + [line], pushed := s.pushed + [line])
    case Wake => s.(worker := Draining)
    case Take => s.(queue := s.queue[1..], worker := Writing(s.queue[0]))
    case Write => s.(written := s.written + [s.worker.line], worker := Relocking)
    case Relock => s.(worker := Draining)
    case Finish => s.(worker := if s.exitFlag then Exited else Waiting)
    case RequestExit => s.(exitFlag := true)
  }

  /** A run: a sequence of states each obtained from the one before by some enabled step. */
  predicate IsRun(states: seq<State>, steps: seq<Step>) {
    && |states| == |steps| + 1
    && states[0] == START
    && forall i :: 0 <= i < |steps| ==> Enabled(states[i], steps[i]) && states[i + 1] == Next(states[i], steps[i])
  }

  /** Nothing is lost, duplicated or reordered: what was written, the line being written if any, and the
      queue are together the lines pushed, in push order. */
  predicate InOrder(s: State) {
    s.written + s.InFlight() + s.queue == s.pushed
  }

  lemma {:induction false} StepKeepsOrder(s: State, step: Step)
    requires Enabled(s, step) && InOrder(s)
    ensures InOrder(Next(s, step))
  {
  }

  lemma {:induction false} RunKeepsOrder(states: seq<State>, steps: seq<Step>, i: nat)
    requires IsRun(states, steps) && i <= |steps|
    ensures InOrder(states[i])
  {
    if i > 0 {
      RunKeepsOrder(states, steps, i - 1);
      StepKeepsOrder(states[i - 1], steps[i - 1]);
    }
  }

  /** The file only ever grows, and always by the next line pushed. */
  lemma {:induction false} WrittenIsPrefixOfPushed(states: seq<State>, steps: seq<Step>, i: nat, j: nat)
    requires IsRun(states, steps) && i <= j <= |steps|
    ensures states[i].written <= states[j].written <= states[j].pushed
    ensures states[i].pushed <= states[j].pushed
    decreases j
  {
    RunKeepsOrder(states, steps, j);
    if i < j {
      WrittenIsPrefixOfPushed(states, steps, i, j - 1);
      var s, t := states[j - 1], states[j];
      assert t == Next(s, steps[j - 1]);
    }
  }

  /** When the consumer leaves, every line pushed up to then is in the file. */
  lemma {:induction false} ExitDrains(states: seq<State>, steps: seq<Step>, i: nat)
    requires IsRun(states, steps) && i < |steps|
    requires !states[i].worker.Exited? && states[i + 1].worker.Exited?
    ensures states[i + 1].written == states[i + 1].pushed == states[i].pushed
  {
    RunKeepsOrder(states, steps, i);
    assert states[i + 1] == Next(states[i], steps[i]);
    var s := states[i];
    assert s.worker.Draining? && s.queue == [];
    assert s.written + [] + [] == s.written;
  }

  /** What a flushing caller may conclude: it sees an empty queue while holding the lock, so at most one
      line is unwritten, and that one is being written; lines it waited for are all there once the
      consumer is past that one. */
  predicate FlushReturns(s: State) {
    !s.LockedByWorker() && s.queue == []
  }

  lemma {:induction false} FlushLeavesAtMostOne(states: seq<State>, steps: seq<Step>, i: nat)
    requires IsRun(states, steps) && i <= |steps| && FlushReturns(states[i])
    ensures var s := states[i];
      && s.written + s.InFlight() == s.pushed
      && |s.pushed| - |s.written| <= 1
      && (s.written == s.pushed <==> !s.worker.Writing?)
  {
    RunKeepsOrder(states, steps, i);
    var s := states[i];
    assert s.written + s.InFlight() + [] == s.written + s.InFlight();
  }

  /** The one line a flush can leave behind is real: flush may return while the line it waited for is
      still being written. */
  lemma {:induction false} FlushCanReturnEarly(line: Line)
    ensures var s1 := State([line], [], Waiting, false, [line]);
      var s2, s3 := s1.(worker := Draining), State([], [], Writing(line), false, [line]);
      && IsRun([START, s1, s2, s3], [Push(line), Wake, Take])
      && FlushReturns(s3) && s3.written != s3.pushed
  {
  }

  /** Lines pushed after the consumer left stay in the queue for good. */
  lemma {:induction false} NothingAfterExit(states: seq<State>, steps: seq<Step>, i: nat, j: nat)
    requires IsRun(states, steps) && i <= j <= |steps| && states[i].worker.Exited?
    ensures states[j].worker.Exited? && states[j].written == states[i].written
    decreases j
  {
    if i < j {
      NothingAfterExit(states, steps, i, j - 1);
      assert states[j] == Next(states[j - 1], steps[j - 1]);
    }
  }
}
