/**
 The cipher cell of one endpoint shared by a sending and a receiving task: lock, take, crypt,
 replace and unlock are separate steps, and the tasks interleave in any way. Every run is a
 run of atomic operations in the order in which the lock was taken.
 */
module CellTasks {
  import opened Wrappers
  import opened Wire
  import opened Crypto
  import opened Stacks

  datatype Who = Sending | Receiving {

    function Other(): Who {
      if Sending? then Receiving else Sending
    }
  }

  /** A critical section: what `send` does with its message or `recv` with its packet. */
  datatype Job = SealJob(message: Bytes, next: Nonce) | OpenJob(packet: Bytes)

  datatype Entry = Entry(who: Who, job: Job)

  /** The section as one operation on the cell. */
  function Atomic(stack: Stack, cell: Option<Credential>, job: Job): (Option<Credential>, Result<Bytes, Error>) {
    match job
    case SealJob(message, next) => stack.SealMessage(cell, next, message)
    case OpenJob(packet) => stack.OpenMessage(cell, packet)
  }

  /** Where a task is inside its section; `Leaving` is on the way to unlock, with its result. */
  datatype Stage =
    | Outside
    | Locked
    | Taken(c: Credential)
    | Crypted(c: Credential, result: Result<Bytes, Error>)
    | Leaving(result: Result<Bytes, Error>)

  datatype Task = Task(todo: seq<Job>, stage: Stage, results: seq<Result<Bytes, Error>>)

  /** `log` records the sections in the order in which they locked the cell. */
  datatype Cell = Cell(lock: Option<Who>, cell: Option<Credential>, sender: Task, receiver: Task, log: seq<Entry>) {

    function At(w: Who): Task {
      if w.Sending? then sender else receiver
    }

    function With(w: Who, t: Task): Cell {
      if w.Sending? then this.(sender := t) else this.(receiver := t)
    }
  }

  /** The next step of a task; it waits while the other holds the lock. */
  function TaskStep(stack: Stack, s: Cell, w: Who): Cell {
    var t := s.At(w);
    match t.stage
    case Outside =>
      if t.todo == [] || s.lock.Some? then s
      else s.With(w, t.(stage := Locked)).(lock := Some(w), log := s.log + [Entry(w, t.todo[0])])
    case Locked =>
      if s.cell.None? then s.With(w, t.(stage := Leaving(Err(Broken))))
      else s.With(w, t.(stage := Taken(s.cell.value))).(cell := None)
    case Taken(c) =>
      if t.todo == [] then s
      else
        var (after, r) := Atomic(stack, Some(c), t.todo[0]);
        s.With(w, t.(stage := if after.Some? then Crypted(after.value, r) else Leaving(r)))
    case Crypted(c, r) => s.With(w, t.(stage := Leaving(r))).(cell := Some(c))
    case Leaving(r) =>
      if t.todo == [] then s
      else s.With(w, Task(t.todo[1..], Outside, t.results + [r])).(lock := None)
  }

  function Schedule(stack: Stack, s: Cell, turns: seq<Who>): Cell
    decreases |turns|
  {
    if turns == [] then s else Schedule(stack, TaskStep(stack, s, turns[0]), turns[1..])
  }

  function Initial(c: Credential, sends: seq<Job>, recvs: seq<Job>): Cell {
    Cell(None, Some(c), Task(sends, Outside, []), Task(recvs, Outside, []), [])
  }

  // The atomic run

  function CellAfter(stack: Stack, cell: Option<Credential>, log: seq<Entry>): Option<Credential> {
    if log == [] then cell
    else Atomic(stack, CellAfter(stack, cell, log[..|log| - 1]), log[|log| - 1].job).0
  }

  function ResultOf(stack: Stack, cell: Option<Credential>, log: seq<Entry>, k: nat): Result<Bytes, Error>
    requires k < |log|
  {
    Atomic(stack, CellAfter(stack, cell, log[..k]), log[k].job).1
  }

  /** The results of the sections of `w`, in order. */
  function ResultsOf(stack: Stack, cell: Option<Credential>, log: seq<Entry>, w: Who): seq<Result<Bytes, Error>> {
    if log == [] then []
    else
      var k := |log| - 1;
      ResultsOf(stack, cell, log[..k], w) + if log[k].who == w then [ResultOf(stack, cell, log, k)] else []
  }

  /** The sections of `w`, in order. */
  function JobsOf(log: seq<Entry>, w: Who): seq<Job> {
    if log == [] then []
    else
      var k := |log| - 1;
      JobsOf(log[..k], w) + if log[k].who == w then [log[k].job] else []
  }

  lemma LogAppend(stack: Stack, cell: Option<Credential>, log: seq<Entry>, e: Entry, w: Who)
    ensures CellAfter(stack, cell, log + [e]) == Atomic(stack, CellAfter(stack, cell, log), e.job).0
    ensures ResultsOf(stack, cell, log + [e], w) ==
            ResultsOf(stack, cell, log, w) +
            if e.who == w then [Atomic(stack, CellAfter(stack, cell, log), e.job).1] else []
    ensures JobsOf(log + [e], w) == JobsOf(log, w) + if e.who == w then [e.job] else []
  {
    assert (log + [e])[..|log|] == log;
  }

  // The invariant

  /** The holder of the lock is in the middle of the last section of the log, after those before it. */
  predicate InSection(stack: Stack, first: Option<Credential>, s: Cell, w: Who) {
    var t := s.At(w);
    && s.log != [] && t.todo != [] && s.log[|s.log| - 1] == Entry(w, t.todo[0])
    && var before := CellAfter(stack, first, s.log[..|s.log| - 1]);
       match t.stage
       case Outside => false
       case Locked => s.cell == before
       case Taken(c) => s.cell == None && before == Some(c)
       case Crypted(c, r) => s.cell == None && Atomic(stack, before, t.todo[0]) == (Some(c), r)
       case Leaving(r) => Atomic(stack, before, t.todo[0]) == (s.cell, r)
  }

  /** The sections that have ended. */
  function Ended(s: Cell): seq<Entry> {
    if s.lock.Some? && s.log != [] then s.log[..|s.log| - 1] else s.log
  }

  predicate TaskMatches(stack: Stack, first: Option<Credential>, s: Cell, w: Who, jobs: seq<Job>) {
    && s.At(w).results == ResultsOf(stack, first, Ended(s), w)
    && jobs == JobsOf(Ended(s), w) + s.At(w).todo
  }

  predicate Linear(stack: Stack, first: Option<Credential>, s: Cell, sends: seq<Job>, recvs: seq<Job>) {
    && TaskMatches(stack, first, s, Sending, sends)
    && TaskMatches(stack, first, s, Receiving, recvs)
    && if s.lock.None? then
         s.sender.stage.Outside? && s.receiver.stage.Outside? && s.cell == CellAfter(stack, first, s.log)
       else
         s.At(s.lock.value.Other()).stage.Outside? && InSection(stack, first, s, s.lock.value)
  }

  lemma AtomicBroken(stack: Stack, job: Job)
    requires stack.cipher.Some?
    ensures Atomic(stack, None, job) == (None, Err(Broken))
  {
  }

  lemma EnterKeeps(stack: Stack, first: Option<Credential>, s: Cell, w: Who, sends: seq<Job>, recvs: seq<Job>)
    requires stack.cipher.Some? && Linear(stack, first, s, sends, recvs) && s.At(w).stage.Outside?
    ensures Linear(stack, first, TaskStep(stack, s, w), sends, recvs)
  {
    if s.At(w).todo != [] && s.lock.None? {
      var e := Entry(w, s.At(w).todo[0]);
      assert (s.log + [e])[..|s.log|] == s.log;
      assert Ended(TaskStep(stack, s, w)) == s.log;
    }
  }

  /** Inside the section: take, crypt, replace. */
  lemma InsideSection(stack: Stack, first: Option<Credential>, s: Cell, w: Who)
    requires stack.cipher.Some? && InSection(stack, first, s, w) && !s.At(w).stage.Leaving?
    ensures var n := TaskStep(stack, s, w);
      && InSection(stack, first, n, w) && n.log == s.log && n.lock == s.lock
      && n.At(w.Other()) == s.At(w.Other()) && n.At(w).results == s.At(w).results && n.At(w).todo == s.At(w).todo
  {
    AtomicBroken(stack, s.At(w).todo[0]);
  }

  lemma StaysLinear(stack: Stack, first: Option<Credential>, s: Cell, n: Cell, w: Who, sends: seq<Job>, recvs: seq<Job>)
    requires Linear(stack, first, s, sends, recvs) && s.lock == Some(w)
    requires n.log == s.log && n.lock == s.lock && InSection(stack, first, n, w)
    requires n.At(w.Other()) == s.At(w.Other()) && n.At(w).results == s.At(w).results && n.At(w).todo == s.At(w).todo
    ensures Linear(stack, first, n, sends, recvs)
  {
    assert Ended(n) == Ended(s);
  }

  lemma InsideKeeps(stack: Stack, first: Option<Credential>, s: Cell, w: Who, sends: seq<Job>, recvs: seq<Job>)
    requires stack.cipher.Some? && Linear(stack, first, s, sends, recvs)
    requires !s.At(w).stage.Outside? && !s.At(w).stage.Leaving?
    ensures Linear(stack, first, TaskStep(stack, s, w), sends, recvs)
  {
    InsideSection(stack, first, s, w);
    StaysLinear(stack, first, s, TaskStep(stack, s, w), w, sends, recvs);
  }

  /** A section that ends joins the ended ones, for its own task and for the other. */
  lemma SectionEnds(stack: Stack, first: Option<Credential>, before: seq<Entry>, t: Task, w: Who,
                    r: Result<Bytes, Error>, jobs: seq<Job>, other: Task, otherJobs: seq<Job>)
    requires t.todo != []
    requires t.results == ResultsOf(stack, first, before, w) && jobs == JobsOf(before, w) + t.todo
    requires other.results == ResultsOf(stack, first, before, w.Other())
    requires otherJobs == JobsOf(before, w.Other()) + other.todo
    requires Atomic(stack, CellAfter(stack, first, before), t.todo[0]).1 == r
    ensures var log := before + [Entry(w, t.todo[0])];
      && t.results + [r] == ResultsOf(stack, first, log, w) && jobs == JobsOf(log, w) + t.todo[1..]
      && other.results == ResultsOf(stack, first, log, w.Other()) && otherJobs == JobsOf(log, w.Other()) + other.todo
      && CellAfter(stack, first, log) == Atomic(stack, CellAfter(stack, first, before), t.todo[0]).0
  {
    var e := Entry(w, t.todo[0]);
    LogAppend(stack, first, before, e, w);
    LogAppend(stack, first, before, e, w.Other());
    assert t.todo == [t.todo[0]] + t.todo[1..];
    assert ResultsOf(stack, first, before, w.Other()) + [] == ResultsOf(stack, first, before, w.Other());
    assert JobsOf(before, w.Other()) + [] == JobsOf(before, w.Other());
  }

  lemma LeaveStep(stack: Stack, s: Cell, w: Who)
    requires s.At(w).stage.Leaving? && s.At(w).todo != []
    ensures var (n, t) := (TaskStep(stack, s, w), s.At(w));
      && n.At(w) == Task(t.todo[1..], Outside, t.results + [t.stage.result]) && n.At(w.Other()) == s.At(w.Other())
      && n.lock == None && n.log == s.log && n.cell == s.cell
  {
  }

  /** A state in which nobody is in a section is linear if each task is where the log says. */
  lemma UnlockedLinear(stack: Stack, first: Option<Credential>, n: Cell, w: Who, jobs: seq<Job>, others: seq<Job>)
    requires n.lock == None && n.At(w).stage.Outside? && n.At(w.Other()).stage.Outside?
    requires n.cell == CellAfter(stack, first, n.log)
    requires n.At(w).results == ResultsOf(stack, first, n.log, w) && jobs == JobsOf(n.log, w) + n.At(w).todo
    requires n.At(w.Other()).results == ResultsOf(stack, first, n.log, w.Other())
    requires others == JobsOf(n.log, w.Other()) + n.At(w.Other()).todo
    ensures if w.Sending? then Linear(stack, first, n, jobs, others) else Linear(stack, first, n, others, jobs)
  {
  }

  lemma LeaveKeeps(stack: Stack, first: Option<Credential>, s: Cell, w: Who, sends: seq<Job>, recvs: seq<Job>)
    requires stack.cipher.Some? && Linear(stack, first, s, sends, recvs) && s.At(w).stage.Leaving?
    ensures Linear(stack, first, TaskStep(stack, s, w), sends, recvs)
  {
    var before, t := s.log[..|s.log| - 1], s.At(w);
    var (jobs, others) := if w.Sending? then (sends, recvs) else (recvs, sends);
    assert s.lock == Some(w) && InSection(stack, first, s, w) && Ended(s) == before;
    assert TaskMatches(stack, first, s, w, jobs) && TaskMatches(stack, first, s, w.Other(), others);
    assert s.log == before + [Entry(w, t.todo[0])];
    SectionEnds(stack, first, before, t, w, t.stage.result, jobs, s.At(w.Other()), others);
    LeaveStep(stack, s, w);
    UnlockedLinear(stack, first, TaskStep(stack, s, w), w, jobs, others);
  }

  /**
   Linearizability. Under every schedule the sections that have ended gave what they would give
   one after the other, in the order of the log; the log takes each task's sections in program
   order; and while nobody holds the lock the cell is what that sequence leaves.
   */
  lemma {:induction false} EveryScheduleIsAtomic(stack: Stack, first: Option<Credential>, s: Cell, turns: seq<Who>,
                                                 sends: seq<Job>, recvs: seq<Job>)
    requires stack.cipher.Some? && Linear(stack, first, s, sends, recvs)
    ensures Linear(stack, first, Schedule(stack, s, turns), sends, recvs)
    decreases |turns|
  {
    if turns != [] {
      var w := turns[0];
      if s.At(w).stage.Outside? {
        EnterKeeps(stack, first, s, w, sends, recvs);
      } else if s.At(w).stage.Leaving? {
        LeaveKeeps(stack, first, s, w, sends, recvs);
      } else {
        InsideKeeps(stack, first, s, w, sends, recvs);
      }
      EveryScheduleIsAtomic(stack, first, TaskStep(stack, s, w), turns[1..], sends, recvs);
    }
  }

  lemma InitialIsLinear(stack: Stack, c: Credential, sends: seq<Job>, recvs: seq<Job>)
    ensures Linear(stack, Some(c), Initial(c, sends, recvs), sends, recvs)
  {
  }

  // When the cell is empty

  /** A section leaves the cell occupied iff it gives Ok. */
  lemma AtomicEmptiesIffErr(stack: Stack, cell: Option<Credential>, job: Job)
    requires stack.cipher.Some?
    ensures Atomic(stack, cell, job).0.None? <==> Atomic(stack, cell, job).1.Err?
  {
  }

  lemma {:induction false} EmptyIffFailed(stack: Stack, c: Credential, log: seq<Entry>)
    requires stack.cipher.Some?
    ensures CellAfter(stack, Some(c), log).None? <==>
            exists k: nat :: k < |log| && ResultOf(stack, Some(c), log, k).Err?
    ensures forall j: nat, k: nat :: j < k < |log| && ResultOf(stack, Some(c), log, j).Err? ==>
              ResultOf(stack, Some(c), log, k) == Err(Broken)
  {
    if log != [] {
      var n := |log| - 1;
      var before := log[..n];
      EmptyIffFailed(stack, c, before);
      AtomicEmptiesIffErr(stack, CellAfter(stack, Some(c), before), log[n].job);
      AtomicBroken(stack, log[n].job);
      forall k: nat | k < n
        ensures ResultOf(stack, Some(c), log, k) == ResultOf(stack, Some(c), before, k)
      {
        assert before[..k] == log[..k];
      }
      if CellAfter(stack, Some(c), log).None? {
        assert ResultOf(stack, Some(c), log, n).Err?;
      }
    }
  }

  /**
   Under every schedule, while nobody holds the lock the cell is empty iff some section that has
   ended failed, and every section after the first failure reports Broken.
   */
  lemma EmptyCellMeansFailure(stack: Stack, c: Credential, sends: seq<Job>, recvs: seq<Job>, turns: seq<Who>)
    requires stack.cipher.Some?
    ensures var s := Schedule(stack, Initial(c, sends, recvs), turns);
      s.lock.None? ==>
        && (s.cell.None? <==> exists k: nat :: k < |s.log| && ResultOf(stack, Some(c), s.log, k).Err?)
        && (forall j: nat, k: nat :: j < k < |s.log| && ResultOf(stack, Some(c), s.log, j).Err? ==>
              ResultOf(stack, Some(c), s.log, k) == Err(Broken))
        && s.sender.results == ResultsOf(stack, Some(c), s.log, Sending)
        && s.receiver.results == ResultsOf(stack, Some(c), s.log, Receiving)
  {
    var s := Schedule(stack, Initial(c, sends, recvs), turns);
    InitialIsLinear(stack, c, sends, recvs);
    EveryScheduleIsAtomic(stack, Some(c), Initial(c, sends, recvs), turns, sends, recvs);
    EmptyIffFailed(stack, c, s.log);
  }

  // Every sequence of sections is one that some schedule takes

  function Remaining(stage: Stage): nat {
    match stage
    case Outside => 5
    case Locked => 4
    case Taken(_) => 3
    case Crypted(_, _) => 2
    case Leaving(_) => 1
  }

  /** The holder of the lock, given enough turns, leaves its section; the other task and the log stay as they are. */
  lemma {:induction false} SectionFinishes(stack: Stack, s: Cell, w: Who) returns (turns: seq<Who>)
    requires s.lock == Some(w) && !s.At(w).stage.Outside? && s.At(w).todo != []
    ensures var n := Schedule(stack, s, turns);
      && n.lock == None && n.log == s.log && n.At(w.Other()) == s.At(w.Other())
      && n.At(w).stage == Outside && n.At(w).todo == s.At(w).todo[1..]
    decreases Remaining(s.At(w).stage)
  {
    var n := TaskStep(stack, s, w);
    if s.At(w).stage.Leaving? {
      turns := [w];
      assert Schedule(stack, n, turns[1..]) == n;
    } else {
      var later := SectionFinishes(stack, n, w);
      turns := [w] + later;
      assert turns[1..] == later;
    }
  }

  lemma {:induction false} JobsCons(log: seq<Entry>, w: Who)
    requires log != []
    ensures JobsOf(log, w) == (if log[0].who == w then [log[0].job] else []) + JobsOf(log[1..], w)
    decreases |log|
  {
    var n := |log| - 1;
    if n > 0 {
      JobsCons(log[..n], w);
      assert log[..n][1..] == log[1..][..n - 1] && log[1..][n - 1] == log[n];
    } else {
      assert log[..n] == [] && log[1..] == [];
    }
  }

  lemma {:induction false} ScheduleConcat(stack: Stack, s: Cell, a: seq<Who>, b: seq<Who>)
    ensures Schedule(stack, s, a + b) == Schedule(stack, Schedule(stack, s, a), b)
    decreases |a|
  {
    if a == [] {
      assert a + b == b;
    } else {
      assert (a + b)[1..] == a[1..] + b;
      ScheduleConcat(stack, TaskStep(stack, s, a[0]), a[1..], b);
    }
  }

  /** From an unlocked cell, the next section of one task. */
  lemma OneSection(stack: Stack, s: Cell, w: Who) returns (turns: seq<Who>)
    requires s.lock.None? && s.sender.stage.Outside? && s.receiver.stage.Outside? && s.At(w).todo != []
    ensures var n := Schedule(stack, s, turns);
      && n.lock.None? && n.sender.stage.Outside? && n.receiver.stage.Outside?
      && n.At(w.Other()).todo == s.At(w.Other()).todo && n.At(w).todo == s.At(w).todo[1..]
      && n.log == s.log + [Entry(w, s.At(w).todo[0])]
  {
    var others := SectionFinishes(stack, TaskStep(stack, s, w), w);
    turns := [w] + others;
    assert turns[1..] == others;
  }

  lemma {:induction false} SectionsInOrder(stack: Stack, s: Cell, log: seq<Entry>) returns (turns: seq<Who>)
    requires s.lock.None? && s.sender.stage.Outside? && s.receiver.stage.Outside?
    requires forall w: Who :: s.At(w).todo == JobsOf(log, w)
    ensures var n := Schedule(stack, s, turns);
      n.lock.None? && n.log == s.log + log
    decreases |log|
  {
    if log == [] {
      turns := [];
      assert s.log + log == s.log;
    } else {
      var w := log[0].who;
      JobsCons(log, w);
      JobsCons(log, w.Other());
      var first := OneSection(stack, s, w);
      var n := Schedule(stack, s, first);
      forall z: Who
        ensures n.At(z).todo == JobsOf(log[1..], z)
      {
        assert z == w || z == w.Other();
      }
      var later := SectionsInOrder(stack, n, log[1..]);
      turns := first + later;
      ScheduleConcat(stack, s, first, later);
      assert s.log + [log[0]] + log[1..] == s.log + log;
    }
  }
}
