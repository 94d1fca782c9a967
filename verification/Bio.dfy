/** The job queue of bio.c as its schedule determines it: one submitting thread and one worker, step
    by step, on a plain queue without list nodes. */
module BioSchedule {
  datatype Owner = Free | ByMain | ByWorker

  /** Where the submitting thread is: outside; in bioCreateBackgroundJob with the lock held, before
      the append, before the count and before the unlock; or in bioPendingJobsOfType. */
  datatype MainAt<J> = Outside | Append(job: J) | Count | Release | ReadPending | Answer(val: nat)

  /** Where the worker is: at the head of its loop, waiting for the lock or in pthread_cond_wait, with
      a job in hand and the lock released, after the job, with the lock held again, after the deletion. */
  datatype Stage = Top | Waiting | Holding | Finished | Relocked | Deleted

  /** One step of one thread; a step whose thread is elsewhere, or which needs a lock that is
      taken, does not happen. */
  datatype Step<J> =
    | Submit(job: J) | AppendJob | CountJob | Unlock | Query | ReadCount | ReturnCount
    | Sleep | Wake | TakeJob | RunJob | LockAgain | DeleteNode | Discount

  datatype State<J> = State(queue: seq<J>, pending: nat, mutex: Owner, main: MainAt<J>, worker: Stage, executed: seq<J>,
      submitted: seq<J>, answers: seq<nat>)

  /** The worker has yet to take the lock. */
  ghost function Begin<J>(): State<J> {
    State([], 0, Free, Outside, Waiting, [], [], [])
  }

  predicate OfMain<J>(s: Step<J>) {
    s.Submit? || s.AppendJob? || s.CountJob? || s.Unlock? || s.Query? || s.ReadCount? || s.ReturnCount?
  }

  ghost function MainNext<J>(st: State<J>, s: Step<J>): State<J> {
    if s.Submit? && st.main.Outside? && st.mutex == Free then st.(mutex := ByMain, main := Append(s.job))
    else if s.AppendJob? && st.main.Append? then
      st.(queue := st.queue + [st.main.job], submitted := st.submitted + [st.main.job], main := Count)
    else if s.CountJob? && st.main.Count? then st.(pending := st.pending + 1, main := Release)
    else if s.Unlock? && st.main.Release? then st.(mutex := Free, main := Outside)
    else if s.Query? && st.main.Outside? && st.mutex == Free then st.(mutex := ByMain, main := ReadPending)
    else if s.ReadCount? && st.main.ReadPending? then st.(main := Answer(st.pending))
    else if s.ReturnCount? && st.main.Answer? then
      st.(mutex := Free, main := Outside, answers := st.answers + [st.main.val])
    else st
  }

  /** Jobs are taken from the front, run while they stay there, and only then removed and discounted. */
  ghost function WorkerNext<J>(st: State<J>, s: Step<J>): State<J> {
    if s.Sleep? && st.worker.Top? && st.queue == [] then st.(mutex := Free, worker := Waiting)
    else if s.Wake? && st.worker.Waiting? && st.mutex == Free then st.(mutex := ByWorker, worker := Top)
    else if s.TakeJob? && st.worker.Top? && st.queue != [] then st.(mutex := Free, worker := Holding)
    else if s.RunJob? && st.worker.Holding? && st.queue != [] then
      st.(executed := st.executed + [st.queue[0]], worker := Finished)
    else if s.LockAgain? && st.worker.Finished? && st.mutex == Free then st.(mutex := ByWorker, worker := Relocked)
    else if s.DeleteNode? && st.worker.Relocked? && st.queue != [] then st.(queue := st.queue[1..], worker := Deleted)
    else if s.Discount? && st.worker.Deleted? && st.pending > 0 then st.(pending := st.pending - 1, worker := Top)
    else st
  }

  ghost function Next<J>(st: State<J>, s: Step<J>): State<J> {
    if OfMain(s) then MainNext(st, s) else WorkerNext(st, s)
  }

  ghost function After<J>(schedule: seq<Step<J>>): State<J> {
    if schedule == [] then Begin() else Next(After(schedule[..|schedule| - 1]), schedule[|schedule| - 1])
  }

  // ---------------------------------------------------------------- what every step keeps

  ghost predicate Locks<J>(st: State<J>) {
    && (st.mutex == ByMain <==> !st.main.Outside?)
    && (st.mutex == ByWorker <==> st.worker.Top? || st.worker.Relocked? || st.worker.Deleted?)
  }

  ghost predicate Counted<J>(st: State<J>) {
    st.pending == |st.queue| - (if st.main.Count? then 1 else 0) + (if st.worker.Deleted? then 1 else 0)
  }

  /** The job at the front has been run. */
  ghost predicate FrontRan<J>(st: State<J>) {
    st.worker.Finished? || st.worker.Relocked?
  }

  /** Jobs already run and those still waiting are all jobs submitted, in that order; a job in hand
      is at the front of the queue, and stays there while it runs. */
  ghost predicate Ordered<J(!new)>(st: State<J>) {
    && (st.worker.Holding? || FrontRan(st) ==> st.queue != [])
    && st.submitted == st.executed + (if FrontRan(st) && st.queue != [] then st.queue[1..] else st.queue)
    && (FrontRan(st) && st.queue != [] ==> st.executed != [] && st.executed[|st.executed| - 1] == st.queue[0])
  }

  /** An answer is the number of jobs submitted and not run, plus the one whose run is not yet
      accounted for. */
  ghost predicate Answered<J(!new)>(st: State<J>) {
    st.main.Answer? ==> |st.executed| + st.main.val == |st.submitted| + (if FrontRan(st) then 1 else 0)
  }

  ghost predicate Inv<J(!new)>(st: State<J>) {
    Locks(st) && Counted(st) && Ordered(st) && Answered(st)
  }

  lemma MainKeeps<J(!new)>(st: State<J>, s: Step<J>)
    requires Inv(st)
    ensures Inv(MainNext(st, s))
  {
    if s.AppendJob? && st.main.Append? {
      var waiting := if FrontRan(st) then st.queue[1..] else st.queue;
      assert st.submitted + [st.main.job] == st.executed + (waiting + [st.main.job]);
      assert FrontRan(st) ==> (st.queue + [st.main.job])[1..] == waiting + [st.main.job];
    }
  }

  lemma WorkerKeeps<J(!new)>(st: State<J>, s: Step<J>)
    requires Inv(st)
    ensures Inv(WorkerNext(st, s))
  {
    if s.RunJob? && st.worker.Holding? {
      assert st.queue == [st.queue[0]] + st.queue[1..];
      assert st.submitted == (st.executed + [st.queue[0]]) + st.queue[1..];
    }
  }

  lemma {:induction false} AlwaysInv<J(!new)>(schedule: seq<Step<J>>)
    ensures Inv(After(schedule))
  {
    if schedule != [] {
      var st, s := After(schedule[..|schedule| - 1]), schedule[|schedule| - 1];
      AlwaysInv(schedule[..|schedule| - 1]);
      MainKeeps(st, s);
      WorkerKeeps(st, s);
    }
  }

  /** Under every schedule the jobs run are the first ones submitted, each once and in order. */
  lemma RunInOrder<J(!new)>(schedule: seq<Step<J>>)
    ensures After(schedule).executed <= After(schedule).submitted
  {
    AlwaysInv(schedule);
  }

  /** Under every schedule the node deleted after relocking is that of the job run last. */
  lemma DeletedIsLastRun<J(!new)>(schedule: seq<Step<J>>)
    requires After(schedule).worker.Relocked?
    ensures
      var st := After(schedule);
      st.queue != [] && st.executed != [] && st.executed[|st.executed| - 1] == st.queue[0]
  {
    AlwaysInv(schedule);
  }

  // ---------------------------------------------------------------- every job can be run

  /** The steps, one after the other, from a given state. */
  ghost function Taken<J>(st: State<J>, steps: seq<Step<J>>): State<J>
    decreases |steps|
  {
    if steps == [] then st else Taken(Next(st, steps[0]), steps[1..])
  }

  lemma {:induction false} AfterTaken<J>(schedule: seq<Step<J>>, steps: seq<Step<J>>)
    ensures After(schedule + steps) == Taken(After(schedule), steps)
    decreases |steps|
  {
    if steps == [] {
      assert schedule + steps == schedule;
    } else {
      var longer := schedule + [steps[0]];
      assert longer[..|longer| - 1] == schedule && longer + steps[1..] == schedule + steps;
      AfterTaken(longer, steps[1..]);
    }
  }

  lemma {:induction false} TakenBoth<J>(st: State<J>, a: seq<Step<J>>, b: seq<Step<J>>)
    ensures Taken(st, a + b) == Taken(Taken(st, a), b)
    decreases |a|
  {
    if a == [] {
      assert a + b == b;
    } else {
      assert (a + b)[0] == a[0] && (a + b)[1..] == a[1..] + b;
      TakenBoth(Next(st, a[0]), a[1..], b);
    }
  }

  ghost predicate NoSubmit<J>(steps: seq<Step<J>>) {
    forall i :: 0 <= i < |steps| ==> !steps[i].Submit?
  }

  /** What the submitting thread has yet to append. */
  ghost function InHand<J>(st: State<J>): seq<J> {
    if st.main.Append? then [st.main.job] else []
  }

  /** The submitting thread can leave whatever it is doing. */
  lemma MainLeaves<J(!new)>(st: State<J>) returns (steps: seq<Step<J>>)
    requires Inv(st)
    ensures NoSubmit(steps) && Inv(Taken(st, steps)) && Taken(st, steps).main == Outside
    ensures Taken(st, steps).submitted == st.submitted + InHand(st)
    decreases match st.main {
      case Outside => 0
      case Release => 1
      case Count => 2
      case Append(_) => 3
      case Answer(_) => 1
      case ReadPending => 2
    }
  {
    if st.main.Outside? { return []; }
    var step: Step<J> := match st.main {
      case Release => Unlock
      case Count => CountJob
      case Append(_) => AppendJob
      case Answer(_) => ReturnCount
      case _ => ReadCount
    };
    MainKeeps(st, step);
    var rest := MainLeaves(MainNext(st, step));
    steps := [step] + rest;
  }

  /** How far the worker is from having emptied the queue. */
  ghost function Distance<J>(st: State<J>): nat {
    6 * |st.queue| + match st.worker {
      case Top => 0
      case Waiting => 1
      case Deleted => 1
      case Holding => -1
      case Finished => -2
      case Relocked => -3
    } + 3
  }

  /** Then the worker can run every job. */
  lemma {:induction false} WorkerFinishes<J(!new)>(st: State<J>) returns (steps: seq<Step<J>>)
    requires Inv(st) && st.main == Outside
    ensures NoSubmit(steps) && Taken(st, steps).submitted == st.submitted
    ensures Taken(st, steps).queue == [] && Taken(st, steps).executed == st.submitted
    decreases Distance(st)
  {
    if st.queue == [] && !st.worker.Deleted? { return []; }
    var step: Step<J> := match st.worker {
      case Waiting => Wake
      case Top => TakeJob
      case Holding => RunJob
      case Finished => LockAgain
      case Relocked => DeleteNode
      case Deleted => Discount
    };
    WorkerKeeps(st, step);
    var rest := WorkerFinishes(WorkerNext(st, step));
    steps := [step] + rest;
  }

  /** From every state that a schedule leads to, some steps of the two threads, none of them a new
      submission, lead to an empty queue with every job run. */
  lemma EveryJobCanRun<J(!new)>(schedule: seq<Step<J>>) returns (steps: seq<Step<J>>)
    ensures NoSubmit(steps)
    ensures
      var st, end := After(schedule), After(schedule + steps);
      end.queue == [] && end.executed == end.submitted == st.submitted + InHand(st)
  {
    AlwaysInv(schedule);
    var st := After(schedule);
    var a := MainLeaves(st);
    var b := WorkerFinishes(Taken(st, a));
    steps := a + b;
    AfterTaken(schedule, steps);
    TakenBoth(st, a, b);
  }

  lemma AfterNext<J(!new)>(schedule: seq<Step<J>>, i: nat)
    requires i < |schedule|
    ensures After(schedule[..i + 1]) == Next(After(schedule[..i]), schedule[i])
  {
    assert schedule[..i + 1][..i] == schedule[..i];
  }

  lemma NextGrows<J(!new)>(st: State<J>, s: Step<J>)
    ensures st.executed <= Next(st, s).executed && st.submitted <= Next(st, s).submitted
  {
  }

  lemma {:induction false} RunGrows<J(!new)>(schedule: seq<Step<J>>, i: nat, j: nat)
    requires i <= j <= |schedule|
    ensures After(schedule[..i]).executed <= After(schedule[..j]).executed
      && After(schedule[..i]).submitted <= After(schedule[..j]).submitted
    decreases j
  {
    if i < j {
      RunGrows(schedule, i, j - 1);
      AfterNext(schedule, j - 1);
      NextGrows(After(schedule[..j - 1]), schedule[j - 1]);
    }
  }

  /** bioPendingJobsOfType returns zero only when every job submitted before has finished: whatever
      the schedule, if step m returns zero, the jobs submitted at any moment up to then have run. */
  lemma ZeroMeansFinished<J(!new)>(schedule: seq<Step<J>>, i: nat, m: nat)
    requires i <= m < |schedule| && After(schedule[..m + 1]).answers == After(schedule[..m]).answers + [0]
    ensures After(schedule[..i]).submitted <= After(schedule[..m]).executed
  {
    AlwaysInv(schedule[..m]);
    AfterNext(schedule, m);
    ReturnedAnswer(After(schedule[..m]), schedule[m], 0);
    RunGrows(schedule, i, m);
  }

  lemma ReturnedAnswer<J(!new)>(st: State<J>, s: Step<J>, val: nat)
    requires Next(st, s).answers == st.answers + [val]
    ensures st.main == Answer(val)
  {
    assert (st.answers + [val])[|st.answers|] == val;
  }
}

/** The background job queue of bio.c with its list nodes. */
module Bio {
  import opened BioSchedule

  /** A list node and its address. */
  datatype Node<J> = Node(id: nat, job: J)

  /** Where the worker is, with the node it keeps across the unlocked part. */
  datatype WorkerAt<J> = AtTop | InWait | Hold(ln: nat, job: J) | Done(ln: nat) | Back(ln: nat) | Gone

  ghost function Jobs<J>(nodes: seq<Node<J>>): seq<J> {
    seq(|nodes|, i requires 0 <= i < |nodes| => nodes[i].job)
  }

  /** listDelNode: the list without the node at that address. */
  function Delete<J>(nodes: seq<Node<J>>, id: nat): seq<Node<J>> {
    if nodes == [] then [] else if nodes[0].id == id then nodes[1..] else [nodes[0]] + Delete(nodes[1..], id)
  }

  class Queue<J(!new)> {
    var jobs: seq<Node<J>>
    var pending: nat
    var mutex: Owner
    var main: MainAt<J>
    var worker: WorkerAt<J>
    /** Addresses not yet used for list nodes. */
    var next: nat
    /** The jobs that were run, and what bioPendingJobsOfType returned. */
    var executed: seq<J>
    var answers: seq<nat>

    /** The node in the worker's hand is the first of the list. */
    ghost predicate InHand(stage: Stage)
      reads this
    {
      match worker
      case AtTop => stage == Top
      case InWait => stage == Waiting
      case Hold(ln, job) => stage == Holding && jobs != [] && jobs[0] == Node(ln, job)
      case Done(ln) => stage == Finished && jobs != [] && jobs[0].id == ln
      case Back(ln) => stage == Relocked && jobs != [] && jobs[0].id == ln
      case Gone => stage == Deleted
    }

    ghost predicate Represents(st: State<J>)
      reads this
    {
      && Jobs(jobs) == st.queue && pending == st.pending && mutex == st.mutex && main == st.main
      && InHand(st.worker) && executed == st.executed && answers == st.answers
    }

    constructor ()
      ensures Represents(Begin())
    {
      jobs, pending, mutex, main, worker, next, executed, answers := [], 0, Free, Outside, InWait, 0, [], [];
    }

    /** A step of bioCreateBackgroundJob or bioPendingJobsOfType. */
    method MainStep(s: Step<J>, ghost st: State<J>)
      requires Represents(st)
      modifies this
      ensures Represents(MainNext(st, s))
    {
      if s.Submit? && main.Outside? && mutex == Free {
        mutex, main := ByMain, Append(s.job);
      } else if s.AppendJob? && main.Append? {
        var n := Node(next, main.job);
        assert Jobs(jobs + [n]) == Jobs(jobs) + [main.job];
        jobs, next, main := jobs + [n], next + 1, Count;
      } else if s.CountJob? && main.Count? {
        pending, main := pending + 1, Release;
      } else if s.Unlock? && main.Release? {
        mutex, main := Free, Outside;
      } else if s.Query? && main.Outside? && mutex == Free {
        mutex, main := ByMain, ReadPending;
      } else if s.ReadCount? && main.ReadPending? {
        main := Answer(pending);
      } else if s.ReturnCount? && main.Answer? {
        answers := answers + [main.val];
        mutex, main := Free, Outside;
      }
    }

    /** A step of bioProcessBackgroundJobs. */
    method WorkerStep(s: Step<J>, ghost st: State<J>)
      requires Represents(st) && Inv(st)
      modifies this
      ensures Represents(WorkerNext(st, s))
    {
      if s.Sleep? && worker.AtTop? && |jobs| == 0 {
        mutex, worker := Free, InWait;
      } else if s.Wake? && worker.InWait? && mutex == Free {
        mutex, worker := ByWorker, AtTop;
      } else if s.TakeJob? && worker.AtTop? && |jobs| > 0 {
        mutex, worker := Free, Hold(jobs[0].id, jobs[0].job);
      } else if s.RunJob? && worker.Hold? {
        executed, worker := executed + [worker.job], Done(worker.ln);
      } else if s.LockAgain? && worker.Done? && mutex == Free {
        mutex, worker := ByWorker, Back(worker.ln);
      } else if s.DeleteNode? && worker.Back? {
        assert Jobs(jobs[1..]) == Jobs(jobs)[1..];
        jobs, worker := Delete(jobs, worker.ln), Gone;
      } else if s.Discount? && worker.Gone? {
        pending, worker := pending - 1, AtTop;
      }
    }
  }

  /** Under every schedule the queue is where the schedule puts it: the list, the count, the jobs run
      and the values returned are those of the plain queue. */
  method Run<J(!new)>(schedule: seq<Step<J>>) returns (q: Queue<J>)
    ensures q.Represents(After(schedule))
  {
    q := new Queue<J>();
    for i := 0 to |schedule|
      invariant fresh(q)
      invariant q.Represents(After(schedule[..i]))
    {
      AfterNext(schedule, i);
      AlwaysInv(schedule[..i]);
      if OfMain(schedule[i]) {
        q.MainStep(schedule[i], After(schedule[..i]));
      } else {
        q.WorkerStep(schedule[i], After(schedule[..i]));
      }
    }
    assert schedule[..|schedule|] == schedule;
  }
}
