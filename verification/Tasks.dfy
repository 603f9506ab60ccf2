/** Non-blocking requests of one file handle: the queue loop, the completion callbacks and
    the clean-up after a refused submission, interleaved in any way.  Sections under the
    task lock, and the steps between them, are atomic. */
module Tasks {
  import opened Lists

  /** FAT_TASK and what has happened to it.  Its subtasks are numbered in list order. */
  datatype Task = Task(
    total: nat,                // subtasks it was created with
    subtasks: seq<nat>,        // Subtasks, the list
    token: bool,               // FileIoToken is not NULL
    phase: Phase,              // where its FatQueueTask is
    issued: nat,               // subtasks the device accepted
    completed: map<nat, bool>, // completed subtasks, and whether each succeeded
    signals: seq<bool>,        // statuses its token was signalled with; true is EFI_SUCCESS
    frees: nat)                // how often it was freed

  /** FatQueueTask: about to submit `link`; has submitted a subtask; was refused at `link`;
      has returned.  A link equal to `total` is the list head. */
  datatype Phase = Submitting(link: nat, next: nat) | Submitted(next: nat) | Refused(link: nat) | Returned(ok: bool)

  /** The tasks ever created for the handle, and the list IFile->Tasks. */
  datatype Handle = Handle(tasks: map<nat, Task>, queue: seq<nat>)

  datatype Event =
    | Queue(id: nat, total: nat)                // FatQueueTask is entered
    | Submit(id: nat, accepted: bool)           // WriteDiskEx or ReadDiskEx
    | Advance(id: nat)                          // the loop moves to the next link
    | CleanUp(id: nat)                          // the clean-up after a refusal
    | Complete(id: nat, subtask: nat, ok: bool) // FatOnAccessComplete

  predicate Sorted(s: seq<nat>) {
    forall i, j :: 0 <= i < j < |s| ==> s[i] < s[j]
  }

  /** The list node after `x`; `head` when there is none. */
  function ForwardLink(s: seq<nat>, x: nat, head: nat): nat {
    if s == [] then head
    else if s[0] == x then (if |s| > 1 then s[1] else head)
    else ForwardLink(s[1..], x, head)
  }

  /** The nodes of a sorted list below `x`. */
  function Below(s: seq<nat>, x: nat): seq<nat> {
    if s == [] || s[0] >= x then [] else [s[0]] + Below(s[1..], x)
  }

  lemma Prepend(x: nat, s: seq<nat>)
    requires Sorted(s) && forall y :: y in s ==> x < y
    ensures Sorted([x] + s)
  {
    forall i, j | 0 <= i < j < |s| + 1
      ensures ([x] + s)[i] < ([x] + s)[j]
    {
      assert s[j - 1] in s;
    }
  }

  lemma SortedRest(s: seq<nat>)
    requires Sorted(s) && s != []
    ensures Sorted(s[1..]) && (forall y :: y in s[1..] ==> s[0] < y)
      && (forall y :: y in s <==> y == s[0] || y in s[1..])
  {
    assert s == [s[0]] + s[1..];
  }

  lemma {:induction false} RemoveKeepsOrder(s: seq<nat>, x: nat)
    requires Sorted(s)
    ensures Sorted(Remove(s, x)) && forall y :: y in Remove(s, x) <==> y in s && y != x
  {
    if s != [] {
      SortedRest(s);
      hide Sorted;
      if s[0] != x {
        RemoveKeepsOrder(s[1..], x);
        Prepend(s[0], Remove(s[1..], x));
      }
    }
  }

  lemma {:induction false} BelowIsSet(s: seq<nat>, x: nat)
    requires Sorted(s)
    ensures Sorted(Below(s, x)) && forall y :: y in Below(s, x) <==> y in s && y < x
  {
    if s != [] {
      SortedRest(s);
      if s[0] < x {
        BelowIsSet(s[1..], x);
        Prepend(s[0], Below(s[1..], x));
      }
    }
  }

  /** In a sorted list that holds the number after `x`, that number is the node after `x`. */
  lemma {:induction false} ForwardIsNext(s: seq<nat>, x: nat, head: nat)
    requires Sorted(s) && x in s && x < head && (forall y :: y in s ==> y < head)
    requires x + 1 < head ==> x + 1 in s
    ensures ForwardLink(s, x, head) == x + 1
  {
    SortedRest(s);
    assert |s| > 1 ==> s[0] < s[1] && s[1] in s;
    if s[0] != x {
      ForwardIsNext(s[1..], x, head);
    } else if x + 1 < head {
      assert x + 1 in s[1..];
      var k :| 0 <= k < |s[1..]| && s[1..][k] == x + 1;
    }
  }

  /** FatCreateTask with `total` subtasks, inserted and about to enter the loop. */
  function NewTask(total: nat): Task {
    Task(total, seq(total, i => i), true, Submitting(0, if total > 1 then 1 else total), 0, map[], [], 0)
  }

  /** A task without subtasks is signalled and freed at once. */
  function EmptyTask(): Task {
    Task(0, [], true, Returned(true), 0, map[], [true], 1)
  }

  ghost predicate Outstanding(t: Task, i: nat) {
    i < t.issued && i !in t.completed
  }

  /** The events that can come next: the device completes only what it accepted. */
  ghost predicate Enabled(h: Handle, e: Event) {
    match e
    case Queue(id, _) => id !in h.tasks
    case Submit(id, _) => id in h.tasks && h.tasks[id].phase.Submitting?
    case Advance(id) => id in h.tasks && h.tasks[id].phase.Submitted?
    case CleanUp(id) => id in h.tasks && h.tasks[id].phase.Refused?
    case Complete(id, i, _) => id in h.tasks && Outstanding(h.tasks[id], i)
  }

  function Submission(t: Task, accepted: bool): Task
    requires t.phase.Submitting?
  {
    if accepted then t.(phase := Submitted(t.phase.next), issued := t.issued + 1)
    else t.(phase := Refused(t.phase.link))
  }

  function Advanced(t: Task): Task
    requires t.phase.Submitted?
  {
    if t.phase.next == t.total then t.(phase := Returned(true))
    else t.(phase := Submitting(t.phase.next, ForwardLink(t.subtasks, t.phase.next, t.total)))
  }

  function CleanedUp(t: Task): Task
    requires t.phase.Refused?
  {
    var rest := Below(t.subtasks, t.phase.link);
    if rest == [] then t.(subtasks := rest, phase := Returned(false), frees := t.frees + 1)
    else t.(subtasks := rest, phase := Returned(false), token := false)
  }

  function Completed(t: Task, i: nat, ok: bool): Task {
    var rest := Remove(t.subtasks, i);
    var tell := t.token && (rest == [] || !ok);
    t.(subtasks := rest, completed := t.completed[i := ok], token := t.token && !tell,
       signals := if tell then t.signals + [ok] else t.signals, frees := if rest == [] then t.frees + 1 else t.frees)
  }

  /** The handle after one event. */
  function After(h: Handle, e: Event): Handle
    requires Enabled(h, e)
  {
    match e
    case Queue(id, total) =>
      if total == 0 then h.(tasks := h.tasks[id := EmptyTask()])
      else Handle(h.tasks[id := NewTask(total)], h.queue + [id])
    case Submit(id, accepted) => h.(tasks := h.tasks[id := Submission(h.tasks[id], accepted)])
    case Advance(id) => h.(tasks := h.tasks[id := Advanced(h.tasks[id])])
    case CleanUp(id) => Replaced(h, id, CleanedUp(h.tasks[id]))
    case Complete(id, i, ok) => Replaced(h, id, Completed(h.tasks[id], i, ok))
  }

  /** Task `id` becomes `t`, and leaves the list when its own list has become empty. */
  function Replaced(h: Handle, id: nat, t: Task): Handle {
    Handle(h.tasks[id := t], if t.subtasks == [] then Remove(h.queue, id) else h.queue)
  }

  // ---- what every run keeps ----

  ghost predicate AllOk(t: Task) {
    forall i :: 0 <= i < t.total ==> i in t.completed && t.completed[i]
  }

  /** Exactly the subtasks not completed, and not given up after a refusal, are in the list. */
  ghost predicate ListOk(t: Task) {
    && Sorted(t.subtasks)
    && forall i: nat :: i in t.subtasks <==>
      i < t.total && i !in t.completed && (i < t.issued || t.phase != Returned(false))
  }

  ghost predicate PhaseOk(t: Task) {
    && t.issued <= t.total && (forall i :: i in t.completed ==> i < t.issued)
    && match t.phase
       case Submitting(link, next) => link == t.issued < t.total && next == link + 1
       case Submitted(next) => next == t.issued
       case Refused(link) => link == t.issued < t.total
       case Returned(ok) => ok <==> t.issued == t.total
  }

  ghost predicate TokenOk(t: Task) {
    && (t.signals == [] || (t.signals == [true] && AllOk(t))
      || (t.signals == [false] && exists i :: i in t.completed && !t.completed[i]))
    && (t.frees == 0 && t.token ==>
      t.signals == [] && t.phase != Returned(false) && forall i :: i in t.completed ==> t.completed[i])
    && (t.frees == 0 && !t.token ==> t.signals == [false] || t.phase == Returned(false))
    && (t.frees == 1 && t.phase != Returned(false) ==> t.signals != [])
  }

  ghost predicate TaskOk(t: Task) {
    ListOk(t) && PhaseOk(t) && TokenOk(t) && t.frees == if t.subtasks == [] then 1 else 0
  }

  /** The list of the handle names the tasks not yet freed. */
  ghost predicate Good(h: Handle) {
    && (forall id :: id in h.tasks ==> TaskOk(h.tasks[id]))
    && NoRepeats(h.queue) && (forall id :: id in h.queue <==> id in h.tasks && h.tasks[id].frees == 0)
  }

  lemma NewTaskOk(total: nat)
    ensures total > 0 ==> TaskOk(NewTask(total))
    ensures TaskOk(EmptyTask())
  {
    var list := NewTask(total).subtasks;
    forall i: nat
      ensures i in list <==> i < total
    {
      assert i < total ==> list[i] == i;
    }
  }

  lemma SubmitOk(t: Task, accepted: bool)
    requires TaskOk(t) && t.phase.Submitting?
    ensures TaskOk(Submission(t, accepted))
  {
  }

  lemma AdvanceOk(t: Task)
    requires TaskOk(t) && t.phase.Submitted?
    ensures TaskOk(Advanced(t))
  {
    if t.phase.next < t.total {
      assert t.phase.next in t.subtasks;
      ForwardIsNext(t.subtasks, t.phase.next, t.total);
    }
  }

  /** A link about to be submitted is a listed subtask of a live task, not submitted so far. */
  lemma LinkIsLive(t: Task)
    requires TaskOk(t)
    ensures t.phase.Submitting? ==>
        t.frees == 0 && t.phase.link in t.subtasks && !Outstanding(t, t.phase.link) && t.phase.link !in t.completed
    ensures t.phase == Returned(true) ==> t.issued == t.total
  {
    assert t.phase.Submitting? ==> t.phase.link in t.subtasks;
  }

  lemma CleanUpOk(t: Task)
    requires TaskOk(t) && t.phase.Refused?
    ensures TaskOk(CleanedUp(t)) && t.frees == 0
  {
    assert t.phase.link in t.subtasks;
    BelowIsSet(t.subtasks, t.phase.link);
  }

  /** A completion finds its task alive and itself in the list. */
  lemma OutstandingIsListed(t: Task, i: nat)
    requires TaskOk(t) && Outstanding(t, i)
    ensures i in t.subtasks && t.frees == 0
  {
  }

  lemma CompleteOk(t: Task, i: nat, ok: bool)
    requires TaskOk(t) && Outstanding(t, i)
    ensures TaskOk(Completed(t, i, ok))
  {
    OutstandingIsListed(t, i);
    RemoveKeepsOrder(t.subtasks, i);
    var t' := Completed(t, i, ok);
    assert i in t'.completed && t'.completed[i] == ok;
    assert forall j :: j in t.completed ==> j in t'.completed && t'.completed[j] == t.completed[j];
    if t'.subtasks == [] && t.phase != Returned(false) {
      assert forall j: nat :: j < t.total ==> j !in t'.subtasks;
    }
  }

  /** One task moves on; it leaves the list exactly when it is freed now. */
  lemma ReplacedGood(h: Handle, id: nat, t: Task)
    requires Good(h) && id in h.tasks && TaskOk(t) && t.frees == if t.subtasks == [] then 1 else 0
    ensures h.tasks[id].frees == 0 ==> Good(Replaced(h, id, t))
    ensures h.tasks[id].frees == t.frees ==> Good(h.(tasks := h.tasks[id := t]))
  {
    hide TaskOk, Remove;
    RemoveIsSet(h.queue, id);
  }

  /** Every event keeps the handle good. */
  lemma StepGood(h: Handle, e: Event)
    requires Good(h) && Enabled(h, e)
    ensures Good(After(h, e))
  {
    hide ListOk, PhaseOk, TokenOk, Replaced, CleanedUp, Completed, ForwardLink;
    match e
    case Queue(id, total) =>
      NewTaskOk(total);
    case Submit(id, accepted) =>
      SubmitOk(h.tasks[id], accepted);
      ReplacedGood(h, id, Submission(h.tasks[id], accepted));
    case Advance(id) =>
      AdvanceOk(h.tasks[id]);
      ReplacedGood(h, id, Advanced(h.tasks[id]));
    case CleanUp(id) =>
      CleanUpOk(h.tasks[id]);
      ReplacedGood(h, id, CleanedUp(h.tasks[id]));
    case Complete(id, i, ok) =>
      OutstandingIsListed(h.tasks[id], i);
      CompleteOk(h.tasks[id], i, ok);
      ReplacedGood(h, id, Completed(h.tasks[id], i, ok));
  }

  /** The state after a run; the run stops at the first event that cannot come. */
  ghost predicate Runs(h: Handle, events: seq<Event>)
    decreases |events|
  {
    events == [] || (Enabled(h, events[0]) && Runs(After(h, events[0]), events[1..]))
  }

  ghost function End(h: Handle, events: seq<Event>): Handle
    requires Runs(h, events)
    decreases |events|
  {
    if events == [] then h else End(After(h, events[0]), events[1..])
  }

  lemma {:induction false} RunGood(h: Handle, events: seq<Event>)
    requires Good(h) && Runs(h, events)
    ensures Good(End(h, events))
    decreases |events|
  {
    if events != [] {
      StepGood(h, events[0]);
      RunGood(After(h, events[0]), events[1..]);
    }
  }

  /** In every interleaving: a token is signalled at most once; a queue call that succeeded
      has its token signalled exactly once when the task is gone, and until then something
      is outstanding; the signal says success exactly when every subtask succeeded; after a
      refused queue call the token is never told success; a task is freed once, after its
      last subtask; and an empty list means that nothing at all is outstanding. */
  lemma EveryRun(events: seq<Event>, id: nat)
    requires Runs(Handle(map[], []), events)
    ensures var h := End(Handle(map[], []), events);
      && (id in h.tasks ==>
          var t := h.tasks[id];
          && |t.signals| <= 1 && t.frees <= 1
          && (t.phase == Returned(true) && t.frees == 0 ==> exists i :: Outstanding(t, i))
          && (t.phase == Returned(true) && t.frees == 1 ==> t.signals == [AllSucceeded(t)])
          && (true in t.signals ==> AllOk(t) && t.frees == 1 && t.phase != Returned(false))
          && (t.frees == 1 ==> forall i :: !Outstanding(t, i))
          && (t.frees == 0 <==> id in h.queue))
      && (h.queue == [] ==> forall a, i :: a in h.tasks ==> !Outstanding(h.tasks[a], i))
  {
    var h0 := Handle(map[], []);
    RunGood(h0, events);
    var h := End(h0, events);
    if id in h.tasks {
      TaskFacts(h.tasks[id]);
    }
    forall a, i | h.queue == [] && a in h.tasks
      ensures !Outstanding(h.tasks[a], i)
    {
      TaskFacts(h.tasks[a]);
    }
  }

  ghost predicate AllSucceeded(t: Task) {
    forall i :: i in t.completed ==> t.completed[i]
  }

  lemma TaskFacts(t: Task)
    requires TaskOk(t)
    ensures |t.signals| <= 1 && t.frees <= 1
    ensures t.phase == Returned(true) && t.frees == 0 ==> exists i :: Outstanding(t, i)
    ensures t.phase == Returned(true) && t.frees == 1 ==> t.signals == [AllSucceeded(t)]
    ensures true in t.signals ==> AllOk(t) && t.frees == 1 && t.phase != Returned(false)
    ensures t.frees == 1 ==> forall i :: !Outstanding(t, i)
  {
    if t.frees == 0 {
      assert t.subtasks[0] in t.subtasks;
      if t.phase == Returned(true) {
        assert Outstanding(t, t.subtasks[0]);
      }
    }
    if t.total > 0 && AllOk(t) {
      assert t.total - 1 in t.completed;
    }
  }

  // ---- progress ----

  /** How much a task has left to do. */
  function StepsLeft(t: Task): int {
    |t.subtasks| + match t.phase
      case Submitting(_, _) => 2 * (t.total - t.issued) + 1
      case Submitted(_) => 2 * (t.total - t.issued) + 2
      case Refused(_) => 1
      case Returned(_) => 0
  }

  lemma {:induction false} BelowShrinks(s: seq<nat>, x: nat)
    ensures |Below(s, x)| <= |s|
  {
    if s != [] {
      BelowShrinks(s[1..], x);
    }
  }

  /** While a task is listed something can happen to it, and whatever happens to a task
      brings it nearer to its end: waiting for an empty list ends. */
  lemma Progress(h: Handle, e: Event)
    requires Good(h)
    ensures Enabled(h, e) && !e.Queue? ==> 0 <= StepsLeft(After(h, e).tasks[e.id]) < StepsLeft(h.tasks[e.id])
    ensures h.queue != [] ==> exists next: Event :: !next.Queue? && Enabled(h, next)
  {
    if Enabled(h, e) && !e.Queue? {
      assert TaskOk(h.tasks[e.id]);
      TaskProgress(h.tasks[e.id]);
      hide TaskOk, StepsLeft, Submission, Advanced, CleanedUp, Completed;
      match e
      case Submit(_, accepted) =>
      case Advance(_) =>
      case CleanUp(_) =>
      case Complete(_, i, ok) =>
    }
    if h.queue != [] {
      NeverStuck(h, h.queue[0]);
    }
  }

  lemma TaskProgress(t: Task)
    requires TaskOk(t)
    ensures t.phase.Submitting? ==> forall a :: 0 <= StepsLeft(Submission(t, a)) < StepsLeft(t)
    ensures t.phase.Submitted? ==> 0 <= StepsLeft(Advanced(t)) < StepsLeft(t)
    ensures t.phase.Refused? ==> 0 <= StepsLeft(CleanedUp(t)) < StepsLeft(t)
    ensures forall i, ok :: Outstanding(t, i) ==> 0 <= StepsLeft(Completed(t, i, ok)) < StepsLeft(t)
  {
    hide Below, Remove, ForwardLink;
    if t.phase.Refused? {
      BelowShrinks(t.subtasks, t.phase.link);
    }
    forall i, ok | Outstanding(t, i)
      ensures 0 <= StepsLeft(Completed(t, i, ok)) < StepsLeft(t)
    {
      OutstandingIsListed(t, i);
      RemoveShrinks(t.subtasks, i);
    }
  }

  lemma NeverStuck(h: Handle, id: nat)
    requires Good(h) && id in h.queue
    ensures exists next: Event :: !next.Queue? && Enabled(h, next)
  {
    var t := h.tasks[id];
    assert TaskOk(t);
    match t.phase
    case Submitting(_, _) => assert Enabled(h, Submit(id, true));
    case Submitted(_) => assert Enabled(h, Advance(id));
    case Refused(_) => assert Enabled(h, CleanUp(id));
    case Returned(_) =>
      assert t.subtasks[0] in t.subtasks;
      assert Enabled(h, Complete(id, t.subtasks[0], true));
  }

  // ---- the code ----

  /** FAT_IFILE with its task list, and the tasks in memory. */
  class IFile {
    var tasks: map<nat, Task>
    var queue: seq<nat>

    constructor ()
      ensures State() == Handle(map[], []) && Good(State())
    {
      tasks, queue := map[], [];
    }

    function State(): (h: Handle)
      reads this
      ensures h.tasks == tasks && h.queue == queue
    {
      Handle(tasks, queue)
    }

    /** The head of FatQueueTask. */
    method QueueTask(id: nat, total: nat)
      requires Good(State()) && Enabled(State(), Queue(id, total))
      modifies this
      ensures Good(State()) && State() == After(old(State()), Queue(id, total))
    {
      StepGood(State(), Queue(id, total));
      if total == 0 {
        tasks := tasks[id := EmptyTask()];
        return;
      }
      queue := queue + [id];
      tasks := tasks[id := NewTask(total)];
    }

    /** One submission of the queue loop, and whether the device accepted it. */
    method SubmitNext(id: nat, accepted: bool)
      requires Good(State()) && Enabled(State(), Submit(id, accepted))
      modifies this`tasks
      ensures Good(State()) && State() == After(old(State()), Submit(id, accepted))
      ensures old(tasks)[id].phase.link in old(tasks)[id].subtasks && old(tasks)[id].frees == 0
    {
      StepGood(State(), Submit(id, accepted));
      var task := tasks[id];
      LinkIsLive(task);
      if accepted {
        task := task.(phase := Submitted(task.phase.next), issued := task.issued + 1);
      } else {
        task := task.(phase := Refused(task.phase.link));
      }
      tasks := tasks[id := task];
    }

    /** The loop step: the next link is a live subtask, or the loop ends. */
    method AdvanceLoop(id: nat)
      requires Good(State()) && Enabled(State(), Advance(id))
      modifies this`tasks
      ensures Good(State()) && State() == After(old(State()), Advance(id))
      ensures if tasks[id].phase.Submitting? then
          var t, link := tasks[id], tasks[id].phase.link;
          t.frees == 0 && link in t.subtasks && !Outstanding(t, link) && link !in t.completed && id in queue
        else tasks[id].phase == Returned(true) && tasks[id].issued == tasks[id].total
    {
      StepGood(State(), Advance(id));
      AdvanceOk(tasks[id]);
      LinkIsLive(Advanced(tasks[id]));
      var task := tasks[id];
      var link := task.phase.next;
      if link == task.total {
        task := task.(phase := Returned(true));
      } else {
        task := task.(phase := Submitting(link, ForwardLink(task.subtasks, link, task.total)));
      }
      tasks := tasks[id := task];
    }

    /** After a refusal: the subtasks not submitted are destroyed one by one. */
    method CleanUpTask(id: nat)
      requires Good(State()) && Enabled(State(), CleanUp(id))
      modifies this
      ensures Good(State()) && State() == After(old(State()), CleanUp(id))
    {
      StepGood(State(), CleanUp(id));
      var task := tasks[id];
      CleanUpOk(task);
      var rest := DestroyFrom(task);
      if rest == [] {
        queue := Remove(queue, id);
        task := task.(subtasks := rest, phase := Returned(false), frees := task.frees + 1);
      } else {
        task := task.(subtasks := rest, phase := Returned(false), token := false);
      }
      tasks := tasks[id := task];
    }

    /** The clean-up loop: what stays are the subtasks below the refused one. */
    static method DestroyFrom(task: Task) returns (rest: seq<nat>)
      requires TaskOk(task) && task.phase.Refused?
      ensures rest == Below(task.subtasks, task.phase.link)
      ensures Sorted(rest) && forall i :: i in rest <==> i in task.subtasks && i < task.phase.link
    {
      var link := task.phase.link;
      ghost var start := link;
      rest := task.subtasks;
      BelowIsSet(rest, start);
      while link != task.total
        invariant start <= link <= task.total && Sorted(rest) && Below(rest, start) == Below(task.subtasks, start)
        invariant forall i: nat :: i in rest <==> i in task.subtasks && !(start <= i < link)
        decreases task.total - link
      {
        assert link in rest;
        ForwardIsNext(rest, link, task.total);
        var next := ForwardLink(rest, link, task.total);
        RemoveKeepsOrder(rest, link);
        BelowRemove(rest, link, start);
        rest := Remove(rest, link);
        link := next;
      }
      BelowAll(rest, start);
    }

    /** FatOnAccessComplete. */
    method OnAccessComplete(id: nat, i: nat, ok: bool)
      requires Good(State()) && Enabled(State(), Complete(id, i, ok))
      modifies this
      ensures Good(State()) && State() == After(old(State()), Complete(id, i, ok))
      ensures old(tasks)[id].frees == 0 && i in old(tasks)[id].subtasks
    {
      hide ListOk, PhaseOk, TokenOk, NoRepeats, Remove, Sorted;
      StepGood(State(), Complete(id, i, ok));
      var task := tasks[id];
      OutstandingIsListed(task, i);
      task := task.(subtasks := Remove(task.subtasks, i), completed := task.completed[i := ok]);
      if task.token {
        if task.subtasks == [] || !ok {
          task := task.(signals := task.signals + [ok], token := false);
        }
      }
      if task.subtasks == [] {
        queue := Remove(queue, id);
        task := task.(frees := task.frees + 1);
      }
      tasks := tasks[id := task];
    }
  }

  lemma {:induction false} BelowRemove(s: seq<nat>, x: nat, bound: nat)
    requires Sorted(s) && bound <= x
    ensures Below(Remove(s, x), bound) == Below(s, bound)
  {
    if s != [] {
      SortedRest(s);
      if s[0] != x {
        BelowRemove(s[1..], x, bound);
      } else if |s| > 1 {
        assert s[1] in s[1..];
      }
    }
  }

  lemma {:induction false} BelowAll(s: seq<nat>, bound: nat)
    requires forall y :: y in s ==> y < bound
    ensures Below(s, bound) == s
  {
    if s != [] {
      assert s == [s[0]] + s[1..] && s[0] in s && forall y :: y in s[1..] ==> y in s;
      BelowAll(s[1..], bound);
    }
  }
}
