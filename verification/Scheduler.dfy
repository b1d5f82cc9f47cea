/** The scheduler as it runs: a circular doubly linked list of task nodes, relinked in place. */
module Scheduler {
  import opened Bits
  import opened Options
  import opened TaskRing

  class TaskNode {
    var pid: nat
    var state: State
    var next: TaskNode?
    var prev: TaskNode?

    constructor (id: nat)
      ensures pid == id && state == Ready
    {
      pid, state, next, prev := id, Ready, null, null;
    }
  }

  function Succ(n: nat, i: nat): nat
    requires i < n
  {
    if i + 1 < n then i + 1 else 0
  }

  function Pred(n: nat, i: nat): nat
    requires i < n
  {
    if i > 0 then i - 1 else n - 1
  }

  ghost function Position(s: seq<TaskNode>, x: TaskNode): (k: nat)
    requires x in s
    ensures k < |s| && s[k] == x
  {
    if s[0] == x then 0 else 1 + Position(s[1..], x)
  }

  ghost predicate Distinct(s: seq<TaskNode>) {
    forall i, j :: 0 <= i < j < |s| ==> s[i] != s[j]
  }

  ghost function Without(s: seq<TaskNode>, j: nat): seq<TaskNode>
    requires j < |s|
  {
    s[..j] + s[j + 1..]
  }

  lemma DistinctWithout(s: seq<TaskNode>, j: nat)
    requires j < |s| && Distinct(s)
    ensures Distinct(Without(s, j))
    ensures forall x :: x in s && x != s[j] ==> x in Without(s, j)
    ensures 1 < |s| ==> Without(s, j)[0] == s[if j == 0 then 1 else 0]
    ensures 1 < |s| ==> Without(s, j)[|s| - 2] == s[if j == |s| - 1 then |s| - 2 else |s| - 1]
  {
    forall x | x in s && x != s[j]
      ensures x in Without(s, j)
    {
      var k :| 0 <= k < |s| && s[k] == x;
      assert Without(s, j)[if k < j then k else k - 1] == x;
    }
  }

  lemma PassedStep(tasks: seq<Task>, c: nat, checked: nat, at: nat)
    requires c < |tasks| && checked < |tasks| && at == Wrap(|tasks|, c + 1 + checked) && !Runnable(tasks[at])
    ensures Passed(tasks, c, checked + 1) == Passed(tasks, c, checked)
    ensures checked + 1 < |tasks| ==> Succ(|tasks|, at) == Wrap(|tasks|, c + 1 + (checked + 1))
  {
  }

  lemma PassedStop(tasks: seq<Task>, c: nat, checked: nat, at: nat)
    requires c < |tasks| && checked <= |tasks|
    requires checked < |tasks| ==> at == Wrap(|tasks|, c + 1 + checked) && Runnable(tasks[at])
    ensures Passed(tasks, c, checked) == checked
  {
  }

  class ProcessList {
    var head: TaskNode?
    var tail: TaskNode?
    var current: TaskNode?
    var count: nat
    var nextPid: nat
    ghost var ring: seq<TaskNode>

    /** One cycle of `count` nodes, linked both ways, from head to tail; the current task is one
        of them or none. */
    ghost predicate Valid()
      reads this, ring
    {
      && count == |ring|
      && Distinct(ring)
      && (ring == [] ==> head == null && tail == null && current == null)
      && (ring != [] ==> head == ring[0] && tail == ring[|ring| - 1])
      && (forall i {:trigger ring[i].next} :: 0 <= i < |ring| ==> ring[i].next == ring[Succ(|ring|, i)])
      && (forall i {:trigger ring[i].prev} :: 0 <= i < |ring| ==> ring[i].prev == ring[Pred(|ring|, i)])
      && (current != null ==> current in ring)
    }

    ghost function Tasks(): (tasks: seq<Task>)
      reads this, ring
      ensures |tasks| == |ring|
    {
      seq(|ring|, i requires 0 <= i < |ring| reads this, ring => Task(ring[i].pid, ring[i].state))
    }

    ghost function View(): (r: Ring)
      requires Valid()
      reads this, ring
      ensures RingOk(r)
    {
      Ring(Tasks(), if current == null then None else Some(Position(ring, current)))
    }

    lemma PositionIs(j: nat)
      requires Valid() && j < |ring|
      ensures Position(ring, ring[j]) == j
    {
    }

    constructor ()
      ensures Valid() && View() == Ring([], None) && nextPid == 1
    {
      head, tail, current, count, nextPid, ring := null, null, null, 0, 1, [];
    }

    method LinkProcess(task: TaskNode)
      requires Valid() && task !in ring
      modifies this, ring`next, ring`prev, task`next, task`prev
      ensures Valid() && ring == old(ring) + [task] && current == old(current) && nextPid == old(nextPid)
    {
      if head == null {
        head, tail := task, task;
        task.next, task.prev := task, task;
      } else {
        task.next := head;
        task.prev := tail;
        tail.next := task;
        head.prev := task;
        tail := task;
      }
      count := count + 1;
      ring := ring + [task];
    }

    /** The nodes that stay are linked past the one that was taken out. */
    ghost predicate LinkedPast(was: seq<TaskNode>, j: nat)
      requires j < |was|
      reads was
    {
      var n := |was|;
      forall k {:trigger was[k].next} {:trigger was[k].prev} :: 0 <= k < n && k != j ==>
        && was[k].next == was[if Succ(n, k) == j then Succ(n, j) else Succ(n, k)]
        && was[k].prev == was[if Pred(n, k) == j then Pred(n, j) else Pred(n, k)]
    }

    lemma RingWithout(was: seq<TaskNode>, j: nat)
      requires j < |was| && 1 < |was| && LinkedPast(was, j) && ring == Without(was, j)
      ensures forall i {:trigger ring[i].next} :: 0 <= i < |ring| ==> ring[i].next == ring[Succ(|ring|, i)]
      ensures forall i {:trigger ring[i].prev} :: 0 <= i < |ring| ==> ring[i].prev == ring[Pred(|ring|, i)]
    {
      forall i | 0 <= i < |ring|
        ensures ring[i].next == ring[Succ(|ring|, i)] && ring[i].prev == ring[Pred(|ring|, i)]
      {
        var k := if i < j then i else i + 1;
        assert ring[i] == was[k] && was[k].next == was[k].next;
      }
    }

    /** Links the neighbours of a node to one another. */
    method Bypass(task: TaskNode, ghost j: nat)
      requires Valid() && j < |ring| && task == ring[j] && 1 < |ring|
      modifies ring`next, ring`prev
      ensures LinkedPast(ring, j)
      ensures task.next == ring[Succ(|ring|, j)] && task.prev == ring[Pred(|ring|, j)]
    {
      ghost var n, s, p := |ring|, Succ(|ring|, j), Pred(|ring|, j);
      assert task.next == ring[s] && task.prev == ring[p];
      task.prev.next := task.next;
      task.next.prev := task.prev;
      assert forall k {:trigger ring[k].next} :: 0 <= k < n && k != p ==> ring[k].next == ring[Succ(n, k)];
      assert forall k {:trigger ring[k].prev} :: 0 <= k < n && k != s ==> ring[k].prev == ring[Pred(n, k)];
    }

    /** The list after a node was taken out of the ring it was in before. */
    lemma ViewWithout(was: seq<TaskNode>, before: Ring, j: nat)
      requires Valid() && j < |was| && ring == Without(was, j)
      requires RingOk(before) && |before.tasks| == |was|
      requires forall k {:trigger before.tasks[k]} :: 0 <= k < |was| ==> before.tasks[k] == Task(was[k].pid, was[k].state)
      requires current == null <==> before.current.None? || |was| == 1
      requires current != null ==> current == ring[Moved(|was|, j, before.current.value)]
      ensures View() == Unlink(before, j)
    {
      if current != null {
        PositionIs(Moved(|was|, j, before.current.value));
      }
      assert Tasks() == before.tasks[..j] + before.tasks[j + 1..];
    }

    /** Moves head, tail and current off a node. */
    method LeaveTo(task: TaskNode)
      modifies this`head, this`tail, this`current
      ensures head == if old(head) == task then task.next else old(head)
      ensures tail == if old(tail) == task then task.prev else old(tail)
      ensures current == if old(current) == task then task.next else old(current)
    {
      if head == task {
        head := task.next;
      }
      if tail == task {
        tail := task.prev;
      }
      if current == task {
        current := task.next;
      }
    }

    method UnlinkProcess(task: TaskNode, ghost j: nat)
      requires Valid() && j < |ring| && task == ring[j]
      modifies this, ring`next, ring`prev
      ensures Valid() && ring == old(Without(ring, j)) && nextPid == old(nextPid)
      ensures current == if old(|ring|) == 1 then null
                         else if old(current) == task then old(ring)[Succ(old(|ring|), j)] else old(current)
    {
      ghost var was := ring;
      assert (head == task <==> j == 0) && (tail == task <==> j == |was| - 1);
      DistinctWithout(was, j);
      if count == 1 {
        head, tail, current := null, null, null;
      } else {
        Bypass(task, j);
        LeaveTo(task);
      }
      count := count - 1;
      ring := Without(was, j);
      if |was| > 1 {
        RingWithout(was, j);
      }
    }

    /** `unlink_process` as a step of the list. */
    method Remove(task: TaskNode, ghost j: nat)
      requires Valid() && j < |ring| && task == ring[j]
      modifies this, ring`next, ring`prev
      ensures Valid() && ring == old(Without(ring, j)) && nextPid == old(nextPid)
      ensures View() == old(Unlink(View(), j))
    {
      ghost var was, before := ring, View();
      assert before.current.Some? ==> (current == task <==> before.current.value == j);
      UnlinkProcess(task, j);
      ViewWithout(was, before, j);
    }

    /** One turn of the clean-up loop at node j; tells whether the loop goes on, and from where. */
    method CleanupTurn(node: TaskNode, ghost j: nat) returns (next: TaskNode, more: bool)
      requires Valid() && j < |ring| && node == ring[j]
      modifies this, ring`next, ring`prev
      ensures Valid() && nextPid == old(nextPid) && (forall i :: 0 <= i < |ring| ==> ring[i] in old(ring))
      ensures node.state == Terminated ==> View() == old(Unlink(View(), j)) && |ring| == old(|ring|) - 1
      ensures node.state != Terminated ==> View() == old(View()) && ring == old(ring)
      ensures var k := if node.state == Terminated then j else j + 1;
              && (more <==> (0 < k < |ring|))
              && (more ==> next == ring[k])
    {
      next := node.next;
      assert next == ring[Succ(|ring|, j)];
      ghost var was := ring;
      if node.state == Terminated {
        Remove(node, j);
        assert j < |was| - 1 ==> ring[j] == was[j + 1];
        assert j == |was| - 1 && 1 < |was| ==> ring[0] == was[0];
      }
      more := next != head && count > 0;
      assert node.state != Terminated && j + 1 < |ring| ==> ring[0] != ring[j + 1];
      assert node.state == Terminated && 0 < j < |ring| ==> ring[0] != ring[j];
    }

    method CleanupTerminated()
      requires Valid()
      modifies this, ring`next, ring`prev
      ensures Valid() && View() == old(Cleanup(View())) && nextPid == old(nextPid)
      ensures forall i :: 0 <= i < |ring| ==> ring[i] in old(ring)
    {
      if head == null {
        return;
      }
      ghost var start := View();
      ghost var state0 := ring[0].state;
      var node, more := CleanupTurn(head, 0);
      ghost var j := 1;
      while more
        invariant Valid() && nextPid == old(nextPid) && (forall i :: 0 <= i < |ring| ==> ring[i] in old(ring))
        invariant if more then 0 < j < |ring| && node == ring[j] && Sweep(View(), j) == Cleanup(start)
                  else View() == Cleanup(start)
        decreases if more then 1 + |ring| - j else 0
      {
        ghost var gone := node.state == Terminated;
        node, more := CleanupTurn(node, j);
        j := if gone then j else j + 1;
      }
    }

    /** The search of `yield`, starting behind the current task. */
    method FindNext() returns (next: TaskNode, checked: nat)
      requires Valid() && current != null
      ensures checked == Passed(View().tasks, View().current.value, 0)
      ensures checked < |ring| ==> next == ring[Wrap(|ring|, View().current.value + 1 + checked)]
    {
      ghost var tasks, n := Tasks(), |ring|;
      ghost var c := Position(ring, current);
      ghost var at: nat := Succ(n, c);
      next, checked := current.next, 0;
      while checked < count && next.state != Active && next.state != Ready
        invariant checked <= n && at < n && next == ring[at] && (checked < n ==> at == Wrap(n, c + 1 + checked))
        invariant Passed(tasks, c, checked) == Passed(tasks, c, 0)
      {
        PassedStep(tasks, c, checked, at);
        next := next.next;
        at := Succ(n, at);
        checked := checked + 1;
      }
      PassedStop(tasks, c, checked, at);
    }

    method SetStateAt(node: TaskNode, ghost j: nat, state: State)
      requires Valid() && j < |ring| && node == ring[j]
      modifies node`state
      ensures Valid() && View() == old(SetState(View(), j, state))
    {
      node.state := state;
      assert Tasks() == old(Tasks())[j := old(Tasks())[j].(state := state)];
    }

    /** Makes a node the current and active one; the call into the task is left out. */
    method Activate(node: TaskNode, ghost j: nat)
      requires Valid() && j < |ring| && node == ring[j]
      modifies this`current, node`state
      ensures Valid() && View() == old(SetState(View(), j, Active)).(current := Some(j))
    {
      SetStateAt(node, j, Active);
      current := node;
      PositionIs(j);
    }

    method SelectNext()
      requires Valid()
      modifies this`current, ring`state
      ensures Valid() && View() == old(Select(View()))
    {
      if current == null || count == 0 {
        return;
      }
      var next, checked := FindNext();
      if checked >= count {
        return;
      }
      ghost var at := Wrap(|ring|, View().current.value + 1 + checked);
      PositionIs(at);
      if next == current {
        return;
      }
      Activate(next, at);
    }

    method Yield()
      requires Valid()
      modifies this, ring`next, ring`prev, ring`state
      ensures Valid() && View() == old(TaskRing.Yield(View())) && nextPid == old(nextPid)
    {
      CleanupTerminated();
      SelectNext();
    }

    lemma ViewWith(before: Ring)
      requires Valid() && ring != [] && |before.tasks| == |ring| - 1 && RingOk(before)
      requires forall k {:trigger before.tasks[k]} :: 0 <= k < |before.tasks| ==> before.tasks[k] == Task(ring[k].pid, ring[k].state)
      requires current == null <==> before.current.None?
      requires current != null ==> current == ring[before.current.value]
      ensures var last := ring[|ring| - 1];
              View() == before.(tasks := before.tasks + [Task(last.pid, last.state)])
    {
      if current != null {
        PositionIs(before.current.value);
      }
    }

    /** A new task at the end of the ring, when the heap has room for the task and for its stack; the
        task is given back when it has none for the stack. */
    method SpawnProcess(taskFits: bool, stackFits: bool) returns (task: TaskNode?)
      requires Valid() && count + 1 < WORD32 && nextPid < WORD32
      modifies this, ring`next, ring`prev
      ensures Valid() && (task != null <==> taskFits && stackFits)
      ensures task != null ==> fresh(task) && ring == old(ring) + [task]
      ensures task != null ==> View() == old(Spawn(View(), nextPid)) && nextPid == (old(nextPid) + 1) % WORD32
      ensures task == null ==> ring == old(ring) && View() == old(View()) && nextPid == old(nextPid)
    {
      if !taskFits {
        return null;
      }
      if !stackFits {
        return null;
      }
      var node := new TaskNode(nextPid);
      nextPid := (nextPid + 1) % WORD32;
      ghost var before := View();
      LinkProcess(node);
      ViewWith(before);
      task := node;
    }

    /** Goes round the ring from the head until the process id is found. */
    method GetByPid(pid: nat) returns (task: TaskNode?)
      requires Valid()
      ensures var k := FindPid(Tasks(), pid, 0);
              if k < |ring| then task == ring[k] else task == null
    {
      if head == null {
        return null;
      }
      var node := head;
      ghost var j := 0;
      while true
        invariant j < |ring| && node == ring[j] && FindPid(Tasks(), pid, j) == FindPid(Tasks(), pid, 0)
        decreases |ring| - j
      {
        if node.pid == pid {
          return node;
        }
        assert node.next == ring[Succ(|ring|, j)];
        node := node.next;
        if node == head {
          return null;
        }
        j := j + 1;
      }
    }

    method KillProcess(pid: nat)
      requires Valid()
      modifies ring`state
      ensures Valid() && View() == old(KillPid(View(), pid))
    {
      var task := GetByPid(pid);
      if task != null {
        SetStateAt(task, FindPid(Tasks(), pid, 0), Terminated);
      }
    }

    method KillCurrent()
      requires Valid()
      modifies this, ring`next, ring`prev, ring`state
      ensures Valid() && View() == old(TaskRing.KillCurrent(View())) && nextPid == old(nextPid)
    {
      if current != null {
        SetStateAt(current, Position(ring, current), Terminated);
        Yield();
      }
    }

    method Sleep()
      requires Valid()
      modifies this, ring`next, ring`prev, ring`state
      ensures Valid() && View() == old(TaskRing.Sleep(View())) && nextPid == old(nextPid)
    {
      if current != null {
        SetStateAt(current, Position(ring, current), Waiting);
        Yield();
      }
    }

    method StartScheduler()
      requires Valid()
      modifies this`current, ring`state
      ensures Valid() && View() == old(Start(View()))
    {
      if count == 0 {
        return;
      }
      var node := head;
      ghost var j := 0;
      while node.state != Ready && node.state != Active
        invariant j < |ring| && node == ring[j] && FirstRunnable(Tasks(), j) == FirstRunnable(Tasks(), 0)
        decreases |ring| - j
      {
        assert node.next == ring[Succ(|ring|, j)];
        node := node.next;
        if node == head {
          assert FirstRunnable(Tasks(), j) == j + 1;
          j := 0;
          break;
        }
        j := j + 1;
      }
      Activate(node, j);
    }

    /** As many tasks as the round robin goes round. */
    method GetActiveCount() returns (active: nat)
      requires Valid()
      ensures active == |RunnableBelow(Tasks(), |ring|)|
    {
      active := 0;
      if head == null {
        return;
      }
      var node := head;
      ghost var j := 0;
      while true
        invariant j < |ring| && node == ring[j] && active == |RunnableBelow(Tasks(), j)|
        decreases |ring| - j
      {
        if node.state == Active || node.state == Ready {
          active := active + 1;
        }
        assert node.next == ring[Succ(|ring|, j)];
        node := node.next;
        if node == head {
          return;
        }
        j := j + 1;
      }
    }
  }
}
