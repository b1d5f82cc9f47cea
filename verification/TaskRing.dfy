/** The task ring as a list with a current position: deferred removal of terminated tasks and
    round-robin selection. */
module TaskRing {
  import opened Options

  datatype State = Active | Waiting | Terminated | Ready

  datatype Task = Task(pid: nat, state: State)

  /** Tasks in ring order from the head, and the index of the current one. */
  datatype Ring = Ring(tasks: seq<Task>, current: Option<nat>)

  predicate RingOk(r: Ring) {
    r.current.Some? ==> r.current.value < |r.tasks|
  }

  predicate Runnable(t: Task) {
    t.state == Active || t.state == Ready
  }

  // ----- Removal -----

  /** Where index c ends up when index j of n is taken out; c itself is handed to its successor. */
  function Moved(n: nat, j: nat, c: nat): nat
    requires j < n && c < n && 1 < n
  {
    if c < j then c else if c > j then c - 1 else if j == n - 1 then 0 else j
  }

  function Unlink(r: Ring, j: nat): (r': Ring)
    requires RingOk(r) && j < |r.tasks|
    ensures RingOk(r') && |r'.tasks| == |r.tasks| - 1
  {
    if |r.tasks| == 1 then Ring([], None)
    else Ring(r.tasks[..j] + r.tasks[j + 1..],
              if r.current.Some? then Some(Moved(|r.tasks|, j, r.current.value)) else None)
  }

  /** The rest of the clean-up loop, once it is past a live head. */
  function Sweep(r: Ring, j: nat): (r': Ring)
    requires RingOk(r) && 0 < j
    ensures RingOk(r')
    decreases |r.tasks| - j
  {
    if j >= |r.tasks| then r
    else if r.tasks[j].state == Terminated then Sweep(Unlink(r, j), j)
    else Sweep(r, j + 1)
  }

  /** The loop stops right after removing a terminated head: the new head is where it stands. */
  function Cleanup(r: Ring): (r': Ring)
    requires RingOk(r)
    ensures RingOk(r')
  {
    if r.tasks == [] then r
    else if r.tasks[0].state == Terminated then Unlink(r, 0)
    else Sweep(r, 1)
  }

  function Live(tasks: seq<Task>): (l: seq<Task>)
    ensures |l| <= |tasks|
    ensures forall i :: 0 <= i < |l| ==> l[i].state != Terminated
  {
    if tasks == [] then []
    else
      var front, last := Live(tasks[..|tasks| - 1]), tasks[|tasks| - 1];
      if last.state == Terminated then front else front + [last]
  }

  lemma {:induction false} LiveConcat(a: seq<Task>, b: seq<Task>)
    ensures Live(a + b) == Live(a) + Live(b)
    decreases |b|
  {
    if b == [] {
      assert a + b == a;
    } else {
      assert (a + b)[..|a + b| - 1] == a + b[..|b| - 1];
      LiveConcat(a, b[..|b| - 1]);
    }
  }

  lemma {:induction false} LiveOfLive(a: seq<Task>)
    requires forall i :: 0 <= i < |a| ==> a[i].state != Terminated
    ensures Live(a) == a
    decreases |a|
  {
    if a != [] {
      LiveOfLive(a[..|a| - 1]);
    }
  }

  lemma LiveOfOne(t: Task)
    ensures Live([t]) == if t.state == Terminated then [] else [t]
  {
    assert [t][..0] == [];
  }

  lemma LiveUnlink(tasks: seq<Task>, j: nat)
    requires j < |tasks| && tasks[j].state == Terminated
    ensures Live(tasks[..j] + tasks[j + 1..]) == Live(tasks)
  {
    var a, t, b := tasks[..j], tasks[j], tasks[j + 1..];
    assert tasks == a + [t] + b;
    LiveConcat(a + [t], b);
    LiveConcat(a, [t]);
    LiveOfOne(t);
    LiveConcat(a, b);
  }

  /** Where the current index goes when every terminated task is taken out: past the live tasks
      before it, and to the head when none is left behind it. */
  function Kept(tasks: seq<Task>, c: nat): nat
    requires c <= |tasks|
  {
    var k := |Live(tasks[..c])|;
    if k == |Live(tasks)| then 0 else k
  }

  lemma KeptAfterUnlink(tasks: seq<Task>, j: nat, c: nat)
    requires 0 < j < |tasks| && c < |tasks| && tasks[j].state == Terminated && tasks[0].state != Terminated
    ensures Kept(tasks[..j] + tasks[j + 1..], Moved(|tasks|, j, c)) == Kept(tasks, c)
  {
    var rest := tasks[..j] + tasks[j + 1..];
    var c' := Moved(|tasks|, j, c);
    LiveUnlink(tasks, j);
    if c < j {
      assert rest[..c'] == tasks[..c];
    } else if c > j {
      assert rest[..c'] == tasks[..c][..j] + tasks[..c][j + 1..];
      LiveUnlink(tasks[..c], j);
    } else if j < |tasks| - 1 {
      assert rest[..c'] == tasks[..c];
    } else {
      assert rest == tasks[..c];
      assert rest[..0] == [];
    }
  }

  lemma {:induction false} SweepLaw(r: Ring, j: nat)
    requires RingOk(r) && 0 < j <= |r.tasks| && forall i :: 0 <= i < j ==> r.tasks[i].state != Terminated
    ensures Sweep(r, j).tasks == Live(r.tasks)
    ensures Sweep(r, j).current == if r.current.Some? then Some(Kept(r.tasks, r.current.value)) else None
    decreases |r.tasks| - j
  {
    if j == |r.tasks| {
      LiveOfLive(r.tasks);
      if r.current.Some? {
        LiveOfLive(r.tasks[..r.current.value]);
      }
    } else if r.tasks[j].state == Terminated {
      SweepLaw(Unlink(r, j), j);
      LiveUnlink(r.tasks, j);
      if r.current.Some? {
        KeptAfterUnlink(r.tasks, j, r.current.value);
      }
    } else {
      SweepLaw(r, j + 1);
    }
  }

  /** The exact law of a clean-up: behind a live head every terminated task goes, in order, and
      the current position follows; a terminated head goes alone. */
  lemma CleanupLaw(r: Ring)
    requires RingOk(r) && r.tasks != []
    ensures var r' := Cleanup(r);
            if r.tasks[0].state == Terminated then r' == Unlink(r, 0) && r'.tasks == r.tasks[1..]
            else && r'.tasks == Live(r.tasks)
                 && r'.current == if r.current.Some? then Some(Kept(r.tasks, r.current.value)) else None
  {
    if r.tasks[0].state != Terminated {
      SweepLaw(r, 1);
    }
  }

  function CleanupTimes(r: Ring, n: nat): (r': Ring)
    requires RingOk(r)
    ensures RingOk(r')
    decreases n
  {
    if n == 0 then r else CleanupTimes(Cleanup(r), n - 1)
  }

  /** How many tasks at the front are terminated. */
  function Leading(tasks: seq<Task>): nat {
    if tasks == [] || tasks[0].state != Terminated then 0 else 1 + Leading(tasks[1..])
  }

  lemma LiveWithoutHead(tasks: seq<Task>)
    requires tasks != [] && tasks[0].state == Terminated
    ensures Live(tasks[1..]) == Live(tasks)
  {
    LiveUnlink(tasks, 0);
    assert tasks[..0] + tasks[1..] == tasks[1..];
  }

  lemma {:induction false} CleanupKeepsLive(r: Ring, n: nat)
    requires RingOk(r) && Live(r.tasks) == r.tasks
    ensures CleanupTimes(r, n).tasks == r.tasks
    decreases n
  {
    if n != 0 {
      if r.tasks != [] {
        CleanupLaw(r);
      }
      CleanupKeepsLive(Cleanup(r), n - 1);
    }
  }

  /** Terminated tasks at the front go one per clean-up, and the one after that takes all others:
      one clean-up more than there are at the front leaves exactly the live tasks. */
  lemma {:induction false} CleanupDrains(r: Ring, n: nat)
    requires RingOk(r)
    ensures n <= Leading(r.tasks) ==> n <= |r.tasks| && CleanupTimes(r, n).tasks == r.tasks[n..]
    ensures n > Leading(r.tasks) ==> CleanupTimes(r, n).tasks == Live(r.tasks)
    decreases n
  {
    if n != 0 && r.tasks == [] {
      CleanupKeepsLive(r, n);
    } else if n != 0 {
      CleanupLaw(r);
      if r.tasks[0].state == Terminated {
        LiveWithoutHead(r.tasks);
        CleanupDrains(Cleanup(r), n - 1);
      } else {
        LiveOfLive(Live(r.tasks));
        CleanupKeepsLive(Cleanup(r), n - 1);
      }
    }
  }

  // ----- Selection -----

  /** Going round a ring of n. */
  function Wrap(n: nat, x: nat): nat
    requires x < 2 * n
  {
    if x < n then x else x - n
  }

  /** The task i + 1 places behind c, going round. */
  function Behind(tasks: seq<Task>, c: nat, i: nat): Task
    requires c < |tasks| && i < |tasks|
  {
    tasks[Wrap(|tasks|, c + 1 + i)]
  }

  /** The search of `yield`: how many tasks behind c are passed over, at most all of them. */
  function Passed(tasks: seq<Task>, c: nat, checked: nat): (k: nat)
    requires c < |tasks| && checked <= |tasks|
    ensures checked <= k <= |tasks|
    ensures forall i :: checked <= i < k ==> !Runnable(Behind(tasks, c, i))
    ensures k < |tasks| ==> Runnable(Behind(tasks, c, k))
    decreases |tasks| - checked
  {
    if checked < |tasks| && !Runnable(Behind(tasks, c, checked)) then Passed(tasks, c, checked + 1)
    else checked
  }

  function Select(r: Ring): (r': Ring)
    requires RingOk(r)
    ensures RingOk(r') && |r'.tasks| == |r.tasks|
  {
    if r.current.None? then r
    else
      var c, n := r.current.value, |r.tasks|;
      var k := Passed(r.tasks, c, 0);
      if k >= n || Wrap(n, c + 1 + k) == c then r
      else
        var next := Wrap(n, c + 1 + k);
        Ring(r.tasks[next := r.tasks[next].(state := Active)], Some(next))
  }

  function Yield(r: Ring): (r': Ring)
    requires RingOk(r)
    ensures RingOk(r')
  {
    Select(Cleanup(r))
  }

  function YieldTimes(r: Ring, m: nat): (r': Ring)
    requires RingOk(r)
    ensures RingOk(r')
    decreases m
  {
    if m == 0 then r else Yield(YieldTimes(r, m - 1))
  }

  /** The indices below n of runnable tasks, in ring order. */
  function RunnableBelow(tasks: seq<Task>, n: nat): seq<nat>
    requires n <= |tasks|
  {
    if n == 0 then []
    else RunnableBelow(tasks, n - 1) + if Runnable(tasks[n - 1]) then [n - 1] else []
  }

  function RunnableOf(r: Ring): seq<nat> {
    RunnableBelow(r.tasks, |r.tasks|)
  }

  predicate Increasing(idx: seq<nat>) {
    forall k, l :: 0 <= k < l < |idx| ==> idx[k] < idx[l]
  }

  /** The list holds exactly the runnable indices, each once and in order. */
  lemma {:induction false} RunnableBelowIs(tasks: seq<Task>, n: nat)
    requires n <= |tasks|
    ensures Increasing(RunnableBelow(tasks, n))
    ensures forall i :: i in RunnableBelow(tasks, n) <==> 0 <= i < n && Runnable(tasks[i])
    decreases n
  {
    if n != 0 {
      RunnableBelowIs(tasks, n - 1);
      var idx := RunnableBelow(tasks, n - 1);
      assert forall k :: 0 <= k < |idx| ==> idx[k] in idx;
    }
  }

  lemma {:induction false} RunnableSame(a: seq<Task>, b: seq<Task>, n: nat)
    requires n <= |a| == |b| && forall i :: 0 <= i < n ==> Runnable(a[i]) == Runnable(b[i])
    ensures RunnableBelow(a, n) == RunnableBelow(b, n)
    decreases n
  {
    if n != 0 {
      RunnableSame(a, b, n - 1);
    }
  }

  ghost predicate Clean(r: Ring) {
    && RingOk(r) && r.current.Some? && Runnable(r.tasks[r.current.value])
    && forall i :: 0 <= i < |r.tasks| ==> r.tasks[i].state != Terminated
  }

  lemma CleanupOfClean(r: Ring)
    requires Clean(r)
    ensures Cleanup(r) == r
  {
    CleanupLaw(r);
    LiveOfLive(r.tasks);
    LiveOfLive(r.tasks[..r.current.value]);
  }

  /** The search finds the first runnable task and no other. */
  lemma PassedIs(tasks: seq<Task>, c: nat, k: nat)
    requires c < |tasks| && k < |tasks| && Runnable(Behind(tasks, c, k))
    requires forall i :: 0 <= i < k ==> !Runnable(Behind(tasks, c, i))
    ensures Passed(tasks, c, 0) == k
  {
  }

  lemma NotBetween(idx: seq<nat>, k: nat, i: nat)
    requires k < |idx| && Increasing(idx) && idx[k] < i && (k + 1 < |idx| ==> i < idx[k + 1])
    ensures i !in idx
  {
    forall l | 0 <= l < |idx|
      ensures idx[l] != i
    {
      assert l < k ==> idx[l] < idx[k];
      assert k + 1 < l ==> idx[k + 1] < idx[l];
    }
  }

  lemma NotBefore(idx: seq<nat>, i: nat)
    requires 0 < |idx| && Increasing(idx) && i < idx[0]
    ensures i !in idx
  {
    forall l | 0 <= l < |idx|
      ensures idx[l] != i
    {
      assert l > 0 ==> idx[0] < idx[l];
    }
  }

  /** Every task passed over on the way to the next index of the list is not runnable. */
  lemma NoneBetween(tasks: seq<Task>, idx: seq<nat>, k: nat, c: nat, next: nat, p: nat, i: nat)
    requires Increasing(idx) && (forall j :: j in idx <==> 0 <= j < |tasks| && Runnable(tasks[j]))
    requires k < |idx| && c == idx[k] < |tasks| && i < p < |tasks|
    requires if k + 1 < |idx| then next == idx[k + 1] && next == c + 1 + p
             else next == idx[0] && next + |tasks| == c + 1 + p
    ensures !Runnable(Behind(tasks, c, i))
  {
    var x := c + 1 + i;
    assert next in idx;
    if x < |tasks| {
      NotBetween(idx, k, x);
    } else {
      NotBefore(idx, x - |tasks|);
    }
  }

  /** The next runnable index in ring order is the next one cyclically. */
  lemma NextInOrder(tasks: seq<Task>, idx: seq<nat>, k: nat)
    requires Increasing(idx) && (forall j :: j in idx <==> 0 <= j < |tasks| && Runnable(tasks[j]))
    requires k < |idx|
    ensures idx[k] < |tasks|
    ensures var c, n := idx[k], |tasks|;
            var p := Passed(tasks, c, 0);
            p < n && Wrap(n, c + 1 + p) == idx[if k + 1 < |idx| then k + 1 else 0]
  {
    var next := idx[if k + 1 < |idx| then k + 1 else 0];
    assert idx[k] in idx && next in idx && idx[0] in idx;
    var c, n := idx[k], |tasks|;
    assert if k + 1 < |idx| then c < next else next <= c;
    var p := if k + 1 < |idx| then next - c - 1 else next + n - c - 1;
    forall i | 0 <= i < p
      ensures !Runnable(Behind(tasks, c, i))
    {
      NoneBetween(tasks, idx, k, c, next, p, i);
    }
    PassedIs(tasks, c, p);
  }

  /** One `yield` moves to the next runnable task in ring order and leaves who is runnable alone. */
  lemma YieldMovesOn(r: Ring, k: nat)
    requires Clean(r) && k < |RunnableOf(r)| && r.current == Some(RunnableOf(r)[k])
    ensures var r' := Yield(r);
            && Clean(r') && RunnableOf(r') == RunnableOf(r)
            && r'.current == Some(RunnableOf(r)[if k + 1 < |RunnableOf(r)| then k + 1 else 0])
  {
    CleanupOfClean(r);
    RunnableBelowIs(r.tasks, |r.tasks|);
    NextInOrder(r.tasks, RunnableOf(r), k);
    SelectKeepsRunnable(r);
  }

  lemma SelectKeepsRunnable(r: Ring)
    requires Clean(r)
    ensures Clean(Select(r)) && RunnableOf(Select(r)) == RunnableOf(r)
  {
    RunnableSame(Select(r).tasks, r.tasks, |r.tasks|);
  }

  /** Round robin: with no spawn, kill or sleep in between, the m-th `yield` is at the m-th
      runnable task after the start, in ring order and round the ring, for every m. */
  lemma {:induction false} RoundRobin(r: Ring, k: nat, m: nat)
    requires Clean(r) && k < |RunnableOf(r)| && r.current == Some(RunnableOf(r)[k])
    ensures var r' := YieldTimes(r, m);
            && Clean(r') && RunnableOf(r') == RunnableOf(r)
            && r'.current == Some(RunnableOf(r)[(k + m) % |RunnableOf(r)|])
    decreases m
  {
    var n := |RunnableOf(r)|;
    if m == 0 {
      RoundIs(n, 0, k);
    } else {
      RoundRobin(r, k, m - 1);
      YieldMovesOn(YieldTimes(r, m - 1), (k + m - 1) % n);
      RoundStep(n, k + m - 1);
    }
  }

  /** Going q times round n and then x places further. */
  lemma RoundIs(n: nat, q: nat, x: nat)
    requires x < n
    ensures (q * n + x) % n == x
  {
    var d, rest := (q * n + x) / n, (q * n + x) % n;
    assert d * n + rest == q * n + x;
    MultiplesApart(n, d, q);
    MultiplesApart(n, q, d);
  }

  lemma {:induction false} MultiplesApart(n: nat, a: nat, b: nat)
    ensures a < b ==> a * n + n <= b * n
    decreases b
  {
    if a < b {
      MultiplesApart(n, a, b - 1);
      assert b * n == (b - 1) * n + n;
    }
  }

  lemma RoundStep(n: nat, x: nat)
    requires 0 < n
    ensures (x + 1) % n == if x % n + 1 < n then x % n + 1 else 0
  {
    var q, rest := x / n, x % n;
    assert q * n + rest == x;
    if rest + 1 < n {
      RoundIs(n, q, rest + 1);
    } else {
      assert (q + 1) * n == q * n + n;
      RoundIs(n, q + 1, 0);
    }
  }

  lemma RoundOnce(n: nat, x: nat)
    requires x < 2 * n
    ensures x % n == Wrap(n, x)
  {
    RoundIs(n, if x < n then 0 else 1, Wrap(n, x));
  }

  /** Among r runnable tasks, r yields in a row select each exactly once and return to the start. */
  lemma EachExactlyOnce(r: Ring, i: nat)
    requires Clean(r) && i in RunnableOf(r)
    ensures YieldTimes(r, |RunnableOf(r)|).current == r.current
    ensures exists m :: 1 <= m <= |RunnableOf(r)| && YieldTimes(r, m).current == Some(i)
    ensures forall m, l :: 1 <= m < l <= |RunnableOf(r)| ==>
              !(YieldTimes(r, m).current == Some(i) && YieldTimes(r, l).current == Some(i))
  {
    var k := CurrentPosition(r);
    var n := |RunnableOf(r)|;
    RoundRobin(r, k, n);
    RoundOnce(n, k + n);
    var m := SelectedWithin(r, k, i);
    forall a, b | 1 <= a < b <= n
      ensures !(YieldTimes(r, a).current == Some(i) && YieldTimes(r, b).current == Some(i))
    {
      NeverTwice(r, k, a, b);
    }
  }

  lemma SelectedWithin(r: Ring, k: nat, i: nat) returns (m: nat)
    requires Clean(r) && i in RunnableOf(r) && k < |RunnableOf(r)| && r.current == Some(RunnableOf(r)[k])
    ensures 1 <= m <= |RunnableOf(r)| && YieldTimes(r, m).current == Some(i)
  {
    var n := |RunnableOf(r)|;
    var q :| 0 <= q < n && RunnableOf(r)[q] == i;
    m := if q > k then q - k else q - k + n;
    RoundRobin(r, k, m);
    RoundOnce(n, k + m);
  }

  lemma CurrentPosition(r: Ring) returns (k: nat)
    requires Clean(r)
    ensures k < |RunnableOf(r)| && r.current == Some(RunnableOf(r)[k])
  {
    RunnableBelowIs(r.tasks, |r.tasks|);
    assert r.current.value in RunnableOf(r);
    k :| 0 <= k < |RunnableOf(r)| && RunnableOf(r)[k] == r.current.value;
  }

  lemma NeverTwice(r: Ring, k: nat, a: nat, b: nat)
    requires Clean(r) && k < |RunnableOf(r)| && r.current == Some(RunnableOf(r)[k])
    requires 1 <= a < b <= |RunnableOf(r)|
    ensures YieldTimes(r, a).current != YieldTimes(r, b).current
  {
    var idx := RunnableOf(r);
    RoundRobin(r, k, a);
    RoundRobin(r, k, b);
    RunnableBelowIs(r.tasks, |r.tasks|);
    RoundsDiffer(|idx|, k, a, b);
    DifferentPlaces(idx, (k + a) % |idx|, (k + b) % |idx|);
  }

  lemma RoundsDiffer(n: nat, k: nat, a: nat, b: nat)
    requires k < n && 1 <= a < b <= n
    ensures (k + a) % n != (k + b) % n
  {
    RoundOnce(n, k + a);
    RoundOnce(n, k + b);
  }

  lemma DifferentPlaces(idx: seq<nat>, p: nat, q: nat)
    requires Increasing(idx) && p < |idx| && q < |idx| && p != q
    ensures idx[p] != idx[q]
  {
    assert if p < q then idx[p] < idx[q] else idx[q] < idx[p];
  }

  // ----- Ending the current task -----

  function KillCurrent(r: Ring): (r': Ring)
    requires RingOk(r)
    ensures RingOk(r')
  {
    if r.current.None? then r
    else Yield(SetState(r, r.current.value, Terminated))
  }

  /** The ring once the ended task is out: the successor is current, and the task i + 1 places
      behind it is the one that was i + 2 places behind the ended task. */
  lemma BehindSuccessor(r: Ring, c: nat, i: nat)
    requires RingOk(r) && r.current == Some(c) && 2 <= |r.tasks| && i < |r.tasks| - 1
    ensures var n, left := |r.tasks|, Unlink(r, c);
            var was := Wrap(n, c + 1 + if i + 2 < n then i + 1 else 0);
            && left.current == Some(Moved(n, c, c)) && was != c
            && Wrap(n - 1, Moved(n, c, c) + 1 + i) == Moved(n, c, was)
            && Behind(left.tasks, Moved(n, c, c), i) == r.tasks[was]
  {
  }

  /** No task but c and g is runnable. */
  predicate NoOther(tasks: seq<Task>, c: nat, g: nat) {
    forall i :: 0 <= i < |tasks| && i != c && i != g ==> !Runnable(tasks[i])
  }

  lemma OtherIsBehind(tasks: seq<Task>, c: nat, i: nat) returns (m: nat)
    requires c < |tasks| && i < |tasks| && i != c && i != Wrap(|tasks|, c + 1)
    ensures 1 <= m < |tasks| - 1 && i == Wrap(|tasks|, c + 1 + m)
  {
    m := if i > c then i - c - 1 else i + |tasks| - c - 1;
  }

  /** The search from the successor, when the successor itself is not runnable. */
  lemma SearchBeyond(dead: Ring, c: nat, k: nat)
    requires RingOk(dead) && dead.current == Some(c) && 2 <= |dead.tasks| && !Runnable(dead.tasks[c])
    requires k == Passed(dead.tasks, c, 0) && 0 < k < |dead.tasks|
    ensures k < |dead.tasks| - 1 && Passed(Unlink(dead, c).tasks, Moved(|dead.tasks|, c, c), 0) == k - 1
  {
    var n, left, s := |dead.tasks|, Unlink(dead, c), Moved(|dead.tasks|, c, c);
    assert Behind(dead.tasks, c, n - 1) == dead.tasks[c];
    forall i | 0 <= i < k
      ensures Runnable(Behind(left.tasks, s, i)) <==> i == k - 1
    {
      ShiftedByOne(dead, c, i);
    }
    PassedIs(left.tasks, s, k - 1);
  }

  lemma ShiftedByOne(dead: Ring, c: nat, i: nat)
    requires RingOk(dead) && dead.current == Some(c) && i + 2 < |dead.tasks|
    ensures Behind(Unlink(dead, c).tasks, Moved(|dead.tasks|, c, c), i) == Behind(dead.tasks, c, i + 1)
  {
    BehindSuccessor(dead, c, i);
  }

  /** The search from a successor that is runnable goes all the way round to it exactly when no
      other task is runnable. */
  lemma SearchFromSuccessor(dead: Ring, c: nat)
    requires RingOk(dead) && dead.current == Some(c) && 2 <= |dead.tasks| && !Runnable(dead.tasks[c])
    requires Passed(dead.tasks, c, 0) == 0
    ensures var n := |dead.tasks|;
            var k := Passed(Unlink(dead, c).tasks, Moved(n, c, c), 0);
            k < n - 1 && (k == n - 2 <==> NoOther(dead.tasks, c, Wrap(n, c + 1)))
  {
    var n, left, s := |dead.tasks|, Unlink(dead, c), Moved(|dead.tasks|, c, c);
    var k := Passed(left.tasks, s, 0);
    BehindSuccessor(dead, c, n - 2);
    assert Behind(dead.tasks, c, 0) == dead.tasks[Wrap(n, c + 1)];
    if k < n - 2 {
      BehindSuccessor(dead, c, k);
    } else {
      AllPassedOver(dead, c);
    }
  }

  lemma AllPassedOver(dead: Ring, c: nat)
    requires RingOk(dead) && dead.current == Some(c) && 2 <= |dead.tasks|
    requires Passed(Unlink(dead, c).tasks, Moved(|dead.tasks|, c, c), 0) >= |dead.tasks| - 2
    ensures NoOther(dead.tasks, c, Wrap(|dead.tasks|, c + 1))
  {
    var n, left, s := |dead.tasks|, Unlink(dead, c), Moved(|dead.tasks|, c, c);
    forall i | 0 <= i < n && i != c && i != Wrap(n, c + 1)
      ensures !Runnable(dead.tasks[i])
    {
      var m := OtherIsBehind(dead.tasks, c, i);
      BehindSuccessor(dead, c, m - 1);
      assert !Runnable(Behind(left.tasks, s, m - 1));
    }
  }

  lemma NobodyLeft(dead: Ring, c: nat)
    requires RingOk(dead) && dead.current == Some(c) && 2 <= |dead.tasks| && !Runnable(dead.tasks[c])
    requires Passed(dead.tasks, c, 0) == |dead.tasks|
    ensures Passed(Unlink(dead, c).tasks, Moved(|dead.tasks|, c, c), 0) == |dead.tasks| - 1
  {
    var n, left, s := |dead.tasks|, Unlink(dead, c), Moved(|dead.tasks|, c, c);
    forall i | 0 <= i < n - 1
      ensures !Runnable(Behind(left.tasks, s, i))
    {
      if i + 2 < n {
        ShiftedByOne(dead, c, i);
      } else {
        BehindSuccessor(dead, c, i);
        assert !Runnable(Behind(dead.tasks, c, 0));
      }
    }
  }

  /** Selecting in a ring from which the current task has just been taken out. */
  lemma SelectLeft(dead: Ring, c: nat, k: nat)
    requires RingOk(dead) && dead.current == Some(c) && 2 <= |dead.tasks| && !Runnable(dead.tasks[c])
    requires k == Passed(dead.tasks, c, 0)
    ensures k == |dead.tasks| ==> Select(Unlink(dead, c)) == Unlink(dead, c)
    ensures 0 < k < |dead.tasks| ==>
              var g := Wrap(|dead.tasks|, c + 1 + k);
              && g != c
              && Select(Unlink(dead, c)).current == Some(Moved(|dead.tasks|, c, g))
              && Select(Unlink(dead, c)).tasks[Moved(|dead.tasks|, c, g)] == dead.tasks[g].(state := Active)
  {
    if k == |dead.tasks| {
      NobodyLeft(dead, c);
    } else if 0 < k {
      SearchBeyond(dead, c, k);
      BehindSuccessor(dead, c, k - 1);
    }
  }

  lemma SelectLeftAtSuccessor(dead: Ring, c: nat)
    requires RingOk(dead) && dead.current == Some(c) && 2 <= |dead.tasks| && !Runnable(dead.tasks[c])
    requires Passed(dead.tasks, c, 0) == 0
    ensures var n, left := |dead.tasks|, Unlink(dead, c);
            if NoOther(dead.tasks, c, Wrap(n, c + 1)) then Select(left) == left
            else Select(left).current != left.current
  {
    var n, left := |dead.tasks|, Unlink(dead, c);
    SearchFromSuccessor(dead, c);
    var k := Passed(left.tasks, Moved(n, c, c), 0);
    assert Wrap(n - 1, Moved(n, c, c) + 1 + k) == Moved(n, c, c) <==> k == n - 2;
  }

  lemma HandsOver(dead: Ring, c: nat, k: nat)
    requires RingOk(dead) && dead.current == Some(c) && 2 <= |dead.tasks| && !Runnable(dead.tasks[c])
    requires k == Passed(dead.tasks, c, 0) < |dead.tasks|
    ensures var g, r' := Wrap(|dead.tasks|, c + 1 + k), Select(Unlink(dead, c));
            && g != c
            && (r'.current == Some(Moved(|dead.tasks|, c, g)) <==> 0 < k || NoOther(dead.tasks, c, g))
            && (0 < k ==> r'.tasks[Moved(|dead.tasks|, c, g)] == dead.tasks[g].(state := Active))
            && (k == 0 && NoOther(dead.tasks, c, g) ==> r' == Unlink(dead, c))
  {
    SelectLeft(dead, c, k);
    if k == 0 {
      SelectLeftAtSuccessor(dead, c);
      assert Moved(|dead.tasks|, c, Wrap(|dead.tasks|, c + 1)) == Moved(|dead.tasks|, c, c);
    }
  }

  /** The clean-up takes the ended task out and no other. */
  predicate GoesAlone(tasks: seq<Task>, c: nat) {
    c == 0 || forall i :: 0 <= i < |tasks| && i != c ==> tasks[i].state != Terminated
  }

  /** The exact law of handing over, when the clean-up takes only the ended task out. Let g be the
      first runnable task behind it. It becomes the current task if and only if it was not the
      immediate successor or no third task is runnable: an immediate successor is made current by
      the clean-up already, and the search then starts behind it. In the second case g is current
      without having been activated; and with no runnable task left nothing is activated. */
  lemma KilledHandsOver(r: Ring, c: nat, k: nat)
    requires RingOk(r) && r.current == Some(c) && 2 <= |r.tasks| && GoesAlone(r.tasks, c)
    requires k == Passed(SetState(r, c, Terminated).tasks, c, 0)
    ensures k == |r.tasks| ==> KillCurrent(r) == Unlink(SetState(r, c, Terminated), c)
    ensures k < |r.tasks| ==>
              var g := Wrap(|r.tasks|, c + 1 + k);
              && g != c
              && (KillCurrent(r).current == Some(Moved(|r.tasks|, c, g)) <==> 0 < k || NoOther(r.tasks, c, g))
              && (0 < k ==> KillCurrent(r).tasks[Moved(|r.tasks|, c, g)] == r.tasks[g].(state := Active))
              && (k == 0 && NoOther(r.tasks, c, g) ==> KillCurrent(r) == Unlink(SetState(r, c, Terminated), c))
  {
    var dead := SetState(r, c, Terminated);
    CleanupOfOne(dead, c);
    if k < |r.tasks| {
      HandsOver(dead, c, k);
      assert forall i :: 0 <= i < |r.tasks| && i != c ==> r.tasks[i] == dead.tasks[i];
    } else {
      SelectLeft(dead, c, k);
    }
  }

  /** Behind a terminated head the ended task stays for this clean-up, and hands over as it should;
      with nobody left to run it stays the current one. */
  lemma KilledBehindDeadHead(r: Ring, dead: seq<Task>, c: nat, k: nat, g: nat)
    requires RingOk(r) && r.current == Some(c) && 0 < c && r.tasks[0].state == Terminated
    requires dead == SetState(r, c, Terminated).tasks
    requires k == Passed(dead, c, 0) && (k < |dead| ==> g == Wrap(|dead|, c + 1 + k))
    ensures if k == |dead| then KillCurrent(r) == Ring(dead[1..], Some(c - 1))
            else && 0 < g < |dead| && g != c
                 && KillCurrent(r) == Ring(dead[1..][g - 1 := dead[g].(state := Active)], Some(g - 1))
  {
    KilledStays(r, dead, c);
    if k < |dead| {
      SelectWithoutHead(dead, dead[1..], c, c - 1, k, g);
    } else {
      NobodyBehind(dead, dead[1..], c, c - 1);
    }
  }

  lemma NobodyBehind(tasks: seq<Task>, rest: seq<Task>, c: nat, d: nat)
    requires 0 < c < |tasks| && rest == tasks[1..] && d == c - 1 && Passed(tasks, c, 0) == |tasks|
    ensures Select(Ring(rest, Some(d))) == Ring(rest, Some(d))
  {
    forall i | 0 <= i < |rest|
      ensures !Runnable(Behind(rest, d, i))
    {
      BehindWithoutHead(tasks, c, i);
    }
  }

  lemma KilledStays(r: Ring, dead: seq<Task>, c: nat)
    requires RingOk(r) && r.current == Some(c) && 0 < c && r.tasks[0].state == Terminated
    requires dead == SetState(r, c, Terminated).tasks
    ensures KillCurrent(r) == Select(Ring(dead[1..], Some(c - 1)))
  {
    assert Cleanup(SetState(r, c, Terminated)) == Ring(dead[1..], Some(c - 1));
  }

  lemma SelectWithoutHead(tasks: seq<Task>, rest: seq<Task>, c: nat, d: nat, k: nat, g: nat)
    requires 0 < c < |tasks| && !Runnable(tasks[0]) && !Runnable(tasks[c]) && rest == tasks[1..] && d == c - 1
    requires k == Passed(tasks, c, 0) < |tasks| && g == Wrap(|tasks|, c + 1 + k)
    ensures 0 < g < |tasks| && g != c
    ensures Select(Ring(rest, Some(d))) == Ring(rest[g - 1 := tasks[g].(state := Active)], Some(g - 1))
  {
    var k' := SearchWithoutHead(tasks, rest, c, d, k, g);
    SelectIs(Ring(rest, Some(d)), d, k', g - 1);
  }

  lemma SelectIs(r: Ring, c: nat, k: nat, g: nat)
    requires RingOk(r) && r.current == Some(c) && k == Passed(r.tasks, c, 0) < |r.tasks|
    requires g == Wrap(|r.tasks|, c + 1 + k) && g != c
    ensures Select(r) == Ring(r.tasks[g := r.tasks[g].(state := Active)], Some(g))
  {
  }

  lemma SearchWithoutHead(tasks: seq<Task>, rest: seq<Task>, c: nat, d: nat, k: nat, g: nat) returns (k': nat)
    requires 0 < c < |tasks| && !Runnable(tasks[0]) && !Runnable(tasks[c]) && rest == tasks[1..] && d == c - 1
    requires k == Passed(tasks, c, 0) < |tasks| && g == Wrap(|tasks|, c + 1 + k)
    ensures 0 < g && g != c
    ensures k' == Passed(rest, d, 0) < |rest| && Wrap(|rest|, d + 1 + k') == g - 1
  {
    assert Behind(tasks, c, k) == tasks[g];
    k' := if c + 1 + k < |tasks| then k else k - 1;
    forall i | 0 <= i < k'
      ensures !Runnable(Behind(rest, d, i))
    {
      BehindWithoutHead(tasks, c, i);
    }
    BehindWithoutHead(tasks, c, k');
    PassedIs(rest, d, k');
  }

  lemma BehindWithoutHead(tasks: seq<Task>, c: nat, i: nat)
    requires 0 < c < |tasks| && i < |tasks| - 1
    ensures Behind(tasks[1..], c - 1, i) == Behind(tasks, c, if c + 1 + i < |tasks| then i else i + 1)
  {
  }

  /** Behind a live head other terminated tasks make no difference: it is as if they had been cleaned
      up before, while the current task still waited. */
  lemma KilledAmongTerminated(r: Ring, c: nat)
    requires RingOk(r) && r.current == Some(c) && 0 < c && r.tasks[0].state != Terminated
    ensures var clean := Cleanup(SetState(r, c, Waiting));
            && KillCurrent(r) == KillCurrent(clean)
            && clean.current.Some? && 2 <= |clean.tasks| && GoesAlone(clean.tasks, clean.current.value)
  {
    var a, t, b := r.tasks[..c], r.tasks[c], r.tasks[c + 1..];
    var waiting, ended := t.(state := Waiting), t.(state := Terminated);
    CleanupAround(SetState(r, c, Waiting), a, waiting, b);
    CleanupAround(SetState(r, c, Terminated), a, ended, b);
    var clean := Cleanup(SetState(r, c, Waiting));
    EndedLast(clean, Live(a), waiting, Live(b));
  }

  /** What the clean-up leaves of the tasks around the current one. */
  lemma CleanupAround(r: Ring, a: seq<Task>, t: Task, b: seq<Task>)
    requires r.tasks == a + [t] + b && r.current == Some(|a|) && a != [] && a[0].state != Terminated
    ensures Live(a) != []
    ensures Cleanup(r) == if t.state == Terminated then Ring(Live(a) + Live(b), Some(if Live(b) == [] then 0 else |Live(a)|))
                          else Ring(Live(a) + [t] + Live(b), Some(|Live(a)|))
  {
    CleanupLaw(r);
    LiveAround(a, t, b);
    LiveHead(a);
    assert r.tasks[..|a|] == a;
  }

  lemma LiveAround(a: seq<Task>, t: Task, b: seq<Task>)
    ensures Live(a + [t] + b) == Live(a) + (if t.state == Terminated then [] else [t]) + Live(b)
  {
    LiveConcat(a + [t], b);
    LiveConcat(a, [t]);
    LiveOfOne(t);
  }

  lemma LiveHead(a: seq<Task>)
    requires a != [] && a[0].state != Terminated
    ensures Live(a) != []
  {
    LiveConcat([a[0]], a[1..]);
    assert a == [a[0]] + a[1..];
    LiveOfOne(a[0]);
  }

  lemma EndedLast(clean: Ring, a: seq<Task>, t: Task, b: seq<Task>)
    requires clean == Ring(a + [t] + b, Some(|a|)) && a != []
    requires forall i :: 0 <= i < |a| ==> a[i].state != Terminated
    requires forall i :: 0 <= i < |b| ==> b[i].state != Terminated
    ensures KillCurrent(clean) == Select(Ring(a + b, Some(if b == [] then 0 else |a|)))
    ensures GoesAlone(clean.tasks, |a|)
  {
    var ended := t.(state := Terminated);
    assert SetState(clean, |a|, Terminated).tasks == a + [ended] + b;
    LiveOfLive(a);
    LiveOfLive(b);
    CleanupAround(SetState(clean, |a|, Terminated), a, ended, b);
  }

  /** With every other task runnable it is the one behind the successor that runs. */
  lemma SuccessorOfKilledIsSkipped(r: Ring)
    requires RingOk(r) && r.current.Some? && 3 <= |r.tasks|
    requires forall i :: 0 <= i < |r.tasks| ==> Runnable(r.tasks[i])
    ensures var c, n := r.current.value, |r.tasks|;
            var r' := KillCurrent(r);
            && |r'.tasks| == n - 1 && r'.current.Some?
            && r'.tasks[r'.current.value] == Behind(r.tasks, c, 1).(state := Active)
  {
    var c, n := r.current.value, |r.tasks|;
    var dead := SetState(r, c, Terminated);
    CleanupOfOne(dead, c);
    BehindSuccessor(dead, c, 0);
    PassedIs(Unlink(dead, c).tasks, Moved(n, c, c), 0);
  }

  /** A clean-up with a single terminated task removes it, wherever it is, and so does one that finds
      the current task at the head. */
  lemma CleanupOfOne(r: Ring, c: nat)
    requires RingOk(r) && c < |r.tasks| && r.tasks[c].state == Terminated && r.current == Some(c)
    requires GoesAlone(r.tasks, c)
    ensures Cleanup(r) == Unlink(r, c)
  {
    if c != 0 {
      var a, t, b := r.tasks[..c], r.tasks[c], r.tasks[c + 1..];
      assert r.tasks == a + [t] + b;
      LiveOfLive(a);
      LiveOfLive(b);
      CleanupAround(r, a, t, b);
    }
  }

  // ----- The other operations -----

  function Spawn(r: Ring, pid: nat): Ring {
    r.(tasks := r.tasks + [Task(pid, Ready)])
  }

  /** The first index at or after j with the process id, or the number of tasks. */
  function FindPid(tasks: seq<Task>, pid: nat, j: nat): (k: nat)
    requires j <= |tasks|
    ensures j <= k <= |tasks|
    ensures forall i :: j <= i < k ==> tasks[i].pid != pid
    ensures k < |tasks| ==> tasks[k].pid == pid
    decreases |tasks| - j
  {
    if j < |tasks| && tasks[j].pid != pid then FindPid(tasks, pid, j + 1) else j
  }

  function SetState(r: Ring, i: nat, state: State): Ring
    requires i < |r.tasks|
  {
    r.(tasks := r.tasks[i := r.tasks[i].(state := state)])
  }

  function KillPid(r: Ring, pid: nat): Ring {
    var k := FindPid(r.tasks, pid, 0);
    if k < |r.tasks| then SetState(r, k, Terminated) else r
  }

  /** The first task with the process id. */
  predicate IsFirst(tasks: seq<Task>, pid: nat, i: nat)
    requires i < |tasks|
  {
    tasks[i].pid == pid && forall j :: 0 <= j < i ==> tasks[j].pid != pid
  }

  /** `kill_process` terminates the first task with the id and does nothing else. */
  lemma KillTerminates(r: Ring, pid: nat)
    ensures var r' := KillPid(r, pid);
            && r'.current == r.current && |r'.tasks| == |r.tasks|
            && (forall i :: 0 <= i < |r.tasks| ==> r'.tasks[i].pid == r.tasks[i].pid)
            && (forall i :: 0 <= i < |r.tasks| ==>
                  r'.tasks[i].state == if IsFirst(r.tasks, pid, i) then Terminated else r.tasks[i].state)
  {
    var k := FindPid(r.tasks, pid, 0);
    forall i | 0 <= i < |r.tasks|
      ensures IsFirst(r.tasks, pid, i) <==> i == k
    {
      assert k < i ==> !IsFirst(r.tasks, pid, i);
    }
  }

  /** And the task goes: with n terminated tasks in front, n + 1 clean-ups leave exactly the live tasks
      but it. */
  lemma KilledIsRemoved(r: Ring, pid: nat, k: nat)
    requires RingOk(r) && k < |r.tasks| && r.tasks[k].pid == pid
    requires forall i :: 0 <= i < |r.tasks| && i != k ==> r.tasks[i].pid != pid
    ensures var killed := KillPid(r, pid);
            RingOk(killed) &&
            var left := CleanupTimes(killed, Leading(killed.tasks) + 1).tasks;
            && left == Live(r.tasks[..k] + r.tasks[k + 1..])
            && forall i :: 0 <= i < |left| ==> left[i].pid != pid
  {
    var killed, others := KillPid(r, pid), r.tasks[..k] + r.tasks[k + 1..];
    KilledAlone(r, pid, k);
    CleanupDrains(killed, Leading(killed.tasks) + 1);
    LiveUnlink(killed.tasks, k);
    OthersLive(others, pid);
  }

  lemma KilledAlone(r: Ring, pid: nat, k: nat)
    requires RingOk(r) && k < |r.tasks| && r.tasks[k].pid == pid
    requires forall i :: 0 <= i < |r.tasks| && i != k ==> r.tasks[i].pid != pid
    ensures var killed, others := KillPid(r, pid), r.tasks[..k] + r.tasks[k + 1..];
            && RingOk(killed) && k < |killed.tasks| && killed.tasks[k].state == Terminated
            && killed.tasks[..k] + killed.tasks[k + 1..] == others
            && forall i :: 0 <= i < |others| ==> others[i].pid != pid
  {
    assert FindPid(r.tasks, pid, 0) == k;
  }

  lemma OthersLive(others: seq<Task>, pid: nat)
    requires forall i :: 0 <= i < |others| ==> others[i].pid != pid
    ensures forall i :: 0 <= i < |Live(others)| ==> Live(others)[i].pid != pid
  {
    LiveAreThere(others);
    forall i | 0 <= i < |Live(others)|
      ensures Live(others)[i].pid != pid
    {
      assert Live(others)[i] in others;
    }
  }

  lemma {:induction false} LiveAreThere(tasks: seq<Task>)
    ensures forall t :: t in Live(tasks) <==> t in tasks && t.state != Terminated
  {
    if tasks != [] {
      var front, last := tasks[..|tasks| - 1], tasks[|tasks| - 1];
      LiveAreThere(front);
      assert tasks == front + [last];
    }
  }

  function Sleep(r: Ring): (r': Ring)
    requires RingOk(r)
    ensures RingOk(r')
  {
    if r.current.None? then r else Yield(SetState(r, r.current.value, Waiting))
  }

  /** A clean-up takes no live task out. */
  lemma CleanupKeeps(r: Ring, t: Task)
    requires RingOk(r) && t in r.tasks && t.state != Terminated
    ensures t in Cleanup(r).tasks
  {
    CleanupLaw(r);
    LiveAreThere(r.tasks);
  }

  /** The task that sleeps stays in the ring, waiting. */
  lemma SleepWaits(r: Ring, c: nat)
    requires RingOk(r) && r.current == Some(c)
    ensures Task(r.tasks[c].pid, Waiting) in Sleep(r).tasks
  {
    var asleep, t := SetState(r, c, Waiting), Task(r.tasks[c].pid, Waiting);
    assert asleep.tasks[c] == t;
    CleanupKeeps(asleep, t);
    var clean := Cleanup(asleep);
    var i :| 0 <= i < |clean.tasks| && clean.tasks[i] == t;
    assert Select(clean).tasks[i] == t;
  }

  /** With no terminated task around, the next runnable one behind it becomes current and active, and
      nothing else changes when there is none. */
  lemma SleepHandsOver(r: Ring, c: nat, k: nat)
    requires RingOk(r) && r.current == Some(c)
    requires forall i :: 0 <= i < |r.tasks| && i != c ==> r.tasks[i].state != Terminated
    requires k == Passed(SetState(r, c, Waiting).tasks, c, 0)
    ensures k == |r.tasks| ==> Sleep(r) == SetState(r, c, Waiting)
    ensures k < |r.tasks| ==>
              var g := Wrap(|r.tasks|, c + 1 + k);
              g != c && Sleep(r) == SetState(SetState(r, c, Waiting), g, Active).(current := Some(g))
  {
    var asleep := SetState(r, c, Waiting);
    NothingToClean(asleep, c);
    SelectBehind(asleep, c, k);
  }

  lemma NothingToClean(r: Ring, c: nat)
    requires RingOk(r) && r.current == Some(c) && forall i :: 0 <= i < |r.tasks| ==> r.tasks[i].state != Terminated
    ensures Cleanup(r) == r
  {
    CleanupLaw(r);
    LiveOfLive(r.tasks);
    LiveOfLive(r.tasks[..c]);
  }

  /** What the search selects from a task that is not runnable itself. */
  lemma SelectBehind(r: Ring, c: nat, k: nat)
    requires RingOk(r) && r.current == Some(c) && !Runnable(r.tasks[c]) && k == Passed(r.tasks, c, 0)
    ensures k == |r.tasks| ==> Select(r) == r
    ensures k < |r.tasks| ==>
              var g := Wrap(|r.tasks|, c + 1 + k);
              g != c && Select(r) == SetState(r, g, Active).(current := Some(g))
  {
    if k < |r.tasks| {
      assert Behind(r.tasks, c, k) == r.tasks[Wrap(|r.tasks|, c + 1 + k)];
      SelectIs(r, c, k, Wrap(|r.tasks|, c + 1 + k));
    }
  }

  /** A new task is runnable from the start: it joins the round robin as its last member. */
  lemma SpawnJoins(r: Ring, pid: nat)
    requires Clean(r)
    ensures Clean(Spawn(r, pid)) && Spawn(r, pid).current == r.current
    ensures RunnableOf(Spawn(r, pid)) == RunnableOf(r) + [|r.tasks|]
    ensures Spawn(r, pid).tasks[|r.tasks|] == Task(pid, Ready)
  {
    var r' := Spawn(r, pid);
    assert r'.tasks[..|r.tasks|] == r.tasks;
    RunnableOfFront(r.tasks, r'.tasks, |r.tasks|);
  }

  lemma {:induction false} RunnableOfFront(a: seq<Task>, b: seq<Task>, n: nat)
    requires n <= |a| <= |b| && forall i :: 0 <= i < n ==> a[i] == b[i]
    ensures RunnableBelow(a, n) == RunnableBelow(b, n)
    decreases n
  {
    if n != 0 {
      RunnableOfFront(a, b, n - 1);
    }
  }

  /** The first runnable index at or after j, or the number of tasks. */
  function FirstRunnable(tasks: seq<Task>, j: nat): (k: nat)
    requires j <= |tasks|
    ensures j <= k <= |tasks|
    ensures forall i :: j <= i < k ==> !Runnable(tasks[i])
    ensures k < |tasks| ==> Runnable(tasks[k])
    decreases |tasks| - j
  {
    if j < |tasks| && !Runnable(tasks[j]) then FirstRunnable(tasks, j + 1) else j
  }

  /** Starting picks the first runnable task, and the head when there is none. */
  function Start(r: Ring): (r': Ring)
    requires RingOk(r)
    ensures RingOk(r')
  {
    if r.tasks == [] then r
    else
      var k := FirstRunnable(r.tasks, 0);
      var i := if k < |r.tasks| then k else 0;
      SetState(r, i, Active).(current := Some(i))
  }

  /** The least runnable index, and the head when no task is runnable. */
  predicate StartsWith(tasks: seq<Task>, i: nat) {
    && i < |tasks| && (forall j :: 0 <= j < i ==> !Runnable(tasks[j]))
    && (Runnable(tasks[i]) || (i == 0 && forall j :: 0 <= j < |tasks| ==> !Runnable(tasks[j])))
  }

  /** `start_scheduler` makes that task current and active and leaves all others alone. */
  lemma StartMakesCurrent(r: Ring, i: nat)
    requires RingOk(r) && StartsWith(r.tasks, i)
    ensures Start(r).current == Some(i) && |Start(r).tasks| == |r.tasks|
    ensures Start(r).tasks[i] == Task(r.tasks[i].pid, Active)
    ensures forall j :: 0 <= j < |r.tasks| && j != i ==> Start(r).tasks[j] == r.tasks[j]
  {
    var k := FirstRunnable(r.tasks, 0);
    assert k < |r.tasks| ==> Runnable(r.tasks[k]);
  }

  /** From there the round robin begins: with a runnable task and no terminated one, the m-th `yield`
      after the start is at the m-th runnable task of the ring, modulo their number. */
  lemma StartBeginsRound(r: Ring, m: nat)
    requires RingOk(r) && RunnableOf(r) != []
    requires forall i :: 0 <= i < |r.tasks| ==> r.tasks[i].state != Terminated
    ensures Clean(Start(r)) && RunnableOf(Start(r)) == RunnableOf(r)
    ensures YieldTimes(Start(r), m).current == Some(RunnableOf(r)[m % |RunnableOf(r)|])
  {
    var idx := RunnableOf(r);
    RunnableBelowIs(r.tasks, |r.tasks|);
    assert idx[0] in idx;
    forall j | 0 <= j < idx[0]
      ensures !Runnable(r.tasks[j])
    {
      NotBefore(idx, j);
    }
    StartMakesCurrent(r, idx[0]);
    RunnableSame(Start(r).tasks, r.tasks, |r.tasks|);
    RoundRobin(Start(r), 0, m);
  }

  // ----- What wakes a sleeping task -----

  datatype TaskOp = SpawnOp(pid: nat) | KillOp(pid: nat) | KillCurrentOp | YieldOp | SleepOp | StartOp

  function TaskStep(r: Ring, op: TaskOp): (r': Ring)
    requires RingOk(r)
    ensures RingOk(r')
  {
    match op
    case SpawnOp(pid) => Spawn(r, pid)
    case KillOp(pid) => KillPid(r, pid)
    case KillCurrentOp => KillCurrent(r)
    case YieldOp => Yield(r)
    case SleepOp => Sleep(r)
    case StartOp => Start(r)
  }

  function TaskRun(r: Ring, ops: seq<TaskOp>): (r': Ring)
    requires RingOk(r)
    ensures RingOk(r')
    decreases |ops|
  {
    if ops == [] then r else TaskRun(TaskStep(r, ops[0]), ops[1..])
  }

  lemma YieldWithoutCurrent(r: Ring)
    requires RingOk(r) && r.current == None
    ensures Yield(r) == Cleanup(r) && Yield(r).current == None
  {
    if r.tasks != [] {
      CleanupLaw(r);
    }
  }

  /** Whatever is spawned, killed and yielded, nothing is current before `start_scheduler`. */
  lemma {:induction false} NothingRunsBeforeStart(r: Ring, ops: seq<TaskOp>)
    requires RingOk(r) && r.current == None && StartOp !in ops
    ensures TaskRun(r, ops).current == None
    decreases |ops|
  {
    if ops != [] {
      YieldWithoutCurrent(r);
      NothingRunsBeforeStart(TaskStep(r, ops[0]), ops[1..]);
    }
  }

  /** No task with the process id can be selected. */
  predicate Asleep(tasks: seq<Task>, pid: nat) {
    forall i :: 0 <= i < |tasks| && tasks[i].pid == pid ==> !Runnable(tasks[i])
  }

  lemma {:induction false} SweepKeepsAsleep(r: Ring, j: nat, pid: nat)
    requires RingOk(r) && 0 < j && Asleep(r.tasks, pid)
    ensures Asleep(Sweep(r, j).tasks, pid)
    decreases |r.tasks| - j
  {
    if j < |r.tasks| {
      if r.tasks[j].state == Terminated {
        SweepKeepsAsleep(Unlink(r, j), j, pid);
      } else {
        SweepKeepsAsleep(r, j + 1, pid);
      }
    }
  }

  lemma YieldKeepsAsleep(r: Ring, pid: nat)
    requires RingOk(r) && Asleep(r.tasks, pid)
    ensures Asleep(Yield(r).tasks, pid)
  {
    if r.tasks != [] && r.tasks[0].state != Terminated {
      SweepKeepsAsleep(r, 1, pid);
    }
  }

  /** `start_scheduler` activates the head, asleep or not, when no task is runnable. */
  predicate WokenByStart(tasks: seq<Task>, pid: nat) {
    tasks != [] && tasks[0].pid == pid && forall i :: 0 <= i < |tasks| ==> !Runnable(tasks[i])
  }

  lemma StartWakes(r: Ring, pid: nat)
    requires RingOk(r) && Asleep(r.tasks, pid)
    ensures Asleep(Start(r).tasks, pid) <==> !WokenByStart(r.tasks, pid)
  {
    if r.tasks != [] {
      var k := FirstRunnable(r.tasks, 0);
      assert Runnable(Start(r).tasks[if k < |r.tasks| then k else 0]);
    }
  }

  predicate Wakes(r: Ring, op: TaskOp, pid: nat) {
    op == SpawnOp(pid) || (op == StartOp && WokenByStart(r.tasks, pid))
  }

  /** Only a new task with the process id, or a start with nothing else to run, wakes one. */
  lemma StepWakes(r: Ring, op: TaskOp, pid: nat)
    requires RingOk(r) && Asleep(r.tasks, pid)
    ensures Asleep(TaskStep(r, op).tasks, pid) <==> !Wakes(r, op, pid)
  {
    match op {
      case SpawnOp(p) => assert Spawn(r, p).tasks[|r.tasks|] == Task(p, Ready);
      case KillOp(p) =>
      case YieldOp => YieldKeepsAsleep(r, pid);
      case SleepOp =>
        if r.current.Some? {
          YieldKeepsAsleep(SetState(r, r.current.value, Waiting), pid);
        }
      case KillCurrentOp =>
        if r.current.Some? {
          YieldKeepsAsleep(SetState(r, r.current.value, Terminated), pid);
        }
      case StartOp => StartWakes(r, pid);
    }
  }

  /** The process id is asleep in every state of the run. */
  predicate AsleepThroughout(r: Ring, ops: seq<TaskOp>, pid: nat)
    requires RingOk(r)
    decreases |ops|
  {
    Asleep(r.tasks, pid) && (ops != [] ==> AsleepThroughout(TaskStep(r, ops[0]), ops[1..], pid))
  }

  /** No operation of the run is one that wakes the process id. */
  predicate Undisturbed(r: Ring, ops: seq<TaskOp>, pid: nat)
    requires RingOk(r)
    decreases |ops|
  {
    ops != [] ==> !Wakes(r, ops[0], pid) && Undisturbed(TaskStep(r, ops[0]), ops[1..], pid)
  }

  /** A sleeping or terminated task stays so over a run, and is selected by no `yield` after it, if
      and only if the run spawns no task of its id and starts the scheduler in no state where it
      is the head and no task is runnable. */
  lemma {:induction false} SleepersNeverRun(r: Ring, ops: seq<TaskOp>, pid: nat)
    requires RingOk(r) && Asleep(r.tasks, pid)
    ensures AsleepThroughout(r, ops, pid) <==> Undisturbed(r, ops, pid)
    ensures Undisturbed(r, ops, pid) ==>
              var r' := TaskRun(r, ops);
              && Asleep(r'.tasks, pid)
              && (Yield(r') != Cleanup(r') ==> Yield(r').tasks[Yield(r').current.value].pid != pid)
    decreases |ops|
  {
    if ops == [] {
      YieldKeepsAsleep(r, pid);
    } else {
      StepWakes(r, ops[0], pid);
      if !Wakes(r, ops[0], pid) {
        SleepersNeverRun(TaskStep(r, ops[0]), ops[1..], pid);
      }
    }
  }
}
