/**
 The coordinator that shares one status subscription among the entities of
 a device: listeners register and unregister, observing starts with the
 first listener and is cancelled with the last, and each observed status
 replaces the stored one and is announced to every listener in turn.

 Tasks are numbered; the coordinator keeps a log of the tasks it spawned and
 cancelled, so "at most one observer runs" is a statement about that log.
 */
module Coordinator {
  import opened Values

  /** A listener callback, by identity. */
  type Callback = nat

  datatype TaskEvent = Spawn(id: nat) | Cancel(id: nat)

  datatype Coord = Coord(
    status: Option<Status>,
    listeners: seq<Callback>,
    task: Option<nat>,
    nextTask: nat,
    log: seq<TaskEvent>)

  /** The tasks spawned and not cancelled since. */
  function Live(log: seq<TaskEvent>): set<nat>
  {
    if log == [] then {}
    else match log[|log| - 1]
      case Spawn(id) => Live(log[..|log| - 1]) + {id}
      case Cancel(id) => Live(log[..|log| - 1]) - {id}
  }

  function TaskSet(task: Option<nat>): set<nat>
  {
    if task.Some? then {task.value} else {}
  }

  /** The bookkeeping the listener methods keep: an observer runs exactly while someone listens, and it is the only one. */
  predicate Inv(c: Coord)
  {
    (c.listeners != [] <==> c.task.Some?) && Live(c.log) == TaskSet(c.task)
  }

  /** A freshly constructed coordinator. */
  function Init(): (c: Coord)
    ensures Inv(c) && c.status.None?
  {
    Coord(None, [], None, 0, [])
  }

  /** `available`: a status has been stored. */
  predicate Available(c: Coord)
  {
    c.status.Some?
  }

  datatype RefreshError = ConfigEntryNotReady

  /**
   `async_first_refresh`, given what `get_status` returned or that it
   raised: the status is stored, or the coordinator is left as it was and
   `ConfigEntryNotReady` is raised.
   */
  function FirstRefresh<E>(c: Coord, reply: Result<Status, E>): (r: Result<Coord, RefreshError>)
    ensures reply.Err? <==> r == Err(ConfigEntryNotReady)
    ensures r.Ok? ==> Available(r.value) && r.value.status == Some(reply.value)
    ensures r.Ok? ==> r.value.(status := c.status) == c
  {
    match reply
    case Err(_) => Err(ConfigEntryNotReady)
    case Ok(s) => Ok(c.(status := Some(s)))
  }

  /** `_start_observing`: cancel the running task, if any, then spawn a new one. */
  function StartObserving(c: Coord): (r: Coord)
    ensures r.task == Some(c.nextTask) && r.nextTask == c.nextTask + 1
    ensures r.status == c.status && r.listeners == c.listeners
    ensures r.log == c.log + (if c.task.Some? then [Cancel(c.task.value)] else []) + [Spawn(c.nextTask)]
  {
    var log := if c.task.Some? then c.log + [Cancel(c.task.value)] else c.log;
    c.(task := Some(c.nextTask), nextTask := c.nextTask + 1, log := log + [Spawn(c.nextTask)])
  }

  /** Whatever ran before, after `_start_observing` exactly the new task runs. */
  lemma StartObservingSingle(c: Coord)
    requires Live(c.log) == TaskSet(c.task)
    ensures Live(StartObserving(c).log) == {c.nextTask}
  {
    var r := StartObserving(c);
    assert r.log[..|r.log| - 1] == c.log + (if c.task.Some? then [Cancel(c.task.value)] else []);
    if c.task.Some? {
      var l := c.log + [Cancel(c.task.value)];
      assert l[..|l| - 1] == c.log;
    }
  }

  /** `async_add_listener`: append the callback; the first one starts observing. */
  function AddListener(c: Coord, cb: Callback): (r: Coord)
    ensures r.listeners == c.listeners + [cb] && r.status == c.status
    ensures c.listeners == [] ==> r == StartObserving(c.(listeners := [cb]))
    ensures c.listeners != [] ==> r.task == c.task && r.log == c.log && r.nextTask == c.nextTask
  {
    var startObserving := c.listeners == [];
    var c' := c.(listeners := c.listeners + [cb]);
    if startObserving then StartObserving(c') else c'
  }

  /** `list.index`: the position of the first occurrence. */
  function IndexOf(xs: seq<Callback>, x: Callback): (i: nat)
    requires x in xs
    ensures i < |xs| && xs[i] == x && x !in xs[..i]
  {
    if xs[0] == x then 0
    else
      var j := IndexOf(xs[1..], x);
      assert xs[..j + 1] == [xs[0]] + xs[1..][..j];
      j + 1
  }

  /** `list.remove`: drop the first occurrence, keeping the order of the others. */
  function RemoveFirst(xs: seq<Callback>, x: Callback): (r: seq<Callback>)
    requires x in xs
    ensures |r| == |xs| - 1 && multiset(r) + multiset{x} == multiset(xs)
    ensures r[..IndexOf(xs, x)] == xs[..IndexOf(xs, x)]
    ensures forall k :: IndexOf(xs, x) <= k < |r| ==> r[k] == xs[k + 1]
  {
    var i := IndexOf(xs, x);
    var r := xs[..i] + xs[i + 1..];
    assert xs == xs[..i] + [x] + xs[i + 1..];
    assert multiset(xs) == multiset(xs[..i]) + multiset{x} + multiset(xs[i + 1..]);
    assert r[..i] == xs[..i];
    r
  }

  datatype RemoveError = NotRegistered

  /**
   `async_remove_listener`: `list.remove` raises `ValueError` for a callback
   that is not registered; removing the last listener cancels the observer.
   */
  function RemoveListener(c: Coord, cb: Callback): (r: Result<Coord, RemoveError>)
    ensures r.Err? <==> cb !in c.listeners
    ensures r.Ok? ==> r.value.listeners == RemoveFirst(c.listeners, cb) && r.value.status == c.status
    ensures r.Ok? && r.value.listeners == [] && c.task.Some? ==>
              r.value.task.None? && r.value.log == c.log + [Cancel(c.task.value)]
    ensures r.Ok? && (r.value.listeners != [] || c.task.None?) ==>
              r.value.task == c.task && r.value.log == c.log
  {
    if cb !in c.listeners then Err(NotRegistered)
    else
      var c' := c.(listeners := RemoveFirst(c.listeners, cb));
      if c'.listeners == [] && c'.task.Some? then
        Ok(c'.(task := None, log := c'.log + [Cancel(c'.task.value)]))
      else Ok(c')
  }

  /**
   One status delivered by the observer: it replaces the stored status
   wholesale, and every listener is called in registration order.
   */
  function Deliver(c: Coord, s: Status): (r: (Coord, seq<Callback>))
    ensures r.0 == c.(status := Some(s)) && Available(r.0)
    ensures r.1 == c.listeners
  {
    (c.(status := Some(s)), c.listeners)
  }

  /** `n` copies of `s`, one after the other. */
  function Repeat<T>(s: seq<T>, n: nat): (r: seq<T>)
    ensures |r| == n * |s|
  {
    if n == 0 then [] else s + Repeat(s, n - 1)
  }

  /** The `i`-th block of `k` elements of `s`. */
  function Block<T>(s: seq<T>, k: nat, i: nat): seq<T>
    requires (i + 1) * k <= |s|
  {
    s[i * k..(i + 1) * k]
  }

  /** Every block of `n` copies of `s` is `s`. */
  lemma {:induction false} RepeatBlock<T>(s: seq<T>, n: nat, i: nat)
    requires i < n
    ensures (i + 1) * |s| <= |Repeat(s, n)| && Block(Repeat(s, n), |s|, i) == s
    decreases n
  {
    var rest := Repeat(s, n - 1);
    assert Repeat(s, n) == s + rest;
    MulBound(i + 1, n, |s|);
    if i > 0 {
      RepeatBlock(s, n - 1, i - 1);
      BlockShift(s, rest, i);
    } else {
      assert Block(s + rest, |s|, 0) == (s + rest)[..|s|];
    }
  }

  lemma MulBound(a: nat, b: nat, k: nat)
    requires a <= b
    ensures a * k <= b * k
  {
  }

  /** Past a first block `s`, the blocks of `s + rest` are those of `rest`. */
  lemma BlockShift<T>(s: seq<T>, rest: seq<T>, i: nat)
    requires i > 0 && (i + 1) * |s| <= |s + rest|
    ensures i * |s| <= |rest|
    ensures Block(s + rest, |s|, i) == Block(rest, |s|, i - 1)
  {
    var k := |s|;
    assert i * k == (i - 1) * k + k;
    assert (i + 1) * k == i * k + k;
  }

  /**
   `_async_observe_status` over a finite run of statuses: the coordinator
   afterwards and the calls made. The last status is the one stored, and
   every status is announced to all the listeners, in registration order.
   */
  function ObserveRun(c: Coord, run: seq<Status>): (r: (Coord, seq<Callback>))
    ensures run == [] ==> r.0 == c
    ensures run != [] ==> r.0 == c.(status := Some(run[|run| - 1]))
    ensures r.1 == Repeat(c.listeners, |run|)
    decreases |run|
  {
    if run == [] then (c, [])
    else
      var d := Deliver(c, run[0]);
      var rest := ObserveRun(d.0, run[1..]);
      assert run[1..] != [] ==> run[1..][|run[1..]| - 1] == run[|run| - 1];
      (rest.0, d.1 + rest.1)
  }

  /**
   The calls of an observed run: the listeners once per status, the
   `i`-th status announced to exactly the registered listeners in order.
   */
  lemma ObserveRunEffect(c: Coord, run: seq<Status>)
    ensures |ObserveRun(c, run).1| == |run| * |c.listeners|
    ensures forall i :: 0 <= i < |run| ==> IsBlock(ObserveRun(c, run).1, c.listeners, i)
  {
    RepeatBlocks(c.listeners, |run|);
  }

  /** The `i`-th block of `|s|` elements of `calls` exists and is `s`. */
  predicate IsBlock<T(==)>(calls: seq<T>, s: seq<T>, i: nat)
  {
    (i + 1) * |s| <= |calls| && Block(calls, |s|, i) == s
  }

  /** Every block of `n` copies of `s`, at once. */
  lemma RepeatBlocks<T>(s: seq<T>, n: nat)
    ensures forall i :: 0 <= i < n ==> IsBlock(Repeat(s, n), s, i)
  {
    forall i | 0 <= i < n
      ensures IsBlock(Repeat(s, n), s, i)
    {
      RepeatBlock(s, n, i);
    }
  }

  /** The operations the entities drive, as a closed set of steps. */
  datatype Op = Add(cb: Callback) | Remove(cb: Callback) | Observe(s: Status) | Refresh(reply: Result<Status, RefreshError>)

  /**
   Applying one step; a step that raises leaves the coordinator as it was.
   Adding appends the callback, removing drops one registration of it (none
   when it has none), and observing or refreshing touches only the status.
   */
  function Apply(c: Coord, op: Op): (r: Coord)
    ensures op.Add? ==> r.listeners == c.listeners + [op.cb]
    ensures op.Remove? ==> multiset(r.listeners) == multiset(c.listeners) - multiset{op.cb}
    ensures op.Observe? ==> r == c.(status := Some(op.s))
    ensures op.Refresh? ==> r == c.(status := if op.reply.Ok? then Some(op.reply.value) else c.status)
  {
    match op
    case Add(cb) => AddListener(c, cb)
    case Remove(cb) => (match RemoveListener(c, cb) case Ok(c') => c' case Err(_) => c)
    case Observe(s) => Deliver(c, s).0
    case Refresh(reply) => (match FirstRefresh(c, reply) case Ok(c') => c' case Err(_) => c)
  }

  /** Every step keeps the invariant: an observer runs iff someone listens, and never two at once. */
  lemma ApplyInv(c: Coord, op: Op)
    requires Inv(c)
    ensures Inv(Apply(c, op))
  {
    match op
    case Add(cb) =>
      if c.listeners == [] {
        StartObservingSingle(c.(listeners := [cb]));
      }
    case Remove(cb) =>
      if cb in c.listeners {
        var r := RemoveListener(c, cb).value;
        if r.listeners == [] && c.task.Some? {
          assert (c.log + [Cancel(c.task.value)])[..|c.log|] == c.log;
        }
      }
    case Observe(s) =>
    case Refresh(reply) =>
  }

  function ApplyAll(c: Coord, ops: seq<Op>): Coord
    decreases |ops|
  {
    if ops == [] then c else ApplyAll(Apply(c, ops[0]), ops[1..])
  }

  /** From a fresh coordinator, any sequence of steps keeps at most one observer, running exactly while listeners exist. */
  lemma {:induction false} ApplyAllInv(c: Coord, ops: seq<Op>)
    requires Inv(c)
    ensures Inv(ApplyAll(c, ops))
    decreases |ops|
  {
    if ops != [] {
      ApplyInv(c, ops[0]);
      ApplyAllInv(Apply(c, ops[0]), ops[1..]);
    }
  }

  /** Adding a listener and removing it again from an idle coordinator spawns one observer and cancels it. */
  lemma AddRemoveRoundTrip(c: Coord, cb: Callback)
    requires Inv(c) && c.listeners == []
    ensures var r := RemoveListener(AddListener(c, cb), cb);
            r.Ok? && r.value.listeners == [] && r.value.task.None?
            && r.value.log == c.log + [Spawn(c.nextTask), Cancel(c.nextTask)]
  {
    assert c.task.None?;
    var a := AddListener(c, cb);
    assert a.log == c.log + [Spawn(c.nextTask)];
  }
}
