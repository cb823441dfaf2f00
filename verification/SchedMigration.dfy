/** Runqueue load accounting (source/scripts/python/sched-migration.py): every scheduler event that
    changes a runqueue opens a new time slice that carries the total load over all cpus. */
module SchedMigration {
  import opened Common

  /** The tasks of a runqueue, idle (0) normally among them.  An unknown runqueue holds just idle. */
  type Tasks = seq<int>

  const IDLE_QUEUE: Tasks := [0]

  function Load(ts: Tasks): int { |ts| - 1 }

  function Members(ts: Tasks): set<int> { set t | t in ts }

  // ---------------------------------------------------------------- one runqueue

  function Remove(ts: Tasks, t: int): (r: Tasks)
    requires t in ts
  {
    if ts[0] == t then ts[1..] else [ts[0]] + Remove(ts[1..], t)
  }

  function Without(ts: Tasks, t: int): (r: Tasks) {
    if ts == [] then [] else (if ts[0] == t then [] else [ts[0]]) + Without(ts[1..], t)
  }

  /** None stands for the very object the method was called on. */
  datatype Snapshot = Same | New(tasks: Tasks)

  function TasksOf(s: Snapshot, was: Tasks): Tasks { if s.Same? then was else s.tasks }

  function SwitchTasks(ts: Tasks, prev: int, running: bool, next: int): Snapshot {
    if running && next in ts && prev in ts then Same
    else
      var kept := if prev in ts then (if running then ts else Remove(ts, prev))
                  else if running then ts + [prev] else ts;
      New(if next in kept then kept else kept + [next])
  }

  function MigrateOut(ts: Tasks, t: int): Snapshot {
    if t !in ts then Same else New(Without(ts, t))
  }

  /** Also waking up and forking. */
  function MigrateIn(ts: Tasks, t: int): Snapshot {
    if t in ts then Same else New(ts + [t])
  }

  lemma {:induction false} RemoveMembers(ts: Tasks, t: int)
    requires NoDuplicates(ts) && t in ts
    ensures NoDuplicates(Remove(ts, t)) && forall x :: x in Remove(ts, t) <==> x in ts && x != t
  {
    var rest := ts[1..];
    assert ts == [ts[0]] + rest;
    if ts[0] == t {
      assert forall i :: 0 <= i < |rest| ==> rest[i] == ts[i + 1];
    } else {
      RemoveMembers(rest, t);
      var r := Remove(rest, t);
      assert ts[0] !in r;
      assert Remove(ts, t) == [ts[0]] + r;
    }
  }

  lemma {:induction false} WithoutMembers(ts: Tasks, t: int)
    requires NoDuplicates(ts)
    ensures NoDuplicates(Without(ts, t)) && forall x :: x in Without(ts, t) <==> x in ts && x != t
  {
    if ts != [] {
      WithoutMembers(ts[1..], t);
      assert ts == [ts[0]] + ts[1..];
      assert ts[0] !in Without(ts[1..], t);
    }
  }

  lemma {:induction false} AppendMembers(ts: Tasks, t: int)
    requires NoDuplicates(ts) && t !in ts
    ensures NoDuplicates(ts + [t]) && forall x :: x in ts + [t] <==> x in ts || x == t
  {
  }

  /** After a switch: the outgoing task is queued exactly if it is still runnable, the incoming one always is, and
      nothing else changes. */
  lemma {:induction false} SwitchMembers(ts: Tasks, prev: int, running: bool, next: int)
    requires NoDuplicates(ts)
    ensures var r := TasksOf(SwitchTasks(ts, prev, running, next), ts);
            NoDuplicates(r) && forall x :: x in r <==> x == next || (if x == prev then running else x in ts)
  {
    if !(running && next in ts && prev in ts) {
      var kept := if prev in ts then (if running then ts else Remove(ts, prev))
                  else if running then ts + [prev] else ts;
      if prev in ts && !running {
        RemoveMembers(ts, prev);
      } else if prev !in ts && running {
        AppendMembers(ts, prev);
      }
      assert NoDuplicates(kept) && forall x :: x in kept <==> if x == prev then running else x in ts;
      if next !in kept {
        AppendMembers(kept, next);
      }
    }
  }

  lemma {:induction false} MigrateMembers(ts: Tasks, t: int)
    requires NoDuplicates(ts)
    ensures var r := TasksOf(MigrateOut(ts, t), ts); NoDuplicates(r) && forall x :: x in r <==> x in ts && x != t
    ensures var r := TasksOf(MigrateIn(ts, t), ts); NoDuplicates(r) && forall x :: x in r <==> x in ts || x == t
  {
    WithoutMembers(ts, t);
    if t !in ts {
      AppendMembers(ts, t);
    }
  }

  // ---------------------------------------------------------------- all runqueues

  type Rqs = map<int, Tasks>

  function Rq(rqs: Rqs, cpu: int): Tasks { if cpu in rqs then rqs[cpu] else IDLE_QUEUE }

  /** The sum of the loads over some cpus. */
  ghost function LoadOver(rqs: Rqs, cpus: set<int>): int {
    if !exists cpu :: cpu in cpus then 0
    else
      var cpu :| cpu in cpus;
      Load(Rq(rqs, cpu)) + LoadOver(rqs, cpus - {cpu})
  }

  /** The sum of the loads over all cpus known; an unknown one has load 0. */
  ghost function TotalLoad(rqs: Rqs): int { LoadOver(rqs, rqs.Keys) }

  lemma {:induction false} LoadWithout(rqs: Rqs, cpus: set<int>, cpu: int)
    requires cpu in cpus
    ensures LoadOver(rqs, cpus) == Load(Rq(rqs, cpu)) + LoadOver(rqs, cpus - {cpu})
  {
    var c :| c in cpus && LoadOver(rqs, cpus) == Load(Rq(rqs, c)) + LoadOver(rqs, cpus - {c});
    if c != cpu {
      LoadWithout(rqs, cpus - {c}, cpu);
      LoadWithout(rqs, cpus - {cpu}, c);
      assert cpus - {c} - {cpu} == cpus - {cpu} - {c};
    }
  }

  lemma {:induction false} LoadElsewhere(rqs: Rqs, cpus: set<int>, cpu: int, ts: Tasks)
    requires cpu !in cpus
    ensures LoadOver(rqs[cpu := ts], cpus) == LoadOver(rqs, cpus)
  {
    if exists c :: c in cpus {
      var c :| c in cpus;
      LoadWithout(rqs, cpus, c);
      LoadWithout(rqs[cpu := ts], cpus, c);
      LoadElsewhere(rqs, cpus - {c}, cpu, ts);
    }
  }

  /** Replacing one runqueue changes the total by the difference of its loads. */
  lemma {:induction false} TotalUpdate(rqs: Rqs, cpu: int, ts: Tasks)
    ensures TotalLoad(rqs[cpu := ts]) == TotalLoad(rqs) + Load(ts) - Load(Rq(rqs, cpu))
  {
    var next := rqs[cpu := ts];
    var others := rqs.Keys - {cpu};
    LoadWithout(next, next.Keys, cpu);
    assert next.Keys - {cpu} == others;
    LoadElsewhere(rqs, others, cpu, ts);
    if cpu in rqs {
      LoadWithout(rqs, rqs.Keys, cpu);
    } else {
      assert others == rqs.Keys;
    }
  }

  // ---------------------------------------------------------------- time slices

  datatype TimeSlice = TimeSlice(start: int, end: int, rqs: Rqs, totalLoad: int, eventCpus: seq<int>)

  ghost predicate SliceOk(s: TimeSlice) {
    s.totalLoad == TotalLoad(s.rqs) && forall cpu :: cpu in s.rqs ==> NoDuplicates(s.rqs[cpu])
  }

  /** Consecutive slices meet. */
  ghost predicate Chained(data: seq<TimeSlice>) {
    forall i :: 0 < i < |data| ==> data[i - 1].end == data[i].start
  }

  /** The slices with the last one ending at the given time. */
  function Ended(data: seq<TimeSlice>, time: int): seq<TimeSlice> {
    if data == [] then [] else data[|data| - 1 := data[|data| - 1].(end := time)]
  }

  /** now continues before, whose last slice ends at the given time: exactly if cpus were concerned there is a new
      slice, for these cpus and starting at that time, and all else is as it was. */
  ghost predicate Continues(before: seq<TimeSlice>, now: seq<TimeSlice>, time: int, cpus: seq<int>) {
    if cpus == [] then now == Ended(before, time)
    else
      && now != [] && now[..|now| - 1] == Ended(before, time)
      && now[|now| - 1].start == now[|now| - 1].end == time && now[|now| - 1].eventCpus == cpus
  }

  /** The runqueue of a cpu, and the load, after a snapshot replaced it. */
  function WithRq(s: TimeSlice, cpu: int, was: Tasks, now: Tasks): TimeSlice {
    s.(rqs := s.rqs[cpu := now], totalLoad := s.totalLoad + Load(now) - Load(was))
  }

  lemma {:induction false} WithRqOk(s: TimeSlice, cpu: int, now: Tasks)
    requires SliceOk(s) && NoDuplicates(now)
    ensures SliceOk(WithRq(s, cpu, Rq(s.rqs, cpu), now))
  {
    TotalUpdate(s.rqs, cpu, now);
  }

  datatype Event =
    | Switch(time: int, cpu: int, prev: int, prevState: int, next: int)
    | Migrate(time: int, pid: int, origCpu: int, destCpu: int)
    | Wake(time: int, pid: int, success: int, targetCpu: int)

  /** A switch by a task that is runnable, as its state code 0 says. */
  predicate Running(prevState: int) { prevState == 0 }

  predicate Accepts(current: map<int, int>, cpu: int, prev: int) {
    cpu in current ==> current[cpu] == -1 || current[cpu] == prev
  }

  function SwitchRqs(rqs: Rqs, cpu: int, prev: int, running: bool, next: int): Rqs {
    rqs[cpu := TasksOf(SwitchTasks(Rq(rqs, cpu), prev, running, next), Rq(rqs, cpu))]
  }

  function MigrateRqs(rqs: Rqs, pid: int, from: int, dest: int): Rqs {
    if from == dest then rqs
    else rqs[from := TasksOf(MigrateOut(Rq(rqs, from), pid), Rq(rqs, from))]
            [dest := TasksOf(MigrateIn(Rq(rqs, dest), pid), Rq(rqs, dest))]
  }

  function WakeRqs(rqs: Rqs, pid: int, cpu: int): Rqs {
    rqs[cpu := TasksOf(MigrateIn(Rq(rqs, cpu), pid), Rq(rqs, cpu))]
  }

  /** The same tasks on every cpu, whether it is known or not. */
  ghost predicate SameRqs(a: Rqs, b: Rqs) { forall c :: Rq(a, c) == Rq(b, c) }

  /** The slice after a task has left one cpu's queue and joined another's, with the load updated for each. */
  function Moved(s: TimeSlice, pid: int, from: int, dest: int): TimeSlice {
    var (a, b) := (Rq(s.rqs, from), Rq(s.rqs, dest));
    var (left, joined) := (MigrateOut(a, pid), MigrateIn(b, pid));
    WithRq(WithRq(s, from, a, TasksOf(left, a)), dest, b, TasksOf(joined, b))
      .(eventCpus := if left.Same? then [dest] else [from, dest])
  }

  lemma {:induction false} MovedOk(s: TimeSlice, pid: int, from: int, dest: int)
    requires SliceOk(s) && from != dest
    ensures SliceOk(Moved(s, pid, from, dest)) && Moved(s, pid, from, dest).rqs == MigrateRqs(s.rqs, pid, from, dest)
  {
    var (a, b) := (Rq(s.rqs, from), Rq(s.rqs, dest));
    MigrateMembers(a, pid);
    MigrateMembers(b, pid);
    WithRqOk(s, from, TasksOf(MigrateOut(a, pid), a));
    WithRqOk(WithRq(s, from, a, TasksOf(MigrateOut(a, pid), a)), dest, TasksOf(MigrateIn(b, pid), b));
  }

  class TimeSliceList {
    var data: seq<TimeSlice>
    var currentTsk: map<int, int>

    ghost predicate Valid()
      reads this`data
    {
      Chained(data) && forall i :: 0 <= i < |data| ==> SliceOk(data[i])
    }

    /** The runqueues after the last event. */
    function Latest(): Rqs
      reads this`data
    {
      if data == [] then map[] else data[|data| - 1].rqs
    }

    constructor ()
      ensures Valid() && data == [] && currentTsk == map[]
    {
      data, currentTsk := [], map[];
    }

    /** Ends the last slice now and prepares its successor, which is not yet in the list. */
    method GetTimeSlice(time: int) returns (slice: TimeSlice)
      requires Valid()
      modifies this`data
      ensures Valid() && SliceOk(slice) && slice.start == slice.end == time
      ensures slice.rqs == old(Latest()) == Latest() && data == Ended(old(data), time)
    {
      if |data| == 0 {
        slice := TimeSlice(time, time, map[], 0, []);
      } else {
        var last := data[|data| - 1].(end := time);
        data := data[|data| - 1 := last];
        slice := TimeSlice(time, time, last.rqs, last.totalLoad, []);
      }
    }

    method Append(slice: TimeSlice)
      requires Valid() && SliceOk(slice)
      requires data != [] ==> data[|data| - 1].end == slice.start
      modifies this`data
      ensures Valid() && data == old(data) + [slice]
    {
      data := data + [slice];
    }

    /** Appends the slice with one runqueue replaced. */
    method AppendChanged(slice: TimeSlice, cpu: int, tasks: Tasks)
      requires Valid() && SliceOk(slice) && NoDuplicates(tasks)
      requires data != [] ==> data[|data| - 1].end == slice.start
      modifies this`data
      ensures Valid() && Latest() == slice.rqs[cpu := tasks]
      ensures data != [] && data[..|data| - 1] == old(data)
      ensures var s := data[|data| - 1]; s.start == slice.start && s.end == slice.end && s.eventCpus == [cpu]
    {
      WithRqOk(slice, cpu, tasks);
      var changed := WithRq(slice, cpu, Rq(slice.rqs, cpu), tasks);
      Append(changed.(eventCpus := [cpu]));
    }

    /** false where the original raises: its complaint about a switch by a task other than the current one fails itself. */
    method SchedSwitch(time: int, cpu: int, prev: int, prevState: int, next: int) returns (ok: bool)
      requires Valid()
      modifies this
      ensures Valid()
      ensures ok <==> Accepts(old(currentTsk), cpu, prev)
      ensures !ok ==> data == old(data) && currentTsk == old(currentTsk)
      ensures ok ==> Continues(old(data), data, time,
                       if prevState == 0 && {prev, next} <= Members(Rq(old(Latest()), cpu)) then [] else [cpu])
      ensures ok ==> currentTsk == old(currentTsk)[cpu := next]
      ensures ok ==> SameRqs(Latest(), SwitchRqs(old(Latest()), cpu, prev, Running(prevState), next))
    {
      if cpu in currentTsk && currentTsk[cpu] != -1 && currentTsk[cpu] != prev {
        return false;
      }
      currentTsk := currentTsk[cpu := next];
      SwitchAt(time, cpu, prev, Running(prevState), next);
      return true;
    }

    method SwitchAt(time: int, cpu: int, prev: int, running: bool, next: int)
      requires Valid()
      modifies this`data
      ensures Valid()
      ensures Continues(old(data), data, time,
                if running && {prev, next} <= Members(Rq(old(Latest()), cpu)) then [] else [cpu])
      ensures SameRqs(Latest(), SwitchRqs(old(Latest()), cpu, prev, running, next))
    {
      var slice := GetTimeSlice(time);
      var oldRq := Rq(slice.rqs, cpu);
      var newRq := SwitchTasks(oldRq, prev, running, next);
      if newRq.Same? {
        return;
      }
      SwitchMembers(oldRq, prev, running, next);
      AppendChanged(slice, cpu, newRq.tasks);
    }

    method Migrate(time: int, pid: int, oldCpu: int, newCpu: int)
      requires Valid()
      modifies this`data
      ensures Valid()
      ensures Continues(old(data), data, time,
                if oldCpu == newCpu then []
                else if pid in Rq(old(Latest()), oldCpu) then [oldCpu, newCpu] else [newCpu])
      ensures SameRqs(Latest(), MigrateRqs(old(Latest()), pid, oldCpu, newCpu))
    {
      var slice := GetTimeSlice(time);
      if oldCpu == newCpu {
        return;
      }
      MovedOk(slice, pid, oldCpu, newCpu);
      var moved := Moved(slice, pid, oldCpu, newCpu);
      ghost var before := data;
      Append(moved);
      assert data[..|data| - 1] == before;
    }

    method WakeUp(time: int, pid: int, success: int, cpu: int)
      requires Valid()
      modifies this`data
      ensures Valid()
      ensures if success == 0 then data == old(data)
              else Continues(old(data), data, time, if pid in Rq(old(Latest()), cpu) then [] else [cpu])
      ensures success != 0 ==> SameRqs(Latest(), WakeRqs(old(Latest()), pid, cpu))
    {
      if success == 0 {
        return;
      }
      var slice := GetTimeSlice(time);
      var oldRq := Rq(slice.rqs, cpu);
      var newRq := MigrateIn(oldRq, pid);
      if newRq.Same? {
        return;
      }
      MigrateMembers(oldRq, pid);
      AppendChanged(slice, cpu, newRq.tasks);
    }
  }

  // ---------------------------------------------------------------- whole traces

  /** The event takes idle off a runqueue. */
  predicate IdleLeaves(e: Event) {
    match e
    case Switch(_, _, prev, prevState, next) => prev == 0 && !Running(prevState) && next != 0
    case Migrate(_, pid, from, dest) => pid == 0 && from != dest
    case Wake(_, _, _, _) => false
  }

  ghost predicate IdleEverywhere(rqs: Rqs) { forall c :: 0 in Rq(rqs, c) }

  /** What is known after some events: the runqueues, each cpu's current task, and whether the original raised. */
  datatype Known = Known(rqs: Rqs, current: map<int, int>, ok: bool)

  function After(k: Known, e: Event): Known
    requires k.ok
  {
    match e
    case Switch(_, cpu, prev, prevState, next) =>
      if !Accepts(k.current, cpu, prev) then k.(ok := false)
      else Known(SwitchRqs(k.rqs, cpu, prev, Running(prevState), next), k.current[cpu := next], true)
    case Migrate(_, pid, from, dest) => k.(rqs := MigrateRqs(k.rqs, pid, from, dest))
    case Wake(_, pid, success, cpu) => if success == 0 then k else k.(rqs := WakeRqs(k.rqs, pid, cpu))
  }

  /** The events one after the other, up to the first that makes the original raise. */
  function Replay(events: seq<Event>): Known {
    if events == [] then Known(map[], map[], true)
    else
      var before := Replay(events[..|events| - 1]);
      if before.ok then After(before, events[|events| - 1]) else before
  }

  /** Who is queued on cpu c after an event: said of each kind of event by its fields alone. */
  ghost predicate QueuedAfter(was: Rqs, e: Event, c: int, x: int) {
    match e
    case Switch(_, cpu, prev, prevState, next) =>
      if c != cpu then x in Rq(was, c) else x == next || if x == prev then prevState == 0 else x in Rq(was, c)
    case Migrate(_, pid, from, dest) =>
      if from == dest then x in Rq(was, c)
      else if c == dest then x == pid || x in Rq(was, c)
      else if c == from then x != pid && x in Rq(was, c)
      else x in Rq(was, c)
    case Wake(_, pid, success, cpu) => x in Rq(was, c) || (c == cpu && x == pid && success != 0)
  }

  /** What one event does: it is refused exactly if it is a switch from a task other than the known current one of its
      cpu, and otherwise decides who is queued where, and who is current. */
  lemma {:induction false} EventEffect(k: Known, e: Event, c: int, x: int)
    requires k.ok && RqsDistinct(k.rqs)
    ensures var t := After(k, e);
            && (t.ok <==> !(e.Switch? && e.cpu in k.current && k.current[e.cpu] !in {-1, e.prev}))
            && (t.ok ==> (x in Rq(t.rqs, c) <==> QueuedAfter(k.rqs, e, c, x)))
            && (t.ok ==> t.current == if e.Switch? then k.current[e.cpu := e.next] else k.current)
  {
    match e
    case Switch(_, cpu, prev, prevState, next) => SwitchEffect(k.rqs, e, c, x);
    case Migrate(_, pid, from, dest) => MigrateEffect(k.rqs, e, c, x);
    case Wake(_, pid, _, cpu) => MigrateMembers(Rq(k.rqs, cpu), pid);
  }

  lemma {:induction false} SwitchEffect(rqs: Rqs, e: Event, c: int, x: int)
    requires RqsDistinct(rqs) && e.Switch?
    ensures x in Rq(SwitchRqs(rqs, e.cpu, e.prev, Running(e.prevState), e.next), c) <==> QueuedAfter(rqs, e, c, x)
  {
    SwitchMembers(Rq(rqs, e.cpu), e.prev, Running(e.prevState), e.next);
  }

  lemma {:induction false} MigrateEffect(rqs: Rqs, e: Event, c: int, x: int)
    requires RqsDistinct(rqs) && e.Migrate?
    ensures x in Rq(MigrateRqs(rqs, e.pid, e.origCpu, e.destCpu), c) <==> QueuedAfter(rqs, e, c, x)
  {
    var (from, dest) := (e.origCpu, e.destCpu);
    MigrateMembers(Rq(rqs, from), e.pid);
    MigrateMembers(Rq(rqs, dest), e.pid);
    if from != dest {
      var left := TasksOf(MigrateOut(Rq(rqs, from), e.pid), Rq(rqs, from));
      assert Rq(MigrateRqs(rqs, e.pid, from, dest), c) ==
             if c == dest then TasksOf(MigrateIn(Rq(rqs, dest), e.pid), Rq(rqs, dest)) else if c == from then left else Rq(rqs, c);
    }
  }

  predicate SwitchOn(e: Event, cpu: int) { e.Switch? && e.cpu == cpu }

  /** Where the last switch on a cpu is, or -1. */
  function LastSwitch(events: seq<Event>, cpu: int): (i: int)
    ensures -1 <= i < |events| && (i >= 0 ==> SwitchOn(events[i], cpu))
    ensures forall k :: i < k < |events| ==> !SwitchOn(events[k], cpu)
  {
    var n := |events| - 1;
    if n < 0 || SwitchOn(events[n], cpu) then n else LastSwitch(events[..n], cpu)
  }

  /** A switch is from the task that the last switch on its cpu was to, if there was one to a task other than -1. */
  predicate Linked(events: seq<Event>, j: nat)
    requires j < |events|
  {
    events[j].Switch? ==>
      var i := LastSwitch(events[..j], events[j].cpu);
      i < 0 || events[i].next == -1 || events[i].next == events[j].prev
  }

  /** A trace is accepted if and only if its switches are linked. */
  lemma {:induction false} AcceptedIffLinked(events: seq<Event>)
    ensures Replay(events).ok <==> forall j :: 0 <= j < |events| ==> Linked(events, j)
    ensures Replay(events).ok ==> forall cpu :: var i := LastSwitch(events, cpu);
              if i < 0 then cpu !in Replay(events).current
              else cpu in Replay(events).current && Replay(events).current[cpu] == events[i].next
  {
    if events != [] {
      var n := |events| - 1;
      AcceptedIffLinked(events[..n]);
      assert forall j :: 0 <= j < n ==> events[..n][..j] == events[..j];
      assert forall j :: 0 <= j < n ==> (Linked(events[..n], j) <==> Linked(events, j));
      assert Replay(events[..n]).ok ==> (Linked(events, n) <==> Replay(events).ok);
    }
  }

  ghost predicate RqsDistinct(rqs: Rqs) { forall c :: NoDuplicates(Rq(rqs, c)) }

  /** In an accepted trace each event decides who is queued where from who was before it. */
  lemma {:induction false} QueuedAlong(events: seq<Event>, c: int, x: int)
    requires events != [] && Replay(events).ok
    ensures x in Rq(Replay(events).rqs, c) <==> QueuedAfter(Replay(events[..|events| - 1]).rqs, events[|events| - 1], c, x)
    ensures Replay([]).rqs == map[]
  {
    ReplayDistinct(events[..|events| - 1]);
    EventEffect(Replay(events[..|events| - 1]), events[|events| - 1], c, x);
  }

  lemma {:induction false} ReplayDistinct(events: seq<Event>)
    ensures RqsDistinct(Replay(events).rqs)
  {
    if events != [] {
      var (most, last) := (events[..|events| - 1], events[|events| - 1]);
      ReplayDistinct(most);
      if Replay(most).ok {
        DistinctKept(Replay(most), last);
      }
    }
  }

  lemma {:induction false} DistinctKept(k: Known, e: Event)
    requires k.ok && RqsDistinct(k.rqs)
    ensures RqsDistinct(After(k, e).rqs)
  {
    match e
    case Switch(_, cpu, prev, prevState, next) =>
      SwitchMembers(Rq(k.rqs, cpu), prev, Running(prevState), next);
      DistinctKeptAt(k.rqs, cpu, TasksOf(SwitchTasks(Rq(k.rqs, cpu), prev, Running(prevState), next), Rq(k.rqs, cpu)));
    case Migrate(_, pid, from, dest) =>
      var (a, b) := (Rq(k.rqs, from), Rq(k.rqs, dest));
      MigrateMembers(a, pid);
      MigrateMembers(b, pid);
      if from != dest {
        DistinctKeptAt(k.rqs, from, TasksOf(MigrateOut(a, pid), a));
        DistinctKeptAt(k.rqs[from := TasksOf(MigrateOut(a, pid), a)], dest, TasksOf(MigrateIn(b, pid), b));
      }
    case Wake(_, pid, _, cpu) =>
      MigrateMembers(Rq(k.rqs, cpu), pid);
      DistinctKeptAt(k.rqs, cpu, TasksOf(MigrateIn(Rq(k.rqs, cpu), pid), Rq(k.rqs, cpu)));
  }

  lemma {:induction false} DistinctKeptAt(rqs: Rqs, cpu: int, ts: Tasks)
    requires RqsDistinct(rqs) && NoDuplicates(ts)
    ensures RqsDistinct(rqs[cpu := ts])
  {
    var next := rqs[cpu := ts];
    forall c ensures NoDuplicates(Rq(next, c)) {
      assert NoDuplicates(Rq(rqs, c));
    }
  }

  ghost predicate Matches(list: TimeSliceList, k: Known)
    reads list
  {
    SameRqs(list.Latest(), k.rqs) && list.currentTsk == k.current
  }

  /** Idle stays on every runqueue if no event takes it off. */
  lemma {:induction false} IdleStays(events: seq<Event>)
    requires forall i :: 0 <= i < |events| ==> !IdleLeaves(events[i])
    ensures IdleEverywhere(Replay(events).rqs)
  {
    if events != [] {
      var (most, last) := (events[..|events| - 1], events[|events| - 1]);
      IdleStays(most);
      ReplayDistinct(most);
      if Replay(most).ok {
        IdleKept(Replay(most), last);
      }
    }
  }

  lemma {:induction false} IdleKept(k: Known, e: Event)
    requires k.ok && IdleEverywhere(k.rqs) && RqsDistinct(k.rqs) && !IdleLeaves(e)
    ensures IdleEverywhere(After(k, e).rqs)
  {
    forall c ensures 0 in Rq(After(k, e).rqs, c) {
      assert 0 in Rq(k.rqs, c);
      EventEffect(k, e, c, 0);
    }
  }

  /** What the events do depends on the tasks of each cpu alone. */
  lemma {:induction false} SameAfter(a: Rqs, b: Rqs, cpu: int, ts: Tasks)
    requires SameRqs(a, b)
    ensures SameRqs(a[cpu := ts], b[cpu := ts])
  {
    var (x, y) := (a[cpu := ts], b[cpu := ts]);
    forall c ensures Rq(x, c) == Rq(y, c) { assert Rq(a, c) == Rq(b, c); }
  }

  lemma {:induction false} SwitchSame(a: Rqs, b: Rqs, cpu: int, prev: int, running: bool, next: int)
    requires SameRqs(a, b)
    ensures SameRqs(SwitchRqs(a, cpu, prev, running, next), SwitchRqs(b, cpu, prev, running, next))
  {
    assert Rq(a, cpu) == Rq(b, cpu);
    SameAfter(a, b, cpu, TasksOf(SwitchTasks(Rq(a, cpu), prev, running, next), Rq(a, cpu)));
  }

  lemma {:induction false} MigrateSame(a: Rqs, b: Rqs, pid: int, from: int, dest: int)
    requires SameRqs(a, b)
    ensures SameRqs(MigrateRqs(a, pid, from, dest), MigrateRqs(b, pid, from, dest))
  {
    assert Rq(a, from) == Rq(b, from) && Rq(a, dest) == Rq(b, dest);
    var left := TasksOf(MigrateOut(Rq(a, from), pid), Rq(a, from));
    SameAfter(a, b, from, left);
    SameAfter(a[from := left], b[from := left], dest, TasksOf(MigrateIn(Rq(a, dest), pid), Rq(a, dest)));
  }

  lemma {:induction false} WakeSame(a: Rqs, b: Rqs, pid: int, cpu: int)
    requires SameRqs(a, b)
    ensures SameRqs(WakeRqs(a, pid, cpu), WakeRqs(b, pid, cpu))
  {
    assert Rq(a, cpu) == Rq(b, cpu);
    SameAfter(a, b, cpu, TasksOf(MigrateIn(Rq(a, cpu), pid), Rq(a, cpu)));
  }

  lemma {:induction false} SameTrans(a: Rqs, b: Rqs, c: Rqs)
    requires SameRqs(a, b) && SameRqs(b, c)
    ensures SameRqs(a, c)
  {
    forall x ensures Rq(a, x) == Rq(c, x) { assert Rq(a, x) == Rq(b, x); }
  }

  /** After any sequence of events every slice's load is right and the slices meet, the runqueues are those that the
      events make one after the other, and idle is on each of them if no event took it off; false if the original
      raised on the way. */
  method ProcessTrace(events: seq<Event>) returns (list: TimeSliceList, ok: bool)
    ensures fresh(list) && list.Valid()
    ensures ok == Replay(events).ok && Matches(list, Replay(events))
    ensures (forall k :: 0 <= k < |events| ==> !IdleLeaves(events[k])) ==> IdleEverywhere(list.Latest())
  {
    list := new TimeSliceList();
    ok := true;
    for k := 0 to |events|
      invariant fresh(list) && list.Valid() && ok == Replay(events[..k]).ok && Matches(list, Replay(events[..k]))
    {
      assert events[..k + 1][..k] == events[..k];
      if ok {
        ok := ProcessEvent(list, events[k], Replay(events[..k]));
      }
    }
    assert events[..|events|] == events;
    if forall k :: 0 <= k < |events| ==> !IdleLeaves(events[k]) {
      IdleStays(events);
    }
  }

  method ProcessEvent(list: TimeSliceList, e: Event, ghost k: Known) returns (ok: bool)
    requires list.Valid() && k.ok && Matches(list, k)
    modifies list
    ensures list.Valid() && ok == After(k, e).ok && Matches(list, After(k, e))
  {
    ghost var was := list.Latest();
    match e {
      case Switch(time, cpu, prev, prevState, next) =>
        ok := list.SchedSwitch(time, cpu, prev, prevState, next);
        SwitchSame(was, k.rqs, cpu, prev, Running(prevState), next);
      case Migrate(time, pid, origCpu, destCpu) =>
        list.Migrate(time, pid, origCpu, destCpu);
        ok := true;
        MigrateSame(was, k.rqs, pid, origCpu, destCpu);
      case Wake(time, pid, success, targetCpu) =>
        list.WakeUp(time, pid, success, targetCpu);
        ok := true;
        WakeSame(was, k.rqs, pid, targetCpu);
    }
    if ok && (e.Wake? ==> e.success != 0) {
      SameTrans(list.Latest(), RqsAfter(was, e), RqsAfter(k.rqs, e));
    }
  }

  function RqsAfter(rqs: Rqs, e: Event): Rqs {
    match e
    case Switch(_, cpu, prev, prevState, next) => SwitchRqs(rqs, cpu, prev, Running(prevState), next)
    case Migrate(_, pid, from, dest) => MigrateRqs(rqs, pid, from, dest)
    case Wake(_, pid, _, cpu) => WakeRqs(rqs, pid, cpu)
  }

  /** A runqueue's load is the number of its tasks other than idle. */
  lemma {:induction false} LoadCountsTasks(ts: Tasks)
    requires NoDuplicates(ts) && 0 in ts
    ensures Load(ts) == |Members(ts) - {0}|
  {
    MembersCount(ts);
  }

  lemma {:induction false} MembersCount(ts: Tasks)
    requires NoDuplicates(ts)
    ensures |Members(ts)| == |ts|
  {
    if ts != [] {
      MembersCount(ts[1..]);
      assert ts == [ts[0]] + ts[1..];
      assert Members(ts) == {ts[0]} + Members(ts[1..]);
      assert ts[0] !in ts[1..];
    }
  }
}
