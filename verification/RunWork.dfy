/** The job runner of parallel-perf.py (DoRunWork and KillWork, source/scripts/python/parallel-perf.py):
    at most nrJobs jobs run at a time, all are polled once a round, and a failure kills the rest.
    What a poll returns is a parameter: None while the job runs, otherwise its exit status. */
module RunWork {
  import opened Common

  type Job = nat

  type Poll = Job -> Option<int>

  /** History: `started` lists the jobs started, `killed` those killed. */
  datatype Sched = Sched(notStarted: seq<Job>, running: seq<Job>, done: seq<Job>, failed: Option<Job>,
                         started: seq<Job>, killed: seq<Job>)

  function Jobs(from: nat, to: nat): (js: seq<Job>)
    requires from <= to
    ensures |js| == to - from && forall i :: 0 <= i < |js| ==> js[i] == from + i
  {
    seq(to - from, i requires 0 <= i < to - from => from + i)
  }

  function Initial(n: nat): Sched { Sched(Jobs(0, n), [], [], None, [], []) }

  /** How many jobs are started in a round. */
  function Room(s: Sched, nrJobs: int): nat {
    var room := if nrJobs > |s.running| then nrJobs - |s.running| else 0;
    if room < |s.notStarted| then room else |s.notStarted|
  }

  function Start(s: Sched, nrJobs: int): Sched {
    var k := Room(s, nrJobs);
    s.(notStarted := s.notStarted[k..], running := s.running + s.notStarted[..k], started := s.started + s.notStarted[..k])
  }

  /** The jobs whose poll gives r, in order. */
  function Polled(js: seq<Job>, poll: Poll, r: Option<int>): (res: seq<Job>)
    ensures |res| <= |js|
  {
    if js == [] then [] else (if poll(js[0]) == r then [js[0]] else []) + Polled(js[1..], poll, r)
  }

  predicate Fails(poll: Poll, w: Job) { poll(w).Some? && poll(w).value != 0 }

  /** The position of the first job whose poll reports failure; the length if there is none. */
  function FirstFailure(js: seq<Job>, poll: Poll): (i: nat)
    ensures i <= |js|
    ensures i < |js| ==> Fails(poll, js[i])
    ensures forall k :: 0 <= k < i ==> !Fails(poll, js[k])
  {
    if js == [] then 0 else if Fails(poll, js[0]) then 0 else 1 + FirstFailure(js[1..], poll)
  }

  /** Polling every running job, up to the first failure. */
  function PollAll(s: Sched, poll: Poll): Sched {
    var i := FirstFailure(s.running, poll);
    if i < |s.running| then
      s.(failed := Some(s.running[i]), running := [],
         killed := s.killed + Polled(s.running[..i], poll, None) + s.running[i + 1..])
    else
      s.(running := Polled(s.running, poll, None), done := s.done + Polled(s.running, poll, Some(0)))
  }

  predicate Over(n: nat, s: Sched) { s.failed.Some? || |s.done| == n }

  /** One turn of the outer loop; nothing happens once it has been left. */
  function Round(n: nat, s: Sched, nrJobs: int, poll: Poll): Sched {
    if Over(n, s) then s else PollAll(Start(s, nrJobs), poll)
  }

  function Run(n: nat, nrJobs: int, rounds: seq<Poll>): Sched {
    if rounds == [] then Initial(n) else Round(n, Run(n, nrJobs, rounds[..|rounds| - 1]), nrJobs, rounds[|rounds| - 1])
  }

  // ---------------------------------------------------------------- safety

  ghost predicate Inv(n: nat, nrJobs: int, s: Sched) {
    && |s.started| <= n
    && s.started == Jobs(0, |s.started|) && s.notStarted == Jobs(|s.started|, n)
    && (nrJobs >= 0 ==> |s.running| <= nrJobs)
    && (s.failed.None? ==> s.killed == [] && multiset(s.running) + multiset(s.done) == multiset(s.started))
    && (s.failed.Some? ==> s.running == [] && s.failed.value in s.started)
  }

  lemma {:induction false} PolledSplits(js: seq<Job>, poll: Poll)
    requires forall k :: 0 <= k < |js| ==> !Fails(poll, js[k])
    ensures multiset(Polled(js, poll, None)) + multiset(Polled(js, poll, Some(0))) == multiset(js)
  {
    if js != [] {
      var rest := js[1..];
      PolledSplits(rest, poll);
      assert js == [js[0]] + rest;
      if poll(js[0]) == None {
        assert Polled(js, poll, None) == [js[0]] + Polled(rest, poll, None);
        assert Polled(js, poll, Some(0)) == Polled(rest, poll, Some(0));
      } else {
        assert !Fails(poll, js[0]);
        assert Polled(js, poll, None) == Polled(rest, poll, None);
        assert Polled(js, poll, Some(0)) == [js[0]] + Polled(rest, poll, Some(0));
      }
    }
  }

  lemma StartKeeps(n: nat, nrJobs: int, s: Sched)
    requires Inv(n, nrJobs, s) && s.failed.None?
    ensures Inv(n, nrJobs, Start(s, nrJobs)) && Start(s, nrJobs).failed.None?
  {
    var k := Room(s, nrJobs);
    assert s.started + s.notStarted[..k] == Jobs(0, |s.started| + k);
    assert s.notStarted[k..] == Jobs(|s.started| + k, n);
  }

  lemma PollKeeps(n: nat, nrJobs: int, s: Sched, poll: Poll)
    requires Inv(n, nrJobs, s) && s.failed.None?
    ensures Inv(n, nrJobs, PollAll(s, poll))
  {
    var i := FirstFailure(s.running, poll);
    if i == |s.running| {
      PolledSplits(s.running, poll);
    } else {
      assert s.running[i] in multiset(s.running);
      assert s.running[i] in multiset(s.started);
    }
  }

  /** In every run, whatever the polls return, the invariant holds after every round. */
  lemma {:induction false} RunInv(n: nat, nrJobs: int, rounds: seq<Poll>)
    ensures Inv(n, nrJobs, Run(n, nrJobs, rounds))
  {
    if rounds != [] {
      RunInv(n, nrJobs, rounds[..|rounds| - 1]);
      var s := Run(n, nrJobs, rounds[..|rounds| - 1]);
      if !Over(n, s) {
        StartKeeps(n, nrJobs, s);
        PollKeeps(n, nrJobs, Start(s, nrJobs), rounds[|rounds| - 1]);
      }
    }
  }

  lemma {:induction false} JobsCount(from: nat, upto: nat, w: Job)
    requires from <= upto
    ensures multiset(Jobs(from, upto))[w] == if from <= w < upto then 1 else 0
    decreases upto - from
  {
    if from < upto {
      JobsCount(from + 1, upto, w);
      assert Jobs(from, upto) == [from] + Jobs(from + 1, upto);
    }
  }

  /** As long as nothing has failed, every job is in exactly one place, and once; no job is ever started twice. */
  lemma InOnePlace(n: nat, nrJobs: int, rounds: seq<Poll>, w: Job)
    requires w < n
    ensures var s := Run(n, nrJobs, rounds);
            && multiset(s.started)[w] <= 1
            && (w in s.started <==> w !in s.notStarted)
            && (s.failed.None? ==> multiset(s.notStarted)[w] + multiset(s.running)[w] + multiset(s.done)[w] == 1)
  {
    RunInv(n, nrJobs, rounds);
    var s := Run(n, nrJobs, rounds);
    JobsCount(0, |s.started|, w);
    JobsCount(|s.started|, n, w);
    if s.failed.None? {
      assert (multiset(s.running) + multiset(s.done))[w] == multiset(s.started)[w];
    }
    assert w in multiset(s.started) <==> w in s.started;
    assert w in multiset(s.notStarted) <==> w in s.notStarted;
  }

  /** At most nrJobs jobs run at any time: after every round, and when the next round has started its jobs. */
  lemma {:induction false} NeverTooMany(n: nat, nrJobs: nat, rounds: seq<Poll>)
    ensures |Run(n, nrJobs, rounds).running| <= nrJobs
    ensures Run(n, nrJobs, rounds).failed.None? ==> |Start(Run(n, nrJobs, rounds), nrJobs).running| <= nrJobs
  {
    RunInv(n, nrJobs, rounds);
    if Run(n, nrJobs, rounds).failed.None? {
      StartKeeps(n, nrJobs, Run(n, nrJobs, rounds));
    }
  }

  // ---------------------------------------------------------------- progress

  /** Starting goes on until nothing is left to start or as many jobs run as may. */
  lemma {:induction false} StartFills(s: Sched, nrJobs: int)
    ensures var t := Start(s, nrJobs);
            && (t.notStarted == [] || |t.running| >= nrJobs)
            && t.running + t.notStarted == s.running + s.notStarted
            && s.running <= t.running && (|s.running| >= nrJobs ==> t.running == s.running)
  {
    assert s.running + s.notStarted[..Room(s, nrJobs)] + s.notStarted[Room(s, nrJobs)..] == s.running + s.notStarted;
  }

  lemma {:induction false} PlacesCount(n: nat, nrJobs: int, s: Sched)
    requires Inv(n, nrJobs, s) && s.failed.None?
    ensures |s.notStarted| + |s.running| + |s.done| == n
  {
    assert |multiset(s.running) + multiset(s.done)| == |s.running| + |s.done|;
    assert |multiset(s.started)| == |s.started|;
  }

  /** The loop never turns in vain: as long as it is not over, some job runs once the round has started its jobs. */
  lemma {:induction false} SomeJobRuns(n: nat, nrJobs: int, rounds: seq<Poll>)
    requires nrJobs >= 1 && !Over(n, Run(n, nrJobs, rounds))
    ensures Start(Run(n, nrJobs, rounds), nrJobs).running != []
  {
    var s := Run(n, nrJobs, rounds);
    RunInv(n, nrJobs, rounds);
    PlacesCount(n, nrJobs, s);
    StartFills(s, nrJobs);
  }

  /** Every poll reports that its job has succeeded. */
  ghost predicate AllSucceed(rounds: seq<Poll>) {
    forall t, w :: 0 <= t < |rounds| ==> rounds[t](w) == Some(0)
  }

  lemma {:induction false} PolledAll(js: seq<Job>, poll: Poll)
    requires forall w :: poll(w) == Some(0)
    ensures Polled(js, poll, Some(0)) == js && Polled(js, poll, None) == [] && FirstFailure(js, poll) == |js|
  {
    if js != [] {
      PolledAll(js[1..], poll);
      assert js == [js[0]] + js[1..];
    }
  }

  function Least(a: int, b: int): int { if a < b then a else b }

  /** A round finishes as many jobs as may run at a time, or all that are left. */
  lemma {:induction false} RoundSucceeds(n: nat, nrJobs: nat, s: Sched, poll: Poll)
    requires Inv(n, nrJobs, s) && s.failed.None? && s.running == [] && forall w :: poll(w) == Some(0)
    ensures var t := Round(n, s, nrJobs, poll);
            t.failed.None? && t.running == [] && |t.done| == Least(n, |s.done| + nrJobs)
  {
    PlacesCount(n, nrJobs, s);
    PolledAll(Start(s, nrJobs).running, poll);
  }

  /** If every poll reports success, each round does that. */
  lemma {:induction false} DoneAfter(n: nat, nrJobs: nat, rounds: seq<Poll>)
    requires AllSucceed(rounds)
    ensures var s := Run(n, nrJobs, rounds);
            s.failed.None? && s.running == [] && |s.done| == Least(n, |rounds| * nrJobs)
  {
    if rounds == [] {
      assert |rounds| * nrJobs == 0;
    } else {
      var (before, k) := (rounds[..|rounds| - 1], |rounds| - 1);
      assert AllSucceed(before);
      DoneAfter(n, nrJobs, before);
      RunInv(n, nrJobs, before);
      assert forall w :: rounds[k](w) == Some(0);
      RoundSucceeds(n, nrJobs, Run(n, nrJobs, before), rounds[k]);
      LeastStep(n, k, nrJobs);
    }
  }

  lemma {:induction false} LeastStep(n: nat, k: nat, m: nat)
    ensures Least(n, Least(n, k * m) + m) == Least(n, (k + 1) * m)
  {
    assert (k + 1) * m == k * m + m;
  }

  /** So the result is true exactly from the round on in which they can have been done. */
  lemma {:induction false} TrueAfter(n: nat, nrJobs: nat, rounds: seq<Poll>)
    requires AllSucceed(rounds)
    ensures Outcome(n, Run(n, nrJobs, rounds)) == if |rounds| * nrJobs >= n then Some(true) else None
  {
    DoneAfter(n, nrJobs, rounds);
  }

  /** A round in which no poll reports failure and some running job has succeeded brings the end nearer. */
  lemma {:induction false} RoundFinishes(n: nat, nrJobs: int, rounds: seq<Poll>, poll: Poll, w: Job)
    requires !Over(n, Run(n, nrJobs, rounds))
    requires forall v :: !Fails(poll, v)
    requires w in Start(Run(n, nrJobs, rounds), nrJobs).running && poll(w) == Some(0)
    ensures |Run(n, nrJobs, rounds + [poll]).done| > |Run(n, nrJobs, rounds).done|
    ensures Run(n, nrJobs, rounds + [poll]).failed.None?
  {
    var running := Start(Run(n, nrJobs, rounds), nrJobs).running;
    assert (rounds + [poll])[..|rounds|] == rounds;
    PolledMembers(running, poll, Some(0), w);
    NoFailure(running, poll);
  }

  ghost predicate PolledZero(rounds: seq<Poll>, w: Job) {
    exists t :: 0 <= t < |rounds| && rounds[t](w) == Some(0)
  }

  lemma {:induction false} PolledMembers(js: seq<Job>, poll: Poll, r: Option<int>, w: Job)
    ensures w in Polled(js, poll, r) <==> w in js && poll(w) == r
  {
    if js != [] {
      PolledMembers(js[1..], poll, r, w);
      assert js == [js[0]] + js[1..];
    }
  }

  lemma PolledZeroLater(rounds: seq<Poll>, w: Job)
    requires rounds != [] && PolledZero(rounds[..|rounds| - 1], w)
    ensures PolledZero(rounds, w)
  {
    var t :| 0 <= t < |rounds| - 1 && rounds[..|rounds| - 1][t](w) == Some(0);
    assert rounds[t](w) == Some(0);
  }

  /** A job counts as done only after a poll of it has returned 0. */
  lemma {:induction false} DoneMeansZero(n: nat, nrJobs: int, rounds: seq<Poll>, w: Job)
    requires w in Run(n, nrJobs, rounds).done
    ensures PolledZero(rounds, w)
  {
    if rounds != [] {
      var before := rounds[..|rounds| - 1];
      var (s, poll) := (Run(n, nrJobs, before), rounds[|rounds| - 1]);
      if w in s.done {
        DoneMeansZero(n, nrJobs, before, w);
        PolledZeroLater(rounds, w);
      } else {
        PolledMembers(Start(s, nrJobs).running, poll, Some(0), w);
        assert rounds[|rounds| - 1](w) == Some(0);
      }
    }
  }

  lemma FullCount(a: multiset<Job>, n: nat)
    requires |a| == n && forall w :: a[w] <= if 0 <= w < n then 1 else 0
    ensures forall w :: 0 <= w < n ==> w in a
  {
    JobsBound(a, n);
  }

  lemma {:induction false} JobsBound(a: multiset<Job>, n: nat)
    requires forall w :: a[w] <= if 0 <= w < n then 1 else 0
    ensures |a| <= n
    ensures |a| == n ==> forall w :: 0 <= w < n ==> w in a
  {
    if n == 0 {
      assert a == multiset{};
    } else {
      var b := a[n - 1 := 0];
      JobsBound(b, n - 1);
      assert |a| == |b| + a[n - 1];
      forall w | 0 <= w < n && |a| == n ensures w in a {
        assert w < n - 1 ==> w in b;
      }
    }
  }

  /** True is returned only when every job has polled 0. */
  lemma AllDoneMeansAllZero(n: nat, nrJobs: int, rounds: seq<Poll>, w: Job)
    requires var s := Run(n, nrJobs, rounds); s.failed.None? && |s.done| == n
    requires w < n
    ensures PolledZero(rounds, w)
  {
    var s := Run(n, nrJobs, rounds);
    forall v: Job ensures multiset(s.done)[v] <= if 0 <= v < n then 1 else 0 {
      RunInv(n, nrJobs, rounds);
      JobsCount(0, |s.started|, v);
      assert (multiset(s.running) + multiset(s.done))[v] == multiset(s.started)[v];
    }
    FullCount(multiset(s.done), n);
    assert w in multiset(s.done);
    DoneMeansZero(n, nrJobs, rounds, w);
  }

  /** After a failure, every job that was started has failed itself, has polled 0, or has been killed. */
  lemma {:induction false} FailureKillsRest(n: nat, nrJobs: int, rounds: seq<Poll>, w: Job)
    requires Run(n, nrJobs, rounds).failed.Some? && w in Run(n, nrJobs, rounds).started
    ensures var s := Run(n, nrJobs, rounds); w == s.failed.value || w in s.killed || PolledZero(rounds, w)
  {
    var before := rounds[..|rounds| - 1];
    var (s, poll) := (Run(n, nrJobs, before), rounds[|rounds| - 1]);
    if Over(n, s) {
      RunInv(n, nrJobs, before);
      FailureKillsRest(n, nrJobs, before, w);
      if PolledZero(before, w) {
        PolledZeroLater(rounds, w);
      }
    } else {
      RunInv(n, nrJobs, before);
      var started := Start(s, nrJobs);
      StartKeeps(n, nrJobs, s);
      assert w in multiset(started.started);
      if w in started.done {
        DoneMeansZero(n, nrJobs, before, w);
        PolledZeroLater(rounds, w);
      } else {
        assert w in multiset(started.running);
        RunningWhenFailed(started, poll, w);
        if poll(w) == Some(0) {
          assert rounds[|rounds| - 1](w) == Some(0);
        }
      }
    }
  }

  /** Nothing is lost by a failure: the jobs started are those done before, the one that failed, those killed, and those
      whose last poll, in the round of the failure, was 0. */
  lemma {:induction false} FailureConserves(n: nat, nrJobs: int, rounds: seq<Poll>) returns (finished: seq<Job>)
    requires Run(n, nrJobs, rounds).failed.Some?
    ensures var s := Run(n, nrJobs, rounds);
            multiset(s.started) == multiset(s.done) + multiset{s.failed.value} + multiset(s.killed) + multiset(finished)
    ensures forall w :: w in finished ==> PolledZero(rounds, w)
  {
    var before := rounds[..|rounds| - 1];
    var (s, poll) := (Run(n, nrJobs, before), rounds[|rounds| - 1]);
    RunInv(n, nrJobs, before);
    if Over(n, s) {
      finished := FailureConserves(n, nrJobs, before);
      forall w | w in finished ensures PolledZero(rounds, w) { PolledZeroLater(rounds, w); }
    } else {
      StartKeeps(n, nrJobs, s);
      finished := FailedRound(Start(s, nrJobs), poll);
      forall w | w in finished ensures PolledZero(rounds, w) { assert rounds[|rounds| - 1](w) == Some(0); }
    }
  }

  lemma {:induction false} FailedRound(s: Sched, poll: Poll) returns (finished: seq<Job>)
    requires s.failed.None? && s.killed == [] && PollAll(s, poll).failed.Some?
    requires multiset(s.running) + multiset(s.done) == multiset(s.started)
    ensures var t := PollAll(s, poll);
            multiset(s.started) == multiset(t.done) + multiset{t.failed.value} + multiset(t.killed) + multiset(finished)
    ensures forall w :: w in finished ==> poll(w) == Some(0)
  {
    var i := FirstFailure(s.running, poll);
    var (polled, w, rest) := (s.running[..i], s.running[i], s.running[i + 1..]);
    finished := Polled(polled, poll, Some(0));
    PolledSplits(polled, poll);
    assert s.running == polled + [w] + rest;
    forall v | v in finished ensures poll(v) == Some(0) { PolledMembers(polled, poll, Some(0), v); }
  }

  lemma RunningWhenFailed(s: Sched, poll: Poll, w: Job)
    requires w in s.running && PollAll(s, poll).failed.Some? && s.failed.None?
    ensures var t := PollAll(s, poll); w == t.failed.value || w in t.killed || poll(w) == Some(0)
  {
    var i := FirstFailure(s.running, poll);
    var k :| 0 <= k < |s.running| && s.running[k] == w;
    if k < i {
      PolledMembers(s.running[..i], poll, None, w);
      assert s.running[..i][k] == w;
    } else if k > i {
      assert s.running[i + 1..][k - i - 1] == w;
    }
  }

  /** Once the loop has been left nothing changes: in particular nothing more starts after a failure. */
  lemma {:induction false} OverIsFinal(n: nat, nrJobs: int, rounds: seq<Poll>, more: seq<Poll>)
    requires Over(n, Run(n, nrJobs, rounds))
    ensures Run(n, nrJobs, rounds + more) == Run(n, nrJobs, rounds)
    decreases |more|
  {
    if more == [] {
      assert rounds + more == rounds;
    } else {
      OverIsFinal(n, nrJobs, rounds, more[..|more| - 1]);
      assert (rounds + more)[..|rounds + more| - 1] == rounds + more[..|more| - 1];
    }
  }

  // ---------------------------------------------------------------- the loops

  /** The lists that DoRunWork moves jobs between. */
  class Runner {
    var notStarted: seq<Job>
    var running: seq<Job>
    var done: seq<Job>
    var failed: Option<Job>
    var started: seq<Job>
    var killed: seq<Job>

    function View(): Sched
      reads this
    {
      Sched(notStarted, running, done, failed, started, killed)
    }

    constructor (n: nat)
      ensures View() == Initial(n)
    {
      notStarted, running, done, failed, started, killed := Jobs(0, n), [], [], None, [], [];
    }

    method StartJobs(nrJobs: int)
      modifies this
      ensures View() == Start(old(View()), nrJobs)
    {
      ghost var k := 0;
      while |running| < nrJobs && |notStarted| > 0
        invariant k <= Room(old(View()), nrJobs)
        invariant notStarted == old(notStarted)[k..]
        invariant running == old(running) + old(notStarted)[..k] && started == old(started) + old(notStarted)[..k]
        invariant done == old(done) && failed == old(failed) && killed == old(killed)
        decreases |notStarted|
      {
        var w := notStarted[0];
        notStarted := notStarted[1..];
        running := running + [w];
        started := started + [w];
        k := k + 1;
        assert old(notStarted)[..k] == old(notStarted)[..k - 1] + [w];
      }
      assert k == Room(old(View()), nrJobs);
    }

    /** Polls the running jobs one after the other; false as soon as one has failed and the others are killed. */
    method PollJobs(poll: Poll) returns (ok: bool)
      requires failed.None?
      modifies this
      ensures View() == PollAll(old(View()), poll)
      ensures ok <==> failed.None?
    {
      var finished, notFinished := [], [];
      ghost var all, i := running, 0;
      while |running| > 0
        invariant i <= |all| && running == all[i..]
        invariant forall k :: 0 <= k < i ==> !Fails(poll, all[k])
        invariant notFinished == Polled(all[..i], poll, None) && finished == Polled(all[..i], poll, Some(0))
        invariant done == old(done) && failed == None && killed == old(killed)
        invariant started == old(started) && notStarted == old(notStarted)
        decreases |running|
      {
        var w := running[0];
        running := running[1..];
        PolledNext(all, poll, i, None);
        PolledNext(all, poll, i, Some(0));
        var r := poll(w);
        if r == None {
          notFinished := notFinished + [w];
          i := i + 1;
          continue;
        }
        if r == Some(0) {
          finished := finished + [w];
          i := i + 1;
          continue;
        }
        FirstFailureAt(all, poll, i);
        failed := Some(w);
        killed := killed + notFinished;
        killed := killed + running;
        running := [];
        return false;
      }
      NoFailure(all, poll);
      assert all[..i] == all;
      running := notFinished;
      done := done + finished;
      return true;
    }
  }

  lemma {:induction false} PolledNext(js: seq<Job>, poll: Poll, i: nat, r: Option<int>)
    requires i < |js|
    ensures Polled(js[..i + 1], poll, r) == Polled(js[..i], poll, r) + if poll(js[i]) == r then [js[i]] else []
  {
    if i > 0 {
      assert js[..i + 1][1..] == js[1..][..i] && js[..i][1..] == js[1..][..i - 1];
      PolledNext(js[1..], poll, i - 1, r);
    } else {
      assert js[..1][1..] == [] && js[..0] == [];
    }
  }

  lemma {:induction false} FirstFailureAt(js: seq<Job>, poll: Poll, i: nat)
    requires i < |js| && Fails(poll, js[i]) && forall k :: 0 <= k < i ==> !Fails(poll, js[k])
    ensures FirstFailure(js, poll) == i
  {
  }

  lemma {:induction false} NoFailure(js: seq<Job>, poll: Poll)
    requires forall k :: 0 <= k < |js| ==> !Fails(poll, js[k])
    ensures FirstFailure(js, poll) == |js|
  {
  }

  /** `rounds` holds what the polls return, one entry for each turn of the loop; the result is None if they run out
      while jobs are still running. */
  method DoRunWork(n: nat, nrJobs: int, rounds: seq<Poll>) returns (result: Option<bool>)
    ensures result == Outcome(n, Run(n, nrJobs, rounds))
  {
    var runner := new Runner(n);
    var t := 0;
    while true
      invariant fresh(runner) && t <= |rounds|
      invariant runner.View() == Run(n, nrJobs, rounds[..t]) && runner.failed.None?
      decreases |rounds| - t
    {
      RunPrefix(n, nrJobs, rounds, t);
      if |runner.done| == n {
        return Some(true);
      }
      if t == |rounds| {
        return None;
      }
      runner.StartJobs(nrJobs);
      var ok := runner.PollJobs(rounds[t]);
      RunNext(n, nrJobs, rounds, t);
      t := t + 1;
      if !ok {
        RunPrefix(n, nrJobs, rounds, t);
        return Some(false);
      }
    }
  }

  /** False after a failure, true when all n jobs are done, and nothing as long as jobs are left to run. */
  function Outcome(n: nat, s: Sched): Option<bool> {
    if s.failed.Some? then Some(false) else if |s.done| == n then Some(true) else None
  }

  /** The loop goes on after these rounds, and in the next one some job that runs fails. */
  ghost predicate FailsNext(n: nat, nrJobs: int, before: seq<Poll>, poll: Poll) {
    var s := Run(n, nrJobs, before);
    !Over(n, s) && exists w :: w in Start(s, nrJobs).running && Fails(poll, w)
  }

  ghost predicate SomeFails(n: nat, nrJobs: int, rounds: seq<Poll>) {
    rounds != [] && (SomeFails(n, nrJobs, rounds[..|rounds| - 1]) || FailsNext(n, nrJobs, rounds[..|rounds| - 1], rounds[|rounds| - 1]))
  }

  /** The result is false if and only if, in some round that the loop gets to, a running job fails. */
  lemma {:induction false} FalseIffFails(n: nat, nrJobs: int, rounds: seq<Poll>)
    ensures Outcome(n, Run(n, nrJobs, rounds)) == Some(false) <==> SomeFails(n, nrJobs, rounds)
  {
    if rounds != [] {
      FalseIffFails(n, nrJobs, rounds[..|rounds| - 1]);
      FailedThen(Start(Run(n, nrJobs, rounds[..|rounds| - 1]), nrJobs), rounds[|rounds| - 1]);
    }
  }

  lemma {:induction false} FailedThen(s: Sched, poll: Poll)
    ensures s.failed.None? ==> (PollAll(s, poll).failed.Some? <==> exists w :: w in s.running && Fails(poll, w))
  {
    var i := FirstFailure(s.running, poll);
    if w :| w in s.running && Fails(poll, w) {
      var k :| 0 <= k < |s.running| && s.running[k] == w;
      assert i <= k;
    }
  }

  /** What is known after some rounds is final if the loop has been left, and is all if there are no more. */
  lemma {:induction false} RunPrefix(n: nat, nrJobs: int, rounds: seq<Poll>, t: nat)
    requires t <= |rounds|
    ensures Over(n, Run(n, nrJobs, rounds[..t])) || t == |rounds| ==> Run(n, nrJobs, rounds[..t]) == Run(n, nrJobs, rounds)
  {
    assert rounds[..t] + rounds[t..] == rounds;
    if t == |rounds| {
      assert rounds[..t] == rounds;
    } else if Over(n, Run(n, nrJobs, rounds[..t])) {
      OverIsFinal(n, nrJobs, rounds[..t], rounds[t..]);
    }
  }

  lemma {:induction false} RunNext(n: nat, nrJobs: int, rounds: seq<Poll>, t: nat)
    requires t < |rounds|
    ensures Run(n, nrJobs, rounds[..t + 1]) == Round(n, Run(n, nrJobs, rounds[..t]), nrJobs, rounds[t])
  {
    assert rounds[..t + 1][..t] == rounds[..t];
  }
}
