/** Exactly when every record of the SQL viewer's ring (source/scripts/python/exported-sql-viewer.py) is announced to the
    consumer before the reader thread leaves. */
module SqlAnnounce {
  import opened SqlRing
  import opened SqlSafety
  import opened SqlRuns
  import opened SqlOrder

  /** How far the counts have come; after fetching is done there is nothing left to count.  Holds in every run,
      whatever becomes of the records. */
  predicate Tally(s: State) {
    && s.fetchCount + s.batch == |s.ring.log|
    && s.lastCount <= s.fetchCount
    && (s.reader.Seen? ==> s.lastCount <= s.reader.count <= s.fetchCount)
    && (s.fetchingDone ==> s.batch == 0 && s.ring.at.Choosing?)
    && (s.reader.Exited? ==> s.fetchingDone)
  }

  /** The last count that the reader thread has read. */
  function LastRead(s: State): nat { if s.reader.Seen? then s.reader.count else s.lastCount }

  /** Every raised count is read afterwards. */
  ghost predicate CountsRead(acts: seq<Action>) {
    forall i :: 0 <= i < |acts| && acts[i].RaiseCount? ==> exists j :: i < j < |acts| && acts[j].ReadCount?
  }

  lemma {:induction false} CountsReadLast(acts: seq<Action>)
    requires acts != []
    ensures var (init, a) := (acts[..|acts| - 1], acts[|acts| - 1]);
            CountsRead(acts) <==> a.ReadCount? || (!a.RaiseCount? && CountsRead(init))
  {
    var n := |acts| - 1;
    var init := acts[..n];
    if acts[n].ReadCount? {
    } else if CountsRead(acts) {
      forall i | 0 <= i < n && init[i].RaiseCount? ensures exists j :: i < j < n && init[j].ReadCount? {
        assert acts[i].RaiseCount?;
        var j :| i < j < |acts| && acts[j].ReadCount?;
        assert init[j].ReadCount?;
      }
    } else if !acts[n].RaiseCount? && CountsRead(init) {
      forall i | 0 <= i < |acts| && acts[i].RaiseCount? ensures exists j :: i < j < |acts| && acts[j].ReadCount? {
        assert init[i].RaiseCount?;
        var j :| i < j < n && init[j].ReadCount?;
        assert acts[j].ReadCount?;
      }
    }
  }

  lemma {:induction false} StepTally(c: Codec, s: State, a: Action)
    requires Tally(s) && Enabled(c, s, a)
    ensures var t := Do(c, s, a);
            Tally(t) && (LastRead(t) == t.fetchCount <==>
                           a.ReadCount? || (!a.RaiseCount? && LastRead(s) == s.fetchCount))
  {
  }

  /** At every point of every run, the reader thread is up to date exactly if every raised count has been read. */
  lemma {:induction false} UpToDateIffCountsRead(c: Codec, size: nat, acts: seq<Action>)
    requires Run(c, Init(size), acts)
    ensures var s := Exec(c, Init(size), acts); Tally(s) && (LastRead(s) == s.fetchCount <==> CountsRead(acts))
  {
    if acts != [] {
      RunLast(c, Init(size), acts);
      UpToDateIffCountsRead(c, size, acts[..|acts| - 1]);
      CountsReadLast(acts);
      StepTally(c, Exec(c, Init(size), acts[..|acts| - 1]), acts[|acts| - 1]);
    }
  }

  /** Of a run after which the reader thread has left: all the records added have been announced if and only if every
      raised count was read afterwards. */
  lemma {:induction false} AnnouncedIffCountsRead(c: Codec, size: nat, acts: seq<Action>)
    requires Run(c, Init(size), acts) && Exec(c, Init(size), acts).reader.Exited?
    ensures var s := Exec(c, Init(size), acts); s.lastCount == |s.ring.log| <==> CountsRead(acts)
  {
    UpToDateIffCountsRead(c, size, acts);
  }

  /** And all of them, in order, have been removed by the time the consumer has nothing more to do. */
  lemma {:induction false} DeliveredIffCountsRead(c: Codec, size: nat, acts: seq<Action>)
    requires Pickles(c) && Run(c, Init(size), acts) && Sighted(c, Init(size), acts) && AllFit(c, acts)
    requires var s := Exec(c, Init(size), acts); s.reader.Exited? && s.consumer.Idle? && s.queue == []
    ensures var s := Exec(c, Init(size), acts); s.removed == Added(s.ring.log) <==> CountsRead(acts)
  {
    FifoSafety(c, size, acts);
    AnnouncedIffCountsRead(c, size, acts);
    var s := Exec(c, Init(size), acts);
    assert |s.removed| == s.lastCount;
  }

  /** After the reader thread has left, the records not yet announced never are, and none are added. */
  lemma {:induction false} ExitIsFinal(c: Codec, s: State, acts: seq<Action>)
    requires Tally(s) && s.reader.Exited? && Run(c, s, acts)
    ensures var t := Exec(c, s, acts); t.reader.Exited? && t.lastCount == s.lastCount && t.ring.log == s.ring.log
    decreases |acts|
  {
    if acts != [] {
      StepTally(c, s, acts[0]);
      ExitIsFinal(c, Do(c, s, acts[0]), acts[1..]);
    }
  }

  /** The step that decides: when the reader thread leaves, nothing is ever lost if and only if the count it read last
      is still the count. */
  lemma {:induction false} NothingLostIffUpToDate(c: Codec, s: State, acts: seq<Action>)
    requires Tally(s) && Enabled(c, s, Notice) && Do(c, s, Notice).reader.Exited?
    requires Run(c, Do(c, s, Notice), acts)
    ensures var t := Exec(c, Do(c, s, Notice), acts);
            t.lastCount == |t.ring.log| <==> s.reader.count == s.fetchCount
  {
    StepTally(c, s, Notice);
    ExitIsFinal(c, Do(c, s, Notice), acts);
  }

  /** What the reader thread tells the consumer: how many more records have been counted, if any, and nothing more than
      once that it leaves, by a last signal for no records. */
  lemma {:induction false} NoticeSignals(c: Codec, s: State)
    requires Tally(s) && Enabled(c, s, Notice)
    ensures var t := Do(c, s, Notice);
            && t.lastCount == s.reader.count
            && t.queue == (if s.reader.count > s.lastCount then s.queue + [s.reader.count - s.lastCount]
                           else if s.fetchingDone then s.queue + [0] else s.queue)
            && (t.reader.Exited? <==> s.reader.count == s.lastCount && s.fetchingDone)
  {
  }

  /** It does happen: the reader thread reads the count, then a record is added and counted, and then the reader thread
      finds fetching done, and leaves. */
  lemma LastBatchCanBeLost(c: Codec, size: nat, rec: Bytes) returns (s: State)
    requires Pickles(c) && Fits(c, rec) && FrameSize(c, rec) < size
    ensures Reachable(c, size, s) && s.reader.Exited? && s.fetchCount == 1 && s.lastCount == 0 && s.removed == []
  {
    var s0 := Init(size);
    ReachInit(c, size);
    ReachStep(c, size, s0, ReadCount);
    var s1 := Do(c, s0, ReadCount);
    ReachStep(c, size, s1, Take(rec));
    var s2 := Do(c, s1, Take(rec));
    ReachStep(c, size, s2, Seek);
    var s5 := ReachAdd(c, size, Do(c, s2, Seek));
    ReachStep(c, size, s5, RaiseCount);
    var s6 := Do(c, s5, RaiseCount);
    ReachStep(c, size, s6, StoreHead);
    var s7 := Do(c, s6, StoreHead);
    ReachStep(c, size, s7, Finish);
    var s8 := Do(c, s7, Finish);
    ReachStep(c, size, s8, Notice);
    s := Do(c, s8, Notice);
  }
}
