/** From which states forwarding can catch up with the writer. */
module ForwardingProgress {
  import opened Octets
  import opened Attributes
  import opened Codec
  import opened Records
  import opened Sessions
  import opened Spool
  import opened SpoolReader
  import opened Forwarding
  import opened ForwardingGap

  /** The records of a file up to a given one have the attributes which the reader needs: the
      session record has a timestamp, and each event a sequence number. */
  ghost predicate FollowableTo(file: seq<Record>, n: nat)
    requires n <= |file|
  {
    && (n > 0 ==> RecordTs(file[0]).Some?)
    && forall i | 1 <= i < n && file[i].IsEvent() :: RecordSeqnum(file[i]).Some?
  }

  ghost predicate Followable(file: seq<Record>) { FollowableTo(file, |file|) }

  /** Every spoolfile but the last is followed directly by another, and can be read to its end. */
  ghost predicate Drainable(disk: Disk) {
    forall k | k in disk && !IsGreatest(k, disk) :: k + 1 in disk && Followable(disk[k])
  }

  /** There is no spoolfile but the last. */
  ghost predicate Drained(disk: Disk) {
    forall k | k in disk :: IsGreatest(k, disk)
  }

  // ---------------------------------------------------------------------------
  // The order of records in a spoolfile
  // ---------------------------------------------------------------------------

  ghost predicate HasEnd(file: seq<Record>) {
    exists i | 0 <= i < |file| :: file[i].channel == CHANNEL_END
  }

  /** No event comes after an end record. */
  ghost predicate EndsLast(file: seq<Record>) {
    forall i, j | 0 <= i < j < |file| && file[i].channel == CHANNEL_END :: !file[j].IsEvent()
  }

  ghost predicate FilesOrdered(disk: Disk) { forall n | n in disk :: EndsLast(disk[n]) }

  /** The spoolfile being written has an end record only if the session has ended. */
  ghost predicate EndNoted(w: Writer, disk: Disk) {
    w.current.Some? && w.current.value.num in disk && HasEnd(disk[w.current.value.num]) ==> w.sink.ended
  }

  ghost predicate OrderOk(disk: Disk, writer: Option<Writer>) {
    FilesOrdered(disk) && (writer.Some? ==> EndNoted(writer.value, disk))
  }

  lemma EndsLastMore(file: seq<Record>, rec: Record)
    requires EndsLast(file) && (rec.IsEvent() ==> !HasEnd(file))
    ensures EndsLast(file + [rec])
    ensures HasEnd(file + [rec]) <==> HasEnd(file) || rec.channel == CHANNEL_END
  {
    var all := file + [rec];
    if HasEnd(all) {
      var i :| 0 <= i < |all| && all[i].channel == CHANNEL_END;
      assert i < |file| ==> file[i] == all[i];
    }
    if HasEnd(file) {
      var i :| 0 <= i < |file| && file[i].channel == CHANNEL_END;
      assert all[i] == file[i];
    }
    assert all[|file|] == rec;
  }

  lemma BeginOrder(w: Writer, disk: Disk, srec: Record)
    requires FilesOrdered(disk) && srec.channel == CHANNEL_SESSION && w.nextNum !in disk
    ensures var b := Begin(w, disk, srec);
            && b.ok && OrderOk(b.disk, Some(b.w)) && b.w.sink == w.sink
            && b.w.current.Some? && b.w.current.value.num in b.disk && !HasEnd(b.disk[b.w.current.value.num])
  {
    hide Size;
  }

  lemma AppendOrder(w: Writer, disk: Disk, rec: Record)
    requires OrderOk(disk, Some(w)) && w.current.Some? && w.current.value.num in disk
    requires rec.IsEvent() ==> !HasEnd(disk[w.current.value.num])
    ensures var a := Append(w, disk, rec);
            && a.ok && a.w.sink == w.sink && FilesOrdered(a.disk)
            && (rec.channel != CHANNEL_END ==> EndNoted(a.w, a.disk))
  {
    hide Size, HasEnd, EndsLast;
    EndsLastMore(disk[w.current.value.num], rec);
  }

  /** Storing a record which does not come too late. */
  lemma StoreOrder(w: Writer, disk: Disk, rec: Record, capacity: nat)
    requires OrderOk(disk, Some(w)) && w.nextNum !in disk && (w.sink.ended ==> !rec.IsEvent())
    requires w.current.Some? ==> w.current.value.num in disk
    requires w.sink.srec.Some? ==> w.sink.srec.value.channel == CHANNEL_SESSION
    ensures var t := StoreRecord(w, disk, rec, capacity);
            && t.w.sink == w.sink && FilesOrdered(t.disk)
            && (!t.ok || rec.channel != CHANNEL_END ==> EndNoted(t.w, t.disk))
  {
    hide Size, Begin, Append, HasEnd, FilesOrdered;
    if Fits(w, rec, capacity) {
      AppendOrder(w, disk, rec);
    } else if w.sink.srec.Some? {
      BeginOrder(w, disk, w.sink.srec.value);
      var b := Begin(w, disk, w.sink.srec.value);
      if Fits(b.w, rec, capacity) {
        AppendOrder(b.w, b.disk, rec);
      }
    }
  }

  lemma PrepareOrder(k: Sink, rec: Record)
    ensures var (k', plan) := Prepare(k, rec);
            && (plan == Store ==> k.srec.Some? && (k.ended ==> !rec.IsEvent()) && rec.channel != CHANNEL_SYNC)
            && (plan == StartSession ==> rec.channel == CHANNEL_SESSION)
            && (plan != StartSession ==> k' == k)
            && (plan == Synchronise ==> rec.channel == CHANNEL_SYNC)
    ensures var (k', ok) := Finish(k, rec);
            k'.ended == (k.ended || rec.channel == CHANNEL_END)
  {
    hide RecordSource, RecordTs, RecordSeqnum, MakeReply;
  }

  lemma EndNotedBy(w: Writer, disk: Disk, sink: Sink)
    ensures sink.ended || (EndNoted(w, disk) && sink.ended == w.sink.ended) ==> EndNoted(w.(sink := sink), disk)
  {
  }

  lemma StartsOrder(c: Config, w: Writer, disk: Disk)
    requires FilesOk(c, disk) && WriterOk(c, w, disk)
    ensures w.nextNum !in disk && (w.current.Some? ==> w.current.value.num in disk)
    ensures w.sink.srec.Some? ==> w.sink.srec.value.channel == CHANNEL_SESSION
  {
  }

  lemma WriteOrder(c: Config, w: Writer, disk: Disk, rec: Record)
    requires OrderOk(disk, Some(w)) && FilesOk(c, disk) && WriterOk(c, w, disk)
    ensures var t := WriteStep(w, disk, rec, c.capacity); OrderOk(t.disk, Some(t.w))
  {
    hide Prepare, Finish, StoreRecord, Begin, FilesOrdered, EndNoted, FilesOk, WriterOk;
    StartsOrder(c, w, disk);
    PrepareOrder(w.sink, rec);
    var (sink, plan) := Prepare(w.sink, rec);
    var w1 := w.(sink := sink);
    match plan
    case StartSession => BeginOrder(w1, disk, rec);
    case Synchronise => EndNotedBy(w, disk, Finish(sink, rec).0);
    case Store =>
      assert w1 == w;
      StoreOrder(w, disk, rec, c.capacity);
      var t := StoreRecord(w, disk, rec, c.capacity);
      EndNotedBy(t.w, t.disk, Finish(t.w.sink, rec).0);
    case _ => assert w1 == w;
  }

  // ---------------------------------------------------------------------------
  // What has been read
  // ---------------------------------------------------------------------------

  /** What has been read of the open spoolfile, for the destination in use, could be followed. */
  ghost predicate FollowedOk(f: Forwarder, disk: Disk) {
    f.sink.Some? && f.reader.file.Some? ==>
      var file := f.reader.file.value;
      file.num in disk && file.pos <= |disk[file.num]| && FollowableTo(disk[file.num], file.pos)
  }

  lemma FollowMeans(ts: Ts, seqnum: int, file: seq<Record>, n: nat)
    requires n < |file| && FollowableTo(file, n) && file[0].channel == CHANNEL_SESSION
    requires n > 0 ==> file[n].channel != CHANNEL_SESSION
    ensures Follow(ts, seqnum, file[n]).Some? <==> FollowableTo(file, n + 1)
  {
    hide RecordTs, RecordSeqnum;
  }

  lemma FileRecords(c: Config, disk: Disk, n: nat, i: nat)
    requires FilesOk(c, disk) && n in disk && i < |disk[n]|
    ensures disk[n][0].channel == CHANNEL_SESSION && RecordSource(disk[n][0]) == Some(c.srcid)
    ensures i > 0 ==> IsBody(disk[n][i]) && disk[n][i].channel != CHANNEL_SESSION
  {
    assert FileOk(c, disk[n]);
  }

  lemma ReadsFollowed(c: Config, s: System)
    requires Inv(c, s) && FollowedOk(s.fwd, s.disk) && (s.fwd.phase == Starting || s.fwd.phase == AtTop)
    ensures FollowedOk(Reads(s), s.disk)
  {
    hide Scan, Follow, FilesOk, WriterOk, UsedOk, NothingLost, NothingInvented, RecordSource, RecordTs, ItemsTo,
         FollowableTo, Position;
    var r := s.fwd.reader;
    if r.file.Some? {
      var f := r.file.value;
      var file := s.disk[f.num];
      assert s.fwd.phase == Starting ==> f.pos == 0;
      if f.pos < |file| {
        FileRecords(c, s.disk, f.num, f.pos);
        assert FollowableTo(file, f.pos) by { NothingToFollow(file); }
        FollowMeans(r.ts, r.seqnum, file, f.pos);
      }
    }
  }

  lemma NothingToFollow(file: seq<Record>)
    ensures FollowableTo(file, 0)
  {
  }

  ghost predicate ProgressOk(s: System) { OrderOk(s.disk, s.writer) && FollowedOk(s.fwd, s.disk) }

  lemma FollowedUnderGrowth(f: Forwarder, d1: Disk, d2: Disk)
    requires FollowedOk(f, d1) && Grows(d1, d2)
    ensures FollowedOk(f, d2)
  {
    if f.sink.Some? && f.reader.file.Some? {
      var file := f.reader.file.value;
      assert d1[file.num] <= d2[file.num];
    }
  }

  lemma WriterProgress(c: Config, s: System, rec: Record)
    requires Inv(c, s) && ProgressOk(s) && s.writer.Some?
    ensures ProgressOk(WriterWrites(c, s, rec))
  {
    hide WriteStep, OrderOk, FollowedOk, FilesOk, WriterOk, UsedOk, ReaderOk, DeliveredOk, LockstepOk, NothingLost,
         NothingInvented, Effect, Grows, IsStored;
    var t := WriteStep(s.writer.value, s.disk, rec, c.capacity);
    WriteOrder(c, s.writer.value, s.disk, rec);
    WriteEffect(c, s.disk, s.writer.value, rec);
    EffectParts(c, s.disk, t.w, t.disk, Added(s.writer.value, s.disk, rec, c.capacity));
    FollowedUnderGrowth(s.fwd, s.disk, t.disk);
  }

  lemma AcknowledgedProgress(c: Config, s: System)
    requires ProgressOk(s) && s.fwd.phase.HaveReply?
    ensures ProgressOk(Acknowledged(c, s))
  {
    hide EndsLast, HasEnd, Acknowledges;
  }

  lemma StepProgresses(c: Config, s: System, step: Step)
    requires Inv(c, s) && ProgressOk(s)
    ensures ProgressOk(Apply(c, s, step))
  {
    hide Inv, FilesOrdered, EndNoted, FollowableTo, WriterWrites, Reads, Acknowledged, SinkWrite, Scan;
    match step
    case WriterWrite(rec) => if s.writer.Some? { WriterProgress(c, s, rec); }
    case WriterRestart => NoCurrent(Writer(NewSink(c.srcid), Scan(s.disk).1, None), s.disk);
    case ForwarderRead => if s.fwd.phase == Starting || s.fwd.phase == AtTop { ReadsFollowed(c, s); }
    case ForwarderAcknowledge => if s.fwd.phase.HaveReply? { AcknowledgedProgress(c, s); }
    case _ =>
  }

  lemma NoCurrent(w: Writer, disk: Disk)
    requires w.current.None?
    ensures EndNoted(w, disk)
  {
  }

  lemma {:induction false} RunProgresses(c: Config, steps: seq<Step>)
    ensures Inv(c, Run(c, steps)) && ProgressOk(Run(c, steps))
    decreases |steps|
  {
    hide Apply, Inv, ProgressOk;
    RunKeepsInv(c, steps);
    if steps == [] {
      InitiallyProgress();
    } else {
      RunProgresses(c, steps[..|steps| - 1]);
      StepProgresses(c, Run(c, steps[..|steps| - 1]), steps[|steps| - 1]);
    }
  }

  lemma InitiallyProgress()
    ensures ProgressOk(EMPTY_SYSTEM)
  {
  }

  // ---------------------------------------------------------------------------
  // When forwarding can never catch up
  // ---------------------------------------------------------------------------

  /** A spoolfile which is not the last, and cannot be read to its end or has none directly after it. */
  ghost predicate StuckAt(k: nat, disk: Disk) {
    k in disk && !IsGreatest(k, disk) && !(k + 1 in disk && Followable(disk[k]))
  }

  lemma StuckAfterWrite(c: Config, s: System, rec: Record, k: nat)
    requires Inv(c, s) && s.writer.Some? && StuckAt(k, s.disk)
    ensures StuckAt(k, WriterWrites(c, s, rec).disk)
  {
    hide WriteStep, FilesOk, WriterOk, UsedOk, ReaderOk, DeliveredOk, LockstepOk, NothingLost,
         NothingInvented, Effect, IsStored, Followable;
    var t := WriteStep(s.writer.value, s.disk, rec, c.capacity);
    WriteEffect(c, s.disk, s.writer.value, rec);
    EffectParts(c, s.disk, t.w, t.disk, Added(s.writer.value, s.disk, rec, c.capacity));
    var m :| m in s.disk && m > k;
    assert m in t.disk && t.disk[k] == s.disk[k];
  }

  lemma StuckAfterAcknowledge(c: Config, s: System, k: nat)
    requires Inv(c, s) && ProgressOk(s) && s.fwd.phase.HaveReply? && StuckAt(k, s.disk)
    ensures StuckAt(k, Acknowledged(c, s).disk)
  {
    hide Acknowledged, Inv, OrderOk, FollowableTo;
    if c.nodelete {
      AcknowledgedKeeps(c, s);
    } else {
      AcknowledgedDisk(c, s);
      AcknowledgedFollowable(c, s);
      var n := s.fwd.reader.file.value.num;
      var disk := Acknowledged(c, s).disk;
      assert n != k && k in disk;
      var m :| m in s.disk && m > k;
      assert m in disk || n + 1 in disk;
    }
  }

  lemma AcknowledgedKeeps(c: Config, s: System)
    requires s.fwd.phase.HaveReply? && c.nodelete
    ensures Acknowledged(c, s).disk == s.disk
  {
    hide Acknowledges;
  }

  /** A spoolfile which is acknowledged has been read to its end. */
  lemma AcknowledgedFollowable(c: Config, s: System)
    requires Inv(c, s) && ProgressOk(s) && s.fwd.phase.HaveReply?
    ensures s.fwd.reader.file.Some? && s.fwd.reader.file.value.num in s.disk
    ensures Followable(s.disk[s.fwd.reader.file.value.num])
  {
    hide OrderOk, FilesOk, WriterOk, UsedOk, NothingLost, NothingInvented, ItemsTo, FollowableTo, Position;
  }

  lemma StuckStays(c: Config, s: System, step: Step, k: nat)
    requires Inv(c, s) && ProgressOk(s) && StuckAt(k, s.disk)
    ensures StuckAt(k, Apply(c, s, step).disk)
  {
    hide Inv, ProgressOk, StuckAt, WriterWrites, Reads, Acknowledged, SinkWrite, Scan;
    match step
    case WriterWrite(rec) => if s.writer.Some? { StuckAfterWrite(c, s, rec, k); }
    case ForwarderAcknowledge => if s.fwd.phase.HaveReply? { StuckAfterAcknowledge(c, s, k); }
    case _ =>
  }

  /** Whatever happens after, with any number of restarts, such a spoolfile stays. */
  lemma {:induction false} StuckForEver(c: Config, steps: seq<Step>, more: seq<Step>, k: nat)
    requires StuckAt(k, Run(c, steps).disk)
    ensures StuckAt(k, Run(c, steps + more).disk)
    decreases |more|
  {
    hide Apply, Inv, ProgressOk, StuckAt;
    if more == [] {
      assert steps + more == steps;
    } else {
      var n := |more| - 1;
      StuckForEver(c, steps, more[..n], k);
      RunProgresses(c, steps + more[..n]);
      StuckStays(c, Run(c, steps + more[..n]), more[n], k);
      assert (steps + more)[..|steps + more| - 1] == steps + more[..n];
    }
  }

  // ---------------------------------------------------------------------------
  // How forwarding catches up otherwise
  // ---------------------------------------------------------------------------

  /** The forwarder does not concern itself with what the writer has accepted, nor does it take
      back what is durable. */
  ghost predicate Forwards(s: System, t: System) {
    t.accepted == s.accepted && t.writer == s.writer && s.durable <= t.durable
  }

  predicate OfForwarder(step: Step) { !step.WriterWrite? && step != WriterRestart }

  lemma ForwarderForwards(c: Config, s: System, step: Step)
    requires OfForwarder(step)
    ensures Forwards(s, Apply(c, s, step))
  {
    hide SinkWrite, Reads, Acknowledges, Scan;
  }

  lemma {:induction false} StepsKeep(c: Config, s: System, steps: seq<Step>)
    requires Inv(c, s) && ProgressOk(s) && forall step | step in steps :: OfForwarder(step)
    ensures Inv(c, Steps(c, s, steps)) && ProgressOk(Steps(c, s, steps)) && Forwards(s, Steps(c, s, steps))
    decreases |steps|
  {
    hide Apply, Inv, ProgressOk;
    if steps == [] {
    } else {
      assert steps[0] in steps;
      StepKeepsInv(c, s, steps[0]);
      StepProgresses(c, s, steps[0]);
      ForwarderForwards(c, s, steps[0]);
      StepsKeep(c, Apply(c, s, steps[0]), steps[1..]);
    }
  }

  const REOPEN: seq<Step> := [ForwarderRestart({}), ForwarderRead, ForwarderRead, ForwarderWrite]
  const COPY: seq<Step> := [ForwarderRead, ForwarderWrite]

  lemma TwoSteps(c: Config, s: System, a: Step, b: Step)
    ensures Steps(c, s, [a, b]) == Apply(c, Apply(c, s, a), b)
  {
    hide Apply;
    assert [a, b] == [a] + ([b] + []);
    OneStep(c, s, a, [b] + []);
    OneStep(c, Apply(c, s, a), b, []);
  }

  /** So many records of a spoolfile have been copied. */
  ghost predicate Copied(s: System, n: nat, i: nat) {
    && n in s.disk && 1 <= i <= |s.disk[n]|
    && s.fwd.phase == AtTop && s.fwd.reader.file == Some(OpenFile(n, n + 1, i, false))
    && s.fwd.sink.Some? && (s.fwd.sink.value.ended ==> HasEnd(s.disk[n][..i]))
  }

  /** Starting again opens the first spoolfile. */
  lemma Opens(c: Config, s: System, n: nat)
    requires IsLeast(n, s.disk)
    ensures var t := Steps(c, s, [ForwarderRestart({}), ForwarderRead]);
            t.disk == s.disk && t.fwd.phase == Starting
            && t.fwd.reader == Reader(Some(OpenFile(n, n + 1, 0, false)), n + 2, true, NO_SESSION, 0, false)
  {
    hide Scan;
    TwoSteps(c, s, ForwarderRestart({}), ForwarderRead);
    assert IsLeast(Scan(s.disk).0, s.disk);
  }

  /** The session record of the spoolfile is read. */
  lemma ReadsHead(c: Config, s: System, n: nat)
    requires n in s.disk && s.disk[n] != [] && Followable(s.disk[n]) && s.fwd.phase == Starting
    requires s.disk[n][0].channel == CHANNEL_SESSION && RecordSource(s.disk[n][0]) == Some(c.srcid)
    requires s.fwd.reader == Reader(Some(OpenFile(n, n + 1, 0, false)), n + 2, true, NO_SESSION, 0, false)
    ensures var t := Apply(c, s, ForwarderRead);
            t.disk == s.disk && t.fwd.phase == Holding(s.disk[n][0]) && t.fwd.sink == Some(NewSink(c.srcid))
            && t.fwd.reader.file == Some(OpenFile(n, n + 1, 1, false))
  {
    hide Scan, RecordSource, RecordTs, RecordSeqnum;
  }

  /** A session starts at the destination. */
  lemma WritesHead(c: Config, s: System, n: nat)
    requires n in s.disk && s.disk[n] != [] && s.fwd.phase == Holding(s.disk[n][0])
    requires s.disk[n][0].channel == CHANNEL_SESSION && RecordSource(s.disk[n][0]) == Some(c.srcid)
    requires s.fwd.sink == Some(NewSink(c.srcid)) && s.fwd.reader.file == Some(OpenFile(n, n + 1, 1, false))
    ensures var t := Apply(c, s, ForwarderWrite); t.disk == s.disk && Copied(t, n, 1)
  {
    hide RecordSource, RecordTs, RecordSeqnum, SessionOf, HasEnd;
  }

  lemma Reopens(c: Config, s: System, n: nat)
    requires Inv(c, s) && IsLeast(n, s.disk) && Followable(s.disk[n])
    ensures var t := Steps(c, s, REOPEN); t.disk == s.disk && Copied(t, n, 1)
  {
    hide Apply, Copied, Followable, RecordSource, Steps;
    assert s.disk[n] != [] by { NotEmpty(c, s, n); }
    FileRecords(c, s.disk, n, 0) by { NotEmpty(c, s, n); }
    Opens(c, s, n);
    var t := Steps(c, s, [ForwarderRestart({}), ForwarderRead]);
    ReadsHead(c, t, n);
    WritesHead(c, Apply(c, t, ForwarderRead), n);
    TwoSteps(c, t, ForwarderRead, ForwarderWrite);
    StepsThen(c, s, [ForwarderRestart({}), ForwarderRead], COPY);
    assert REOPEN == [ForwarderRestart({}), ForwarderRead] + COPY;
  }

  lemma NotEmpty(c: Config, s: System, n: nat)
    requires Inv(c, s) && n in s.disk
    ensures FilesOk(c, s.disk) && s.disk[n] != []
  {
    assert FileOk(c, s.disk[n]);
  }

  lemma FollowablePart(file: seq<Record>, n: nat)
    requires Followable(file) && n <= |file|
    ensures FollowableTo(file, n)
  {
  }

  /** The next record is read. */
  lemma ReadsNext(c: Config, s: System, n: nat, i: nat)
    requires Inv(c, s) && Copied(s, n, i) && i < |s.disk[n]| && Followable(s.disk[n])
    ensures var t := Apply(c, s, ForwarderRead);
            t.disk == s.disk && t.fwd.phase == Holding(s.disk[n][i]) && t.fwd.sink == s.fwd.sink
            && t.fwd.reader.file == Some(OpenFile(n, n + 1, i + 1, false))
  {
    hide Scan, Follow, HasEnd, Followable, FollowableTo, FilesOk, WriterOk, UsedOk, NothingLost, NothingInvented,
         ItemsTo, Position, RecordTs, RecordSource;
    var file := s.disk[n];
    FileRecords(c, s.disk, n, i);
    FollowablePart(file, i);
    FollowablePart(file, i + 1);
    FollowMeans(s.fwd.reader.ts, s.fwd.reader.seqnum, file, i);
  }

  /** A record is accepted unless it is an event after the end of the session. */
  lemma SinkAccepts(k: Sink, rec: Record)
    requires k.srec.Some? && IsBody(rec) && (rec.IsEvent() ==> !k.ended && RecordSeqnum(rec).Some?)
    ensures var (k', delivered, synced, ok) := SinkWrite(k, rec);
            ok && k'.srec == k.srec && k'.ended == (k.ended || rec.channel == CHANNEL_END)
  {
    hide RecordSource, RecordTs, RecordSeqnum;
  }

  lemma EndSoFar(file: seq<Record>, i: nat)
    requires i < |file| && EndsLast(file) && HasEnd(file[..i])
    ensures !file[i].IsEvent() && HasEnd(file[..i + 1])
  {
    var j :| 0 <= j < |file[..i]| && file[..i][j].channel == CHANNEL_END;
    assert file[j] == file[..i][j] == file[..i + 1][j];
  }

  lemma EndNow(file: seq<Record>, i: nat)
    requires i < |file| && file[i].channel == CHANNEL_END
    ensures HasEnd(file[..i + 1])
  {
    assert file[..i + 1][i] == file[i];
  }

  /** And written. */
  lemma WritesNext(c: Config, s: System, t: System, n: nat, i: nat)
    requires Inv(c, s) && ProgressOk(s) && Copied(s, n, i) && i < |s.disk[n]| && Followable(s.disk[n])
    requires t.disk == s.disk && t.fwd.phase == Holding(s.disk[n][i]) && t.fwd.sink == s.fwd.sink
    requires t.fwd.reader.file == Some(OpenFile(n, n + 1, i + 1, false))
    ensures var u := Apply(c, t, ForwarderWrite); u.disk == s.disk && Copied(u, n, i + 1)
  {
    hide HasEnd, EndsLast, SinkWrite, SessionOf, FilesOk, WriterOk, UsedOk, NothingLost, NothingInvented, DeliveredOk,
         Position, RecordTs, RecordSource, RecordSeqnum, IsBody;
    var file, rec := s.disk[n], s.disk[n][i];
    FileRecords(c, s.disk, n, i);
    if s.fwd.sink.value.ended {
      EndSoFar(file, i);
    }
    if rec.channel == CHANNEL_END {
      EndNow(file, i);
    }
    SinkAccepts(s.fwd.sink.value, rec);
    BodyIsNoSync(rec);
  }

  lemma BodyIsNoSync(rec: Record)
    requires IsBody(rec)
    ensures rec.channel != CHANNEL_SYNC
  {
  }

  lemma Copies(c: Config, s: System, n: nat, i: nat)
    requires Inv(c, s) && ProgressOk(s) && Copied(s, n, i) && i < |s.disk[n]| && Followable(s.disk[n])
    ensures var t := Steps(c, s, COPY); t.disk == s.disk && Copied(t, n, i + 1)
  {
    hide Apply, Inv, ProgressOk, Followable, Steps;
    TwoSteps(c, s, ForwarderRead, ForwarderWrite);
    ReadsNext(c, s, n, i);
    WritesNext(c, s, Apply(c, s, ForwarderRead), n, i);
  }

  /** The rest of the spoolfile can be copied. */
  lemma {:induction false} CopiesRest(c: Config, s: System, n: nat, i: nat) returns (more: seq<Step>)
    requires Inv(c, s) && ProgressOk(s) && Copied(s, n, i) && Followable(s.disk[n])
    ensures forall step | step in more :: OfForwarder(step)
    ensures var t := Steps(c, s, more); t.disk == s.disk && Copied(t, n, |s.disk[n]|)
    decreases |s.disk[n]| - i
  {
    hide Inv, ProgressOk, Followable, Copied, Apply;
    assert n in s.disk && 1 <= i <= |s.disk[n]| by { CopiedIn(s, n, i); }
    if i == |s.disk[n]| {
      more := [];
    } else {
      Copies(c, s, n, i);
      StepsKeep(c, s, COPY);
      var t := Steps(c, s, COPY);
      var rest := CopiesRest(c, t, n, i + 1);
      StepsThen(c, s, COPY, rest);
      more := COPY + rest;
    }
  }

  lemma CopiedIn(s: System, n: nat, i: nat)
    requires Copied(s, n, i)
    ensures n in s.disk && 1 <= i <= |s.disk[n]|
  {
  }

  /** So the first spoolfile can be deleted, if there is another after it. */
  lemma Releases(c: Config, s: System, n: nat) returns (more: seq<Step>)
    requires Inv(c, s) && ProgressOk(s) && !c.nodelete
    requires IsLeast(n, s.disk) && n + 1 in s.disk && Followable(s.disk[n])
    ensures forall step | step in more :: OfForwarder(step)
    ensures Steps(c, s, more).disk == s.disk - {n}
  {
    hide Inv, ProgressOk, Followable, Apply, Steps, ItemsTo;
    Reopens(c, s, n);
    StepsKeep(c, s, REOPEN);
    var t := Steps(c, s, REOPEN);
    var copy := CopiesRest(c, t, n, 1);
    StepsKeep(c, t, copy);
    var u := Steps(c, t, copy);
    FinishedFileIsReleased(c, u);
    StepsThen(c, s, REOPEN, copy);
    StepsThen(c, s, REOPEN + copy, RELEASE);
    more := REOPEN + copy + RELEASE;
  }

  lemma LessDrainable(disk: Disk, n: nat)
    requires Drainable(disk) && IsLeast(n, disk) && n + 1 in disk
    ensures Drainable(disk - {n}) && |(disk - {n}).Keys| < |disk.Keys|
    ensures forall k | k in disk && IsGreatest(k, disk) :: k in disk - {n}
  {
    hide Followable;
    var left := disk - {n};
    assert left.Keys == disk.Keys - {n};
    forall k | k in left && !IsGreatest(k, left)
      ensures k + 1 in left && Followable(left[k])
    {
      assert !IsGreatest(k, disk);
    }
  }

  /** Every spoolfile but the last can be deleted in turn. */
  lemma {:induction false} DrainsFrom(c: Config, s: System) returns (more: seq<Step>)
    requires Inv(c, s) && ProgressOk(s) && !c.nodelete && Drainable(s.disk)
    ensures forall step | step in more :: OfForwarder(step)
    ensures Drained(Steps(c, s, more).disk)
    decreases |s.disk.Keys|
  {
    hide Inv, ProgressOk, Followable, Apply, Drainable;
    if Drained(s.disk) {
      more := [];
    } else {
      var n := Scan(s.disk).0;
      assert IsLeast(n, s.disk) && !IsGreatest(n, s.disk);
      assert n + 1 in s.disk && Followable(s.disk[n]) by { FirstOf(s.disk, n); }
      var first := Releases(c, s, n);
      StepsKeep(c, s, first);
      LessDrainable(s.disk, n);
      var rest := DrainsFrom(c, Steps(c, s, first));
      StepsThen(c, s, first, rest);
      more := first + rest;
    }
  }

  lemma FirstOf(disk: Disk, n: nat)
    requires Drainable(disk) && n in disk && !IsGreatest(n, disk)
    ensures n + 1 in disk && Followable(disk[n])
  {
  }

  // ---------------------------------------------------------------------------
  // Main results
  // ---------------------------------------------------------------------------

  /** The forwarder can catch up with the writer if and only if every spoolfile but the last has one
      directly after it, and can be read to its end. (Otherwise no steps will do, of the writer
      included, with any number of restarts.) */
  lemma CatchesUpExactly(c: Config, steps: seq<Step>)
    requires !c.nodelete
    ensures Drainable(Run(c, steps).disk) <==> exists more :: Drained(Run(c, steps + more).disk)
  {
    hide Run, Followable;
    if Drainable(Run(c, steps).disk) {
      var more := CatchesUp(c, steps);
      assert Drained(Run(c, steps + more).disk);
    } else {
      var k :| k in Run(c, steps).disk && StuckAt(k, Run(c, steps).disk);
      forall more
        ensures !Drained(Run(c, steps + more).disk)
      {
        StuckForEver(c, steps, more, k);
      }
    }
  }

  ghost predicate OnLast(disk: Disk, item: Item) {
    exists n :: IsGreatest(n, disk) && item in ItemsTo(disk[n], |disk[n]|)
  }

  /** What it is to catch up: with steps of the forwarder alone, everything accepted by the writer
      becomes durable but for what is in the last spoolfile, and the others are deleted. */
  lemma CatchesUp(c: Config, steps: seq<Step>) returns (more: seq<Step>)
    requires !c.nodelete && Drainable(Run(c, steps).disk)
    ensures forall step | step in more :: OfForwarder(step)
    ensures var t := Run(c, steps + more);
            && Drained(t.disk) && t.accepted == Run(c, steps).accepted
            && forall item | item in t.accepted :: item in t.durable || OnLast(t.disk, item)
  {
    hide Run, Inv, ProgressOk, ItemsTo, Steps, Drainable;
    RunProgresses(c, steps);
    more := DrainsFrom(c, Run(c, steps));
    StepsKeep(c, Run(c, steps), more);
    RunThen(c, steps, more);
    NothingLostOrInvented(c, steps + more);
    var t := Run(c, steps + more);
    forall item | item in t.accepted && item !in t.durable
      ensures OnLast(t.disk, item)
    {
      assert OnDisk(t.disk, item);
    }
  }

  lemma {:induction false} Climbs(disk: Disk, lo: nat, n: nat, hi: nat)
    requires lo in disk && hi in disk && lo <= n <= hi
    requires forall k | k in disk && !IsGreatest(k, disk) :: k + 1 in disk
    ensures n in disk
    decreases n
  {
    if n == lo {
    } else {
      Climbs(disk, lo, n - 1, hi);
    }
  }

  /** That every spoolfile but the last has one directly after it is to say that the numbers are
      contiguous. */
  lemma DrainableMeans(disk: Disk)
    ensures Drainable(disk) <==>
              Contiguous(disk) && forall k | k in disk && !IsGreatest(k, disk) :: Followable(disk[k])
  {
    hide Followable;
    if Drainable(disk) {
      forall lo: nat, hi: nat, n: nat | lo in disk && hi in disk && lo <= n <= hi
        ensures n in disk
      {
        Climbs(disk, lo, n, hi);
      }
    } else if Contiguous(disk) {
      var k :| k in disk && !IsGreatest(k, disk) && !(k + 1 in disk && Followable(disk[k]));
      var m :| m in disk && m > k;
      assert k + 1 in disk;
    }
  }

  // ---------------------------------------------------------------------------
  // Runs in which it always can
  // ---------------------------------------------------------------------------

  /** A session record with a timestamp, an event with a sequence number, or any other record. */
  ghost predicate Labelled(rec: Record) {
    && (rec.channel == CHANNEL_SESSION ==> RecordTs(rec).Some?)
    && (rec.IsEvent() ==> RecordSeqnum(rec).Some?)
  }

  ghost predicate LabelledOk(disk: Disk, writer: Option<Writer>) {
    && (forall n, i | n in disk && 0 <= i < |disk[n]| :: Labelled(disk[n][i]))
    && (writer.Some? && writer.value.sink.srec.Some? ==> Labelled(writer.value.sink.srec.value))
  }

  lemma PrepareLabelled(k: Sink, rec: Record)
    ensures Prepare(k, rec).0.srec == k.srec || Prepare(k, rec).0.srec == Some(rec)
    ensures Finish(k, rec).0.srec == k.srec
  {
    hide RecordSource, RecordTs, RecordSeqnum, MakeReply;
  }

  lemma AppendLabelled(w: Writer, disk: Disk, rec: Record)
    requires LabelledOk(disk, Some(w)) && Labelled(rec)
    ensures w.sink.srec.Some? ==>
              var b := Begin(w, disk, w.sink.srec.value); LabelledOk(b.disk, Some(b.w)) && b.w.sink == w.sink
    ensures w.current.Some? ==> var a := Append(w, disk, rec); LabelledOk(a.disk, Some(a.w)) && a.w.sink == w.sink
  {
    hide Labelled, Size;
  }

  lemma StoreLabelled(w: Writer, disk: Disk, rec: Record, capacity: nat)
    requires LabelledOk(disk, Some(w)) && Labelled(rec)
    ensures var t := StoreRecord(w, disk, rec, capacity); LabelledOk(t.disk, Some(t.w)) && t.w.sink == w.sink
  {
    hide Labelled, LabelledOk, Append, Begin, Size;
    AppendLabelled(w, disk, rec);
    if w.sink.srec.Some? {
      var b := Begin(w, disk, w.sink.srec.value);
      AppendLabelled(b.w, b.disk, rec);
    }
  }

  lemma WriteLabelled(w: Writer, disk: Disk, rec: Record, capacity: nat)
    requires LabelledOk(disk, Some(w)) && Labelled(rec)
    ensures var t := WriteStep(w, disk, rec, capacity); LabelledOk(t.disk, Some(t.w))
  {
    hide Labelled, Prepare, Finish, StoreRecord, Append, Begin;
    var (sink, plan) := Prepare(w.sink, rec);
    var w1 := w.(sink := sink);
    PrepareLabelled(w.sink, rec);
    PrepareLabelled(sink, rec);
    match plan
    case StartSession => BeginLabelled(w1, disk, rec);
    case Store =>
      StoreLabelled(w1, disk, rec, capacity);
      PrepareLabelled(StoreRecord(w1, disk, rec, capacity).w.sink, rec);
    case _ =>
  }

  lemma BeginLabelled(w: Writer, disk: Disk, srec: Record)
    requires LabelledOk(disk, Some(w)) && Labelled(srec)
    ensures var b := Begin(w, disk, srec); LabelledOk(b.disk, Some(b.w))
  {
    hide Labelled, Size;
  }

  /** Every record passed to the writer is labelled. */
  ghost predicate AllLabelled(steps: seq<Step>) {
    forall step | step in steps && step.WriterWrite? :: Labelled(step.rec)
  }

  lemma StepLabelled(c: Config, s: System, step: Step)
    requires Inv(c, s) && LabelledOk(s.disk, s.writer) && (step.WriterWrite? ==> Labelled(step.rec))
    ensures LabelledOk(Apply(c, s, step).disk, Apply(c, s, step).writer)
  {
    hide Inv, Labelled, WriteStep, Reads, SinkWrite, Scan, IsStored, Acknowledges;
    if step.WriterWrite? && s.writer.Some? {
      WriteLabelled(s.writer.value, s.disk, step.rec, c.capacity);
    }
  }

  lemma {:induction false} RunLabelled(c: Config, steps: seq<Step>)
    requires AllLabelled(steps)
    ensures LabelledOk(Run(c, steps).disk, Run(c, steps).writer)
    decreases |steps|
  {
    hide Apply, Inv, Labelled;
    if steps == [] {
    } else {
      RunKeepsInv(c, steps[..|steps| - 1]);
      RunLabelled(c, steps[..|steps| - 1]);
      StepLabelled(c, Run(c, steps[..|steps| - 1]), steps[|steps| - 1]);
    }
  }

  lemma LabelledFollowable(c: Config, disk: Disk, writer: Option<Writer>, k: nat)
    requires LabelledOk(disk, writer) && FilesOk(c, disk) && k in disk
    ensures Followable(disk[k])
  {
    hide RecordTs, RecordSeqnum;
    assert FileOk(c, disk[k]);
    assert Labelled(disk[k][0]);
  }

  /** From every state which can be reached without a reset in the process, whatever is stopped and
      restarted, forwarding can catch up. */
  lemma AlwaysAbleToCatchUp(c: Config, steps: seq<Step>) returns (more: seq<Step>)
    requires !c.nodelete && AllLabelled(steps) && forall step | step in steps :: !step.ForwarderReset?
    ensures forall step | step in more :: OfForwarder(step)
    ensures var t := Run(c, steps + more);
            && Drained(t.disk) && t.accepted == Run(c, steps).accepted
            && forall item | item in t.accepted :: item in t.durable || OnLast(t.disk, item)
  {
    hide Run, Followable, Contiguous, LabelledOk, Drainable;
    var s := Run(c, steps);
    SpoolfilesContiguous(c, steps);
    RunKeepsInv(c, steps);
    RunLabelled(c, steps);
    forall k | k in s.disk
      ensures Followable(s.disk[k])
    {
      LabelledFollowable(c, s.disk, s.writer, k);
    }
    DrainableMeans(s.disk);
    more := CatchesUp(c, steps);
  }

  // ---------------------------------------------------------------------------
  // Runs after which it never can
  // ---------------------------------------------------------------------------

  /** A gap left by one reset stops forwarding from ever catching up. */
  lemma GapBlocks(c: Config, more: seq<Step>)
    requires !c.nodelete
    ensures !Drained(Run(c, ThreeSessions(c.srcid) + (SKIP + RELEASE) + more).disk)
  {
    hide Run, Followable, Contiguous;
    var steps := ThreeSessions(c.srcid) + (SKIP + RELEASE);
    GapReachable(c);
    DrainableMeans(Run(c, steps).disk);
    CatchesUpExactly(c, steps);
  }

  const UNNUMBERED := Record(0, [])

  /** A session with an event which has no sequence number, and another session. */
  function UnnumberedSession(srcid: seq<Octet>): seq<Step> {
    [WriterRestart, WriterWrite(SessionRecord(srcid, 1)), WriterWrite(UNNUMBERED), WriterWrite(SessionRecord(srcid, 2))]
  }

  /** The writer refuses such an event, but only after having stored it. */
  lemma StoresUnnumbered(c: Config, s: System)
    requires Wrote(c, s, 1, map[0 := [SessionRecord(c.srcid, 1)]])
    requires s.writer.value.current == Some(Current(0, Size(SessionRecord(c.srcid, 1)))) && !s.writer.value.sink.ended
    requires Size(SessionRecord(c.srcid, 1)) + Size(UNNUMBERED) <= c.capacity
    ensures Wrote(c, Apply(c, s, WriterWrite(UNNUMBERED)), 1, map[0 := [SessionRecord(c.srcid, 1), UNNUMBERED]])
  {
    hide Size, SessionRecord, IsStored;
    var srec := SessionRecord(c.srcid, 1);
    assert RecordSeqnum(UNNUMBERED) == None;
    assert [srec] + [UNNUMBERED] == [srec, UNNUMBERED];
    assert map[0 := [srec]][0 := [srec, UNNUMBERED]] == map[0 := [srec, UNNUMBERED]];
  }

  lemma BeginsCurrent(c: Config, s: System)
    requires Wrote(c, s, 0, map[])
    ensures var w := Apply(c, s, WriterWrite(SessionRecord(c.srcid, 1))).writer;
            w.Some? && w.value.current == Some(Current(0, Size(SessionRecord(c.srcid, 1)))) && !w.value.sink.ended
  {
    hide Size, RecordTs, RecordSource, IsStored, SessionRecord;
    SessionRecordStates(c.srcid, 1);
  }

  lemma UnnumberedWritten(c: Config)
    requires Size(SessionRecord(c.srcid, 1)) + Size(UNNUMBERED) <= c.capacity
    ensures Run(c, UnnumberedSession(c.srcid)).disk ==
              map[0 := [SessionRecord(c.srcid, 1), UNNUMBERED], 1 := [SessionRecord(c.srcid, 2)]]
  {
    hide Apply, SessionRecord, Size;
    var all := UnnumberedSession(c.srcid);
    var s0 := Apply(c, EMPTY_SYSTEM, all[0]);
    WriterStarts(c);
    var s1 := Apply(c, s0, all[1]);
    WritesSession(c, s0, 0, map[]);
    BeginsCurrent(c, s0);
    var s2 := Apply(c, s1, all[2]);
    StoresUnnumbered(c, s1);
    var disk := map[0 := [SessionRecord(c.srcid, 1), UNNUMBERED]];
    WritesSession(c, s2, 1, disk);
    assert all[..3] == [all[0], all[1], all[2]] && all[..3][..2] == [all[0], all[1]] && all[..3][..2][..1] == [all[0]];
    assert [all[0]][..0] == [];
    assert Run(c, [all[0]]) == s0;
    assert Run(c, all[..3][..2]) == s1;
    assert Run(c, all[..3]) == s2;
  }

  /** That stops forwarding from ever catching up as well. */
  lemma UnnumberedBlocks(c: Config, more: seq<Step>)
    requires Size(SessionRecord(c.srcid, 1)) + Size(UNNUMBERED) <= c.capacity
    ensures !Drained(Run(c, UnnumberedSession(c.srcid) + more).disk)
  {
    hide Run, Size, SessionRecord, UnnumberedSession;
    UnnumberedWritten(c);
    var disk := Run(c, UnnumberedSession(c.srcid)).disk;
    assert 1 in disk && disk[0][1] == UNNUMBERED;
    assert RecordSeqnum(UNNUMBERED) == None;
    assert StuckAt(0, disk);
    StuckForEver(c, UnnumberedSession(c.srcid), more, 0);
  }
}
