/** A run of the forwarding protocol in which a reset leaves a gap in the file numbers. */
module ForwardingGap {
  import opened Octets
  import opened Attributes
  import opened Codec
  import opened Records
  import opened Sessions
  import opened Spool
  import opened SpoolReader
  import opened Forwarding

  /** Three sessions are written, each to a spoolfile of its own. */
  function ThreeFiles(srcid: seq<Octet>): Disk {
    map[0 := [SessionRecord(srcid, 1)], 1 := [SessionRecord(srcid, 2)], 2 := [SessionRecord(srcid, 3)]]
  }

  function ThreeSessions(srcid: seq<Octet>): seq<Step> {
    [WriterRestart, WriterWrite(SessionRecord(srcid, 1)), WriterWrite(SessionRecord(srcid, 2)),
     WriterWrite(SessionRecord(srcid, 3))]
  }

  /** The first spoolfile is opened; the destination fails, and the forwarder tries again within
      the process; the spoolfile opened then is copied. */
  const SKIP: seq<Step> :=
    [ForwarderRead, DestinationRestart({}), ForwarderReset({}), ForwarderRead, ForwarderRead, ForwarderWrite]

  /** The writer after a session record, and the files. */
  ghost predicate Wrote(c: Config, s: System, sec: Int64, disk: Disk) {
    && s.disk == disk && s.fwd == NEW_FORWARDER
    && s.writer.Some? && s.writer.value.nextNum == sec && s.writer.value.sink.srcid == c.srcid
    && s.writer.value.sink.srec == if sec == 0 then None else Some(SessionRecord(c.srcid, sec))
  }

  lemma WritesSession(c: Config, s: System, sec: Int64, disk: Disk)
    requires Wrote(c, s, sec, disk) && 0 <= sec < 3 && (sec as nat) !in disk
    ensures Wrote(c, Apply(c, s, WriterWrite(SessionRecord(c.srcid, sec + 1))), sec + 1,
                  disk[sec := [SessionRecord(c.srcid, sec + 1)]])
  {
    hide Size, RecordTs, RecordSource, IsStored;
    SessionRecordStates(c.srcid, sec);
    SessionRecordStates(c.srcid, sec + 1);
  }

  lemma ThreeFilesWritten(c: Config) returns (s: System)
    ensures s == Run(c, ThreeSessions(c.srcid)) && Wrote(c, s, 3, ThreeFiles(c.srcid))
  {
    hide Apply, Wrote, SessionRecord;
    var all := ThreeSessions(c.srcid);
    var s0 := Apply(c, EMPTY_SYSTEM, all[0]);
    WriterStarts(c);
    var s1 := Apply(c, s0, all[1]);
    WritesSession(c, s0, 0, map[]);
    var s2 := Apply(c, s1, all[2]);
    WritesSession(c, s1, 1, map[0 := [SessionRecord(c.srcid, 1)]]);
    s := Apply(c, s2, all[3]);
    WritesSession(c, s2, 2, map[0 := [SessionRecord(c.srcid, 1)]][1 := [SessionRecord(c.srcid, 2)]]);
    assert all[..3] == [all[0], all[1], all[2]] && all[..3][..2] == [all[0], all[1]] && all[..3][..2][..1] == [all[0]];
    assert [all[0]][..0] == [];
    assert Run(c, [all[0]]) == s0;
    assert Run(c, all[..3][..2]) == s1;
    assert Run(c, all[..3]) == s2;
  }

  lemma WriterStarts(c: Config)
    ensures Wrote(c, Apply(c, EMPTY_SYSTEM, WriterRestart), 0, map[])
  {
  }

  /** The second spoolfile has been copied, having been opened because the first was skipped. */
  ghost predicate SecondCopied(s: System, disk: Disk) {
    && s.disk == disk && s.fwd.phase == AtTop
    && s.fwd.reader.file == Some(OpenFile(1, 2, 1, false))
  }

  lemma ScanThree(srcid: seq<Octet>)
    ensures Scan(ThreeFiles(srcid)).0 == 0 && ThreeFiles(srcid) != map[]
  {
    hide SessionRecord;
    var disk := ThreeFiles(srcid);
    assert 0 in disk;
    assert IsLeast(Scan(disk).0, disk);
  }

  lemma SkipsToSecond(c: Config, s: System)
    requires Wrote(c, s, 3, ThreeFiles(c.srcid))
    ensures var t := Steps(c, s, SKIP[..4]);
            && t.disk == s.disk && t.fwd.phase == Starting && t.fwd.sink == None
            && t.fwd.reader == Reader(Some(OpenFile(1, 2, 0, false)), 3, true, NO_SESSION, 0, false)
  {
    hide SessionRecord, Scan;
    ScanThree(c.srcid);
    var s1 := Apply(c, s, SKIP[0]);
    assert s1.fwd.reader.file == Some(OpenFile(0, 1, 0, false));
    var s2 := Apply(c, s1, SKIP[1]);
    var s3 := Apply(c, s2, SKIP[2]);
    var s4 := Apply(c, s3, SKIP[3]);
    FourSteps(c, s, s1, s2, s3, s4);
  }

  lemma FourSteps(c: Config, s: System, s1: System, s2: System, s3: System, s4: System)
    requires s1 == Apply(c, s, SKIP[0]) && s2 == Apply(c, s1, SKIP[1])
    requires s3 == Apply(c, s2, SKIP[2]) && s4 == Apply(c, s3, SKIP[3])
    ensures Steps(c, s, SKIP[..4]) == s4
  {
    hide Apply;
    var a := SKIP[..4];
    assert a == [SKIP[0]] + ([SKIP[1]] + ([SKIP[2]] + ([SKIP[3]] + [])));
    OneStep(c, s, SKIP[0], [SKIP[1]] + ([SKIP[2]] + ([SKIP[3]] + [])));
    OneStep(c, s1, SKIP[1], [SKIP[2]] + ([SKIP[3]] + []));
    OneStep(c, s2, SKIP[2], [SKIP[3]] + []);
    OneStep(c, s3, SKIP[3], []);
  }

  lemma CopiesSecond(c: Config, s: System)
    requires s.disk == ThreeFiles(c.srcid) && s.fwd.phase == Starting && s.fwd.sink == None
    requires s.fwd.reader == Reader(Some(OpenFile(1, 2, 0, false)), 3, true, NO_SESSION, 0, false)
    ensures SecondCopied(Apply(c, Apply(c, s, ForwarderRead), ForwarderWrite), s.disk)
  {
    hide Scan, RecordTs, RecordSource, SessionRecord, SessionOf;
    var rec := SessionRecord(c.srcid, 2);
    SessionRecordStates(c.srcid, 2);
    assert s.disk[1] == [rec];
    var t := Apply(c, s, ForwarderRead);
    assert t.fwd.phase == Holding(rec) && t.fwd.sink == Some(NewSink(c.srcid));
  }

  /** A gap in the file numbers can be left, in a run with a single reset. */
  lemma GapReachable(c: Config)
    requires !c.nodelete
    ensures !Contiguous(Run(c, ThreeSessions(c.srcid) + (SKIP + RELEASE)).disk)
  {
    hide Apply, Steps, Inv, Contiguous, SessionRecord, SecondCopied, Wrote, Run, ItemsTo;
    var s := ThreeFilesWritten(c);
    WroteDisk(c, s);
    SkipsToSecond(c, s);
    var u := Steps(c, s, SKIP[..4]);
    CopiesSecond(c, u);
    var v := Apply(c, Apply(c, u, ForwarderRead), ForwarderWrite);
    SixSteps(c, s, u, v);
    RunThen(c, ThreeSessions(c.srcid), SKIP + RELEASE);
    RunThen(c, ThreeSessions(c.srcid), SKIP);
    StepsThen(c, s, SKIP, RELEASE);
    RunKeepsInv(c, ThreeSessions(c.srcid) + SKIP);
    Released(c, v);
  }

  lemma WroteDisk(c: Config, s: System)
    requires Wrote(c, s, 3, ThreeFiles(c.srcid))
    ensures s.disk == ThreeFiles(c.srcid)
  {
  }

  lemma SixSteps(c: Config, s: System, u: System, v: System)
    requires u == Steps(c, s, SKIP[..4]) && v == Apply(c, Apply(c, u, ForwarderRead), ForwarderWrite)
    ensures Steps(c, s, SKIP) == v
  {
    hide Apply;
    assert SKIP == SKIP[..4] + [ForwarderRead, ForwarderWrite];
    StepsThen(c, s, SKIP[..4], [ForwarderRead, ForwarderWrite]);
    assert [ForwarderRead, ForwarderWrite] == [ForwarderRead] + ([ForwarderWrite] + []);
    OneStep(c, u, ForwarderRead, [ForwarderWrite] + []);
    OneStep(c, Apply(c, u, ForwarderRead), ForwarderWrite, []);
  }

  lemma Released(c: Config, v: System)
    requires !c.nodelete && Inv(c, v) && SecondCopied(v, ThreeFiles(c.srcid))
    ensures !Contiguous(Steps(c, v, RELEASE).disk)
  {
    hide Apply, Steps, Inv, Contiguous, SessionRecord, ItemsTo;
    FinishedFileIsReleased(c, v);
    GapLeft(Steps(c, v, RELEASE).disk, 1);
  }
}
