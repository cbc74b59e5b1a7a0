/** Forwarding what has been captured: replay adds nothing to a destination with keys. */
module Delivery {
  import opened Octets
  import opened Attributes
  import opened Codec
  import opened Records
  import opened Sessions
  import opened Spool
  import opened Capture
  import opened Forwarding

  /** The session record most recently passed to the writer. */
  function Latest(steps: seq<Step>): Option<Record> {
    if steps == [] then None
    else
      match steps[|steps| - 1]
      case WriterWrite(rec) => if rec.channel == CHANNEL_SESSION then Some(rec) else Latest(steps[..|steps| - 1])
      case _ => Latest(steps[..|steps| - 1])
  }

  /** A session as it was written when it was captured: its events in order, and the hash (if any)
      which each of them includes. Hashing may have been off, or a hash may have been lost. */
  datatype Captured = Captured(session: Session, previous: seq<Option<Hash>>) {
    predicate HasEvent(k: nat) { k < |session.events| && k < |previous| }

    function RecordOf(k: nat): Record
      requires HasEvent(k)
    {
      Stamp(session.events[k], k % TWO64, previous[k])
    }
  }

  /** A session captured with or without a hash function, and without interruption. */
  function CapturedWith(hash: Option<HashFn>, s: Session): Captured {
    Captured(s, seq(|s.events|, k requires 0 <= k < |s.events| =>
      if hash.None? then None else Previous(hash.value, s, k)))
  }

  /** With a hash function, these are the records of the chain; without, they have no hashes. */
  lemma CapturedRecords(hash: Option<HashFn>, s: Session, k: nat)
    requires k < |s.events|
    ensures CapturedWith(hash, s).HasEvent(k)
    ensures CapturedWith(hash, s).RecordOf(k) ==
              if hash.None? then Stamp(s.events[k], k % TWO64, None) else Stamped(hash.value, s, k)
  {
    hide Stamp, Previous;
  }

  /** An event is one of a session, as it was written when it was captured. */
  ghost predicate IsEventOf(sessions: seq<Captured>, srec: Record, rec: Record) {
    exists j: nat, k: nat | j < |sessions| && sessions[j].HasEvent(k) ::
      sessions[j].session.srec == srec && rec == sessions[j].RecordOf(k)
  }

  /** The writer is fed with session records, each from the right source and with a timestamp, and
      with events of the session in progress (among other records, in any order). */
  ghost predicate Fed(c: Config, sessions: seq<Captured>, steps: seq<Step>)
    decreases |steps|
  {
    steps == [] ||
      var front, last := steps[..|steps| - 1], steps[|steps| - 1];
      && Fed(c, sessions, front)
      && (last.WriterWrite? && last.rec.channel == CHANNEL_SESSION ==>
            RecordSource(last.rec) == Some(c.srcid) && RecordTs(last.rec).Some?)
      && (last.WriterWrite? && last.rec.IsEvent() ==>
            Latest(front).Some? && IsEventOf(sessions, Latest(front).value, last.rec))
  }

  /** An item accepted is an event of one of the sessions, with the timestamp of that session. */
  ghost predicate IsItemOf(sessions: seq<Captured>, item: Item) {
    exists j: nat, k: nat | j < |sessions| && sessions[j].HasEvent(k) ::
      item == Item(RecordTs(sessions[j].session.srec), sessions[j].RecordOf(k))
  }

  ghost predicate FedOk(c: Config, sessions: seq<Captured>, s: System, latest: Option<Record>) {
    && (forall item | item in s.accepted :: IsItemOf(sessions, item))
    && (s.writer.Some? ==>
          && s.writer.value.sink.srcid == c.srcid
          && (s.writer.value.sink.srec.Some? ==>
                && latest.Some?
                && SessionOf(s.writer.value.sink) == RecordTs(latest.value)
                && RecordTs(latest.value).Some?))
  }

  /** What a write does to the session record held by the writer. */
  lemma WriteSrec(w: Writer, disk: Disk, rec: Record, capacity: nat)
    ensures var k := WriteStep(w, disk, rec, capacity).w.sink;
            && k.srcid == w.sink.srcid
            && k.srec == if Prepare(w.sink, rec).1 == StartSession then Some(rec) else w.sink.srec
  {
    hide RecordTs, RecordSource, RecordSeqnum, MakeReply, Size;
  }

  lemma WritesFed(c: Config, sessions: seq<Captured>, s: System, latest: Option<Record>, rec: Record)
    requires FedOk(c, sessions, s, latest) && s.writer.Some?
    requires rec.channel == CHANNEL_SESSION ==> RecordSource(rec) == Some(c.srcid) && RecordTs(rec).Some?
    requires rec.IsEvent() ==> latest.Some? && IsEventOf(sessions, latest.value, rec)
    ensures FedOk(c, sessions, WriterWrites(c, s, rec),
                  if rec.channel == CHANNEL_SESSION then Some(rec) else latest)
  {
    hide RecordTs, RecordSource, RecordSeqnum, WriteStep, StoreRecord, Captured.RecordOf;
    WriteSrec(s.writer.value, s.disk, rec, c.capacity);
  }

  lemma {:induction false} RunFed(c: Config, sessions: seq<Captured>, steps: seq<Step>)
    requires Fed(c, sessions, steps)
    ensures FedOk(c, sessions, Run(c, steps), Latest(steps))
    decreases |steps|
  {
    hide FedOk, WriterWrites, Reads, ForwarderWrites, Acknowledged, IsEventOf, Scan;
    if steps == [] {
      InitiallyFed(c, sessions);
    } else {
      var front, last := steps[..|steps| - 1], steps[|steps| - 1];
      RunFed(c, sessions, front);
      var s := Run(c, front);
      if last.WriterWrite? && s.writer.Some? {
        WritesFed(c, sessions, s, Latest(front), last.rec);
      } else {
        OtherFed(c, sessions, s, Latest(front), last, Latest(steps));
      }
    }
  }

  lemma InitiallyFed(c: Config, sessions: seq<Captured>)
    ensures FedOk(c, sessions, EMPTY_SYSTEM, None)
  {
  }

  /** Steps of the forwarder do not concern the writer. */
  lemma SameWriter(c: Config, s: System, step: Step)
    ensures !step.WriterWrite? && step != WriterRestart ==>
              Apply(c, s, step).writer == s.writer && Apply(c, s, step).accepted == s.accepted
  {
    hide Scan, SinkWrite;
  }

  lemma OtherFed(c: Config, sessions: seq<Captured>, s: System, latest: Option<Record>, step: Step,
                 later: Option<Record>)
    requires FedOk(c, sessions, s, latest)
    requires step.WriterWrite? ==> s.writer.None?
    requires !step.WriterWrite? ==> later == latest
    ensures FedOk(c, sessions, Apply(c, s, step), later)
  {
    hide RecordTs, IsItemOf, Scan, SinkWrite, Reads, Acknowledged, ForwarderWrites;
    SameWriter(c, s, step);
  }

  /** An event which brings no sequence number of its own. Attribute lists are kept in order. */
  ghost predicate Unnumbered(e: Record) {
    Sorted(e.attributes) && forall a | a in e.attributes :: a.id != ATTRID_SEQNUM
  }

  /** The sessions have distinct timestamps, and few enough events for their sequence numbers to be
      distinct. */
  ghost predicate Distinct(sessions: seq<Captured>) {
    && (forall i: nat, j: nat | i < j < |sessions| ::
          RecordTs(sessions[i].session.srec) != RecordTs(sessions[j].session.srec))
    && (forall s | s in sessions :: |s.session.events| <= TWO64 && forall e | e in s.session.events :: Unnumbered(e))
  }

  lemma StampedSeqnum(s: Captured, k: nat)
    requires s.HasEvent(k) && Unnumbered(s.session.events[k])
    ensures RecordSeqnum(s.RecordOf(k)) == Some(k % TWO64)
  {
    hide Stamp, RecordSeqnum, Sorted;
    StampSeqnum(s.session.events[k], k % TWO64, s.previous[k]);
  }

  /** However often the destination is handed each event, it is handed only one with each session
      timestamp and sequence number. */
  lemma NoDuplicates(c: Config, sessions: seq<Captured>, steps: seq<Step>, a: Item, b: Item)
    requires Fed(c, sessions, steps) && Distinct(sessions)
    requires var s := Run(c, steps); a in s.durable + s.pending && b in s.durable + s.pending
    ensures Key(a) == Key(b) ==> a == b
  {
    hide Fed, Run, Captured.RecordOf, Unnumbered, OnDisk, RecordTs, RecordSeqnum;
    NothingLostOrInvented(c, steps);
    RunFed(c, sessions, steps);
    assert a in Run(c, steps).accepted && b in Run(c, steps).accepted;
    assert IsItemOf(sessions, a) && IsItemOf(sessions, b);
    var i: nat, k: nat :| i < |sessions| && sessions[i].HasEvent(k)
                       && a == Item(RecordTs(sessions[i].session.srec), sessions[i].RecordOf(k));
    var j: nat, l: nat :| j < |sessions| && sessions[j].HasEvent(l)
                       && b == Item(RecordTs(sessions[j].session.srec), sessions[j].RecordOf(l));
    assert sessions[i] in sessions && sessions[j] in sessions;
    StampedSeqnum(sessions[i], k);
    StampedSeqnum(sessions[j], l);
  }
}
