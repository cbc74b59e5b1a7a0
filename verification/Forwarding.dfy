/** The spool and forward protocol: a writer, a reader, and a destination, any of which may be
    stopped and restarted at any point. */
module Forwarding {
  import opened Octets
  import opened Attributes
  import opened Codec
  import opened Records
  import opened Sessions
  import opened Spool
  import opened SpoolReader

  /** An event with the timestamp of its session: what a destination keys on (together with
      the sequence number in the event, and the source, which is fixed here). */
  datatype Item = Item(ts: Option<Ts>, event: Record)

  datatype Phase =
    | Starting               // a session record is expected
    | AtTop                  // about to read the next record
    | Holding(rec: Record)   // a record has been read but not written
    | AwaitReply             // a sync request has been written
    | HaveReply(reply: Record)
    | Broken                 // an exception has been thrown

  datatype Forwarder = Forwarder(reader: Reader, sink: Option<Sink>, phase: Phase)

  const NEW_FORWARDER := Forwarder(NEW_READER, None, Starting)

  datatype Config = Config(srcid: seq<Octet>, capacity: nat, nodelete: bool)

  datatype System = System(
    disk: Disk,
    writer: Option<Writer>,
    fwd: Forwarder,
    pending: set<Item>,     // handed to the destination since it was last synchronised
    durable: set<Item>,     // handed to it before that
    accepted: set<Item>,    // every event ever accepted by the writer
    used: set<nat>)         // every file number ever used

  const EMPTY_SYSTEM := System(map[], None, NEW_FORWARDER, {}, {}, {}, {})

  datatype Step =
    | WriterWrite(rec: Record)
    | WriterRestart
    | ForwarderRead
    | ForwarderWrite
    | ForwarderTakeReply
    | ForwarderAcknowledge
    | ForwarderReset(lost: set<Item>)     // retry within the process after an exception
    | ForwarderRestart(lost: set<Item>)   // stop and start again
    | DestinationRestart(lost: set<Item>) // likewise, so the forwarder sees an exception

  // ---------------------------------------------------------------------------
  // Steps
  // ---------------------------------------------------------------------------

  ghost predicate IsNextFree(n: nat, disk: Disk) {
    && (disk == map[] ==> n == 0)
    && (disk != map[] ==> n > 0 && IsGreatest(n - 1, disk))
  }

  lemma {:induction false} Extremes(s: set<nat>) returns (least: nat, greatest: nat)
    requires s != {}
    ensures least in s && greatest in s && forall k | k in s :: least <= k <= greatest
    decreases |s|
  {
    var n :| n in s;
    if s == {n} {
      least, greatest := n, n;
    } else {
      var rest := s - {n};
      var l, g := Extremes(rest);
      least, greatest := if n < l then n else l, if n > g then n else g;
      assert forall k | k in s :: k == n || k in rest;
    }
  }

  /** What a scan of the directory finds: the first file number and the next free one. */
  ghost function Scan(disk: Disk): (r: (nat, nat))
    ensures disk != map[] ==> IsLeast(r.0, disk)
    ensures IsNextFree(r.1, disk)
  {
    if disk == map[] then (0, 0)
    else
      ScanExists(disk);
      var l: nat, g: nat :| IsLeast(l, disk) && IsGreatest(g, disk);
      (l, g + 1)
  }

  lemma ScanExists(disk: Disk)
    requires disk != map[]
    ensures exists l: nat, g: nat :: IsLeast(l, disk) && IsGreatest(g, disk)
  {
    NonEmpty(disk);
    var l, g := Extremes(disk.Keys);
    assert IsLeast(l, disk) && IsGreatest(g, disk);
  }

  lemma NonEmpty(disk: Disk)
    requires disk != map[]
    ensures disk.Keys != {}
  {
  }

  /** What writing a record to the destination does: its state, whether an event was handed
      over, whether it was synchronised, and whether the call returned normally. */
  function SinkWrite(k: Sink, rec: Record): (Sink, bool, bool, bool) {
    var (k1, plan) := Prepare(k, rec);
    match plan
    case Reject => (k1, false, false, false)
    case Ignore => (k1, false, false, true)
    case StartSession => (k1, false, false, true)
    case Store => (var (k2, ok) := Finish(k1, rec); (k2, rec.IsEvent(), false, ok))
    case Synchronise => (var (k2, ok) := Finish(k1, rec); (k2, false, true, ok))
  }

  function SessionOf(k: Sink): Option<Ts> {
    match k.srec
    case None => None
    case Some(srec) => RecordTs(srec)
  }

  ghost function WriterWrites(c: Config, s: System, rec: Record): System
    requires s.writer.Some?
  {
    var w := s.writer.value;
    var t := WriteStep(w, s.disk, rec, c.capacity);
    s.(writer := Some(t.w), disk := t.disk, used := s.used + t.disk.Keys,
       accepted := if rec.IsEvent() && IsStored(w, s.disk, rec, c.capacity)
                   then s.accepted + {Item(SessionOf(w.sink), rec)} else s.accepted)
  }

  function Fail(f: Forwarder): Forwarder { f.(sink := None, phase := Broken) }

  ghost function Reads(s: System): Forwarder {
    var f := s.fwd;
    var (reader, attempt) := Read(f.reader, s.disk, Scan(s.disk).0);
    var g := f.(reader := reader);
    match attempt
    case Again => g
    case Blocked => g
    case Thrown => Fail(g)
    case Got(rec) =>
      if f.phase == AtTop then g.(phase := Holding(rec))
      else if rec.channel != CHANNEL_SESSION || RecordSource(rec).None? then Fail(g)
      else g.(sink := Some(NewSink(RecordSource(rec).value)), phase := Holding(rec))
  }

  ghost function ForwarderWrites(s: System): System
    requires s.fwd.phase.Holding? && s.fwd.sink.Some?
  {
    var f, rec := s.fwd, s.fwd.phase.rec;
    var (k, delivered, synced, ok) := SinkWrite(f.sink.value, rec);
    var pending := if delivered then s.pending + {Item(SessionOf(f.sink.value), rec)} else s.pending;
    s.(fwd := if !ok then Fail(f)
              else f.(sink := Some(k), phase := if rec.channel == CHANNEL_SYNC then AwaitReply else AtTop),
       pending := if synced then {} else pending,
       durable := if synced then s.durable + pending else s.durable)
  }

  ghost function Acknowledged(c: Config, s: System): System
    requires s.fwd.phase.HaveReply?
  {
    var f := s.fwd;
    var (reader, disk, ok) := Acknowledge(f.reader, s.disk, c.srcid, c.nodelete, f.phase.reply);
    var g := f.(reader := reader);
    s.(disk := disk, fwd := if ok then g.(phase := AtTop) else Fail(g))
  }

  /** The state after a step (the same if the step is not possible). */
  ghost function Apply(c: Config, s: System, step: Step): System {
    var f := s.fwd;
    match step
    case WriterWrite(rec) => if s.writer.Some? then WriterWrites(c, s, rec) else s
    case WriterRestart =>
      s.(writer := Some(Writer(NewSink(c.srcid), Scan(s.disk).1, None)))
    case ForwarderRead =>
      if f.phase == Starting || f.phase == AtTop then s.(fwd := Reads(s)) else s
    case ForwarderWrite =>
      if f.phase.Holding? && f.sink.Some? then ForwarderWrites(s) else s
    case ForwarderTakeReply =>
      if f.phase == AwaitReply && f.sink.Some? then
        match f.sink.value.reply
        case None => s.(fwd := Fail(f))
        case Some(reply) =>
          s.(fwd := f.(sink := Some(f.sink.value.(reply := None)), phase := HaveReply(reply)))
      else s
    case ForwarderAcknowledge => if f.phase.HaveReply? then Acknowledged(c, s) else s
    case ForwarderReset(lost) =>
      if f.phase == Broken then s.(fwd := Forwarder(Reset(f.reader), None, Starting), pending := s.pending - lost)
      else s
    case ForwarderRestart(lost) => s.(fwd := NEW_FORWARDER, pending := s.pending - lost)
    case DestinationRestart(lost) => s.(fwd := Fail(f), pending := s.pending - lost)
  }

  ghost function Run(c: Config, steps: seq<Step>): System {
    if steps == [] then EMPTY_SYSTEM
    else Apply(c, Run(c, steps[..|steps| - 1]), steps[|steps| - 1])
  }

  // ---------------------------------------------------------------------------
  // Invariants
  // ---------------------------------------------------------------------------

  predicate IsHead(c: Config, r: Record) {
    r.channel == CHANNEL_SESSION && RecordSource(r) == Some(c.srcid)
  }

  predicate IsBody(r: Record) {
    r.IsEvent() || r.channel == CHANNEL_END || r.channel == CHANNEL_SIGNATURE
  }

  ghost predicate FileOk(c: Config, file: seq<Record>) {
    file != [] && IsHead(c, file[0]) && forall i :: 1 <= i < |file| ==> IsBody(file[i])
  }

  ghost predicate FilesOk(c: Config, disk: Disk) {
    forall n | n in disk :: FileOk(c, disk[n])
  }

  ghost predicate WriterOk(c: Config, w: Writer, disk: Disk) {
    && w.sink.srcid == c.srcid
    && IsNextFree(w.nextNum, disk)
    && (w.current.Some? ==>
          var n := w.current.value.num;
          w.nextNum == n + 1 && n in disk && disk[n] != [] && w.sink.srec == Some(disk[n][0]))
    && (w.sink.srec.Some? ==> w.current.Some?)
  }

  ghost predicate UsedOk(used: set<nat>, disk: Disk) {
    && disk.Keys <= used
    && (used != {} ==> disk != map[])
    && forall u: nat, n: nat | u in used && IsGreatest(n, disk) :: u <= n
  }

  ghost predicate ReaderOk(r: Reader, disk: Disk) {
    && (r.file.None? ==> r.ts == NO_SESSION && r.seqnum == 0 && !r.awaiting)
    && IsUInt64(r.seqnum)
    && (r.file.Some? ==>
          var f := r.file.value;
          && f.num in disk && f.next == f.num + 1 && r.nextNum == f.num + 2
          && f.pos <= |disk[f.num]|
          && (f.eof || r.awaiting ==> f.next in disk && f.pos == |disk[f.num]|))
  }

  /** The events of a spoolfile, up to a given record. */
  ghost function ItemsTo(file: seq<Record>, n: nat): set<Item>
    requires n <= |file|
  {
    set i | 1 <= i < n && file[i].IsEvent() :: Item(RecordTs(file[0]), file[i])
  }

  ghost predicate OnDisk(disk: Disk, item: Item) {
    exists n :: n in disk && item in ItemsTo(disk[n], |disk[n]|)
  }

  /** How many records of the open spoolfile have been written to the destination. */
  ghost function Delivered(f: Forwarder): int {
    if f.reader.file.None? then 0
    else if f.phase.Holding? && !f.reader.awaiting then f.reader.file.value.pos - 1
    else f.reader.file.value.pos
  }

  ghost predicate DeliveredOk(s: System) {
    var f := s.fwd;
    f.sink.Some? ==>
      && f.reader.file.Some? && f.reader.file.value.num in s.disk
      && f.phase != Starting && f.phase != Broken
      && var file := s.disk[f.reader.file.value.num];
      && f.reader.file.value.pos <= |file|
      && 0 <= Delivered(f)
      && ItemsTo(file, Delivered(f)) <= s.pending + s.durable
      && (f.phase == AwaitReply || f.phase.HaveReply? ==> f.reader.awaiting && ItemsTo(file, |file|) <= s.durable)
      && (f.reader.awaiting ==> f.phase != AtTop)
      && (f.phase.Holding? ==> f.phase.rec == if f.reader.awaiting then SYNC_REQUEST else file[Delivered(f)])
      && (Delivered(f) > 0 ==> SessionOf(f.sink.value) == RecordTs(file[0]))
  }

  /** Before a record is written, the reader is ahead of the destination by that record. */
  ghost predicate LockstepOk(c: Config, f: Forwarder) {
    && (f.phase == Starting ==>
          && f.reader.ts == NO_SESSION && f.reader.seqnum == 0 && !f.reader.awaiting
          && (f.reader.file.Some? ==> f.reader.file.value.pos == 0))
    && (f.phase != Starting && f.phase != Broken ==> f.sink.Some?)
    && (f.sink.Some? ==>
          var k := f.sink.value;
          && k.srcid == c.srcid
          && IsUInt64(k.seqnum)
          && (k.srec.Some? ==> RecordSource(k.srec.value) == Some(c.srcid) && RecordTs(k.srec.value).Some?)
          && (k.reply.Some? <==> f.phase == AwaitReply)
          && (f.phase == AwaitReply ==> k.reply == MakeReply(k))
          && (f.phase.HaveReply? ==> Some(f.phase.reply) == MakeReply(k))
          && (f.phase.Holding? ==>
                && (k.srec.None? ==> f.phase.rec.channel == CHANNEL_SESSION)
                && Follow(Position(k).0, Position(k).1, f.phase.rec) == Some((f.reader.ts, f.reader.seqnum)))
          && (!f.phase.Holding? ==> k.srec.Some? && Position(k) == (f.reader.ts, f.reader.seqnum)))
  }

  /** The session timestamp and sequence number which the destination has reached. */
  ghost function Position(k: Sink): (Ts, int) {
    match SessionOf(k)
    case None => (NO_SESSION, 0)
    case Some(ts) => (ts, k.seqnum)
  }

  ghost predicate NothingLost(s: System) {
    forall item | item in s.accepted :: item in s.durable || OnDisk(s.disk, item)
  }

  ghost predicate NothingInvented(s: System) {
    && s.durable <= s.accepted && s.pending <= s.accepted
    && forall n, item | n in s.disk && item in ItemsTo(s.disk[n], |s.disk[n]|) :: item in s.accepted
  }

  ghost predicate Inv(c: Config, s: System) {
    && FilesOk(c, s.disk)
    && (s.writer.Some? ==> WriterOk(c, s.writer.value, s.disk))
    && UsedOk(s.used, s.disk)
    && ReaderOk(s.fwd.reader, s.disk)
    && DeliveredOk(s)
    && LockstepOk(c, s.fwd)
    && NothingLost(s)
    && NothingInvented(s)
  }

  // ---------------------------------------------------------------------------
  // Steps of the writer
  // ---------------------------------------------------------------------------

  /** Only the highest-numbered spoolfile grows, and new ones come after it. */
  ghost predicate Grows(d1: Disk, d2: Disk) {
    && (forall n | n in d1 :: n in d2 && d1[n] <= d2[n])
    && (forall n | n in d1 && d1[n] != d2[n] :: IsGreatest(n, d1))
    && (forall n | n in d2 && n !in d1 :: forall k | k in d1 :: k < n)
  }

  lemma ItemsGrow(file: seq<Record>, rec: Record)
    requires file != []
    ensures ItemsTo(file + [rec], |file| + 1)
         == ItemsTo(file, |file|) + (if rec.IsEvent() then {Item(RecordTs(file[0]), rec)} else {})
  {
    var all := file + [rec];
    forall item | item in ItemsTo(file, |file|)
      ensures item in ItemsTo(all, |file| + 1)
    {
      var i :| 1 <= i < |file| && file[i].IsEvent() && item == Item(RecordTs(file[0]), file[i]);
      assert all[i] == file[i];
    }
    if rec.IsEvent() {
      assert all[|file|] == rec;
    }
  }

  lemma ItemsPrefix(file: seq<Record>, longer: seq<Record>, n: nat)
    requires n <= |file| && file <= longer
    ensures ItemsTo(file, n) == ItemsTo(longer, n)
  {
    forall i | 0 <= i < n ensures file[i] == longer[i] {}
  }

  /** The effect of a write on the spool: what it keeps, and which items it adds. */
  ghost predicate Effect(c: Config, d1: Disk, w2: Writer, d2: Disk, added: set<Item>) {
    && FilesOk(c, d2) && WriterOk(c, w2, d2) && Grows(d1, d2)
    && (forall n, item | n in d2 && item in ItemsTo(d2[n], |d2[n]|) :: item in added || OnDisk(d1, item))
    && (forall item | OnDisk(d1, item) :: OnDisk(d2, item))
    && (forall item | item in added :: OnDisk(d2, item))
  }

  lemma NoEffect(c: Config, disk: Disk, w: Writer)
    requires FilesOk(c, disk) && WriterOk(c, w, disk)
    ensures Effect(c, disk, w, disk, {})
  {
  }

  lemma BeginEffect(c: Config, disk: Disk, w: Writer, sink: Sink, srec: Record)
    requires FilesOk(c, disk) && WriterOk(c, w, disk)
    requires sink.srcid == c.srcid && sink.srec == Some(srec) && IsHead(c, srec)
    ensures var b := Begin(w.(sink := sink), disk, srec);
            b.ok && Effect(c, disk, b.w, b.disk, {}) && b.w.current.Some? && b.w.sink == sink
  {
    hide Size, IsHead;
    var b := Begin(w.(sink := sink), disk, srec);
    assert w.nextNum !in disk;
    assert IsGreatest(w.nextNum, b.disk);
    assert ItemsTo([srec], 1) == {};
    forall item | OnDisk(disk, item)
      ensures OnDisk(b.disk, item)
    {
      var n :| n in disk && item in ItemsTo(disk[n], |disk[n]|);
      assert n in b.disk && b.disk[n] == disk[n];
    }
    forall n, item | n in b.disk && item in ItemsTo(b.disk[n], |b.disk[n]|)
      ensures OnDisk(disk, item)
    {
      assert n != w.nextNum && disk[n] == b.disk[n];
    }
  }

  lemma AppendEffect(c: Config, disk: Disk, w: Writer, rec: Record)
    requires FilesOk(c, disk) && WriterOk(c, w, disk) && w.current.Some? && IsBody(rec)
    ensures var a := Append(w, disk, rec);
            Effect(c, disk, a.w, a.disk, if rec.IsEvent() then {Item(SessionOf(w.sink), rec)} else {})
  {
    hide Size, IsHead, IsBody;
    var a := Append(w, disk, rec);
    var num := w.current.value.num;
    var file := disk[num];
    assert IsGreatest(num, disk) && IsGreatest(num, a.disk);
    assert a.disk[num] == file + [rec];
    ItemsGrow(file, rec);
    forall item | OnDisk(disk, item)
      ensures OnDisk(a.disk, item)
    {
      var n :| n in disk && item in ItemsTo(disk[n], |disk[n]|);
      assert n in a.disk && item in ItemsTo(a.disk[n], |a.disk[n]|);
    }
    forall n, item | n in a.disk && item in ItemsTo(a.disk[n], |a.disk[n]|)
      ensures item in (if rec.IsEvent() then {Item(SessionOf(w.sink), rec)} else {}) || OnDisk(disk, item)
    {
      if n != num {
        assert n in disk && item in ItemsTo(disk[n], |disk[n]|);
      } else if item in ItemsTo(file, |file|) {
        assert num in disk && item in ItemsTo(disk[num], |disk[num]|);
      }
    }
    assert rec.IsEvent() ==> num in a.disk && Item(SessionOf(w.sink), rec) in ItemsTo(a.disk[num], |a.disk[num]|);
  }

  lemma EffectThen(c: Config, d1: Disk, w2: Writer, d2: Disk, w3: Writer, d3: Disk, added: set<Item>)
    requires Effect(c, d1, w2, d2, {}) && Effect(c, d2, w3, d3, added)
    requires forall n | n in d1 :: d2[n] == d1[n]
    requires d1 != map[] ==> d2 != map[]
    ensures Effect(c, d1, w3, d3, added)
  {
    hide FilesOk, WriterOk;
    forall n, item | n in d3 && item in ItemsTo(d3[n], |d3[n]|)
      ensures item in added || OnDisk(d1, item)
    {
      if item !in added {
        var m :| m in d2 && item in ItemsTo(d2[m], |d2[m]|);
      }
    }
  }

  /** The items which a write adds to those accepted. */
  ghost function Added(w: Writer, disk: Disk, rec: Record, capacity: nat): set<Item> {
    if rec.IsEvent() && IsStored(w, disk, rec, capacity) then {Item(SessionOf(w.sink), rec)} else {}
  }

  lemma StoreEffect(c: Config, disk: Disk, w: Writer, rec: Record)
    requires FilesOk(c, disk) && WriterOk(c, w, disk) && w.sink.srec.Some? && IsBody(rec)
    ensures var t := StoreRecord(w, disk, rec, c.capacity);
            && t.w.sink == w.sink
            && Effect(c, disk, t.w, t.disk, if t.ok && rec.IsEvent() then {Item(SessionOf(w.sink), rec)} else {})
  {
    hide Size, Fits, Append, Begin, Effect, IsBody;
    var srec := w.sink.srec.value;
    SinkKept(w, disk, srec, rec);
    if Fits(w, rec, c.capacity) {
      AppendEffect(c, disk, w, rec);
    } else {
      HeadInEffect(c, disk, w);
      assert w.(sink := w.sink) == w;
      BeginEffect(c, disk, w, w.sink, srec);
      var b := Begin(w, disk, srec);
      if Fits(b.w, rec, c.capacity) {
        EffectParts(c, disk, b.w, b.disk, {});
        AppendEffect(c, b.disk, b.w, rec);
        SinkKept(b.w, b.disk, srec, rec);
        var a := Append(b.w, b.disk, rec);
        BeginKeeps(w, disk, srec);
        EffectThen(c, disk, b.w, b.disk, a.w, a.disk, if rec.IsEvent() then {Item(SessionOf(w.sink), rec)} else {});
      }
    }
  }

  lemma HeadInEffect(c: Config, disk: Disk, w: Writer)
    requires FilesOk(c, disk) && WriterOk(c, w, disk) && w.sink.srec.Some?
    ensures IsHead(c, w.sink.srec.value) && w.sink.srcid == c.srcid
  {
  }

  lemma EffectParts(c: Config, d1: Disk, w2: Writer, d2: Disk, added: set<Item>)
    requires Effect(c, d1, w2, d2, added)
    ensures FilesOk(c, d2) && WriterOk(c, w2, d2) && Grows(d1, d2)
  {
  }

  lemma BeginKeeps(w: Writer, disk: Disk, srec: Record)
    requires Begin(w, disk, srec).ok
    ensures forall n | n in disk :: n in Begin(w, disk, srec).disk && Begin(w, disk, srec).disk[n] == disk[n]
    ensures Begin(w, disk, srec).disk != map[]
  {
    assert w.nextNum in Begin(w, disk, srec).disk;
  }

  lemma EffectBySrec(c: Config, d1: Disk, w2: Writer, d2: Disk, added: set<Item>, sink: Sink)
    requires Effect(c, d1, w2, d2, added) && sink.srec == w2.sink.srec && sink.srcid == w2.sink.srcid
    ensures Effect(c, d1, w2.(sink := sink), d2, added)
  {
    hide FilesOk, Grows;
  }

  /** Preparing to write keeps the source, and changes the session record only to start a session. */
  lemma PrepareKeeps(k: Sink, rec: Record)
    ensures var (k', plan) := Prepare(k, rec);
            && k'.srcid == k.srcid
            && (plan == StartSession ==>
                  k'.srec == Some(rec) && rec.channel == CHANNEL_SESSION && RecordSource(rec) == Some(k.srcid))
            && (plan != StartSession ==> k' == k)
            && (plan == Store ==> k.srec.Some? && IsBody(rec))
            && (plan == Synchronise ==> k.srec.Some? && rec.channel == CHANNEL_SYNC)
            && (plan != Store && plan != Reject ==> !rec.IsEvent())
    ensures var k2 := Finish(k, rec).0; k2.srec == k.srec && k2.srcid == k.srcid
  {
    hide RecordSource, RecordTs, RecordSeqnum, MakeReply;
  }

  lemma WriteEffect(c: Config, disk: Disk, w: Writer, rec: Record)
    requires FilesOk(c, disk) && WriterOk(c, w, disk)
    ensures var t := WriteStep(w, disk, rec, c.capacity);
            Effect(c, disk, t.w, t.disk, Added(w, disk, rec, c.capacity))
  {
    hide Size, Begin, Effect, StoreRecord, Prepare, Finish, FilesOk, IsBody, IsStored;
    PrepareKeeps(w.sink, rec);
    StoredMeans(w, disk, rec, c.capacity);
    var (sink, plan) := Prepare(w.sink, rec);
    var t := WriteStep(w, disk, rec, c.capacity);
    NoEffect(c, disk, w);
    if plan == StartSession {
      BeginEffect(c, disk, w, sink, rec);
    } else {
      assert w.(sink := sink) == w;
      if plan == Store {
        var u := StoreRecord(w, disk, rec, c.capacity);
        StoreEffect(c, disk, w, rec);
        if u.ok {
          PrepareKeeps(u.w.sink, rec);
          EffectBySrec(c, disk, u.w, u.disk, Added(w, disk, rec, c.capacity), t.w.sink);
        }
      } else if plan == Synchronise {
        EffectBySrec(c, disk, w, disk, {}, t.w.sink);
      }
    }
  }

  lemma ReaderUnderGrowth(r: Reader, d1: Disk, d2: Disk)
    requires ReaderOk(r, d1) && Grows(d1, d2)
    ensures ReaderOk(r, d2)
  {
  }

  lemma DeliveredUnderGrowth(s: System, disk: Disk)
    requires DeliveredOk(s) && ReaderOk(s.fwd.reader, s.disk) && Grows(s.disk, disk)
    ensures DeliveredOk(s.(disk := disk))
  {
    var f := s.fwd;
    if f.sink.Some? {
      var n := f.reader.file.value.num;
      ItemsPrefix(s.disk[n], disk[n], Delivered(f));
      if f.reader.awaiting {
        assert !IsGreatest(n, s.disk);
        assert disk[n] == s.disk[n];
      }
      if f.phase.Holding? && !f.reader.awaiting {
        assert s.disk[n][Delivered(f)] == disk[n][Delivered(f)];
      }
    }
  }

  lemma WriterWritesInv(c: Config, s: System, rec: Record)
    requires Inv(c, s) && s.writer.Some?
    ensures Inv(c, WriterWrites(c, s, rec))
  {
    hide WriteStep, FilesOk, WriterOk, Grows, ReaderOk, DeliveredOk, LockstepOk, IsStored;
    var w := s.writer.value;
    var t := WriteStep(w, s.disk, rec, c.capacity);
    var added := Added(w, s.disk, rec, c.capacity);
    var s' := WriterWrites(c, s, rec);
    WriteEffect(c, s.disk, w, rec);
    assert Effect(c, s.disk, t.w, t.disk, added);
    ReaderUnderGrowth(s.fwd.reader, s.disk, t.disk);
    DeliveredUnderGrowth(s, t.disk);
    DeliveredFrame(s.(disk := t.disk), s');
    UsedGrows(s.used, s.disk, t.disk);
    assert s'.accepted == s.accepted + added;
  }

  lemma DeliveredFrame(s: System, s': System)
    requires DeliveredOk(s) && s'.disk == s.disk && s'.fwd == s.fwd
    requires s'.pending == s.pending && s'.durable == s.durable
    ensures DeliveredOk(s')
  {
  }

  lemma UsedGrows(used: set<nat>, d1: Disk, d2: Disk)
    requires UsedOk(used, d1) && Grows(d1, d2)
    ensures UsedOk(used + d2.Keys, d2)
  {
    forall u: nat, n: nat | u in used + d2.Keys && IsGreatest(n, d2)
      ensures u <= n
    {
      if u !in d2 {
        NonEmpty(d1);
        var l, g := Extremes(d1.Keys);
        assert IsGreatest(g, d1);
        assert g in d2;
      }
    }
  }

  // ---------------------------------------------------------------------------
  // Steps of the reader and forwarder
  // ---------------------------------------------------------------------------

  lemma FollowKeeps(ts: Ts, seqnum: int, rec: Record)
    requires IsUInt64(seqnum) && Follow(ts, seqnum, rec).Some?
    ensures IsUInt64(Follow(ts, seqnum, rec).value.1)
    ensures rec.channel == CHANNEL_SESSION ==> RecordTs(rec).Some?
    ensures rec.channel != CHANNEL_SESSION ==> Follow(ts, seqnum, rec).value.0 == ts
  {
    hide RecordTs, RecordSeqnum;
  }

  lemma FollowSync(ts: Ts, seqnum: int)
    ensures Follow(ts, seqnum, SYNC_REQUEST) == Some((ts, seqnum))
  {
  }

  /** Nothing but the forwarder's own state changes. */
  lemma ForwarderFrame(c: Config, s: System, f: Forwarder)
    requires Inv(c, s)
    requires ReaderOk(f.reader, s.disk) && DeliveredOk(s.(fwd := f)) && LockstepOk(c, f)
    ensures Inv(c, s.(fwd := f))
  {
    hide FilesOk, WriterOk, UsedOk, ReaderOk, DeliveredOk, LockstepOk;
  }

  /** Opening a spoolfile, when none is open. */
  lemma OpensInv(c: Config, s: System)
    requires Inv(c, s) && s.fwd.reader.file.None? && (s.fwd.phase == Starting || s.fwd.phase == AtTop)
    ensures Inv(c, s.(fwd := Reads(s)))
  {
    hide Scan, NothingLost, NothingInvented, UsedOk, WriterOk, FilesOk;
    assert s.fwd.sink.None? && s.fwd.phase == Starting;
    ForwarderFrame(c, s, Reads(s));
  }

  /** Reading the session record which starts the first spoolfile opened. */
  lemma StartsInv(c: Config, s: System)
    requires Inv(c, s) && s.fwd.reader.file.Some? && s.fwd.phase == Starting
    ensures Inv(c, s.(fwd := Reads(s)))
  {
    hide Follow, RecordTs, RecordSource, RecordSeqnum, Scan, NothingLost, NothingInvented, UsedOk, WriterOk;
    var r := s.fwd.reader;
    var num := r.file.value.num;
    assert FileOk(c, s.disk[num]);
    if Follow(r.ts, r.seqnum, s.disk[num][0]).Some? {
      FollowKeeps(r.ts, r.seqnum, s.disk[num][0]);
    }
    ForwarderFrame(c, s, Reads(s));
  }

  /** Reading the next record, or a sync request at the end of the spoolfile. */
  lemma ContinuesInv(c: Config, s: System)
    requires Inv(c, s) && s.fwd.reader.file.Some? && s.fwd.phase == AtTop
    ensures Inv(c, s.(fwd := Reads(s)))
  {
    hide Follow, RecordTs, RecordSource, RecordSeqnum, Scan, NothingLost, NothingInvented, UsedOk, WriterOk, FilesOk,
         ItemsTo, MakeReply, Position;
    var r := s.fwd.reader;
    var f := r.file.value;
    FollowSync(r.ts, r.seqnum);
    if f.pos < |s.disk[f.num]| && Follow(r.ts, r.seqnum, s.disk[f.num][f.pos]).Some? {
      FollowKeeps(r.ts, r.seqnum, s.disk[f.num][f.pos]);
    }
    ForwarderFrame(c, s, Reads(s));
  }

  lemma ReadsInv(c: Config, s: System)
    requires Inv(c, s) && (s.fwd.phase == Starting || s.fwd.phase == AtTop)
    ensures Inv(c, s.(fwd := Reads(s)))
  {
    if s.fwd.reader.file.None? {
      OpensInv(c, s);
    } else if s.fwd.phase == Starting {
      StartsInv(c, s);
    } else {
      ContinuesInv(c, s);
    }
  }

  /** If the destination accepts the record which the reader has just read, it ends up where
      the reader is. */
  lemma SinkFollows(c: Config, k: Sink, rec: Record)
    requires k.srcid == c.srcid && IsUInt64(k.seqnum) && k.reply.None?
    requires k.srec.Some? ==> RecordSource(k.srec.value) == Some(c.srcid) && RecordTs(k.srec.value).Some?
    requires k.srec.None? ==> rec.channel == CHANNEL_SESSION
    requires Follow(Position(k).0, Position(k).1, rec).Some?
    requires rec.channel == CHANNEL_SESSION || rec.channel == CHANNEL_SYNC || IsBody(rec)
    ensures var (k', delivered, synced, ok) := SinkWrite(k, rec);
            && (delivered ==> rec.IsEvent() && k.srec.Some?)
            && (synced <==> rec.channel == CHANNEL_SYNC)
            && (ok ==>
                  && (rec.IsEvent() ==> delivered)
                  && k'.srcid == c.srcid && IsUInt64(k'.seqnum)
                  && k'.srec.Some? && RecordSource(k'.srec.value) == Some(c.srcid) && RecordTs(k'.srec.value).Some?
                  && Some(Position(k')) == Follow(Position(k).0, Position(k).1, rec)
                  && (rec.channel == CHANNEL_SESSION ==> SessionOf(k') == RecordTs(rec))
                  && (rec.channel != CHANNEL_SESSION ==> k'.srec == k.srec)
                  && (rec.channel == CHANNEL_SYNC ==> k'.reply.Some? && k'.reply == MakeReply(k'))
                  && (rec.channel != CHANNEL_SYNC ==> k'.reply.None?))
  {
    hide RecordSource, RecordTs, RecordSeqnum, SyncReply, FindUnsigned;
    if rec.channel == CHANNEL_SYNC {
      ReplyIgnored(k, MakeReply(k));
    }
  }

  lemma ReplyIgnored(k: Sink, reply: Option<Record>)
    ensures MakeReply(k.(reply := reply)) == MakeReply(k)
  {
  }

  lemma ItemsStep(file: seq<Record>, n: nat)
    requires n < |file|
    ensures ItemsTo(file, n + 1)
         == ItemsTo(file, n) + (if n > 0 && file[n].IsEvent() then {Item(RecordTs(file[0]), file[n])} else {})
    ensures n > 0 && file[n].IsEvent() ==> Item(RecordTs(file[0]), file[n]) in ItemsTo(file, |file|)
  {
  }

  /** What writing a record of the spoolfile does to the items handed over. */
  lemma WritesItems(c: Config, s: System)
    requires Inv(c, s) && s.fwd.phase.Holding? && s.fwd.sink.Some? && !s.fwd.reader.awaiting
    ensures DeliveredOk(ForwarderWrites(s))
    ensures NothingInvented(ForwarderWrites(s)) && NothingLost(ForwarderWrites(s))
  {
    hide RecordSource, RecordTs, RecordSeqnum, MakeReply, SinkWrite, Follow, UsedOk, WriterOk, ItemsTo, Position,
         ReaderOk, SessionOf;
    var f, rec := s.fwd, s.fwd.phase.rec;
    var file := s.disk[f.reader.file.value.num];
    assert FileOk(c, file);
    SinkFollows(c, f.sink.value, rec);
    ItemsStep(file, Delivered(f));
    assert rec.channel != CHANNEL_SYNC;
    SessionSame(f.sink.value, SinkWrite(f.sink.value, rec).0);
  }

  lemma SessionSame(k: Sink, k': Sink)
    ensures k.srec == k'.srec ==> SessionOf(k) == SessionOf(k')
  {
  }

  /** Writing a sync request makes everything handed over so far durable. */
  lemma SyncItems(c: Config, s: System)
    requires Inv(c, s) && s.fwd.phase.Holding? && s.fwd.sink.Some? && s.fwd.reader.awaiting
    ensures DeliveredOk(ForwarderWrites(s))
    ensures NothingInvented(ForwarderWrites(s)) && NothingLost(ForwarderWrites(s))
  {
    hide RecordSource, RecordTs, RecordSeqnum, MakeReply, SinkWrite, Follow, UsedOk, WriterOk, ItemsTo, Position,
         SessionOf;
    SinkFollows(c, s.fwd.sink.value, s.fwd.phase.rec);
    SessionSame(s.fwd.sink.value, SinkWrite(s.fwd.sink.value, s.fwd.phase.rec).0);
  }

  lemma ForwarderWritesInv(c: Config, s: System)
    requires Inv(c, s) && s.fwd.phase.Holding? && s.fwd.sink.Some?
    ensures Inv(c, ForwarderWrites(s))
  {
    hide RecordSource, RecordTs, RecordSeqnum, MakeReply, SinkWrite, Follow, UsedOk, WriterOk;
    var f, rec := s.fwd, s.fwd.phase.rec;
    var k := f.sink.value;
    var file := s.disk[f.reader.file.value.num];
    assert FileOk(c, file);
    assert rec.channel == CHANNEL_SESSION || rec.channel == CHANNEL_SYNC || IsBody(rec);
    SinkFollows(c, k, rec);
    if f.reader.awaiting {
      SyncItems(c, s);
    } else {
      WritesItems(c, s);
    }
  }

  lemma TakesReplyInv(c: Config, s: System)
    requires Inv(c, s)
    ensures Inv(c, Apply(c, s, ForwarderTakeReply))
    ensures s.fwd.phase == AwaitReply ==> Apply(c, s, ForwarderTakeReply).fwd.phase.HaveReply?
  {
    hide RecordSource, RecordTs, RecordSeqnum, MakeReply, UsedOk, WriterOk, FilesOk, ReaderOk, ItemsTo;
    var f := s.fwd;
    if f.phase == AwaitReply {
      var k := f.sink.value;
      ReplyIgnored(k, None);
      var g := f.(sink := Some(k.(reply := None)), phase := HaveReply(k.reply.value));
      SessionSame(k, k.(reply := None));
      ForwarderFrame(c, s, g);
    }
  }

  /** The reply which the destination gives is the one which the reader expects. */
  lemma ReplyMatches(c: Config, s: System)
    requires Inv(c, s) && s.fwd.phase.HaveReply?
    ensures Acknowledges(s.fwd.reader, c.srcid, s.fwd.phase.reply)
  {
    hide RecordSource, RecordTs, RecordSeqnum, SyncReply;
    var k := s.fwd.sink.value;
    var ts := RecordTs(k.srec.value).value;
    ReplyStates(c.srcid, ts, k.seqnum);
  }

  lemma AcknowledgedInv(c: Config, s: System)
    requires Inv(c, s) && s.fwd.phase.HaveReply?
    ensures Inv(c, Acknowledged(c, s))
    ensures Acknowledged(c, s).fwd.phase == AtTop
  {
    hide RecordSource, RecordTs, RecordSeqnum, MakeReply, Acknowledges, Position, ItemsTo, FileOk;
    ReplyMatches(c, s);
    var f := s.fwd.reader.file.value;
    var s' := Acknowledged(c, s);
    assert f.num in s.disk && f.next in s.disk;
    assert forall n | n in s'.disk :: n in s.disk && s'.disk[n] == s.disk[n];
    assert forall n | n in s.disk && n != f.num :: n in s'.disk;
    GreatestKept(s.disk, s'.disk, f.num, f.next);
    forall item | item in s'.accepted
      ensures item in s'.durable || OnDisk(s'.disk, item)
    {
      if item !in s.durable {
        var n :| n in s.disk && item in ItemsTo(s.disk[n], |s.disk[n]|);
        assert n != f.num;
        assert n in s'.disk && item in ItemsTo(s'.disk[n], |s'.disk[n]|);
      }
    }
    NoItems(s'.disk[f.next]);
  }

  lemma NoItems(file: seq<Record>)
    ensures ItemsTo(file, 0) == {}
  {
  }

  /** Deleting a spoolfile which has another after it leaves the greatest number as it was. */
  lemma GreatestKept(d1: Disk, d2: Disk, num: nat, next: nat)
    requires num in d1 && next in d1 && num < next
    requires d2 == d1 || d2 == d1 - {num}
    ensures forall n: nat :: IsGreatest(n, d1) <==> IsGreatest(n, d2)
    ensures d2 != map[]
  {
    assert next in d2;
    forall n: nat
      ensures IsGreatest(n, d1) <==> IsGreatest(n, d2)
    {
      if IsGreatest(n, d1) {
        assert next <= n;
      }
      if IsGreatest(n, d2) {
        assert forall k | k in d1 :: k == num || k in d2;
      }
    }
  }

  lemma RestartsInv(c: Config, s: System, lost: set<Item>)
    requires Inv(c, s)
    ensures Inv(c, s.(fwd := NEW_FORWARDER, pending := s.pending - lost))
    ensures Inv(c, s.(fwd := Fail(s.fwd), pending := s.pending - lost))
    ensures s.fwd.phase == Broken ==>
              Inv(c, s.(fwd := Forwarder(Reset(s.fwd.reader), None, Starting), pending := s.pending - lost))
  {
    hide FilesOk, WriterOk, UsedOk;
  }

  lemma WriterRestartsInv(c: Config, s: System)
    requires Inv(c, s)
    ensures Inv(c, Apply(c, s, WriterRestart))
  {
    hide FilesOk, UsedOk, ReaderOk, LockstepOk;
    var s' := Apply(c, s, WriterRestart);
    DeliveredFrame(s, s');
  }

  /** Every step keeps the invariant. */
  lemma StepKeepsInv(c: Config, s: System, step: Step)
    requires Inv(c, s)
    ensures Inv(c, Apply(c, s, step))
  {
    hide Inv, WriterWrites, Reads, ForwarderWrites, Acknowledged;
    match step
    case WriterWrite(rec) => if s.writer.Some? { WriterWritesInv(c, s, rec); }
    case WriterRestart => WriterRestartsInv(c, s);
    case ForwarderRead => if s.fwd.phase == Starting || s.fwd.phase == AtTop { ReadsInv(c, s); }
    case ForwarderWrite => if s.fwd.phase.Holding? && s.fwd.sink.Some? { ForwarderWritesInv(c, s); }
    case ForwarderTakeReply => TakesReplyInv(c, s);
    case ForwarderAcknowledge => if s.fwd.phase.HaveReply? { AcknowledgedInv(c, s); }
    case ForwarderReset(lost) => RestartsInv(c, s, lost);
    case ForwarderRestart(lost) => RestartsInv(c, s, lost);
    case DestinationRestart(lost) => RestartsInv(c, s, lost);
  }

  lemma {:induction false} RunKeepsInv(c: Config, steps: seq<Step>)
    ensures Inv(c, Run(c, steps))
    decreases |steps|
  {
    hide Apply;
    if steps == [] {
      InitiallyInv(c);
    } else {
      RunKeepsInv(c, steps[..|steps| - 1]);
      StepKeepsInv(c, Run(c, steps[..|steps| - 1]), steps[|steps| - 1]);
    }
  }

  lemma InitiallyInv(c: Config)
    ensures Inv(c, EMPTY_SYSTEM)
  {
  }

  // ---------------------------------------------------------------------------
  // Main results
  // ---------------------------------------------------------------------------

  /** In every run, whatever is stopped and restarted, and whenever: an event has been accepted
      exactly if it is in a spoolfile, or was handed to the destination before the destination
      was last synchronised. Nothing is lost, and nothing reaches the destination otherwise. */
  lemma NothingLostOrInvented(c: Config, steps: seq<Step>)
    ensures var s := Run(c, steps);
            && (forall item :: item in s.accepted <==> item in s.durable || OnDisk(s.disk, item))
            && s.pending <= s.accepted
  {
    hide Run, FilesOk, WriterOk, UsedOk, ReaderOk, DeliveredOk, LockstepOk;
    RunKeepsInv(c, steps);
  }

  /** Only two kinds of step change the spool: a write, and an acknowledgement. */
  lemma DiskAfter(c: Config, s: System, step: Step)
    requires Inv(c, s)
    ensures var t := Apply(c, s, step);
            || t.disk == s.disk
            || (step.WriterWrite? && s.writer.Some?
                && t.disk == WriteStep(s.writer.value, s.disk, step.rec, c.capacity).disk)
            || (step == ForwarderAcknowledge && s.fwd.phase.HaveReply? && !c.nodelete && s.fwd.reader.file.Some?
                && t.disk == s.disk - {s.fwd.reader.file.value.num})
  {
    hide Inv, Reads, WriteStep, SinkWrite, Acknowledges, Scan, IsStored;
  }

  /** A spoolfile is deleted only once all of its events are durable at the destination. */
  lemma DeletedOnlyWhenDurable(c: Config, steps: seq<Step>, step: Step, n: nat)
    requires var s := Run(c, steps); n in s.disk && n !in Apply(c, s, step).disk
    ensures var s := Run(c, steps); ItemsTo(s.disk[n], |s.disk[n]|) <= s.durable
    ensures step == ForwarderAcknowledge && !c.nodelete
  {
    hide Run, ItemsTo, Apply, WriteStep, FileOk, UsedOk, NothingLost, NothingInvented, Effect, IsStored;
    var s := Run(c, steps);
    RunKeepsInv(c, steps);
    DiskAfter(c, s, step);
    if step.WriterWrite? && s.writer.Some? {
      NewNumberNext(c, s.disk, s.writer.value, step.rec);
    }
  }

  /** Each new spoolfile has a number greater than every number used before. */
  lemma NumbersNeverReused(c: Config, steps: seq<Step>, step: Step, n: nat)
    requires var s := Run(c, steps); n in Apply(c, s, step).disk && n !in s.disk
    ensures forall u | u in Run(c, steps).used :: u < n
  {
    hide Run, ItemsTo, Apply, WriteStep, FileOk, NothingLost, NothingInvented, DeliveredOk, LockstepOk, ReaderOk;
    var s := Run(c, steps);
    RunKeepsInv(c, steps);
    DiskAfter(c, s, step);
    NewNumberNext(c, s.disk, s.writer.value, step.rec);
    assert s.used != {} ==> IsGreatest(n - 1, s.disk);
  }

  /** The highest-numbered spoolfile is never deleted. */
  lemma HighestNeverDeleted(c: Config, steps: seq<Step>, step: Step, n: nat)
    requires IsGreatest(n, Run(c, steps).disk)
    ensures n in Apply(c, Run(c, steps), step).disk
  {
    hide Run, ItemsTo, Apply, WriteStep, FileOk, NothingLost, NothingInvented, UsedOk;
    var s := Run(c, steps);
    RunKeepsInv(c, steps);
    DiskAfter(c, s, step);
    if step.WriterWrite? && s.writer.Some? {
      NewNumberNext(c, s.disk, s.writer.value, step.rec);
    }
  }

  /** Between records, the reader's session timestamp and sequence number are the destination's,
      and there is no reply waiting which the forwarder would not expect. */
  lemma Lockstep(c: Config, steps: seq<Step>)
    requires Run(c, steps).fwd.phase == AtTop
    ensures var f := Run(c, steps).fwd;
            && f.sink.Some?
            && Position(f.sink.value) == (f.reader.ts, f.reader.seqnum)
            && f.sink.value.reply.None?
  {
    hide Run;
    RunKeepsInv(c, steps);
  }

  /** Every acknowledgement passes the reader's checks. */
  lemma AcknowledgementsSucceed(c: Config, steps: seq<Step>)
    requires Run(c, steps).fwd.phase.HaveReply?
    ensures Apply(c, Run(c, steps), ForwarderAcknowledge).fwd.phase == AtTop
  {
    hide Run, Inv, Acknowledged;
    RunKeepsInv(c, steps);
    AcknowledgedInv(c, Run(c, steps));
  }

  function Key(item: Item): (Option<Ts>, Option<int>) { (item.ts, RecordSeqnum(item.event)) }

  // ---------------------------------------------------------------------------
  // Progress
  // ---------------------------------------------------------------------------

  const RELEASE: seq<Step> :=
    [ForwarderRead, ForwarderRead, ForwarderWrite, ForwarderTakeReply, ForwarderAcknowledge]

  ghost function Steps(c: Config, s: System, steps: seq<Step>): System
    decreases |steps|
  {
    if steps == [] then s else Steps(c, Apply(c, s, steps[0]), steps[1..])
  }

  lemma {:induction false} RunThen(c: Config, front: seq<Step>, steps: seq<Step>)
    ensures Run(c, front + steps) == Steps(c, Run(c, front), steps)
    decreases |steps|
  {
    hide Apply;
    if steps == [] {
      assert front + steps == front;
    } else {
      var next := front + [steps[0]];
      assert next[..|front|] == front;
      RunThen(c, next, steps[1..]);
      assert next + steps[1..] == front + steps;
    }
  }

  lemma OneStep(c: Config, s: System, step: Step, more: seq<Step>)
    ensures Steps(c, s, [step] + more) == Steps(c, Apply(c, s, step), more)
  {
    hide Apply;
    assert ([step] + more)[1..] == more;
  }

  lemma {:induction false} StepsThen(c: Config, s: System, a: seq<Step>, b: seq<Step>)
    ensures Steps(c, s, a + b) == Steps(c, Steps(c, s, a), b)
    decreases |a|
  {
    hide Apply;
    if a == [] {
      assert a + b == b;
    } else {
      assert (a + b)[1..] == a[1..] + b;
      StepsThen(c, Apply(c, s, a[0]), a[1..], b);
    }
  }

  lemma SyncSucceeds(c: Config, k: Sink)
    requires IsUInt64(k.seqnum) && k.srec.Some?
    requires RecordSource(k.srec.value).Some? && RecordTs(k.srec.value).Some?
    ensures SinkWrite(k, SYNC_REQUEST).3
  {
    hide RecordSource, SyncReply;
  }

  /** Once the forwarder has copied all of a spoolfile, and there is another after it, five
      steps are enough to synchronise the destination, delete the spoolfile (unless asked not
      to) and move on: no check fails. */
  lemma FinishedFileIsReleased(c: Config, s: System)
    requires Inv(c, s) && s.fwd.phase == AtTop
    requires var f := s.fwd.reader.file.value; f.num in s.disk && !f.eof && f.pos == |s.disk[f.num]| && f.next in s.disk
    ensures var f := s.fwd.reader.file.value; var t := Steps(c, s, RELEASE);
            && t.disk == (if c.nodelete then s.disk else s.disk - {f.num})
            && ItemsTo(s.disk[f.num], |s.disk[f.num]|) <= t.durable
            && t.fwd.phase == AtTop && t.fwd.reader.file == Some(OpenFile(f.next, f.next + 1, 0, false))
  {
    hide RecordSource, RecordTs, RecordSeqnum, MakeReply, Inv, Scan, Position, ItemsTo, Acknowledges, SinkWrite, Steps;
    InvParts(c, s);
    var f := s.fwd.reader.file.value;
    var s1 := Apply(c, s, ForwarderRead);
    StepKeepsInv(c, s, ForwarderRead);
    var s2 := Apply(c, s1, ForwarderRead);
    StepKeepsInv(c, s1, ForwarderRead);
    InvParts(c, s2);
    assert s2.fwd.phase == Holding(SYNC_REQUEST) && s2.fwd.reader.awaiting;
    var s3 := Apply(c, s2, ForwarderWrite);
    StepKeepsInv(c, s2, ForwarderWrite);
    SyncSucceeds(c, s2.fwd.sink.value);
    InvParts(c, s3);
    var s4 := Apply(c, s3, ForwarderTakeReply);
    StepKeepsInv(c, s3, ForwarderTakeReply);
    InvParts(c, s4);
    ReplyMatches(c, s4);
    var s5 := Apply(c, s4, ForwarderAcknowledge);
    FiveSteps(c, s, s1, s2, s3, s4, s5);
  }

  lemma FiveSteps(c: Config, s: System, s1: System, s2: System, s3: System, s4: System, s5: System)
    requires s1 == Apply(c, s, RELEASE[0]) && s2 == Apply(c, s1, RELEASE[1]) && s3 == Apply(c, s2, RELEASE[2])
    requires s4 == Apply(c, s3, RELEASE[3]) && s5 == Apply(c, s4, RELEASE[4])
    ensures Steps(c, s, RELEASE) == s5
  {
    hide Apply;
    assert RELEASE[1..][0] == RELEASE[1] && RELEASE[1..][1..] == RELEASE[2..];
    assert RELEASE[2..][0] == RELEASE[2] && RELEASE[2..][1..] == RELEASE[3..];
    assert RELEASE[3..][0] == RELEASE[3] && RELEASE[3..][1..] == RELEASE[4..];
    assert RELEASE[4..][0] == RELEASE[4] && RELEASE[4..][1..] == [];
    assert Steps(c, s4, RELEASE[4..]) == s5;
    assert Steps(c, s3, RELEASE[3..]) == s5;
    assert Steps(c, s2, RELEASE[2..]) == s5;
  }

  lemma InvParts(c: Config, s: System)
    requires Inv(c, s)
    ensures ReaderOk(s.fwd.reader, s.disk) && DeliveredOk(s) && LockstepOk(c, s.fwd)
  {
  }

  // ---------------------------------------------------------------------------
  // Contiguity
  // ---------------------------------------------------------------------------

  ghost predicate Contiguous(disk: Disk) {
    forall lo: nat, hi: nat, n: nat | lo in disk && hi in disk && lo <= n <= hi :: n in disk
  }

  /** With no reset within the process, the reader works from the lowest-numbered spoolfile up. */
  ghost predicate FromLowest(c: Config, s: System) {
    && Contiguous(s.disk)
    && (s.fwd.reader.file.None? ==> !s.fwd.reader.scanned)
    && (s.fwd.reader.file.Some? && !c.nodelete ==> IsLeast(s.fwd.reader.file.value.num, s.disk))
  }

  lemma WriteKeepsContiguity(c: Config, s: System, rec: Record)
    requires Inv(c, s) && FromLowest(c, s) && s.writer.Some?
    ensures FromLowest(c, WriterWrites(c, s, rec))
  {
    hide WriteStep, FileOk, FilesOk, IsStored, Effect, DeliveredOk, LockstepOk, NothingLost, NothingInvented, UsedOk;
    var w := s.writer.value;
    var disk := WriterWrites(c, s, rec).disk;
    NewNumberNext(c, s.disk, w, rec);
    if s.disk != map[] {
      forall n | n in disk ensures n in s.disk || (n == w.nextNum && (n - 1) as nat in s.disk) {}
      LongerContiguous(s.disk, disk, w.nextNum - 1);
    }
  }

  lemma LongerContiguous(d1: Disk, d2: Disk, top: nat)
    requires Contiguous(d1) && IsGreatest(top, d1)
    requires forall n | n in d1 :: n in d2
    requires forall n | n in d2 && n !in d1 :: n == top + 1
    ensures Contiguous(d2)
    ensures forall n: nat | IsLeast(n, d1) :: IsLeast(n, d2)
  {
    forall lo: nat, hi: nat, n: nat | lo in d2 && hi in d2 && lo <= n <= hi
      ensures n in d2
    {
      if n <= top {
        assert lo in d1;
        assert n in d1;
      }
    }
  }

  lemma AcknowledgeKeepsContiguity(c: Config, s: System)
    requires Inv(c, s) && FromLowest(c, s) && s.fwd.phase.HaveReply?
    ensures FromLowest(c, Acknowledged(c, s))
  {
    hide Acknowledges, FileOk, FilesOk, NothingLost, NothingInvented, UsedOk, WriterOk, ItemsTo, Contiguous;
    ReplyMatches(c, s);
    var f := s.fwd.reader.file.value;
    var disk := Acknowledged(c, s).disk;
    if !c.nodelete {
      LeastDeleted(s.disk, disk, f.num, f.next);
    }
  }

  lemma LeastDeleted(d1: Disk, d2: Disk, num: nat, next: nat)
    requires Contiguous(d1) && IsLeast(num, d1) && next == num + 1 && next in d1 && d2 == d1 - {num}
    ensures Contiguous(d2) && IsLeast(next, d2)
  {
  }

  lemma ReadKeepsContiguity(c: Config, s: System)
    requires Inv(c, s) && FromLowest(c, s)
    ensures FromLowest(c, s.(fwd := Reads(s)))
  {
    hide Follow, FileOk, FilesOk, NothingLost, NothingInvented, UsedOk, WriterOk, ItemsTo, Contiguous,
         DeliveredOk, LockstepOk, RecordSource;
  }

  lemma StepKeepsContiguity(c: Config, s: System, step: Step)
    requires Inv(c, s) && FromLowest(c, s) && !step.ForwarderReset?
    ensures FromLowest(c, Apply(c, s, step))
  {
    hide Inv, Contiguous, WriterWrites, Reads, Acknowledged, SinkWrite;
    match step
    case WriterWrite(rec) => if s.writer.Some? { WriteKeepsContiguity(c, s, rec); }
    case ForwarderRead => ReadKeepsContiguity(c, s);
    case ForwarderAcknowledge => if s.fwd.phase.HaveReply? { AcknowledgeKeepsContiguity(c, s); }
    case _ =>
  }

  lemma NewNumberNext(c: Config, disk: Disk, w: Writer, rec: Record)
    requires FilesOk(c, disk) && WriterOk(c, w, disk)
    ensures forall n | n in WriteStep(w, disk, rec, c.capacity).disk && n !in disk :: n == w.nextNum
    ensures forall n | n in disk :: n in WriteStep(w, disk, rec, c.capacity).disk
  {
    hide Size, RecordSource, RecordTs, RecordSeqnum, MakeReply;
  }

  lemma {:induction false} SpoolfilesContiguous(c: Config, steps: seq<Step>)
    requires forall step | step in steps :: !step.ForwarderReset?
    ensures FromLowest(c, Run(c, steps)) && Contiguous(Run(c, steps).disk)
    decreases |steps|
  {
    hide Apply;
    if steps == [] {
    } else {
      var front := steps[..|steps| - 1];
      SpoolfilesContiguous(c, front);
      RunKeepsInv(c, front);
      StepKeepsContiguity(c, Run(c, front), steps[|steps| - 1]);
    }
  }

  /** An acknowledgement keeps the numbers contiguous exactly if there is no spoolfile just before
      the one which it deletes. */
  lemma AcknowledgedContiguous(c: Config, s: System)
    requires Inv(c, s) && s.fwd.phase.HaveReply? && !c.nodelete && s.fwd.reader.file.Some?
    requires Contiguous(s.disk)
    ensures var n := s.fwd.reader.file.value.num;
            Contiguous(Acknowledged(c, s).disk) <==> n == 0 || n - 1 !in s.disk
  {
    hide Inv, Acknowledged, ReaderOk, DeliveredOk, LockstepOk, Contiguous;
    AcknowledgedDisk(c, s);
    var f := s.fwd.reader.file.value;
    if f.num > 0 && f.num - 1 in s.disk {
      GapLeft(Acknowledged(c, s).disk, f.num);
    } else {
      FirstOfAll(s.disk, f.num);
      LeastDeleted(s.disk, Acknowledged(c, s).disk, f.num, f.next);
    }
  }

  lemma GapLeft(disk: Disk, n: nat)
    requires n > 0 && n - 1 in disk && n !in disk && n + 1 in disk
    ensures !Contiguous(disk)
  {
    assert (n - 1) as nat in disk && n + 1 in disk;
  }

  /** In a contiguous directory, a spoolfile with none just before it is the first. */
  lemma FirstOfAll(disk: Disk, n: nat)
    requires Contiguous(disk) && n in disk && (n == 0 || n - 1 !in disk)
    ensures IsLeast(n, disk)
  {
    forall k | k in disk
      ensures n <= k
    {
      if k < n {
        JustBefore(disk, k, n);
      }
    }
  }

  lemma JustBefore(disk: Disk, k: nat, n: nat)
    requires Contiguous(disk) && k in disk && n in disk && k < n
    ensures n - 1 in disk
  {
    assert (n - 1) as nat in disk;
  }

  /** A reset within the process makes the reader skip a spoolfile, and acknowledging one with
      another before it leaves a gap in the numbering (but loses nothing). */
  lemma SkippingLeavesGap(c: Config, s: System)
    requires Inv(c, s) && s.fwd.phase.HaveReply? && !c.nodelete && s.fwd.reader.file.Some?
    requires s.fwd.reader.file.value.num - 1 in s.disk
    ensures !Contiguous(Acknowledged(c, s).disk)
  {
    hide Inv, Acknowledged, ReaderOk, DeliveredOk, LockstepOk, Contiguous;
    AcknowledgedDisk(c, s);
    GapLeft(Acknowledged(c, s).disk, s.fwd.reader.file.value.num);
  }

  lemma AcknowledgedDisk(c: Config, s: System)
    requires Inv(c, s) && s.fwd.phase.HaveReply? && !c.nodelete
    ensures s.fwd.reader.file.Some?
    ensures var f := s.fwd.reader.file.value;
            && f.num in s.disk && f.next == f.num + 1 && f.next in s.disk
            && Acknowledged(c, s).disk == s.disk - {f.num}
  {
    hide ItemsTo, Acknowledges, NothingLost, NothingInvented, FilesOk, WriterOk, UsedOk, Position;
    ReplyMatches(c, s);
  }
}
