/** Writing a session to a sequence of numbered spoolfiles. */
module Spool {
  import opened Octets
  import opened Attributes
  import opened Codec
  import opened Records
  import opened Sessions
  import B = Base128

  /** The spoolfiles in a directory, by number. Each holds whole records. */
  type Disk = map<nat, seq<Record>>

  /** The number of octets which a record occupies. */
  function Size(r: Record): nat { |EncodeRecord(r)| }

  function TotalSize(rs: seq<Record>): nat {
    if rs == [] then 0 else TotalSize(rs[..|rs| - 1]) + Size(rs[|rs| - 1])
  }

  lemma {:induction false} EncodeRecordsMore(rs: seq<Record>, r: Record)
    ensures EncodeRecords(rs + [r]) == EncodeRecords(rs) + EncodeRecord(r)
  {
    hide EncodeRecord;
    if rs == [] {
      assert (rs + [r])[1..] == [] && EncodeRecords([]) == [];
    } else {
      assert (rs + [r])[1..] == rs[1..] + [r];
      EncodeRecordsMore(rs[1..], r);
    }
  }

  /** The size of a spoolfile is the number of octets in it. */
  lemma {:induction false} SizeIsOctets(rs: seq<Record>)
    ensures TotalSize(rs) == |EncodeRecords(rs)|
  {
    hide EncodeRecord;
    if rs == [] {
    } else {
      var front, last := rs[..|rs| - 1], rs[|rs| - 1];
      SizeIsOctets(front);
      EncodeRecordsMore(front, last);
      assert rs == front + [last];
    }
  }

  /** The spoolfile being written, if any: its number and the size so far. */
  datatype Current = Current(num: nat, size: nat)

  datatype Writer = Writer(sink: Sink, nextNum: nat, current: Option<Current>)

  /** The state after a call, and whether it returned normally. */
  datatype Written = Written(w: Writer, disk: Disk, ok: bool)

  /** A record goes into the current spoolfile if that leaves it within its capacity.
      (The session record which starts a spoolfile is not subject to this.) */
  predicate Fits(w: Writer, rec: Record, capacity: nat) {
    w.current.Some? && w.current.value.size + Size(rec) <= capacity
  }

  /** Create the next spoolfile, which must not exist yet, with just a session record. */
  function Begin(w: Writer, disk: Disk, srec: Record): Written {
    if w.nextNum in disk then Written(w.(nextNum := w.nextNum + 1), disk, false)
    else Written(w.(nextNum := w.nextNum + 1, current := Some(Current(w.nextNum, Size(srec)))),
                 disk[w.nextNum := [srec]], true)
  }

  function Append(w: Writer, disk: Disk, rec: Record): Written
    requires w.current.Some?
  {
    var c := w.current.value;
    Written(w.(current := Some(Current(c.num, c.size + Size(rec)))),
            disk[c.num := (if c.num in disk then disk[c.num] else []) + [rec]], true)
  }

  /** Store a record in the current spoolfile, or if it is full in a new one. */
  function StoreRecord(w: Writer, disk: Disk, rec: Record, capacity: nat): Written {
    if Fits(w, rec, capacity) then Append(w, disk, rec)
    else if w.sink.srec.None? then Written(w, disk, false)
    else
      var b := Begin(w, disk, w.sink.srec.value);
      if b.ok && Fits(b.w, rec, capacity) then Append(b.w, b.disk, rec)
      else Written(b.w, b.disk, false)
  }

  /** What writing a record which is to be stored does. */
  function StoreStep(w: Writer, disk: Disk, rec: Record, capacity: nat): Written {
    var s := StoreRecord(w, disk, rec, capacity);
    if !s.ok then s
    else
      var (sink, ok) := Finish(s.w.sink, rec);
      Written(s.w.(sink := sink), s.disk, ok)
  }

  /** What writing a record to the spool does. */
  function WriteStep(w: Writer, disk: Disk, rec: Record, capacity: nat): Written {
    var (sink, plan) := Prepare(w.sink, rec);
    var w1 := w.(sink := sink);
    match plan
    case Reject => Written(w1, disk, false)
    case Ignore => Written(w1, disk, true)
    case StartSession => Begin(w1, disk, rec)
    case Synchronise =>
      var (sink2, ok) := Finish(sink, rec);
      Written(w1.(sink := sink2), disk, ok)
    case Store => StoreStep(w1, disk, rec, capacity)
  }

  // ---------------------------------------------------------------------------
  // How a session is partitioned
  // ---------------------------------------------------------------------------

  /** The records of consecutive spoolfiles, each without its leading session record. */
  ghost function Contents(disk: Disk, lo: nat, hi: nat): seq<Record>
    requires lo <= hi
    requires forall n :: lo <= n < hi ==> n in disk && disk[n] != []
    decreases hi - lo
  {
    if lo == hi then [] else Contents(disk, lo, hi - 1) + disk[hi - 1][1..]
  }

  /** What is true of the spoolfiles written since number `base`. `stored` is what has been
      stored in them, and `heads` the session record in effect when each was started. */
  ghost predicate Partitioned(w: Writer, disk: Disk, capacity: nat, base: nat,
                              stored: seq<Record>, heads: seq<Record>)
  {
    && base <= w.nextNum && |heads| == w.nextNum - base
    && (forall n :: base <= n < w.nextNum ==> n in disk && disk[n] != [] && disk[n][0] == heads[n - base])
    && (forall n | n in disk :: n < w.nextNum)
    && Contents(disk, base, w.nextNum) == stored
    && (forall n :: base <= n < w.nextNum ==> TotalSize(disk[n]) <= capacity || |disk[n]| == 1)
    && (w.current.Some? ==>
          && base < w.nextNum && w.current.value.num == w.nextNum - 1
          && w.current.value.size == TotalSize(disk[w.nextNum - 1])
          && w.sink.srec == Some(heads[|heads| - 1]))
    && (w.current.None? ==> base == w.nextNum)
    && (w.sink.srec.Some? ==> w.current.Some?)
  }

  lemma {:induction false} ContentsSame(d1: Disk, d2: Disk, lo: nat, hi: nat)
    requires lo <= hi
    requires forall n :: lo <= n < hi ==> n in d1 && d1[n] != [] && n in d2 && d2[n] == d1[n]
    ensures Contents(d1, lo, hi) == Contents(d2, lo, hi)
    decreases hi - lo
  {
    if lo >= hi {
    } else {
      ContentsSame(d1, d2, lo, hi - 1);
    }
  }

  lemma BeginPartitioned(w: Writer, disk: Disk, capacity: nat, base: nat, stored: seq<Record>,
                         heads: seq<Record>, sink: Sink, srec: Record)
    requires Partitioned(w, disk, capacity, base, stored, heads) && sink.srec == Some(srec)
    ensures var b := Begin(w.(sink := sink), disk, srec);
            b.ok && Partitioned(b.w, b.disk, capacity, base, stored, heads + [srec])
  {
    hide Size;
    var b := Begin(w.(sink := sink), disk, srec);
    ContentsSame(disk, b.disk, base, w.nextNum);
    assert Contents(b.disk, base, b.w.nextNum) == Contents(b.disk, base, w.nextNum) + [srec][1..];
    assert TotalSize([srec]) == Size(srec) by { assert [srec][..0] == []; }
  }

  lemma AppendPartitioned(w: Writer, disk: Disk, capacity: nat, base: nat, stored: seq<Record>,
                          heads: seq<Record>, rec: Record)
    requires Partitioned(w, disk, capacity, base, stored, heads) && Fits(w, rec, capacity)
    ensures var a := Append(w, disk, rec);
            Partitioned(a.w, a.disk, capacity, base, stored + [rec], heads)
  {
    hide Size, Contents, TotalSize;
    var a := Append(w, disk, rec);
    var last := w.nextNum - 1;
    ContentsSame(disk, a.disk, base, last);
    var f := disk[last];
    assert (f + [rec])[1..] == f[1..] + [rec];
    MoreSize(f, rec);
    ContentsLast(disk, base, w.nextNum);
    ContentsLast(a.disk, base, w.nextNum);
    assert stored + [rec] == Contents(disk, base, last) + (f[1..] + [rec]);
  }

  lemma MoreSize(f: seq<Record>, rec: Record)
    ensures TotalSize(f + [rec]) == TotalSize(f) + Size(rec)
  {
    assert (f + [rec])[..|f|] == f;
  }

  lemma ContentsLast(disk: Disk, lo: nat, hi: nat)
    requires lo < hi && forall n :: lo <= n < hi ==> n in disk && disk[n] != []
    ensures Contents(disk, lo, hi) == Contents(disk, lo, hi - 1) + disk[hi - 1][1..]
  {
  }

  /** Events, end records and signatures are what a spoolfile is for. */
  ghost predicate IsContent(rec: Record) { rec.channel >= 0 || rec.channel == -2 || rec.channel == -6 }

  /** Whether a write stores its record: that is content, there is a session, which has not ended if
      it is an event, and it fits in the current spoolfile or in a new one beside the session record. */
  ghost predicate IsStored(w: Writer, disk: Disk, rec: Record, capacity: nat) {
    && IsContent(rec) && w.sink.srec.Some? && (rec.channel >= 0 ==> !w.sink.ended)
    && (|| (w.current.Some? && w.current.value.size + Size(rec) <= capacity)
        || (w.nextNum !in disk && Size(w.sink.srec.value) + Size(rec) <= capacity))
  }

  /** That is when the code gets as far as storing it. */
  lemma StoredMeans(w: Writer, disk: Disk, rec: Record, capacity: nat)
    ensures IsStored(w, disk, rec, capacity) <==>
              var (sink, plan) := Prepare(w.sink, rec);
              plan == Store && StoreRecord(w.(sink := sink), disk, rec, capacity).ok
  {
    hide Size, RecordTs, RecordSource;
  }

  /** Every write keeps the partition: what has been stored grows by the record, or not at
      all, and each spoolfile starts with the session record in effect. */
  lemma WriteKeepsPartition(w: Writer, disk: Disk, capacity: nat, base: nat,
                            stored: seq<Record>, heads: seq<Record>, rec: Record)
    returns (heads': seq<Record>)
    requires Partitioned(w, disk, capacity, base, stored, heads)
    ensures heads <= heads'
    ensures var s := WriteStep(w, disk, rec, capacity);
            Partitioned(s.w, s.disk, capacity, base,
                        if IsStored(w, disk, rec, capacity) then stored + [rec] else stored, heads')
  {
    hide Size, Contents, Append, Begin, Fits, Partitioned, MakeReply, RecordTs, RecordSource, RecordSeqnum;
    var (sink, plan) := Prepare(w.sink, rec);
    var w1 := w.(sink := sink);
    var s := WriteStep(w, disk, rec, capacity);
    StoredMeans(w, disk, rec, capacity);
    hide IsStored;
    heads' := heads;
    if plan == StartSession {
      BeginPartitioned(w, disk, capacity, base, stored, heads, sink, rec);
      heads' := heads + [rec];
    } else if plan == Store {
      assert w1 == w;
      var t := StoreRecord(w, disk, rec, capacity);
      heads' := StorePartitioned(w, disk, capacity, base, stored, heads, rec);
      PartitionedBySrec(t.w, t.disk, capacity, base, if t.ok then stored + [rec] else stored, heads', s.w.sink);
    } else {
      assert w1 == w;
      PartitionedBySrec(w, disk, capacity, base, stored, heads, s.w.sink);
    }
  }

  lemma StorePartitioned(w: Writer, disk: Disk, capacity: nat, base: nat,
                         stored: seq<Record>, heads: seq<Record>, rec: Record)
    returns (heads': seq<Record>)
    requires Partitioned(w, disk, capacity, base, stored, heads) && w.sink.srec.Some?
    ensures heads <= heads'
    ensures var t := StoreRecord(w, disk, rec, capacity);
            && Partitioned(t.w, t.disk, capacity, base, if t.ok then stored + [rec] else stored, heads')
            && t.w.sink == w.sink
  {
    hide Size, Contents, Append, Begin, Fits, Partitioned;
    heads' := heads;
    SinkKept(w, disk, w.sink.srec.value, rec);
    if Fits(w, rec, capacity) {
      AppendPartitioned(w, disk, capacity, base, stored, heads, rec);
    } else {
      var srec := w.sink.srec.value;
      assert w.(sink := w.sink) == w;
      BeginPartitioned(w, disk, capacity, base, stored, heads, w.sink, srec);
      var b := Begin(w, disk, srec);
      heads' := heads + [srec];
      if Fits(b.w, rec, capacity) {
        AppendPartitioned(b.w, b.disk, capacity, base, stored, heads', rec);
        SinkKept(b.w, b.disk, srec, rec);
      }
    }
  }

  lemma SinkKept(w: Writer, disk: Disk, srec: Record, rec: Record)
    ensures Begin(w, disk, srec).w.sink == w.sink
    ensures w.current.Some? ==> Append(w, disk, rec).w.sink == w.sink && Append(w, disk, rec).ok
    ensures forall c :: Fits(w, rec, c) ==> w.current.Some?
  {
  }

  lemma PartitionedBySrec(w: Writer, disk: Disk, capacity: nat, base: nat,
                          stored: seq<Record>, heads: seq<Record>, sink: Sink)
    requires Partitioned(w, disk, capacity, base, stored, heads) && sink.srec == w.sink.srec
    ensures Partitioned(w.(sink := sink), disk, capacity, base, stored, heads)
  {
    hide Contents, TotalSize;
  }

  /** A record which can be stored at all is refused for want of space exactly when it does
      not fit in the current spoolfile, nor in a new one beside the session record. */
  lemma RefusedExactly(w: Writer, disk: Disk, capacity: nat, base: nat,
                       stored: seq<Record>, heads: seq<Record>, rec: Record)
    requires Partitioned(w, disk, capacity, base, stored, heads)
    requires IsContent(rec) && w.sink.srec.Some? && (rec.channel >= 0 ==> !w.sink.ended)
    ensures w.current.Some?
    ensures IsStored(w, disk, rec, capacity) <==>
              || w.current.value.size + Size(rec) <= capacity
              || Size(w.sink.srec.value) + Size(rec) <= capacity
  {
    hide Size, RecordTs, RecordSource, RecordSeqnum;
  }

  /** It is not the case that every spoolfile accepts at least one record besides its
      session record, whatever the size. */
  lemma OversizedRecordRefused(w: Writer, disk: Disk, capacity: nat, base: nat,
                               stored: seq<Record>, heads: seq<Record>, rec: Record)
    requires Partitioned(w, disk, capacity, base, stored, heads)
    requires IsContent(rec) && w.sink.srec.Some? && (rec.channel >= 0 ==> !w.sink.ended) && Size(rec) > capacity
    ensures !WriteStep(w, disk, rec, capacity).ok
    ensures WriteStep(w, disk, rec, capacity).w.nextNum == w.nextNum + 1
    ensures w.sink.srec.Some? && WriteStep(w, disk, rec, capacity).disk == disk[w.nextNum := [w.sink.srec.value]]
  {
    hide Size, RecordTs, RecordSource, RecordSeqnum;
  }

  /** What writing an event, end record or signature does, and when it is refused. (That the spoolfiles
      grow by exactly the record if it is stored, and otherwise by nothing, is said above.) */
  lemma ContentWritten(w: Writer, disk: Disk, rec: Record, capacity: nat)
    requires IsContent(rec)
    ensures var t, n := WriteStep(w, disk, rec, capacity), RecordSeqnum(rec);
            && (t.ok <==> IsStored(w, disk, rec, capacity) && (rec.channel >= 0 ==> n.Some?))
            && t.w.sink == if !t.ok then w.sink
                           else if rec.channel == -2 then w.sink.(ended := true)
                           else if rec.channel == -6 then w.sink
                           else w.sink.(seqnum := (n.value + 1) % 0x1_0000_0000_0000_0000)
  {
    hide Size, RecordTs, RecordSource, RecordSeqnum;
  }

  /** What writing a session record does: one with a new timestamp starts a session, in a spoolfile of
      its own; the same one again does nothing; any other is refused. */
  lemma SessionWritten(w: Writer, disk: Disk, rec: Record, capacity: nat)
    requires rec.channel == -1
    ensures var t := WriteStep(w, disk, rec, capacity);
            var prior := if w.sink.srec.Some? then RecordTs(w.sink.srec.value) else None;
            if RecordSource(rec) == Some(w.sink.srcid) &&
               (w.sink.srec.None? || (prior.Some? && RecordTs(rec).Some? && RecordTs(rec) != prior)) then
              var begun := w.nextNum !in disk;
              t == Written(Writer(Sink(w.sink.srcid, Some(rec), 0, false, w.sink.reply), w.nextNum + 1,
                                  if begun then Some(Current(w.nextNum, Size(rec))) else w.current),
                           if begun then disk[w.nextNum := [rec]] else disk, begun)
            else
              t == Written(w, disk, RecordSource(rec) == Some(w.sink.srcid) && RecordTs(rec).Some?
                                    && w.sink.srec == Some(rec))
  {
    hide Size, RecordTs, RecordSource;
  }

  /** What writing a record of any other kind does: a sync record makes a reply, and the rest are
      disregarded (but not before there is a session). */
  lemma OthersWritten(w: Writer, disk: Disk, rec: Record, capacity: nat)
    requires !IsContent(rec) && rec.channel != -1
    ensures var t, reply := WriteStep(w, disk, rec, capacity), MakeReply(w.sink);
            if rec.channel == -5 && w.sink.srec.Some? && reply.Some? then
              t == Written(w.(sink := w.sink.(reply := reply)), disk, true)
            else
              t == Written(w, disk, rec.channel != -5 && w.sink.srec.Some?)
  {
    hide MakeReply;
  }

  /** A reply can be made if the session record has a source and a timestamp, and states them with the
      sequence number reached. */
  lemma ReplyMade(k: Sink)
    requires k.srec.Some? && 0 <= k.seqnum < 0x1_0000_0000_0000_0000
    ensures var source, ts, reply := RecordSource(k.srec.value), RecordTs(k.srec.value), MakeReply(k);
            && (reply.Some? <==> source.Some? && ts.Some?)
            && (reply.Some? ==> reply.value.channel == -5 && RecordSource(reply.value) == source
                                && RecordTs(reply.value) == ts && RecordSeqnum(reply.value) == Some(k.seqnum))
  {
    hide RecordSource, RecordSeqnum, Insert;
    var source, ts := RecordSource(k.srec.value), RecordTs(k.srec.value);
    if source.Some? && ts.Some? {
      ReplyStates(source.value, ts.value, k.seqnum);
    }
  }

  function WriteAll(w: Writer, disk: Disk, recs: seq<Record>, capacity: nat): Written {
    if recs == [] then Written(w, disk, true)
    else
      var s := WriteAll(w, disk, recs[..|recs| - 1], capacity);
      WriteStep(s.w, s.disk, recs[|recs| - 1], capacity)
  }

  /** The records of a sequence of writes which are stored. */
  ghost function StoredOf(w: Writer, disk: Disk, recs: seq<Record>, capacity: nat): seq<Record> {
    if recs == [] then []
    else
      var front, rec := recs[..|recs| - 1], recs[|recs| - 1];
      var s := WriteAll(w, disk, front, capacity);
      StoredOf(w, disk, front, capacity) + (if IsStored(s.w, s.disk, rec, capacity) then [rec] else [])
  }

  /** For every sequence of writes: dropping the leading session record of each spoolfile and
      joining the rest gives the stored records in order. */
  lemma {:induction false} SpoolPartition(w: Writer, disk: Disk, recs: seq<Record>, capacity: nat)
    returns (heads: seq<Record>)
    requires w.sink.srec.None? && w.current.None?
    requires forall n | n in disk :: n < w.nextNum
    ensures var s := WriteAll(w, disk, recs, capacity);
            Partitioned(s.w, s.disk, capacity, w.nextNum, StoredOf(w, disk, recs, capacity), heads)
    decreases |recs|
  {
    hide WriteStep, IsStored;
    heads := [];
    if recs == [] {
    } else {
      var front, rec := recs[..|recs| - 1], recs[|recs| - 1];
      heads := SpoolPartition(w, disk, front, capacity);
      var s := WriteAll(w, disk, front, capacity);
      heads := WriteKeepsPartition(s.w, s.disk, capacity, w.nextNum, StoredOf(w, disk, front, capacity), heads, rec);
      var stored := StoredOf(w, disk, front, capacity);
      assert stored + [] == stored;
    }
  }

  /** An event with more content than a spoolfile is to hold. */
  function BulkyEvent(capacity: nat): Record {
    Record(0, [Binary(0, seq(capacity, i => 0))])
  }

  lemma BulkySize(capacity: nat)
    ensures Size(BulkyEvent(capacity)) > capacity && BulkyEvent(capacity).IsEvent()
  {
    var a := Binary(0, seq(capacity, i => 0));
    ListLengthExact([a]);
    assert ListLength([a]) >= capacity;
  }

  /** Such a refusal does occur, whatever the capacity: a session is begun, and an event larger than
      a spoolfile is passed to the writer. */
  lemma OversizedRecordOccurs(srcid: seq<Octet>, capacity: nat)
    ensures var w, srec, rec := Writer(NewSink(srcid), 0, None), SessionRecord(srcid, 1), BulkyEvent(capacity);
            && WriteAll(w, map[], [srec], capacity).ok && !WriteAll(w, map[], [srec, rec], capacity).ok
            && WriteAll(w, map[], [srec, rec], capacity).disk == map[0 := [srec], 1 := [srec]]
  {
    hide Size, SessionRecord, BulkyEvent, TotalSize, Contents;
    var w, srec, rec := Writer(NewSink(srcid), 0, None), SessionRecord(srcid, 1), BulkyEvent(capacity);
    SessionRecordStates(srcid, 1);
    BulkySize(capacity);
    assert [srec, rec][..1] == [srec] && [srec][..0] == [];
    var heads := SpoolPartition(w, map[], [srec], capacity);
  }

  // ---------------------------------------------------------------------------
  // The writer as an object
  // ---------------------------------------------------------------------------

  class Directory {
    var files: Disk
    constructor ()
      ensures files == map[]
    {
      files := map[];
    }
  }

  class SpoolfileWriter {
    const dir: Directory
    const num: nat
    const capacity: nat
    var size: nat
    var first: bool

    /** Create a spoolfile, which must not exist yet. */
    constructor (dir: Directory, num: nat, capacity: nat)
      requires num !in dir.files
      modifies dir
      ensures this.dir == dir && this.num == num && this.capacity == capacity
      ensures size == 0 && first
      ensures dir.files == old(dir.files)[num := []]
    {
      this.dir, this.num, this.capacity := dir, num, capacity;
      size, first := 0, true;
      new;
      dir.files := dir.files[num := []];
    }

    /** Write a record, unless that would exceed the capacity and it is not the first. */
    method Write(rec: Record) returns (written: bool)
      requires num in dir.files
      modifies this, dir
      ensures written == (old(size) + Size(rec) <= capacity || old(first))
      ensures written ==> size == old(size) + Size(rec) && !first
      ensures written ==> dir.files == old(dir.files)[num := old(dir.files)[num] + [rec]]
      ensures !written ==> size == old(size) && first == old(first) && dir.files == old(dir.files)
    {
      var fullLen := RecordLength(rec);
      if size + fullLen > capacity && !first {
        return false;
      }
      dir.files := dir.files[num := dir.files[num] + [rec]];
      size := size + fullLen;
      first := false;
      written := true;
    }
  }

  /** The size of a record, worked out from the lengths of its parts. */
  method RecordLength(rec: Record) returns (len: nat)
    ensures len == Size(rec)
  {
    var contentLen := ListLength(rec.attributes);
    len := |B.EncodeSigned(rec.channel)| + |B.EncodeUnsigned(contentLen)| + contentLen;
    ListLengthExact(rec.attributes);
  }

  lemma EmptyPlus(r: Record)
    ensures [] + [r] == [r]
  {
  }

  lemma SignatureStep(w: Writer, disk: Disk, rec: Record, capacity: nat)
    requires rec.channel == CHANNEL_SIGNATURE
    ensures StoreStep(w, disk, rec, capacity) == StoreRecord(w, disk, rec, capacity)
  {
    hide StoreRecord;
  }

  class FileSessionWriter {
    const dir: Directory
    const capacity: nat
    var srcid: seq<Octet>
    var srec: Option<Record>
    var seqnum: int
    var ended: bool
    var reply: Option<Record>
    var nextNum: nat
    var sfw: SpoolfileWriter?

    /** The state of this object as a value. */
    function State(): Writer
      reads this, sfw
    {
      Writer(Sink(srcid, srec, seqnum, ended, reply), nextNum,
             if sfw == null then None else Some(Current(sfw.num, sfw.size)))
    }

    ghost predicate Valid()
      reads this, sfw, dir
    {
      sfw != null ==> sfw.dir == dir && sfw.capacity == capacity && !sfw.first && sfw.num in dir.files
    }

    constructor (dir: Directory, srcid: seq<Octet>, capacity: nat, nextNum: nat)
      ensures Valid() && this.dir == dir && this.capacity == capacity
      ensures State() == Writer(NewSink(srcid), nextNum, None)
      ensures State().sink == Sink(srcid, None, 0, true, None)
    {
      this.dir, this.capacity, this.srcid, this.nextNum := dir, capacity, srcid, nextNum;
      srec, seqnum, ended, reply, sfw := None, 0, true, None, null;
    }

    method BeginSpoolfile(srec: Record) returns (r: Result<()>)
      requires Valid()
      modifies this, dir
      ensures Valid()
      ensures var b := Begin(old(State()), old(dir.files), srec);
              State() == b.w && dir.files == b.disk && r.Ok? == b.ok
      ensures sfw == old(sfw) || fresh(sfw)
    {
      var num := nextNum;
      nextNum := nextNum + 1;
      if num in dir.files {
        return Err(Invalid);
      }
      var f := new SpoolfileWriter(dir, num, capacity);
      var written := f.Write(srec);
      sfw := f;
      r := Ok(());
      EmptyPlus(srec);
      assert dir.files == old(dir.files)[num := [srec]];
    }

    method WriteRecord(rec: Record) returns (r: Result<()>)
      requires Valid()
      modifies this, sfw, dir
      ensures Valid()
      ensures var s := StoreRecord(old(State()), old(dir.files), rec, capacity);
              State() == s.w && dir.files == s.disk && r.Ok? == s.ok
      ensures sfw == old(sfw) || fresh(sfw)
    {
      var written := false;
      if sfw != null {
        written := sfw.Write(rec);
      }
      if !written {
        if srec.None? {
          return Err(Invalid);
        }
        var b := BeginSpoolfile(srec.value);
        if b.Err? {
          return b;
        }
        written := sfw.Write(rec);
      }
      r := if written then Ok(()) else Err(Invalid);
    }

    method Write(rec: Record) returns (r: Result<()>)
      requires Valid()
      modifies this, sfw, dir
      ensures Valid()
      ensures var s := WriteStep(old(State()), old(dir.files), rec, capacity);
              State() == s.w && dir.files == s.disk && r.Ok? == s.ok
    {
      hide StoreStep, Begin, MakeReply, RecordSeqnum;
      if srec.None? {
        if rec.channel != CHANNEL_SESSION {
          return Err(Invalid);
        }
      } else if ended && rec.IsEvent() {
        return Err(Invalid);
      }
      if rec.channel == CHANNEL_SESSION {
        r := ProcessSessionRecord(rec);
      } else if rec.channel == CHANNEL_END {
        r := ProcessEndRecord(rec);
      } else if rec.channel == CHANNEL_SYNC {
        r := ProcessSyncRecord();
      } else if rec.channel == CHANNEL_SIGNATURE {
        r := WriteRecord(rec);
        SignatureStep(old(State()), old(dir.files), rec, capacity);
      } else if rec.IsEvent() {
        r := ProcessEventRecord(rec);
      } else {
        r := Ok(());
      }
    }

    method ProcessEndRecord(rec: Record) returns (r: Result<()>)
      requires Valid() && rec.channel == CHANNEL_END
      modifies this, sfw, dir
      ensures Valid()
      ensures var s := StoreStep(old(State()), old(dir.files), rec, capacity);
              State() == s.w && dir.files == s.disk && r.Ok? == s.ok
    {
      hide StoreRecord;
      r := WriteRecord(rec);
      if r.Ok? {
        ended := true;
      }
    }

    method ProcessEventRecord(rec: Record) returns (r: Result<()>)
      requires Valid() && rec.IsEvent()
      modifies this, sfw, dir
      ensures Valid()
      ensures var s := StoreStep(old(State()), old(dir.files), rec, capacity);
              State() == s.w && dir.files == s.disk && r.Ok? == s.ok
    {
      hide StoreRecord, RecordSeqnum;
      r := WriteRecord(rec);
      if r.Ok? {
        var n := RecordSeqnum(rec);
        if n.None? {
          return Err(Invalid);
        }
        seqnum := Successor(n.value);
      }
    }

    method ProcessSessionRecord(rec: Record) returns (r: Result<()>)
      requires Valid()
      modifies this, dir
      ensures Valid()
      ensures var (k, plan) := Prepare(old(State()).sink, rec);
              rec.channel == CHANNEL_SESSION ==>
                if plan == StartSession then
                  var b := Begin(old(State()).(sink := k), old(dir.files), rec);
                  State() == b.w && dir.files == b.disk && r.Ok? == b.ok
                else State() == old(State()) && dir.files == old(dir.files) && r.Ok? == (plan == Ignore)
    {
      if RecordSource(rec) != Some(srcid) {
        return Err(Invalid);
      }
      var fresh' := srec.None?;
      if !fresh' {
        var ts1, ts2 := RecordTs(srec.value), RecordTs(rec);
        if ts1.None? || ts2.None? {
          return Err(Invalid);
        }
        fresh' := ts1 != ts2;
      }
      if fresh' {
        srec := Some(rec);
        seqnum := 0;
        ended := false;
        r := BeginSpoolfile(rec);
      } else {
        r := if srec.value == rec then Ok(()) else Err(Invalid);
      }
    }

    method ProcessSyncRecord() returns (r: Result<()>)
      requires Valid()
      modifies this
      ensures Valid() && sfw == old(sfw)
      ensures var m := MakeReply(old(State()).sink);
              if m.None? then State() == old(State()) && r.Err?
              else State() == old(State()).(sink := old(State()).sink.(reply := m)) && r.Ok?
    {
      var m := MakeReply(Sink(srcid, srec, seqnum, ended, reply));
      if m.None? {
        return Err(Invalid);
      }
      reply := m;
      r := Ok(());
    }
  }
}
