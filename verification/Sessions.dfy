/** The state machine shared by everything that sessions are written to. */
module Sessions {
  import opened Octets
  import opened Attributes
  import opened Codec
  import opened Records

  datatype Ts = Ts(sec: int, nsec: int)

  function RecordTs(r: Record): Option<Ts> {
    match FindOne(r.attributes, ATTRID_TS)
    case Some(Timestamp(_, sec, nsec)) => Some(Ts(sec, nsec))
    case _ => None
  }

  function RecordSource(r: Record): Option<seq<Octet>> { FindText(r.attributes, ATTRID_SOURCE) }

  function RecordSeqnum(r: Record): Option<int> { FindUnsigned(r.attributes, ATTRID_SEQNUM) }

  /** Increment of an unsigned 64-bit integer. */
  function Successor(n: int): int { (n + 1) % TWO64 }

  /** The state of a session writer: the current session record if any, the sequence
      number after that of the latest event, whether the session has ended, and a reply
      waiting to be read if any. */
  datatype Sink = Sink(srcid: seq<Octet>, srec: Option<Record>, seqnum: int, ended: bool, reply: Option<Record>)

  function NewSink(srcid: seq<Octet>): Sink { Sink(srcid, None, 0, true, None) }

  /** Which handler is called for a record, if any. */
  datatype Plan =
    | Reject           // an exception is thrown
    | Ignore           // nothing to be done
    | StartSession
    | Store            // an event, end record or signature
    | Synchronise

  /** What writing a record does up to the point where a handler is called. */
  function Prepare(k: Sink, rec: Record): (Sink, Plan) {
    if k.srec.None? && rec.channel != CHANNEL_SESSION then (k, Reject)
    else if k.srec.Some? && k.ended && rec.IsEvent() then (k, Reject)
    else if rec.channel == CHANNEL_SESSION then
      if RecordSource(rec) != Some(k.srcid) then (k, Reject)
      else if RecordTs(rec).None? then
        // With no session record to compare with, the missing timestamp goes unnoticed here.
        if k.srec.None? then (k.(srec := Some(rec), seqnum := 0, ended := false), StartSession) else (k, Reject)
      else if k.srec.None? || RecordTs(k.srec.value) != RecordTs(rec) then
        if k.srec.Some? && RecordTs(k.srec.value).None? then (k, Reject)
        else (k.(srec := Some(rec), seqnum := 0, ended := false), StartSession)
      else if k.srec.value == rec then (k, Ignore)
      else (k, Reject)
    else if rec.channel == CHANNEL_SYNC then (k, Synchronise)
    else if rec.channel == CHANNEL_END || rec.channel == CHANNEL_SIGNATURE || rec.IsEvent() then (k, Store)
    else (k, Ignore)
  }

  /** The reply to a sync record. */
  function SyncReply(source: seq<Octet>, ts: Ts, seqnum: UInt64): Record
    requires IsInt64(ts.sec) && 0 <= ts.nsec < NSEC_LIMIT
  {
    Record(CHANNEL_SYNC, Insert(Insert(Insert([],
      Text(ATTRID_SOURCE, source)),
      Timestamp(ATTRID_TS, ts.sec, ts.nsec)),
      UnsignedInt(ATTRID_SEQNUM, seqnum)))
  }

  function MakeReply(k: Sink): Option<Record> {
    match k.srec
    case None => None
    case Some(srec) =>
      var source, ts := RecordSource(srec), RecordTs(srec);
      if source.None? || ts.None? || !IsUInt64(k.seqnum) then None
      else if !(IsInt64(ts.value.sec) && 0 <= ts.value.nsec < NSEC_LIMIT) then None
      else Some(SyncReply(source.value, ts.value, k.seqnum))
  }

  /** What writing a record does once its handler has returned, and whether that succeeds. */
  function Finish(k: Sink, rec: Record): (Sink, bool) {
    if rec.channel == CHANNEL_END then (k.(ended := true), true)
    else if rec.channel == CHANNEL_SYNC then
      var reply := MakeReply(k);
      if reply.None? then (k, false) else (k.(reply := reply), true)
    else if rec.IsEvent() then
      match RecordSeqnum(rec)
      case None => (k, false)
      case Some(n) => (k.(seqnum := Successor(n)), true)
    else (k, true)
  }

  /** A reply states the source, timestamp and sequence number it was made from. */
  lemma ReplyStates(source: seq<Octet>, ts: Ts, seqnum: UInt64)
    requires IsInt64(ts.sec) && 0 <= ts.nsec < NSEC_LIMIT
    ensures var r := SyncReply(source, ts, seqnum);
            && RecordSource(r) == Some(source)
            && RecordTs(r) == Some(ts)
            && RecordSeqnum(r) == Some(seqnum as int)
  {
    hide Insert, Select, Sorted;
    var a, b := Text(ATTRID_SOURCE, source), Timestamp(ATTRID_TS, ts.sec, ts.nsec);
    var c := UnsignedInt(ATTRID_SEQNUM, seqnum);
    var one := Insert([], a);
    var two := Insert(one, b);
    EmptyList();
    InsertSorted([], a);
    InsertSorted(one, b);
    ThreeSelected(a, b, c, ATTRID_SOURCE);
    ThreeSelected(a, b, c, ATTRID_TS);
    ThreeSelected(a, b, c, ATTRID_SEQNUM);
  }

  lemma EmptyList()
    ensures Sorted([])
    ensures forall id: Int32 :: Select([], id) == []
  {
  }

  lemma ThreeSelected(a: Attr, b: Attr, c: Attr, id: Int32)
    ensures Select(Insert(Insert(Insert([], a), b), c), id)
         == (if id == a.id then [a] else []) + (if id == b.id then [b] else []) + (if id == c.id then [c] else [])
  {
    hide Insert, Select, Sorted;
    EmptyList();
    InsertSorted([], a);
    InsertSorted(Insert([], a), b);
    InsertStable([], a, id);
    InsertStable(Insert([], a), b, id);
    InsertStable(Insert(Insert([], a), b), c, id);
  }

  /** A small session record, for examples. */
  function SessionRecord(srcid: seq<Octet>, sec: Int64): Record {
    Record(CHANNEL_SESSION, [Text(ATTRID_SOURCE, srcid), Timestamp(ATTRID_TS, sec, 0)])
  }

  lemma SessionRecordStates(srcid: seq<Octet>, sec: Int64)
    ensures var r := SessionRecord(srcid, sec);
            r.channel == CHANNEL_SESSION && RecordSource(r) == Some(srcid) && RecordTs(r) == Some(Ts(sec, 0))
  {
    hide Select;
    var a, b := Text(ATTRID_SOURCE, srcid), Timestamp(ATTRID_TS, sec, 0);
    assert [a, b] == [a] + [b];
    SelectConcat([a], [b], ATTRID_SOURCE);
    SelectConcat([a], [b], ATTRID_TS);
    SelectSingle(a, ATTRID_SOURCE);
    SelectSingle(b, ATTRID_SOURCE);
    SelectSingle(a, ATTRID_TS);
    SelectSingle(b, ATTRID_TS);
  }
}
