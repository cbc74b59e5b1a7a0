/** Replaying spoolfiles, and deleting each once it has been acknowledged. */
module SpoolReader {
  import opened Octets
  import opened Attributes
  import opened Codec
  import opened Records
  import opened Sessions
  import opened Spool

  /** The spoolfile being read: its number, the number of the one to follow, how many of its
      records have been read, and whether the next spoolfile has been seen to exist since. */
  datatype OpenFile = OpenFile(num: nat, next: nat, pos: nat, eof: bool)

  datatype Reader = Reader(
    file: Option<OpenFile>,
    nextNum: nat,
    scanned: bool,
    ts: Ts,
    seqnum: int,
    awaiting: bool)

  const NO_SESSION := Ts(0, 0)
  const NEW_READER := Reader(None, 0, false, NO_SESSION, 0, false)

  /** One attempt at reading: a record, a reason to try again (at once, or once something
      has changed), or an exception. */
  datatype Attempt = Got(rec: Record) | Again | Blocked | Thrown

  const SYNC_REQUEST := Record(CHANNEL_SYNC, [])

  ghost predicate IsLeast(n: nat, disk: Disk) { n in disk && forall k | k in disk :: n <= k }

  ghost predicate IsGreatest(n: nat, disk: Disk) { n in disk && forall k | k in disk :: k <= n }

  /** The session timestamp and sequence number after a record: a new timestamp starts the
      sequence afresh, and an event moves it on. None if an attribute is missing. */
  function Follow(ts: Ts, seqnum: int, rec: Record): Option<(Ts, int)> {
    if rec.channel == CHANNEL_SESSION then
      match RecordTs(rec)
      case None => None
      case Some(t) => Some(if t != ts then (t, 0) else (ts, seqnum))
    else if rec.IsEvent() then
      match RecordSeqnum(rec)
      case None => None
      case Some(n) => Some((ts, Successor(n)))
    else Some((ts, seqnum))
  }

  /** Open the first spoolfile, having found its number by scanning if not already known. */
  function Open(r: Reader, disk: Disk, first: nat): (Reader, Attempt) {
    if !r.scanned && disk == map[] then (r, Blocked)
    else
      var n := if r.scanned then r.nextNum else first;
      var moved := r.(nextNum := n + 2, scanned := true);
      if n in disk then (moved.(file := Some(OpenFile(n, n + 1, 0, false))), Again)
      else (moved, Thrown)
  }

  /** Read from the open spoolfile. The end of the file counts only if the next spoolfile was
      seen to exist beforehand. */
  function ReadOpen(r: Reader, disk: Disk): (Reader, Attempt)
    requires r.file.Some?
  {
    var f := r.file.value;
    var content := if f.num in disk then disk[f.num] else [];
    if r.awaiting then (r, Thrown)
    else if f.pos < |content| then
      var moved := r.(file := Some(f.(pos := f.pos + 1, eof := false)));
      match Follow(r.ts, r.seqnum, content[f.pos])
      case None => (moved, Thrown)
      case Some((ts, seqnum)) => (moved.(ts := ts, seqnum := seqnum), Got(content[f.pos]))
    else if f.eof then (r.(awaiting := true), Got(SYNC_REQUEST))
    else if f.next in disk then (r.(file := Some(f.(eof := true))), Again)
    else (r, Blocked)
  }

  function Read(r: Reader, disk: Disk, first: nat): (Reader, Attempt) {
    if r.file.None? then Open(r, disk, first) else ReadOpen(r, disk)
  }

  /** Whether a sync reply matches the outstanding request. */
  predicate Acknowledges(r: Reader, srcid: seq<Octet>, reply: Record) {
    && r.awaiting
    && RecordSource(reply) == Some(srcid)
    && RecordTs(reply) == Some(r.ts)
    && RecordSeqnum(reply) == Some(r.seqnum)
  }

  /** Delete the spoolfile just acknowledged (unless asked not to) and open the next. */
  function Acknowledge(r: Reader, disk: Disk, srcid: seq<Octet>, nodelete: bool, reply: Record)
    : (Reader, Disk, bool)
  {
    if r.file.None? || !Acknowledges(r, srcid, reply) then (r, disk, false)
    else
      var f := r.file.value;
      var left := if nodelete then disk else disk - {f.num};
      var n := r.nextNum;
      if f.next in left then
        (r.(file := Some(OpenFile(f.next, n, 0, false)), nextNum := n + 1, awaiting := false), left, true)
      else (r.(nextNum := n + 1), left, false)
  }

  /** For every reader, directory and reply: an acknowledgement succeeds if and only if the reader
      is awaiting it, it states exactly the source, timestamp and sequence number which the reader has
      reached, and the next spoolfile is there. It deletes the spoolfile which has been read, and opens
      the next. */
  lemma AcknowledgesExactly(r: Reader, disk: Disk, srcid: seq<Octet>, nodelete: bool, reply: Record)
    ensures var (r', disk', ok) := Acknowledge(r, disk, srcid, nodelete, reply);
            var matches := r.awaiting && r.file.Some? && RecordSource(reply) == Some(srcid)
                           && RecordTs(reply) == Some(r.ts) && RecordSeqnum(reply) == Some(r.seqnum);
            && (!matches ==> !ok && r' == r && disk' == disk)
            && (matches ==>
                  var f := r.file.value;
                  && disk' == (if nodelete then disk else disk - {f.num})
                  && (ok <==> f.next in disk')
                  && r' == if ok then r.(file := Some(OpenFile(f.next, r.nextNum, 0, false)), nextNum := r.nextNum + 1,
                                         awaiting := false)
                           else r.(nextNum := r.nextNum + 1))
  {
    hide RecordSource, RecordTs, RecordSeqnum;
  }

  /** Reading a spoolfile gives its records in order, and keeps account of the session timestamp and of
      the sequence number to follow that of the latest event. */
  lemma ReadsInOrder(r: Reader, disk: Disk, first: nat)
    requires r.file.Some? && !r.awaiting && r.file.value.num in disk
    requires r.file.value.pos < |disk[r.file.value.num]|
    ensures var f := r.file.value; var rec := disk[f.num][f.pos]; var (r', attempt) := Read(r, disk, first);
            var refused := (rec.channel == -1 && RecordTs(rec).None?) || (rec.channel >= 0 && RecordSeqnum(rec).None?);
            && attempt == (if refused then Thrown else Got(rec))
            && r'.file == Some(OpenFile(f.num, f.next, f.pos + 1, false)) && !r'.awaiting && r'.nextNum == r.nextNum
            && (refused || (rec.channel < 0 && rec.channel != -1) ==> r'.ts == r.ts && r'.seqnum == r.seqnum)
            && (!refused && rec.channel == -1 ==>
                  r'.ts == RecordTs(rec).value && r'.seqnum == if r'.ts == r.ts then r.seqnum else 0)
            && (!refused && rec.channel >= 0 ==>
                  r'.ts == r.ts && r'.seqnum == (RecordSeqnum(rec).value + 1) % 0x1_0000_0000_0000_0000)
  {
    hide RecordTs, RecordSeqnum;
  }

  /** At the end of a spoolfile, a sync request is made (once) only if the next spoolfile had been seen
      at an attempt before this one, with nothing having been read since. */
  lemma SyncsAtEnd(r: Reader, disk: Disk, first: nat)
    requires r.file.Some? && !r.awaiting
    requires r.file.value.num in disk ==> r.file.value.pos >= |disk[r.file.value.num]|
    ensures var f := r.file.value;
            Read(r, disk, first) ==
              if f.eof then (r.(awaiting := true), Got(Record(-5, [])))
              else if f.next in disk then (r.(file := Some(f.(eof := true))), Again)
              else (r, Blocked)
    ensures Read(r.(awaiting := true), disk, first) == (r.(awaiting := true), Thrown)
  {
  }

  /** Opening the first spoolfile: its number comes from a scan, the first time, and the file after
      that one in number is the next. */
  lemma OpensFirst(r: Reader, disk: Disk, first: nat)
    requires r.file.None?
    ensures var (r', attempt) := Read(r, disk, first); var n := if r.scanned then r.nextNum else first;
            if !r.scanned && disk == map[] then r' == r && attempt == Blocked
            else
              && r'.scanned && r'.nextNum == n + 2 && attempt == (if n in disk then Again else Thrown)
              && r'.file == (if n in disk then Some(OpenFile(n, n + 1, 0, false)) else None)
              && r'.ts == r.ts && r'.seqnum == r.seqnum && r'.awaiting == r.awaiting
  {
  }

  /** The in-process reset. */
  function Reset(r: Reader): Reader {
    if r.file.None? then r
    else r.(file := None, nextNum := if r.nextNum == 0 then TWO64 - 1 else r.nextNum - 1,
            ts := NO_SESSION, seqnum := 0, awaiting := false)
  }

  /** What a reset is documented to do: behave as if destroyed and recreated, so that what was
      read since the last acknowledgement is read again. */
  ghost predicate Replays(r: Reader, disk: Disk) {
    forall first | IsLeast(first, disk) ::
      Open(Reset(r), disk, first).0.file == Open(NEW_READER, disk, first).0.file
  }

  /** With a spoolfile open, and it the first in the directory, the reset does not lead to its
      being read again: the spoolfile after it is opened instead. */
  lemma ResetSkips(r: Reader, disk: Disk)
    requires r.file.Some? && r.scanned && r.nextNum == r.file.value.num + 2
    requires IsLeast(r.file.value.num, disk)
    ensures !Replays(r, disk)
    ensures r.file.value.num + 1 in disk ==>
              Open(Reset(r), disk, r.file.value.num).0.file
                == Some(OpenFile(r.file.value.num + 1, r.file.value.num + 2, 0, false))
  {
    var first := r.file.value.num;
    assert Open(NEW_READER, disk, first).0.file == Some(OpenFile(first, first + 1, 0, false));
    assert Open(Reset(r), disk, first).0.file != Some(OpenFile(first, first + 1, 0, false));
  }

  /** For every reader, a reset leads to the replay documented exactly if the directory has still
      to be scanned, or the number to which it goes back is that of the first spoolfile. */
  lemma ResetReplaysExactly(r: Reader, disk: Disk, first: nat)
    requires IsLeast(first, disk)
    ensures Replays(r, disk) <==> !r.scanned || Reset(r).nextNum == first
  {
    assert Open(NEW_READER, disk, first).0.file == Some(OpenFile(first, first + 1, 0, false));
    assert forall n | IsLeast(n, disk) :: n == first;
  }

  /** In particular, for a reader which is new or is reading the first spoolfile, only if it has
      no spoolfile open. */
  lemma ResetReplaysAtFirst(r: Reader, disk: Disk)
    requires disk != map[]
    requires r.file.None? ==> !r.scanned
    requires r.file.Some? ==> r.scanned && r.nextNum == r.file.value.num + 2 && IsLeast(r.file.value.num, disk)
    ensures Replays(r, disk) <==> r.file.None?
  {
    if r.file.Some? {
      ResetSkips(r, disk);
    }
  }

  /** The state after a number of attempts to read, each of which is followed by a reset. */
  ghost function Retried(r: Reader, disk: Disk, first: nat, attempts: nat): Reader {
    if attempts == 0 then r else Reset(Read(Retried(r, disk, first, attempts - 1), disk, first).0)
  }

  /** Once a reader with no spoolfile open has been led past the last one, resets do not help:
      each attempt fails, and leaves it two further on. */
  lemma {:induction false} ResetsDoNotHelp(r: Reader, disk: Disk, first: nat, attempts: nat)
    requires r.file.None? && r.scanned && forall n | n in disk :: n < r.nextNum
    ensures Retried(r, disk, first, attempts) == r.(nextNum := r.nextNum + 2 * attempts)
    ensures Read(Retried(r, disk, first, attempts), disk, first).1 == Thrown
  {
    if attempts == 0 {
    } else {
      ResetsDoNotHelp(r, disk, first, attempts - 1);
    }
  }

  /** A reader gets there from the start, if there is just one spoolfile. */
  lemma OneFileThenReset(content: seq<Record>, num: nat)
    ensures var disk := map[num := content]; var r := Reset(Open(NEW_READER, disk, num).0);
            && IsLeast(num, disk) && !Replays(r, disk)
            && r.file.None? && r.scanned && forall n | n in disk :: n < r.nextNum
  {
    var disk: Disk := map[num := content];
    var r := Reset(Open(NEW_READER, disk, num).0);
    assert IsLeast(num, disk);
    ResetReplaysExactly(r, disk, num);
  }

  // ---------------------------------------------------------------------------
  // The reader as an object
  // ---------------------------------------------------------------------------

  class FileSessionReader {
    const dir: Directory
    const srcid: seq<Octet>
    const nodelete: bool
    var sfr: Option<OpenFile>
    var nextNum: nat
    var scanned: bool
    var ts: Ts
    var seqnum: int
    var awaiting: bool

    function State(): Reader
      reads this
    {
      Reader(sfr, nextNum, scanned, ts, seqnum, awaiting)
    }

    constructor (dir: Directory, srcid: seq<Octet>, nodelete: bool)
      ensures this.dir == dir && this.srcid == srcid && this.nodelete == nodelete
      ensures State() == NEW_READER == Reader(None, 0, false, Ts(0, 0), 0, false)
    {
      this.dir, this.srcid, this.nodelete := dir, srcid, nodelete;
      sfr, nextNum, scanned := None, 0, false;
      ts, seqnum, awaiting := NO_SESSION, 0, false;
    }

    /** The number at which to look for the next spoolfile. */
    method NextNumber() returns (n: nat)
      modifies this`nextNum
      ensures n == old(nextNum) && nextNum == old(nextNum) + 1
    {
      n := nextNum;
      nextNum := nextNum + 1;
    }

    /** One attempt at reading a record, `first` being what a scan would find. */
    method TryRead(first: nat) returns (a: Attempt)
      modifies this
      ensures (State(), a) == Read(old(State()), dir.files, first)
    {
      if sfr.None? {
        if !scanned {
          if dir.files == map[] {
            return Blocked;
          }
          nextNum := first;
          scanned := true;
        }
        var num := NextNumber();
        var next := NextNumber();
        if num !in dir.files {
          return Thrown;
        }
        sfr := Some(OpenFile(num, next, 0, false));
        return Again;
      }
      if awaiting {
        return Thrown;
      }
      var f := sfr.value;
      var content := if f.num in dir.files then dir.files[f.num] else [];
      if f.pos < |content| {
        var rec := content[f.pos];
        sfr := Some(f.(pos := f.pos + 1, eof := false));
        if rec.channel == CHANNEL_SESSION {
          var newTs := RecordTs(rec);
          if newTs.None? {
            return Thrown;
          }
          if newTs.value != ts {
            ts := newTs.value;
            seqnum := 0;
          }
        } else if rec.IsEvent() {
          var n := RecordSeqnum(rec);
          if n.None? {
            return Thrown;
          }
          seqnum := Successor(n.value);
        }
        return Got(rec);
      } else if f.eof {
        awaiting := true;
        return Got(SYNC_REQUEST);
      } else if f.next in dir.files {
        sfr := Some(f.(eof := true));
        return Again;
      }
      a := Blocked;
    }

    method HandleSync(reply: Record) returns (ok: bool)
      modifies this, dir
      ensures (State(), dir.files, ok) == Acknowledge(old(State()), old(dir.files), srcid, nodelete, reply)
      ensures ok || dir.files != old(dir.files) || State() != old(State()) ==>
                && old(awaiting && sfr.Some?) && RecordSource(reply) == Some(srcid)
                && RecordTs(reply) == Some(old(ts)) && RecordSeqnum(reply) == Some(old(seqnum))
      ensures ok ==>
                && dir.files == (if nodelete then old(dir.files) else old(dir.files) - {old(sfr).value.num})
                && sfr == Some(OpenFile(old(sfr).value.next, old(nextNum), 0, false)) && nextNum == old(nextNum) + 1
                && !awaiting && ts == old(ts) && seqnum == old(seqnum)
    {
      if !awaiting || sfr.None? {
        return false;
      }
      if RecordSource(reply) != Some(srcid) {
        return false;
      }
      if RecordTs(reply) != Some(ts) {
        return false;
      }
      if RecordSeqnum(reply) != Some(seqnum) {
        return false;
      }
      var f := sfr.value;
      if !nodelete {
        dir.files := dir.files - {f.num};
      }
      var next := NextNumber();
      if f.next !in dir.files {
        return false;
      }
      sfr := Some(OpenFile(f.next, next, 0, false));
      awaiting := false;
      ok := true;
    }

    method ResetReader()
      modifies this
      ensures State() == Reset(old(State()))
    {
      if sfr.Some? {
        sfr := None;
        nextNum := if nextNum == 0 then TWO64 - 1 else nextNum - 1;
        ts := NO_SESSION;
        seqnum := 0;
        awaiting := false;
      }
    }
  }
}
