/** Many sources capturing into one session, with a thread which signs events after the fact:
    every interleaving of their critical sections. */
module Signing {
  import opened Octets
  import opened Attributes
  import opened Codec
  import opened Records
  import opened Sessions
  import opened Capture

  /** The writer lock guards the session, the signer lock guards what is next to be signed. */
  datatype Thread = Source(i: nat) | Signer | Main

  /** What a source is doing. From `Writing` to `Returning` it has the writer lock. */
  datatype SourcePc =
    | Idle
    | Called(event: Record)     // about to lock the writer
    | Writing(next: Record)
    | Handing(hash: Hash)       // has written the event, about to lock the signer
    | Setting(latest: Hash)     // has the signer lock as well
    | Notifying
    | Returning
    | Stopped

  datatype SignerPc =
    | Starting                  // about to lock the signer, to look for something to sign
    | Checking                  // has the signer lock, about to poll for termination
    | Polled                    // has the signer lock, was not terminating
    | Waiting                   // waiting to be notified
    | Delaying
    | Resuming                  // about to lock the signer again
    | Taking                    // has the signer lock
    | Signed(k: nat, h: Hash)   // has made a signature, about to lock the writer
    | Recording(n: nat, g: Hash) // has the writer lock
    | Exited

  datatype MainPc =
    | Preparing                 // about to lock the writer, to begin the session
    | Beginning
    | Capturing
    | Draining                  // has raised the termination flag, waiting for the sources
    | Stopping                  // about to lock the signer
    | Holding                   // has the signer lock
    | Waking                    // about to notify
    | Joining                   // waiting for the signer to exit
    | Finishing                 // about to lock the writer, to end the session
    | Ending
    | Ended

  datatype Entry =
    | EventEntry(rec: Record)
    | EventSignature(seqnum: nat, rec: Record)
    | OtherEntry(rec: Record)

  datatype Config = Config(hash: HashFn, sign: HashFn, srec: Record, sources: nat)

  datatype System = System(
    session: Session,          // the events captured so far
    stream: seq<Entry>,        // what has been written
    sessionHash: Hash,
    seqnum: nat,
    prev: Option<Hash>,
    latestSeqnum: nat,
    latestHash: Hash,
    writerLock: Option<Thread>,
    signerLock: Option<Thread>,
    sources: seq<SourcePc>,
    signer: SignerPc,
    main: MainPc,
    terminating: bool)

  datatype Step =
    | SourceStep(i: nat, call: Option<Record>) // an idle source calls the writer, or stops
    | SignerStep
    | MainStep(now: Ts)
    | SpuriousWake

  function Initially(c: Config): System {
    System(Session(c.srec, [], None), [], [], 0, None, 0, [], None, None,
           seq(c.sources, i => Idle), Starting, Preparing, false)
  }

  // ---------------------------------------------------------------------------
  // Steps
  // ---------------------------------------------------------------------------

  function At(s: System, i: nat, pc: SourcePc): System
    requires i < |s.sources|
  {
    s.(sources := s.sources[i := pc])
  }

  function Notified(pc: SignerPc): SignerPc { if pc == Waiting then Starting else pc }

  /** Write an event: append it to the stream, and work out its hash. */
  function WritesEvent(c: Config, s: System, i: nat, e: Record): System
    requires i < |s.sources|
  {
    var rec := Stamp(e, s.seqnum % TWO64, s.prev);
    var hash := c.hash(s.sessionHash + EncodeRecord(rec));
    At(s.(stream := s.stream + [EventEntry(rec)], prev := Some(hash), session := With(s.session, e)), i, Handing(hash))
  }

  predicate CanCapture(m: MainPc) { m == Capturing || m == Draining }

  function SourceNext(c: Config, s: System, i: nat, call: Option<Record>): System
    requires i < |s.sources|
  {
    match s.sources[i]
    case Idle =>
      (match call
       case Some(e) => if CanCapture(s.main) && e.IsEvent() then At(s, i, Called(e)) else s
       case None => if s.terminating then At(s, i, Stopped) else s)
    case Called(e) =>
      if s.writerLock.None? then At(s.(writerLock := Some(Source(i))), i, Writing(e)) else s
    case Writing(e) => WritesEvent(c, s, i, e)
    case Handing(h) =>
      if s.signerLock.None? then At(s.(signerLock := Some(Source(i))), i, Setting(h)) else s
    case Setting(h) => At(s.(latestSeqnum := s.seqnum, latestHash := h, signerLock := None), i, Notifying)
    case Notifying => At(s.(signer := Notified(s.signer)), i, Returning)
    case Returning => At(s.(seqnum := s.seqnum + 1, writerLock := None), i, Idle)
    case Stopped => s
  }

  function EventSignatureOf(c: Config, k: nat, h: Hash): Entry {
    EventSignature(k, SignatureRecord(c.sign, Some(k % TWO64), h))
  }

  function SignerNext(c: Config, s: System): System {
    match s.signer
    case Starting => if s.signerLock.None? then s.(signerLock := Some(Signer), signer := Checking) else s
    case Checking => if s.terminating then s.(signerLock := None, signer := Exited) else s.(signer := Polled)
    case Polled => s.(signerLock := None, signer := if s.latestHash == [] then Waiting else Delaying)
    case Waiting => s
    case Delaying => s.(signer := if s.terminating then Exited else Resuming)
    case Resuming => if s.signerLock.None? then s.(signerLock := Some(Signer), signer := Taking) else s
    case Taking => s.(signerLock := None, signer := Signed(s.latestSeqnum, s.latestHash), latestHash := [])
    case Signed(k, h) => if s.writerLock.None? then s.(writerLock := Some(Signer), signer := Recording(k, h)) else s
    case Recording(k, h) =>
      s.(writerLock := None, signer := Starting, stream := s.stream + [EventSignatureOf(c, k, h)])
    case Exited => s
  }

  function Begins(c: Config, s: System): System {
    var h := c.hash(EncodeRecord(c.srec));
    s.(stream := s.stream + [OtherEntry(c.srec), OtherEntry(SignatureRecord(c.sign, None, h))],
       sessionHash := h, writerLock := None, main := Capturing)
  }

  function Ends(c: Config, s: System, now: Ts): System
    requires IsEndTime(now)
  {
    var erec := EndRecord(now, s.seqnum % TWO64, s.prev);
    var sigrec := SignatureRecord(c.sign, Some(s.seqnum % TWO64), c.hash(s.sessionHash + EncodeRecord(erec)));
    s.(stream := s.stream + [OtherEntry(erec), OtherEntry(sigrec)], session := s.session.(end := Some(now)),
       writerLock := None, main := Ended)
  }

  predicate AllStopped(s: System) { forall i | 0 <= i < |s.sources| :: s.sources[i] == Stopped }

  function MainNext(c: Config, s: System, now: Ts): System {
    match s.main
    case Preparing => if s.writerLock.None? then s.(writerLock := Some(Main), main := Beginning) else s
    case Beginning => Begins(c, s)
    case Capturing => s.(terminating := true, main := Draining)
    case Draining => if AllStopped(s) then s.(main := Stopping) else s
    case Stopping => if s.signerLock.None? then s.(signerLock := Some(Main), main := Holding) else s
    case Holding => s.(signerLock := None, main := Waking)
    case Waking => s.(signer := Notified(s.signer), main := Joining)
    case Joining => if s.signer == Exited then s.(main := Finishing) else s
    case Finishing => if s.writerLock.None? then s.(writerLock := Some(Main), main := Ending) else s
    case Ending => if IsEndTime(now) then Ends(c, s, now) else s
    case Ended => s
  }

  /** The state after a step (the same if the step is not possible). */
  function Apply(c: Config, s: System, step: Step): System {
    match step
    case SourceStep(i, call) => if i < |s.sources| then SourceNext(c, s, i, call) else s
    case SignerStep => SignerNext(c, s)
    case MainStep(now) => MainNext(c, s, now)
    case SpuriousWake => s.(signer := Notified(s.signer))
  }

  function Run(c: Config, steps: seq<Step>): System {
    if steps == [] then Initially(c)
    else Apply(c, Run(c, steps[..|steps| - 1]), steps[|steps| - 1])
  }

  // ---------------------------------------------------------------------------
  // Locks
  // ---------------------------------------------------------------------------

  predicate SourceHasWriter(pc: SourcePc) { !(pc.Idle? || pc.Called? || pc.Stopped?) }

  predicate SignerHasSigner(pc: SignerPc) { pc.Checking? || pc.Polled? || pc.Taking? }

  ghost predicate SourcesHold(pcs: seq<SourcePc>, writerLock: Option<Thread>, signerLock: Option<Thread>) {
    && (forall i: nat | i < |pcs| ::
          && (SourceHasWriter(pcs[i]) <==> writerLock == Some(Source(i)))
          && (pcs[i].Setting? <==> signerLock == Some(Source(i))))
    && (forall i: nat | writerLock == Some(Source(i)) || signerLock == Some(Source(i)) :: i < |pcs|)
  }

  /** Each lock is held by the thread whose program counter says so. */
  ghost predicate LocksOk(s: System) {
    && SourcesHold(s.sources, s.writerLock, s.signerLock)
    && (s.signer.Recording? <==> s.writerLock == Some(Signer))
    && (SignerHasSigner(s.signer) <==> s.signerLock == Some(Signer))
    && (s.main.Beginning? || s.main.Ending? <==> s.writerLock == Some(Main))
    && (s.main.Holding? <==> s.signerLock == Some(Main))
  }

  predicate OfSource(holder: Option<Thread>) { holder.Some? && holder.value.Source? }

  /** It makes no difference to the sources which other thread has a lock. */
  lemma OtherHolder(pcs: seq<SourcePc>, w1: Option<Thread>, g1: Option<Thread>, w2: Option<Thread>, g2: Option<Thread>)
    requires SourcesHold(pcs, w1, g1)
    requires w2 == w1 || !(OfSource(w1) || OfSource(w2))
    requires g2 == g1 || !(OfSource(g1) || OfSource(g2))
    ensures SourcesHold(pcs, w2, g2)
  {
  }

  /** What the holder of each lock is doing. */
  lemma Holders(s: System)
    requires LocksOk(s)
    ensures match s.signerLock
            case None => true
            case Some(Source(i)) => i < |s.sources| && s.sources[i].Setting? && s.writerLock == s.signerLock
            case Some(Signer) => SignerHasSigner(s.signer)
            case Some(Main) => s.main == Holding
    ensures match s.writerLock
            case None => true
            case Some(Source(i)) => i < |s.sources| && SourceHasWriter(s.sources[i])
            case Some(Signer) => s.signer.Recording?
            case Some(Main) => s.main == Beginning || s.main == Ending
  {
    match s.signerLock
    case Some(Source(i)) => assert s.sources[i].Setting?;
    case _ =>
  }

  /** A source takes a lock only if that is free, and releases only its own. */
  lemma SourceMoves(c: Config, s: System, i: nat, call: Option<Record>)
    requires i < |s.sources|
    ensures var t := SourceNext(c, s, i, call); var (a, b) := (s.sources[i], t.sources[i]);
            && t.sources == s.sources[i := b] && t.main == s.main
            && (t.signer == s.signer || t.signer == Notified(s.signer))
            && (if SourceHasWriter(a) == SourceHasWriter(b) then t.writerLock == s.writerLock
                else if SourceHasWriter(a) then t.writerLock.None?
                else s.writerLock.None? && t.writerLock == Some(Source(i)))
            && (if a.Setting? == b.Setting? then t.signerLock == s.signerLock
                else if a.Setting? then t.signerLock.None?
                else s.signerLock.None? && t.signerLock == Some(Source(i)))
  {
    hide Stamp, EncodeRecord, With;
  }

  lemma SourceLocks(c: Config, s: System, i: nat, call: Option<Record>)
    requires LocksOk(s) && i < |s.sources|
    ensures LocksOk(SourceNext(c, s, i, call))
  {
    hide SourceNext, SourceHasWriter;
    SourceMoves(c, s, i, call);
  }

  lemma SignerLocks(c: Config, s: System)
    requires LocksOk(s)
    ensures LocksOk(SignerNext(c, s))
  {
    hide SourcesHold, EventSignatureOf;
    var t := SignerNext(c, s);
    OtherHolder(s.sources, s.writerLock, s.signerLock, t.writerLock, t.signerLock);
  }

  lemma BeginsEnds(c: Config, s: System, now: Ts)
    ensures var t := Begins(c, s);
            && t.main == Capturing && t.sources == s.sources && t.signer == s.signer && t.terminating == s.terminating
            && t.writerLock == None && t.signerLock == s.signerLock
    ensures IsEndTime(now) ==>
              var t := Ends(c, s, now);
              && t.main == Ended && t.sources == s.sources && t.signer == s.signer && t.terminating == s.terminating
              && t.writerLock == None && t.signerLock == s.signerLock
  {
    hide SignatureRecord, EndRecord;
  }

  /** The main thread takes a lock only if that is free, and releases only its own. */
  lemma MainHolds(c: Config, s: System, now: Ts)
    requires LocksOk(s)
    ensures var t := MainNext(c, s, now);
            && t.sources == s.sources
            && (t.writerLock == s.writerLock || !(OfSource(s.writerLock) || OfSource(t.writerLock)))
            && (t.signerLock == s.signerLock || !(OfSource(s.signerLock) || OfSource(t.signerLock)))
  {
    hide Begins, Ends, SourcesHold, AllStopped, IsEndTime;
    if s.main == Beginning || s.main == Ending {
      BeginsEnds(c, s, now);
    }
  }

  lemma MainLocks(c: Config, s: System, now: Ts)
    requires LocksOk(s)
    ensures LocksOk(MainNext(c, s, now))
  {
    hide Begins, Ends, SourcesHold, AllStopped, IsEndTime, OfSource;
    var t := MainNext(c, s, now);
    if s.main == Beginning || s.main == Ending {
      BeginsEnds(c, s, now);
    }
    MainHolds(c, s, now);
    OtherHolder(s.sources, s.writerLock, s.signerLock, t.writerLock, t.signerLock);
  }

  // ---------------------------------------------------------------------------
  // What has been written
  // ---------------------------------------------------------------------------

  function EventsIn(stream: seq<Entry>): seq<Record> {
    if stream == [] then []
    else
      var last := stream[|stream| - 1];
      EventsIn(stream[..|stream| - 1]) + if last.EventEntry? then [last.rec] else []
  }

  /** The sequence number most recently signed, or -1. */
  function LastSigned(stream: seq<Entry>): int {
    if stream == [] then -1
    else
      var last := stream[|stream| - 1];
      if last.EventSignature? then last.seqnum else LastSigned(stream[..|stream| - 1])
  }

  /** Each signature is of an event already in the stream, later than any signed before, and is
      over the hash which the chain gives that event. */
  ghost predicate SignaturesOk(c: Config, s: Session, stream: seq<Entry>) {
    stream == [] ||
      var front, last := stream[..|stream| - 1], stream[|stream| - 1];
      && SignaturesOk(c, s, front)
      && (last.EventSignature? ==>
            && LastSigned(front) < last.seqnum < |EventsIn(front)|
            && last.seqnum < |s.events|
            && last == EventSignatureOf(c, last.seqnum, EventHash(c.hash, s, last.seqnum)))
  }

  lemma Appended(c: Config, s: Session, stream: seq<Entry>, e: Entry)
    ensures EventsIn(stream + [e]) == EventsIn(stream) + if e.EventEntry? then [e.rec] else []
    ensures LastSigned(stream + [e]) == if e.EventSignature? then e.seqnum else LastSigned(stream)
    ensures SignaturesOk(c, s, stream + [e]) <==>
              SignaturesOk(c, s, stream) &&
              (e.EventSignature? ==>
                 && LastSigned(stream) < e.seqnum < |EventsIn(stream)|
                 && e.seqnum < |s.events|
                 && e == EventSignatureOf(c, e.seqnum, EventHash(c.hash, s, e.seqnum)))
  {
    hide EventHash, SignatureRecord;
    assert (stream + [e])[..|stream|] == stream;
  }

  lemma {:induction false} SignaturesKept(c: Config, s: Session, t: Session, stream: seq<Entry>)
    requires t.srec == s.srec && s.events <= t.events && SignaturesOk(c, s, stream)
    ensures SignaturesOk(c, t, stream)
  {
    hide EventHash, SignatureRecord, LastSigned, EventsIn;
    if stream == [] {
    } else {
      var front, last := stream[..|stream| - 1], stream[|stream| - 1];
      SignaturesKept(c, s, t, front);
      if last.EventSignature? {
        ChainKept(c.hash, s, t, last.seqnum);
      }
    }
  }

  // ---------------------------------------------------------------------------
  // Invariants
  // ---------------------------------------------------------------------------

  predicate HasBegun(m: MainPc) { m != Preparing && m != Beginning }

  /** The source with the writer lock, if any. */
  function Active(s: System): SourcePc {
    match s.writerLock
    case Some(Source(i)) => if i < |s.sources| then s.sources[i] else Idle
    case _ => Idle
  }

  /** Whether an event has been written without the sequence number having been moved on. */
  function Pending(pc: SourcePc): nat {
    if pc.Handing? || pc.Setting? || pc.Notifying? || pc.Returning? then 1 else 0
  }

  /** Whether an event has been written but is not yet known to the signer. */
  function Unhanded(pc: SourcePc): nat { if pc.Handing? || pc.Setting? then 1 else 0 }

  /** The interleaving is that of one session, captured in the order in which events are
      written. */
  ghost predicate ChainOk(c: Config, s: System) {
    && s.session.srec == c.srec
    && (HasBegun(s.main) ==> s.sessionHash == SessionHash(c.hash, s.session))
    && EventsIn(s.stream) == StampedEvents(c.hash, s.session)
    && s.seqnum + Pending(Active(s)) == |s.session.events|
    && s.prev == Previous(c.hash, s.session, |s.session.events|)
    && (Active(s).Handing? ==> s.prev == Some(Active(s).hash))
    && (Active(s).Setting? ==> s.prev == Some(Active(s).latest))
  }

  /** An event which could be signed next: its hash is right, the signer has been told of it,
      and no signature yet in the stream is as late. */
  ghost predicate Signable(c: Config, s: System, k: nat, h: Hash) {
    LastSigned(s.stream) < k < |s.session.events| - Unhanded(Active(s)) && h == EventHash(c.hash, s.session, k)
  }

  /** The latest event signed, or that is being signed. */
  function InHand(s: System): int {
    match s.signer
    case Signed(k, h) => k
    case Recording(k, h) => k
    case _ => LastSigned(s.stream)
  }

  ghost predicate SignerOk(c: Config, s: System) {
    && SignaturesOk(c, s.session, s.stream)
    && InHand(s) < |s.session.events| - Unhanded(Active(s))
    && LastSigned(s.stream) <= InHand(s)
    && (s.latestHash != [] ==> Signable(c, s, s.latestSeqnum, s.latestHash) && InHand(s) < s.latestSeqnum)
    && (s.signer.Signed? ==> Signable(c, s, s.signer.k, s.signer.h))
    && (s.signer.Recording? ==> Signable(c, s, s.signer.n, s.signer.g))
    && (s.signer == Delaying || s.signer == Resuming || s.signer == Taking ==> s.latestHash != [])
  }

  /** How far the main thread has got with stopping the others. */
  ghost predicate FlagsOk(s: System) {
    && (s.terminating <==> HasBegun(s.main) && s.main != Capturing)
    && (!HasBegun(s.main) ==> forall i | 0 <= i < |s.sources| :: s.sources[i] == Idle)
    && (!HasBegun(s.main) || s.main == Capturing || s.main == Draining || AllStopped(s))
    && (s.main == Holding || s.main == Waking || PastWaking(s.main) ==> s.signer != Polled)
    && (PastWaking(s.main) ==> s.signer != Waiting)
    && (PastWaking(s.main) && s.main != Joining ==> s.signer == Exited)
  }

  predicate PastWaking(m: MainPc) { m == Joining || m == Finishing || m == Ending || m == Ended }

  ghost predicate EdgesOk(c: Config, s: System) {
    && (!HasBegun(s.main) ==> s.stream == [] && s.session.events == [])
    && (HasBegun(s.main) ==> StartOf(c, s.session) <= s.stream)
    && (s.main == Ended ==>
          && s.session.end.Some? && IsEndTime(s.session.end.value)
          && |s.stream| >= 2 && s.stream[|s.stream| - 2..] == FinishOf(c, s.session))
  }

  /** A session starts with its session record and a signature for that. */
  function StartOf(c: Config, s: Session): seq<Entry> {
    [OtherEntry(s.srec), OtherEntry(SignatureRecord(c.sign, None, SessionHash(c.hash, s)))]
  }

  /** It finishes with its end record and a signature for that. */
  function FinishOf(c: Config, s: Session): seq<Entry>
    requires s.end.Some? && IsEndTime(s.end.value)
  {
    [OtherEntry(EndOf(c.hash, s)),
     OtherEntry(SignatureRecord(c.sign, Some(|s.events| % TWO64), c.hash(EndInput(c.hash, s))))]
  }

  ghost predicate Inv(c: Config, s: System) {
    LocksOk(s) && ChainOk(c, s) && SignerOk(c, s) && FlagsOk(s) && EdgesOk(c, s)
  }

  /** A hash is never empty, which is how the absence of one is recognised. */
  ghost predicate HashesOk(c: Config) { forall x :: c.hash(x) != [] }

  lemma InitiallyInv(c: Config)
    ensures Inv(c, Initially(c))
  {
  }

  // ---------------------------------------------------------------------------
  // Steps of a source
  // ---------------------------------------------------------------------------

  /** Who has the writer lock after a source's step. */
  lemma ActiveAfter(c: Config, s: System, i: nat, call: Option<Record>)
    requires LocksOk(s) && i < |s.sources|
    ensures SourceHasWriter(s.sources[i]) ==> Active(s) == s.sources[i]
    ensures s.writerLock.None? ==> Active(s) == Idle
    ensures var t := SourceNext(c, s, i, call);
            && i < |t.sources|
            && Active(t) == if SourceHasWriter(t.sources[i]) then t.sources[i]
                            else if SourceHasWriter(s.sources[i]) then Idle
                            else Active(s)
  {
    hide Stamp, EncodeRecord, With;
  }

  lemma WritesEventInv(c: Config, s: System, i: nat, e: Record)
    requires Inv(c, s) && i < |s.sources| && s.sources[i] == Writing(e)
    ensures Inv(c, WritesEvent(c, s, i, e))
  {
    hide LocksOk, ChainOk, SignerOk, FlagsOk, EdgesOk, WritesEvent;
    SourceLocks(c, s, i, None);
    SourceFlags(c, s, i, None);
    WritesEventChain(c, s, i, e);
    WritesEventSigner(c, s, i, e);
  }

  lemma WritesEventChain(c: Config, s: System, i: nat, e: Record)
    requires Inv(c, s) && i < |s.sources| && s.sources[i] == Writing(e)
    ensures ChainOk(c, WritesEvent(c, s, i, e)) && EdgesOk(c, WritesEvent(c, s, i, e))
  {
    hide Stamp, EncodeRecord, Previous, EventHash, StampedEvents, SignaturesOk, EventsIn, LastSigned, SessionHash,
         SignatureRecord, EndOf, EndInput, Active, LocksOk, SignerOk;
    var t := WritesEvent(c, s, i, e);
    ActiveAfter(c, s, i, None);
    ChainGrows(c.hash, s.session, e);
    Appended(c, t.session, s.stream, EventEntry(Stamp(e, s.seqnum % TWO64, s.prev)));
    SessionHashKept(c, s.session, e);
  }

  lemma WritesEventSigner(c: Config, s: System, i: nat, e: Record)
    requires Inv(c, s) && i < |s.sources| && s.sources[i] == Writing(e)
    ensures SignerOk(c, WritesEvent(c, s, i, e))
  {
    hide Stamp, EncodeRecord, Previous, EventHash, StampedEvents, SignaturesOk, EventsIn, LastSigned, SessionHash,
         SignatureRecord, Active, LocksOk, EdgesOk, FlagsOk;
    var t := WritesEvent(c, s, i, e);
    ActiveAfter(c, s, i, None);
    if s.signer.Recording? {
      RecordingLocks(s);
    }
    Appended(c, t.session, s.stream, EventEntry(Stamp(e, s.seqnum % TWO64, s.prev)));
    SignaturesKept(c, s.session, t.session, s.stream);
    if s.latestHash != [] {
      ChainKept(c.hash, s.session, t.session, s.latestSeqnum);
    }
    if s.signer.Signed? {
      ChainKept(c.hash, s.session, t.session, s.signer.k);
    }
  }

  lemma RecordingLocks(s: System)
    requires LocksOk(s) && s.signer.Recording?
    ensures Active(s) == Idle
  {
  }

  lemma SessionHashKept(c: Config, s: Session, e: Record)
    ensures SessionHash(c.hash, With(s, e)) == SessionHash(c.hash, s)
  {
  }

  /** What the chain depends on does not change unless an event is written. */
  lemma SourceKeeps(c: Config, s: System, i: nat, call: Option<Record>)
    requires LocksOk(s) && i < |s.sources| && !s.sources[i].Writing?
    ensures var t := SourceNext(c, s, i, call);
            && t.session == s.session && t.stream == s.stream && t.sessionHash == s.sessionHash
            && t.prev == s.prev && t.main == s.main
            && t.seqnum + Pending(Active(t)) == s.seqnum + Pending(Active(s))
            && (Active(t).Handing? ==> Active(t) == Active(s))
            && (Active(t).Setting? ==>
                  Active(t) == Active(s) || (Active(s).Handing? && Active(s).hash == Active(t).latest))
  {
    hide WritesEvent, LocksOk, Active;
    ActiveAfter(c, s, i, call);
  }

  lemma SourceChain(c: Config, s: System, i: nat, call: Option<Record>)
    requires Inv(c, s) && i < |s.sources| && !s.sources[i].Writing?
    ensures ChainOk(c, SourceNext(c, s, i, call)) && EdgesOk(c, SourceNext(c, s, i, call))
  {
    hide Previous, StampedEvents, EventsIn, SessionHash, StartOf, FinishOf, SourceNext, FlagsOk, SignerOk, LocksOk,
         Active;
    SourceKeeps(c, s, i, call);
  }

  /** What the signer sees of a source's step. */
  lemma SourceHands(c: Config, s: System, i: nat, call: Option<Record>)
    requires LocksOk(s) && i < |s.sources| && !s.sources[i].Writing?
    ensures var t := SourceNext(c, s, i, call);
            && t.signer == (if s.sources[i] == Notifying then Notified(s.signer) else s.signer)
            && (if s.sources[i].Setting? then t.latestHash == s.sources[i].latest && t.latestSeqnum == s.seqnum
                else t.latestHash == s.latestHash && t.latestSeqnum == s.latestSeqnum)
            && Unhanded(Active(t)) == (if s.sources[i].Setting? then 0 else Unhanded(Active(s)))
    ensures s.sources[i].Setting? ==> Active(s) == s.sources[i]
  {
    hide WritesEvent, LocksOk, Active;
    ActiveAfter(c, s, i, call);
  }

  lemma SourceSigner(c: Config, s: System, i: nat, call: Option<Record>)
    requires Inv(c, s) && HashesOk(c) && i < |s.sources| && !s.sources[i].Writing?
    ensures SignerOk(c, SourceNext(c, s, i, call))
  {
    hide SignaturesOk, LastSigned, SourceNext, ChainOk, FlagsOk, EdgesOk, LocksOk, Active, EventHash, HashesOk;
    SourceKeeps(c, s, i, call);
    SourceHands(c, s, i, call);
    if s.sources[i].Setting? {
      LatestHash(c, s);
    }
  }

  /** The hash being handed to the signer is that of the latest event. */
  lemma LatestHash(c: Config, s: System)
    requires ChainOk(c, s) && HashesOk(c) && Active(s).Setting?
    ensures s.session.events != [] && s.seqnum == |s.session.events| - 1
    ensures Active(s).latest == EventHash(c.hash, s.session, s.seqnum) && Active(s).latest != []
  {
    hide EventInput, EventsIn, StampedEvents, SessionHash;
  }

  lemma SourceFlags(c: Config, s: System, i: nat, call: Option<Record>)
    requires Inv(c, s) && i < |s.sources|
    ensures FlagsOk(SourceNext(c, s, i, call))
  {
    hide Stamp, EncodeRecord, With, ChainOk, SignerOk, EdgesOk;
  }

  lemma SourceInv(c: Config, s: System, i: nat, call: Option<Record>)
    requires Inv(c, s) && HashesOk(c) && i < |s.sources|
    ensures Inv(c, SourceNext(c, s, i, call))
  {
    hide LocksOk, ChainOk, SignerOk, FlagsOk, EdgesOk, WritesEvent;
    if s.sources[i].Writing? {
      WritesEventInv(c, s, i, s.sources[i].next);
    } else {
      SourceLocks(c, s, i, call);
      SourceChain(c, s, i, call);
      SourceSigner(c, s, i, call);
      SourceFlags(c, s, i, call);
    }
  }

  // ---------------------------------------------------------------------------
  // Steps of the signer
  // ---------------------------------------------------------------------------

  lemma RecordsSignature(c: Config, s: System)
    requires Inv(c, s) && s.signer.Recording?
    ensures SignerOk(c, SignerNext(c, s)) && ChainOk(c, SignerNext(c, s))
  {
    hide StampedEvents, SignaturesOk, EventsIn, LastSigned, EventHash, FlagsOk, EdgesOk, SessionHash,
         Previous, SignatureRecord;
    Appended(c, s.session, s.stream, EventSignatureOf(c, s.signer.n, s.signer.g));
    StampedLength(c, s);
  }

  lemma StampedLength(c: Config, s: System)
    requires ChainOk(c, s)
    ensures |EventsIn(s.stream)| == |s.session.events|
  {
    hide EventsIn, Stamped, SessionHash, Previous;
  }

  lemma SignerKeeps(c: Config, s: System)
    requires LocksOk(s) && !s.signer.Recording?
    ensures var t := SignerNext(c, s);
            && t.session == s.session && t.stream == s.stream && t.sessionHash == s.sessionHash
            && t.prev == s.prev && t.main == s.main && t.seqnum == s.seqnum && Active(t) == Active(s)
  {
    hide SourcesHold;
  }

  lemma SignerChain(c: Config, s: System)
    requires Inv(c, s) && !s.signer.Recording?
    ensures ChainOk(c, SignerNext(c, s))
  {
    hide StampedEvents, EventsIn, SignerOk, FlagsOk, EdgesOk, LocksOk, SessionHash, Previous, SignerNext, Active;
    SignerKeeps(c, s);
  }

  lemma SignerData(c: Config, s: System)
    requires Inv(c, s) && !s.signer.Recording?
    ensures SignerOk(c, SignerNext(c, s))
  {
    hide SignaturesOk, LastSigned, EventHash, ChainOk, FlagsOk, EdgesOk, LocksOk, Active, EventSignatureOf;
    SignerKeeps(c, s);
  }

  lemma SignerFlags(c: Config, s: System)
    requires Inv(c, s)
    ensures FlagsOk(SignerNext(c, s))
  {
    hide ChainOk, SignerOk, EdgesOk, EventSignatureOf;
  }

  lemma SignerEdges(c: Config, s: System)
    requires Inv(c, s)
    ensures EdgesOk(c, SignerNext(c, s))
  {
    hide ChainOk, SignerOk, LocksOk, EventSignatureOf, EndOf, EndInput, StartOf, FinishOf;
    if s.signer.Recording? {
      RecordingFlags(c, s);
      assert s.stream <= SignerNext(c, s).stream;
    }
  }

  lemma RecordingFlags(c: Config, s: System)
    requires Inv(c, s) && s.signer.Recording?
    ensures HasBegun(s.main) && s.main != Ended
  {
    hide ChainOk, LocksOk, SignaturesOk, LastSigned, EventHash;
    assert s.session.events != [];
  }

  lemma SignerInv(c: Config, s: System)
    requires Inv(c, s)
    ensures Inv(c, SignerNext(c, s))
  {
    hide LocksOk, ChainOk, SignerOk, FlagsOk, EdgesOk, SignerNext;
    SignerLocks(c, s);
    SignerFlags(c, s);
    SignerEdges(c, s);
    if s.signer.Recording? {
      RecordsSignature(c, s);
    } else {
      SignerData(c, s);
      SignerChain(c, s);
    }
  }

  // ---------------------------------------------------------------------------
  // Steps of the main thread
  // ---------------------------------------------------------------------------

  /** While the main thread has the writer lock no source has it. */
  lemma MainActive(c: Config, s: System, now: Ts)
    requires LocksOk(s) && (s.main == Beginning || s.main == Ending)
    ensures Active(s) == Idle && Active(MainNext(c, s, now)) == Idle && !s.signer.Recording?
  {
    hide EncodeRecord, SignatureRecord, EndRecord;
  }

  lemma BeginsInv(c: Config, s: System)
    requires Inv(c, s) && s.main == Beginning
    ensures Inv(c, Begins(c, s))
  {
    hide LocksOk, EncodeRecord, SignatureRecord, EventHash, SignaturesOk, EventsIn, LastSigned, Active;
    var t := Begins(c, s);
    var now := Ts(0, 0);
    MainLocks(c, s, now);
    MainActive(c, s, now);
    var es := StartOf(c, s.session);
    assert t.stream == [] + [es[0]] + [es[1]];
    Appended(c, s.session, [], es[0]);
    Appended(c, s.session, [] + [es[0]], es[1]);
  }

  lemma EndsChain(c: Config, s: System, now: Ts)
    requires Inv(c, s) && s.main == Ending && IsEndTime(now)
    ensures ChainOk(c, Ends(c, s, now)) && EdgesOk(c, Ends(c, s, now))
  {
    hide LocksOk, EncodeRecord, SignatureRecord, EventHash, EventsIn, LastSigned, StampedEvents, EndRecord,
         Active, Previous, SessionHash, SignerOk, SignaturesOk;
    var t := Ends(c, s, now);
    MainActive(c, s, now);
    EndKept(c.hash, s.session, t.session);
    var es := FinishOf(c, t.session);
    Appended(c, s.session, s.stream, es[0]);
    Appended(c, s.session, s.stream + [es[0]], es[1]);
    assert t.stream == s.stream + [es[0]] + [es[1]];
    assert t.stream[|t.stream| - 2..] == es;
  }

  lemma EndsEntries(c: Config, s: System, now: Ts) returns (e1: Entry, e2: Entry)
    requires IsEndTime(now)
    ensures var t := Ends(c, s, now);
            && t.stream == s.stream + [e1] + [e2] && e1.OtherEntry? && e2.OtherEntry?
            && t.session == s.session.(end := Some(now))
            && t.latestHash == s.latestHash && t.latestSeqnum == s.latestSeqnum
  {
    hide EncodeRecord, SignatureRecord, EndRecord;
    var t := Ends(c, s, now);
    e1, e2 := t.stream[|s.stream|], t.stream[|s.stream| + 1];
  }

  lemma EndingExited(s: System)
    requires FlagsOk(s) && s.main == Ending
    ensures s.signer == Exited
  {
  }

  lemma EndsSignatures(c: Config, s: System, now: Ts)
    requires SignaturesOk(c, s.session, s.stream) && IsEndTime(now)
    ensures var t := Ends(c, s, now);
            && SignaturesOk(c, t.session, t.stream) && LastSigned(t.stream) == LastSigned(s.stream)
  {
    hide EventHash, EventsIn, LastSigned, SignaturesOk, Ends, EventSignatureOf, IsEndTime;
    var t := Ends(c, s, now);
    var e1, e2 := EndsEntries(c, s, now);
    Appended(c, s.session, s.stream, e1);
    Appended(c, s.session, s.stream + [e1], e2);
    SignaturesKept(c, s.session, t.session, t.stream);
  }

  lemma EndsSignable(c: Config, s: System, now: Ts)
    requires Signable(c, s, s.latestSeqnum, s.latestHash) && SignaturesOk(c, s.session, s.stream) && IsEndTime(now)
    requires Active(s) == Idle && Active(Ends(c, s, now)) == Idle
    ensures Signable(c, Ends(c, s, now), s.latestSeqnum, s.latestHash)
  {
    hide EventHash, LastSigned, Active, SignaturesOk, Ends, IsEndTime;
    var e1, e2 := EndsEntries(c, s, now);
    EndsSignatures(c, s, now);
    ChainKept(c.hash, s.session, Ends(c, s, now).session, s.latestSeqnum);
  }

  lemma EndsSigner(c: Config, s: System, now: Ts)
    requires Inv(c, s) && s.main == Ending && IsEndTime(now)
    ensures SignerOk(c, Ends(c, s, now))
  {
    hide LocksOk, LastSigned, Active, SignaturesOk, EdgesOk, ChainOk, FlagsOk, Ends, IsEndTime, Signable;
    MainActive(c, s, now);
    BeginsEnds(c, s, now);
    EndingExited(s);
    var e1, e2 := EndsEntries(c, s, now);
    EndsSignatures(c, s, now);
    if s.latestHash != [] {
      EndsSignable(c, s, now);
    }
  }

  lemma MainFlags(c: Config, s: System, now: Ts)
    requires LocksOk(s) && FlagsOk(s)
    ensures FlagsOk(MainNext(c, s, now))
  {
    hide Begins, Ends;
    BeginsEnds(c, s, now);
  }

  lemma MainChain(c: Config, s: System, now: Ts)
    requires Inv(c, s) && s.main != Beginning && s.main != Ending
    ensures var t := MainNext(c, s, now); ChainOk(c, t) && EdgesOk(c, t)
  {
    hide StampedEvents, EventsIn, SessionHash, Previous, EndOf, EndInput, StartOf, FinishOf, Begins, Ends, AllStopped,
         IsEndTime, FlagsOk, SignerOk, SourcesHold;
  }

  lemma MainSigner(c: Config, s: System, now: Ts)
    requires Inv(c, s) && s.main != Beginning && s.main != Ending
    ensures SignerOk(c, MainNext(c, s, now))
  {
    hide SignaturesOk, LastSigned, EventHash, Begins, Ends, AllStopped, IsEndTime, FlagsOk, ChainOk,
         EdgesOk, SourcesHold;
  }

  lemma MainInv(c: Config, s: System, now: Ts)
    requires Inv(c, s)
    ensures Inv(c, MainNext(c, s, now))
  {
    hide LocksOk, ChainOk, SignerOk, FlagsOk, EdgesOk, Begins, Ends;
    MainLocks(c, s, now);
    MainFlags(c, s, now);
    if s.main == Beginning {
      BeginsInv(c, s);
    } else if s.main != Ending {
      MainChain(c, s, now);
      MainSigner(c, s, now);
    } else if IsEndTime(now) {
      EndsChain(c, s, now);
      EndsSigner(c, s, now);
    }
  }

  lemma WakeInv(c: Config, s: System)
    requires Inv(c, s)
    ensures Inv(c, s.(signer := Notified(s.signer)))
  {
    hide StampedEvents, SignaturesOk, EventsIn, LastSigned, EventHash, SessionHash, Previous, EndOf, EndInput,
         StartOf, FinishOf;
  }

  /** Every step of every thread keeps the invariant. */
  lemma StepKeepsInv(c: Config, s: System, step: Step)
    requires Inv(c, s) && HashesOk(c)
    ensures Inv(c, Apply(c, s, step))
  {
    hide Inv, SourceNext, SignerNext, MainNext;
    match step
    case SourceStep(i, call) => if i < |s.sources| { SourceInv(c, s, i, call); }
    case SignerStep => SignerInv(c, s);
    case MainStep(now) => MainInv(c, s, now);
    case SpuriousWake => WakeInv(c, s);
  }

  lemma {:induction false} RunKeepsInv(c: Config, steps: seq<Step>)
    requires HashesOk(c)
    ensures Inv(c, Run(c, steps))
    decreases |steps|
  {
    hide Apply, Inv;
    if steps == [] {
      InitiallyInv(c);
    } else {
      RunKeepsInv(c, steps[..|steps| - 1]);
      StepKeepsInv(c, Run(c, steps[..|steps| - 1]), steps[|steps| - 1]);
    }
  }

  // ---------------------------------------------------------------------------
  // Main results
  // ---------------------------------------------------------------------------

  /** Whatever the interleaving, the events in the stream are those of one session in which they
      were captured one after another: consecutive sequence numbers, one chain of hashes. */
  lemma CapturesOneChain(c: Config, steps: seq<Step>)
    requires HashesOk(c)
    ensures var s := Run(c, steps);
            s.session.srec == c.srec && EventsIn(s.stream) == StampedEvents(c.hash, s.session)
  {
    hide Run, EventsIn, StampedEvents;
    RunKeepsInv(c, steps);
  }

  lemma {:induction false} SignatureAt(c: Config, s: Session, stream: seq<Entry>, p: nat)
    requires SignaturesOk(c, s, stream) && p < |stream| && stream[p].EventSignature?
    ensures var k := stream[p].seqnum;
            && LastSigned(stream[..p]) < k < |EventsIn(stream[..p])| && k < |s.events|
            && stream[p] == EventSignatureOf(c, k, EventHash(c.hash, s, k))
  {
    hide EventHash, EventSignatureOf, LastSigned, EventsIn;
    var front := stream[..|stream| - 1];
    if p == |front| {
    } else {
      SignatureAt(c, s, front, p);
      assert front[..p] == stream[..p];
    }
  }

  lemma {:induction false} EventAt(stream: seq<Entry>, k: nat) returns (q: nat)
    requires k < |EventsIn(stream)|
    ensures q < |stream| && stream[q] == EventEntry(EventsIn(stream)[k])
  {
    var front, last := stream[..|stream| - 1], stream[|stream| - 1];
    if k < |EventsIn(front)| {
      q := EventAt(front, k);
    } else {
      q := |front|;
    }
  }

  lemma {:induction false} EventsInPrefix(stream: seq<Entry>, p: nat)
    requires p <= |stream|
    ensures EventsIn(stream[..p]) <= EventsIn(stream)
  {
    if p < |stream| {
      EventsInPrefix(stream[..|stream| - 1], p);
      assert stream[..|stream| - 1][..p] == stream[..p];
    } else {
      assert stream[..p] == stream;
    }
  }

  /** Each event signature states the sequence number k of an event which is earlier in the
      stream, and is over the hash which the chain gives to that event. */
  lemma SignaturesFaithful(c: Config, steps: seq<Step>, p: nat) returns (q: nat)
    requires HashesOk(c)
    requires p < |Run(c, steps).stream| && Run(c, steps).stream[p].EventSignature?
    ensures var s := Run(c, steps); var k := s.stream[p].seqnum;
            && k < |s.session.events|
            && q < p && s.stream[q] == EventEntry(Stamped(c.hash, s.session, k))
            && s.stream[p].rec == SignatureRecord(c.sign, Some(k % TWO64), EventHash(c.hash, s.session, k))
  {
    hide Run, EventsIn, EventHash, Stamped, LastSigned, SignatureRecord;
    RunKeepsInv(c, steps);
    var s := Run(c, steps);
    var k := s.stream[p].seqnum;
    SignatureAt(c, s.session, s.stream, p);
    q := EventAt(s.stream[..p], k);
    EventsInPrefix(s.stream, p);
    assert EventsIn(s.stream)[k] == Stamped(c.hash, s.session, k);
  }

  /** The events signed are ever later ones. */
  lemma LaterSigned(c: Config, s: Session, stream: seq<Entry>, p: nat, q: nat)
    requires SignaturesOk(c, s, stream) && p < q < |stream|
    requires stream[p].EventSignature? && stream[q].EventSignature?
    ensures stream[p].seqnum < stream[q].seqnum < |s.events|
    ensures stream[p] == EventSignatureOf(c, stream[p].seqnum, EventHash(c.hash, s, stream[p].seqnum))
    ensures stream[q] == EventSignatureOf(c, stream[q].seqnum, EventHash(c.hash, s, stream[q].seqnum))
  {
    hide EventsIn, EventHash, LastSigned, EventSignatureOf, SignaturesOk;
    SignatureAt(c, s, stream, p);
    SignatureAt(c, s, stream, q);
    SignaturesPrefix(c, s, stream, q);
    LastIsGreatest(c, s, stream[..q], p);
  }

  lemma InvSignatures(c: Config, s: System)
    requires Inv(c, s)
    ensures SignaturesOk(c, s.session, s.stream)
  {
    hide SignaturesOk;
  }

  /** The events signed are ever later ones; and the sequence numbers which the signatures state,
      having 64 bits, increase for as long as they do not wrap round. */
  lemma SignaturesIncrease(c: Config, steps: seq<Step>, p: nat, q: nat)
    requires HashesOk(c)
    requires p < q < |Run(c, steps).stream|
    requires Run(c, steps).stream[p].EventSignature? && Run(c, steps).stream[q].EventSignature?
    ensures var a, b := Run(c, steps).stream[p], Run(c, steps).stream[q];
            && a.seqnum < b.seqnum < |Run(c, steps).session.events|
            && RecordSeqnum(a.rec) == Some(a.seqnum % TWO64) && RecordSeqnum(b.rec) == Some(b.seqnum % TWO64)
            && (b.seqnum < TWO64 ==> RecordSeqnum(a.rec).value < RecordSeqnum(b.rec).value)
  {
    hide Run, Inv, HashesOk, SignaturesOk, EventHash, EventSignatureOf, RecordSeqnum;
    RunKeepsInv(c, steps);
    var s := Run(c, steps);
    InvSignatures(c, s);
    LaterSigned(c, s.session, s.stream, p, q);
    var m, n := s.stream[p].seqnum, s.stream[q].seqnum;
    NumberStated(c, m, EventHash(c.hash, s.session, m));
    NumberStated(c, n, EventHash(c.hash, s.session, n));
  }

  lemma NumberStated(c: Config, k: nat, h: Hash)
    ensures RecordSeqnum(EventSignatureOf(c, k, h).rec) == Some(k % TWO64)
  {
    SignatureStates(c.sign, Some(k % TWO64), h);
    hide SignatureRecord, RecordSeqnum;
  }

  lemma {:induction false} SignaturesPrefix(c: Config, s: Session, stream: seq<Entry>, p: nat)
    requires SignaturesOk(c, s, stream) && p <= |stream|
    ensures SignaturesOk(c, s, stream[..p])
  {
    hide EventHash, EventSignatureOf, LastSigned, EventsIn;
    if p < |stream| {
      SignaturesPrefix(c, s, stream[..|stream| - 1], p);
      assert stream[..|stream| - 1][..p] == stream[..p];
    } else {
      assert stream[..p] == stream;
    }
  }

  lemma {:induction false} LastIsGreatest(c: Config, s: Session, stream: seq<Entry>, p: nat)
    requires SignaturesOk(c, s, stream) && p < |stream| && stream[p].EventSignature?
    ensures stream[p].seqnum <= LastSigned(stream)
  {
    hide EventHash, EventSignatureOf, EventsIn;
    var front := stream[..|stream| - 1];
    if p == |front| {
    } else {
      LastIsGreatest(c, s, front, p);
    }
  }

  /** Once the session has ended, the stream ends with its end record (which includes the hash
      of the last event) and a signature for that; and it starts with the session record and a
      signature for that. */
  lemma EndedWithSignature(c: Config, steps: seq<Step>)
    requires HashesOk(c) && Run(c, steps).main == Ended
    ensures var s := Run(c, steps);
            && s.session.end.Some? && IsEndTime(s.session.end.value)
            && |s.stream| >= 2 && s.stream[|s.stream| - 2..] == FinishOf(c, s.session)
            && StartOf(c, s.session) <= s.stream
  {
    hide Run, StartOf, FinishOf;
    RunKeepsInv(c, steps);
  }

  // ---------------------------------------------------------------------------
  // No deadlock
  // ---------------------------------------------------------------------------

  /** A step which the given thread could take next. */
  function StepOf(t: Thread): Step {
    match t
    case Source(i) => SourceStep(i, None)
    case Signer => SignerStep
    case Main => MainStep(Ts(1, 0))
  }

  /** Whoever has the signer lock can always proceed: it waits for nothing. Whoever has the
      writer lock can proceed too, unless it is waiting for the signer lock, in which case
      whoever has that can. So the two locks are never each waited for by the holder of the other. */
  lemma NoDeadlock(c: Config, steps: seq<Step>)
    requires HashesOk(c)
    ensures var s := Run(c, steps);
            && (s.signerLock.Some? ==> Apply(c, s, StepOf(s.signerLock.value)) != s)
            && (s.writerLock.Some? ==>
                  || Apply(c, s, StepOf(s.writerLock.value)) != s
                  || (s.signerLock.Some? && s.signerLock != s.writerLock
                      && Apply(c, s, StepOf(s.signerLock.value)) != s))
  {
    hide Run, Inv, Apply;
    RunKeepsInv(c, steps);
    var s := Run(c, steps);
    InvLocks(c, s);
    if s.signerLock.Some? {
      SignerHolderMoves(c, s);
    }
    if s.writerLock.Some? && Apply(c, s, StepOf(s.writerLock.value)) == s {
      WriterHolderMoves(c, s);
      SignerHolderMoves(c, s);
    }
  }

  lemma InvLocks(c: Config, s: System)
    requires Inv(c, s)
    ensures LocksOk(s)
  {
  }

  lemma SignerHolderMoves(c: Config, s: System)
    requires LocksOk(s) && s.signerLock.Some?
    ensures Apply(c, s, StepOf(s.signerLock.value)) != s
  {
    hide Begins, Ends, SignatureRecord, WritesEvent;
  }

  lemma WriterHolderMoves(c: Config, s: System)
    requires LocksOk(s) && s.writerLock.Some? && Apply(c, s, StepOf(s.writerLock.value)) == s
    ensures s.signerLock.Some? && s.signerLock != s.writerLock
  {
    hide Begins, Ends, SignatureRecord, EndRecord, Stamp, EncodeRecord;
    BeginsEnds(c, s, Ts(1, 0));
    Holders(s);
  }

  function SourceRank(pc: SourcePc): nat {
    match pc
    case Called(_) => 7
    case Writing(_) => 6
    case Handing(_) => 5
    case Setting(_) => 4
    case Notifying => 3
    case Returning => 2
    case Idle => 1
    case Stopped => 0
  }

  function SignerRank(pc: SignerPc): nat {
    match pc
    case Polled => 9
    case Waiting => 8
    case Delaying => 7
    case Resuming => 6
    case Taking => 5
    case Signed(_, _) => 4
    case Recording(_, _) => 3
    case Starting => 2
    case Checking => 1
    case Exited => 0
  }

  function MainRank(pc: MainPc): nat {
    match pc
    case Preparing => 10
    case Beginning => 9
    case Capturing => 8
    case Draining => 7
    case Stopping => 6
    case Holding => 5
    case Waking => 4
    case Joining => 3
    case Finishing => 2
    case Ending => 1
    case Ended => 0
  }

  function SourcesRank(pcs: seq<SourcePc>): nat {
    if pcs == [] then 0 else SourcesRank(pcs[..|pcs| - 1]) + SourceRank(pcs[|pcs| - 1])
  }

  /** How much there is left to do. */
  function Rank(s: System): nat { MainRank(s.main) + SignerRank(s.signer) + SourcesRank(s.sources) }

  lemma {:induction false} RankAt(pcs: seq<SourcePc>, i: nat, pc: SourcePc)
    requires i < |pcs|
    ensures SourcesRank(pcs[i := pc]) == SourcesRank(pcs) - SourceRank(pcs[i]) + SourceRank(pc)
  {
    hide SourceRank;
    var front := pcs[..|pcs| - 1];
    if i < |front| {
      RankAt(front, i, pc);
      assert pcs[i := pc][..|pcs| - 1] == front[i := pc];
    } else {
      assert pcs[i := pc][..|pcs| - 1] == front;
    }
  }

  /** When the signer is to stop, each step that it can take brings it nearer to doing so. */
  lemma SignerAdvances(c: Config, s: System)
    requires s.terminating && s.signer != Waiting && s.signer != Exited
    requires s.signer == Starting || s.signer == Resuming ==> s.signerLock.None?
    requires s.signer.Signed? ==> s.writerLock.None?
    ensures Rank(SignerNext(c, s)) < Rank(s)
  {
    hide SignatureRecord;
  }

  lemma SourceAdvances(c: Config, s: System, i: nat)
    requires s.terminating && i < |s.sources| && s.sources[i] != Stopped
    requires s.sources[i].Called? ==> s.writerLock.None?
    requires s.sources[i].Handing? ==> s.signerLock.None?
    ensures Rank(SourceNext(c, s, i, None)) < Rank(s)
  {
    hide Stamp, EncodeRecord, SourcesRank;
    var t := SourceNext(c, s, i, None);
    RankAt(s.sources, i, t.sources[i]);
    assert t.sources == s.sources[i := t.sources[i]];
  }

  lemma DrainingAdvances(c: Config, s: System, i: nat) returns (step: Step)
    requires LocksOk(s) && FlagsOk(s) && s.main == Draining && i < |s.sources| && s.sources[i] != Stopped
    ensures Rank(Apply(c, s, step)) < Rank(s)
  {
    hide Rank, SourceNext, SignerNext, FlagsOk;
    assert s.terminating by { Terminating(s); }
    Holders(s);
    match s.writerLock
    case None =>
      step := SourceStep(i, None);
      assert !SourceHasWriter(s.sources[i]);
      SourceAdvances(c, s, i);
    case Some(Source(j)) =>
      if s.sources[j].Handing? && s.signerLock.Some? {
        step := SignerStep;
        SignerAdvances(c, s);
      } else {
        step := SourceStep(j, None);
        SourceAdvances(c, s, j);
      }
    case Some(Signer) =>
      step := SignerStep;
      SignerAdvances(c, s);
    case Some(Main) =>
  }

  lemma Terminating(s: System)
    requires FlagsOk(s) && s.main == Draining
    ensures s.terminating
  {
  }

  lemma JoiningAdvances(c: Config, s: System) returns (step: Step)
    requires LocksOk(s) && FlagsOk(s)
    requires (s.main == Stopping && s.signerLock.Some?) || (s.main == Joining && s.signer != Exited)
    ensures step == SignerStep && Rank(Apply(c, s, step)) < Rank(s)
  {
    hide Rank, SignerNext, LocksOk;
    Holders(s);
    step := SignerStep;
    SignerAdvances(c, s);
  }

  lemma MainAdvances(c: Config, s: System, now: Ts)
    requires s.main != Ended && IsEndTime(now)
    requires s.main == Preparing || s.main == Finishing ==> s.writerLock.None?
    requires s.main == Stopping ==> s.signerLock.None?
    requires s.main == Draining ==> AllStopped(s)
    requires s.main == Joining ==> s.signer == Exited
    ensures Rank(MainNext(c, s, now)) < Rank(s)
  {
    hide Begins, Ends, SourcesRank;
    BeginsEnds(c, s, now);
  }

  lemma MainLocksFree(c: Config, s: System)
    requires Inv(c, s) && (s.main == Preparing || s.main == Finishing)
    ensures s.writerLock.None?
  {
    hide ChainOk, SignaturesOk, EventHash, EventsIn, LocksOk;
    Holders(s);
  }

  lemma Advances(c: Config, s: System) returns (step: Step)
    requires Inv(c, s) && s.main != Ended
    ensures Rank(Apply(c, s, step)) < Rank(s)
  {
    hide ChainOk, SignerOk, EdgesOk, Rank, SourceNext, SignerNext, MainNext;
    var now := Ts(1, 0);
    if s.main == Draining && !AllStopped(s) {
      var i :| 0 <= i < |s.sources| && s.sources[i] != Stopped;
      step := DrainingAdvances(c, s, i);
    } else if (s.main == Stopping && s.signerLock.Some?) || (s.main == Joining && s.signer != Exited) {
      step := JoiningAdvances(c, s);
    } else {
      if s.main == Preparing || s.main == Finishing {
        MainLocksFree(c, s);
      }
      step := MainStep(now);
      MainAdvances(c, s, now);
    }
  }

  /** From every state that can be reached, the session can be brought to its end: at no point
      do the threads wait for each other for ever. */
  lemma {:induction false} AlwaysAbleToEnd(c: Config, steps: seq<Step>) returns (more: seq<Step>)
    requires HashesOk(c)
    ensures Run(c, steps + more).main == Ended
    decreases Rank(Run(c, steps))
  {
    hide Apply, Inv, Rank;
    var s := Run(c, steps);
    RunKeepsInv(c, steps);
    if s.main == Ended {
      more := [];
      assert steps + more == steps;
    } else {
      var step := Advances(c, s);
      var all := steps + [step];
      assert all[..|all| - 1] == steps;
      more := AlwaysAbleToEnd(c, all);
      assert steps + ([step] + more) == all + more;
      more := [step] + more;
    }
  }

  /** While the main thread is waiting for the signer to exit, no other thread can do anything,
      and each step of the signer (which is never left waiting to be notified) brings it nearer
      to its exit. */
  lemma StopReturns(c: Config, steps: seq<Step>, step: Step)
    requires HashesOk(c) && Run(c, steps).main == Joining && Run(c, steps).signer != Exited
    ensures var s := Run(c, steps);
            && s.signer != Waiting
            && (step == SignerStep ==> Rank(Apply(c, s, step)) < Rank(s))
            && (step != SignerStep ==> Apply(c, s, step) == s)
  {
    hide Run, ChainOk, SignerOk, EdgesOk, Rank, SignerNext;
    RunKeepsInv(c, steps);
    var s := Run(c, steps);
    var next := JoiningAdvances(c, s);
  }
}
