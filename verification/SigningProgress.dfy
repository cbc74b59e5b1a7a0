/** What the signer has yet to do: at every moment the latest event is signed, being signed, or
    next to be signed, and the signer sleeps only when there is nothing to sign. */
module SigningProgress {
  import opened Octets
  import opened Attributes
  import opened Codec
  import opened Records
  import opened Sessions
  import opened Capture
  import opened Signing

  /** How many events the signer has been told of. */
  function Known(s: System): int { |s.session.events| - Unhanded(Active(s)) }

  /** No event but the latest is ever waiting to be signed, and that one is not forgotten. */
  ghost predicate LatestOk(s: System) {
    Known(s) > 0 ==> if s.latestHash != [] then s.latestSeqnum == Known(s) - 1 else InHand(s) == Known(s) - 1
  }

  /** If the signer is waiting then either there is nothing to sign, or a source is about to wake it. */
  ghost predicate WakeOk(s: System) {
    s.signer == Waiting && s.latestHash != [] ==> Active(s) == Notifying
  }

  lemma InitiallyProgress(c: Config)
    ensures LatestOk(Initially(c)) && WakeOk(Initially(c))
  {
  }

  /** What a source's step does to what the signer sees. */
  lemma SourceEffect(c: Config, s: System, i: nat, call: Option<Record>)
    requires i < |s.sources|
    ensures var t := SourceNext(c, s, i, call);
            && t.signer == (if s.sources[i] == Notifying then Notified(s.signer) else s.signer)
            && |t.session.events| == |s.session.events| + (if s.sources[i].Writing? then 1 else 0)
            && (if s.sources[i].Setting? then t.latestHash == s.sources[i].latest && t.latestSeqnum == s.seqnum
                else t.latestHash == s.latestHash && t.latestSeqnum == s.latestSeqnum)
            && LastSigned(t.stream) == LastSigned(s.stream)
    ensures var t := SourceNext(c, s, i, call);
            && i < |t.sources|
            && match s.sources[i]
               case Writing(_) => t.sources[i].Handing?
               case Handing(_) => t.sources[i].Handing? || t.sources[i].Setting?
               case Setting(_) => t.sources[i].Notifying?
               case Notifying => t.sources[i].Returning?
               case Returning => t.sources[i].Idle?
               case _ => !SourceHasWriter(t.sources[i]) || (t.sources[i].Writing? && s.writerLock.None?)
  {
    hide Stamp, EncodeRecord, SignaturesOk, EventsIn, LastSigned;
    if s.sources[i].Writing? {
      var e := EventEntry(Stamp(s.sources[i].next, s.seqnum % TWO64, s.prev));
      Appended(c, s.session, s.stream, e);
    }
  }

  lemma SourceProgress(c: Config, s: System, i: nat, call: Option<Record>)
    requires Inv(c, s) && HashesOk(c) && i < |s.sources| && LatestOk(s) && WakeOk(s)
    ensures var t := SourceNext(c, s, i, call); LatestOk(t) && WakeOk(t)
  {
    hide SourceNext, Active, LocksOk, ChainOk, SignerOk, FlagsOk, EdgesOk, HashesOk, LastSigned;
    ActiveAfter(c, s, i, call);
    SourceEffect(c, s, i, call);
    if s.sources[i].Setting? {
      LatestHash(c, s);
    }
  }

  lemma SignerProgress(c: Config, s: System)
    requires Inv(c, s) && LatestOk(s) && WakeOk(s)
    ensures var t := SignerNext(c, s); LatestOk(t) && WakeOk(t)
  {
    hide ChainOk, FlagsOk, EdgesOk, SourcesHold, SignaturesOk, EventsIn, LastSigned, EventSignatureOf, EventHash;
    if s.signer.Recording? {
      var e := EventSignatureOf(c, s.signer.n, s.signer.g);
      Appended(c, s.session, s.stream, e);
      IsSignature(c, s.signer.n, s.signer.g);
    }
  }

  lemma IsSignature(c: Config, k: nat, h: Hash)
    ensures EventSignatureOf(c, k, h).EventSignature? && EventSignatureOf(c, k, h).seqnum == k
  {
  }

  lemma WakeProgress(s: System)
    requires LatestOk(s) && WakeOk(s)
    ensures var t := s.(signer := Notified(s.signer)); LatestOk(t) && WakeOk(t)
  {
    hide LastSigned;
  }

  lemma EdgeEffect(c: Config, s: System, now: Ts)
    ensures var t := Begins(c, s);
            LastSigned(t.stream) == LastSigned(s.stream) && t.session == s.session
            && t.latestHash == s.latestHash && t.latestSeqnum == s.latestSeqnum
    ensures IsEndTime(now) ==>
              var t := Ends(c, s, now);
              LastSigned(t.stream) == LastSigned(s.stream) && t.session.events == s.session.events
              && t.latestHash == s.latestHash && t.latestSeqnum == s.latestSeqnum
  {
    hide EndRecord, SignatureRecord, SignaturesOk, EventsIn, LastSigned;
    forall a, b
      ensures LastSigned(s.stream + [OtherEntry(a), OtherEntry(b)]) == LastSigned(s.stream)
    {
      Appended(c, s.session, s.stream, OtherEntry(a));
      Appended(c, s.session, s.stream + [OtherEntry(a)], OtherEntry(b));
      assert s.stream + [OtherEntry(a), OtherEntry(b)] == s.stream + [OtherEntry(a)] + [OtherEntry(b)];
    }
  }

  lemma MainProgress(c: Config, s: System, now: Ts)
    requires Inv(c, s) && LatestOk(s) && WakeOk(s)
    ensures var t := MainNext(c, s, now); LatestOk(t) && WakeOk(t)
  {
    hide Begins, Ends, Inv, LocksOk, LastSigned, AllStopped, IsEndTime;
    if s.main == Beginning || s.main == Ending {
      InvLocks(c, s);
      MainActive(c, s, now);
      EdgeEffect(c, s, now);
      BeginsEnds(c, s, now);
    } else {
      InvLocks(c, s);
      MainIsNoSource(c, s, now);
    }
  }

  /** The main thread taking a lock, or releasing it, does not make a source active. */
  lemma MainIsNoSource(c: Config, s: System, now: Ts)
    requires LocksOk(s) && s.main != Beginning && s.main != Ending
    ensures Active(MainNext(c, s, now)) == Active(s)
  {
    hide Begins, Ends, AllStopped;
  }

  lemma StepProgresses(c: Config, s: System, step: Step)
    requires Inv(c, s) && HashesOk(c) && LatestOk(s) && WakeOk(s)
    ensures LatestOk(Apply(c, s, step)) && WakeOk(Apply(c, s, step))
  {
    hide Inv, HashesOk, LatestOk, WakeOk, SourceNext, SignerNext, MainNext;
    match step
    case SourceStep(i, call) => if i < |s.sources| { SourceProgress(c, s, i, call); }
    case SignerStep => SignerProgress(c, s);
    case MainStep(now) => MainProgress(c, s, now);
    case SpuriousWake => WakeProgress(s);
  }

  lemma {:induction false} RunProgresses(c: Config, steps: seq<Step>)
    requires HashesOk(c)
    ensures LatestOk(Run(c, steps)) && WakeOk(Run(c, steps))
    decreases |steps|
  {
    hide Apply, Inv, HashesOk, LatestOk, WakeOk;
    if steps == [] {
      InitiallyProgress(c);
    } else {
      RunKeepsInv(c, steps[..|steps| - 1]);
      RunProgresses(c, steps[..|steps| - 1]);
      StepProgresses(c, Run(c, steps[..|steps| - 1]), steps[|steps| - 1]);
    }
  }

  /** After every interleaving, of the events which the signer has been told of, the latest is
      the one waiting to be signed, if there is one waiting, with its hash in the chain; and
      otherwise its signature is being made or is the last in the stream. */
  lemma LatestIsSignedNext(c: Config, steps: seq<Step>)
    requires HashesOk(c) && Known(Run(c, steps)) > 0
    ensures var s := Run(c, steps);
            if s.latestHash != []
              then s.latestSeqnum == Known(s) - 1 && s.latestHash == EventHash(c.hash, s.session, Known(s) - 1)
              else InHand(s) == Known(s) - 1
  {
    hide Run, HashesOk, EventHash, LastSigned, LocksOk, ChainOk, FlagsOk, EdgesOk, SignaturesOk, Active;
    RunKeepsInv(c, steps);
    RunProgresses(c, steps);
  }

  /** No wake-up is lost: if the signer is waiting, and no source is in the middle of capturing an
      event, then the last event has been signed. */
  lemma WaitsOnlyWhenSigned(c: Config, steps: seq<Step>)
    requires HashesOk(c) && Run(c, steps).signer == Waiting && !OfSource(Run(c, steps).writerLock)
    ensures var s := Run(c, steps);
            s.session.events != [] ==> LastSigned(s.stream) == |s.session.events| - 1
  {
    hide Run, HashesOk, LastSigned;
    RunProgresses(c, steps);
  }

  // ---------------------------------------------------------------------------
  // What is not done
  // ---------------------------------------------------------------------------

  /** The signer has neither lock while it waits, while it delays, and while it makes a signature. */
  lemma NoLockWhileBusy(c: Config, steps: seq<Step>)
    requires HashesOk(c)
    requires var pc := Run(c, steps).signer; pc == Waiting || pc == Delaying || pc.Signed?
    ensures Run(c, steps).signerLock != Some(Signer) && Run(c, steps).writerLock != Some(Signer)
  {
    hide Run, Inv, HashesOk;
    RunKeepsInv(c, steps);
    InvLocks(c, Run(c, steps));
  }

  /** The signer has not got as far as taking a hash to sign. */
  predicate BeforeTaking(pc: SignerPc) {
    pc == Starting || pc == Checking || pc == Polled || pc == Waiting || pc == Delaying || pc == Exited
  }

  function SignaturesIn(stream: seq<Entry>): nat {
    if stream == [] then 0
    else SignaturesIn(stream[..|stream| - 1]) + if stream[|stream| - 1].EventSignature? then 1 else 0
  }

  lemma SignaturesAppended(stream: seq<Entry>, e: Entry)
    ensures SignaturesIn(stream + [e]) == SignaturesIn(stream) + if e.EventSignature? then 1 else 0
  {
    assert (stream + [e])[..|stream|] == stream;
  }

  lemma SourceSignsNothing(c: Config, s: System, i: nat, call: Option<Record>)
    requires i < |s.sources|
    ensures var t := SourceNext(c, s, i, call);
            SignaturesIn(t.stream) == SignaturesIn(s.stream) && t.terminating == s.terminating
            && (t.signer == s.signer || t.signer == Notified(s.signer))
  {
    hide Stamp, EncodeRecord, With, SignaturesIn;
    if s.sources[i].Writing? {
      SignaturesAppended(s.stream, EventEntry(Stamp(s.sources[i].next, s.seqnum % TWO64, s.prev)));
    }
  }

  lemma PairSignsNothing(stream: seq<Entry>, a: Record, b: Record)
    ensures SignaturesIn(stream + [OtherEntry(a), OtherEntry(b)]) == SignaturesIn(stream)
  {
    hide SignaturesIn;
    SignaturesAppended(stream, OtherEntry(a));
    SignaturesAppended(stream + [OtherEntry(a)], OtherEntry(b));
    assert stream + [OtherEntry(a), OtherEntry(b)] == stream + [OtherEntry(a)] + [OtherEntry(b)];
  }

  lemma {:induction false} MainSignsNothing(c: Config, s: System, now: Ts)
    ensures var t := MainNext(c, s, now);
            SignaturesIn(t.stream) == SignaturesIn(s.stream) && (s.terminating ==> t.terminating)
            && (t.signer == s.signer || t.signer == Notified(s.signer))
  {
    hide EndRecord, SignatureRecord, SignaturesIn, AllStopped, EncodeRecord;
    forall a, b
      ensures SignaturesIn(s.stream + [OtherEntry(a), OtherEntry(b)]) == SignaturesIn(s.stream)
    {
      PairSignsNothing(s.stream, a, b);
    }
  }

  /** Once the session is to terminate, the signer takes no more events to sign: unless it has one in
      hand already, there are no more event signatures, whatever steps follow. */
  lemma {:induction false} NoMoreSignatures(c: Config, steps: seq<Step>, more: seq<Step>)
    requires Run(c, steps).terminating && BeforeTaking(Run(c, steps).signer)
    requires Run(c, steps).signer != Polled
    ensures var t := Run(c, steps + more);
            && t.terminating && BeforeTaking(t.signer) && t.signer != Polled
            && SignaturesIn(t.stream) == SignaturesIn(Run(c, steps).stream)
    decreases |more|
  {
    hide SourceNext, MainNext, SignaturesIn;
    if more == [] {
      assert steps + more == steps;
    } else {
      var n := |more| - 1;
      NoMoreSignatures(c, steps, more[..n]);
      assert (steps + more)[..|steps + more| - 1] == steps + more[..n];
      var s := Run(c, steps + more[..n]);
      match more[n]
      case SourceStep(i, call) => if i < |s.sources| { SourceSignsNothing(c, s, i, call); }
      case MainStep(now) => MainSignsNothing(c, s, now);
      case _ =>
    }
  }

  /** Once the session has ended nothing more is written. */
  lemma {:induction false} NothingAfterEnd(c: Config, steps: seq<Step>, more: seq<Step>)
    requires HashesOk(c) && Run(c, steps).main == Ended
    ensures Run(c, steps + more).main == Ended && Run(c, steps + more).stream == Run(c, steps).stream
    decreases |more|
  {
    hide Apply, Inv, HashesOk;
    if more == [] {
      assert steps + more == steps;
    } else {
      var n := |more| - 1;
      NothingAfterEnd(c, steps, more[..n]);
      assert (steps + more)[..|steps + more| - 1] == steps + more[..n];
      RunKeepsInv(c, steps + more[..n]);
      EndedIdle(c, Run(c, steps + more[..n]), more[n]);
    }
  }

  lemma EndedIdle(c: Config, s: System, step: Step)
    requires Inv(c, s) && s.main == Ended
    ensures Apply(c, s, step).main == Ended && Apply(c, s, step).stream == s.stream
  {
    hide LocksOk, ChainOk, SignerOk, EdgesOk, WritesEvent, EventSignatureOf;
    assert AllStopped(s) && s.signer == Exited;
  }

  // ---------------------------------------------------------------------------
  // What one thread does when no other thread moves
  // ---------------------------------------------------------------------------

  function Repeated(c: Config, s: System, step: Step, n: nat): System {
    if n == 0 then s else Apply(c, Repeated(c, s, step, n - 1), step)
  }

  /** A source which finds both locks free has its event written, hands the hash to the signer and
      wakes it if it was waiting. This is so until the last source has stopped, not only until the
      session is to terminate. */
  lemma {:induction false} CallWrites(c: Config, s: System, i: nat, e: Record)
    requires i < |s.sources| && s.sources[i] == Idle && e.IsEvent()
    requires s.main == Capturing || s.main == Draining
    requires s.writerLock.None? && s.signerLock.None?
    ensures var rec := Stamp(e, s.seqnum % TWO64, s.prev);
            var h := c.hash(s.sessionHash + EncodeRecord(rec));
            Repeated(c, s, SourceStep(i, Some(e)), 7)
            == s.(stream := s.stream + [EventEntry(rec)], session := s.session.(events := s.session.events + [e]),
                  prev := Some(h), latestHash := h, latestSeqnum := s.seqnum, seqnum := s.seqnum + 1,
                  signer := if s.signer == Waiting then Starting else s.signer)
  {
    hide Stamp, EncodeRecord, SignerNext, MainNext;
    var step := SourceStep(i, Some(e));
    var r1 := At(s, i, Called(e));
    assert Repeated(c, s, step, 1) == Apply(c, Repeated(c, s, step, 0), step);
    var r2 := At(s, i, Writing(e)).(writerLock := Some(Source(i)));
    assert Repeated(c, s, step, 2) == Apply(c, r1, step) == r2;
    var r3 := WritesEvent(c, r2, i, e);
    assert Repeated(c, s, step, 3) == Apply(c, r2, step) == r3;
    var r4 := Apply(c, r3, step);
    assert Repeated(c, s, step, 4) == r4;
    var r5 := Apply(c, r4, step);
    assert Repeated(c, s, step, 5) == r5;
    var r6 := Apply(c, r5, step);
    assert Repeated(c, s, step, 6) == r6;
    var r7 := Apply(c, r6, step);
    assert Repeated(c, s, step, 7) == r7;
    assert r7.sources == s.sources;
  }

  /** The signer, about to look for something to sign, signs the latest event and no other. */
  lemma {:induction false} SignerSigns(c: Config, s: System)
    requires s.signer == Starting && s.latestHash != [] && !s.terminating
    requires s.writerLock.None? && s.signerLock.None?
    ensures var rec := SignatureRecord(c.sign, Some(s.latestSeqnum % TWO64), s.latestHash);
            Repeated(c, s, SignerStep, 8)
            == s.(latestHash := [], stream := s.stream + [EventSignature(s.latestSeqnum, rec)])
  {
    hide SignatureRecord;
    assert Repeated(c, s, SignerStep, 1) == Apply(c, Repeated(c, s, SignerStep, 0), SignerStep);
    assert Repeated(c, s, SignerStep, 2) == s.(signerLock := Some(Signer), signer := Polled);
    assert Repeated(c, s, SignerStep, 3) == s.(signer := Delaying);
    assert Repeated(c, s, SignerStep, 4) == s.(signer := Resuming);
    assert Repeated(c, s, SignerStep, 5) == s.(signerLock := Some(Signer), signer := Taking);
    assert Repeated(c, s, SignerStep, 6) == s.(signer := Signed(s.latestSeqnum, s.latestHash), latestHash := []);
    assert Repeated(c, s, SignerStep, 7).signer == Recording(s.latestSeqnum, s.latestHash);
  }
}
