/** What the sources pass to the session writer is what the hashes fix, whatever the interleaving. */
module SigningSessions {
  import opened Octets
  import opened Attributes
  import opened Codec
  import opened Records
  import opened Sessions
  import opened Capture
  import opened Signing

  /** The session record can be stored, and every event passed by a source can be captured under
      the context which that gives. */
  ghost predicate Passed(c: Config, steps: seq<Step>) {
    && StorableRecord(EMPTY_CONTEXT, c.srec)
    && forall step | step in steps && step.SourceStep? && step.call.Some? && step.call.value.IsEvent() ::
         Capturable(ContextOf(c), step.call.value)
  }

  ghost function ContextOf(c: Config): Context
    requires StorableRecord(EMPTY_CONTEXT, c.srec)
  {
    ContextAfter(EMPTY_CONTEXT, c.srec.attributes)
  }

  /** Whatever is captured, or about to be, was passed by a source. */
  ghost predicate PassedOk(c: Config, ctx: Context, s: System) {
    && s.session.srec == c.srec
    && (forall e | e in s.session.events :: Capturable(ctx, e))
    && (forall i: nat | i < |s.sources| ::
          && (s.sources[i].Called? ==> Capturable(ctx, s.sources[i].event))
          && (s.sources[i].Writing? ==> Capturable(ctx, s.sources[i].next)))
    && (s.session.end.Some? ==> IsEndTime(s.session.end.value))
  }

  /** What a source's step does to the events captured. */
  lemma SourceCaptures(c: Config, s: System, i: nat, call: Option<Record>)
    requires i < |s.sources|
    ensures var t := SourceNext(c, s, i, call);
            && t.session == (if s.sources[i].Writing? then With(s.session, s.sources[i].next) else s.session)
            && |t.sources| == |s.sources| && (forall j: nat | j < |s.sources| && j != i :: t.sources[j] == s.sources[j])
            && (t.sources[i].Called? ==>
                  t.sources[i] == s.sources[i] || (call == Some(t.sources[i].event) && call.value.IsEvent()))
            && (t.sources[i].Writing? ==> s.sources[i] == Called(t.sources[i].next))
  {
    hide Stamp, EncodeRecord;
  }

  lemma SourcePassed(c: Config, ctx: Context, s: System, i: nat, call: Option<Record>)
    requires PassedOk(c, ctx, s) && i < |s.sources|
    requires call.Some? && call.value.IsEvent() ==> Capturable(ctx, call.value)
    ensures PassedOk(c, ctx, SourceNext(c, s, i, call))
  {
    hide SourceNext, Capturable;
    SourceCaptures(c, s, i, call);
  }

  /** The other threads capture nothing. */
  lemma OthersCapture(c: Config, s: System, step: Step)
    requires !step.SourceStep?
    ensures var t := Apply(c, s, step);
            && t.sources == s.sources && t.session.srec == s.session.srec && t.session.events == s.session.events
            && (t.session.end == s.session.end || (t.session.end.Some? && IsEndTime(t.session.end.value)))
  {
    hide SignatureRecord, EndRecord, EncodeRecord, AllStopped;
  }

  lemma OtherPassed(c: Config, ctx: Context, s: System, step: Step)
    requires PassedOk(c, ctx, s) && !step.SourceStep?
    ensures PassedOk(c, ctx, Apply(c, s, step))
  {
    hide Apply, Capturable;
    OthersCapture(c, s, step);
  }

  lemma {:induction false} RunPassed(c: Config, steps: seq<Step>)
    requires Passed(c, steps)
    ensures PassedOk(c, ContextOf(c), Run(c, steps))
    decreases |steps|
  {
    hide SourceNext, Capturable, PassedOk, StorableRecord, ContextOf;
    if steps == [] {
      InitiallyPassed(c, ContextOf(c));
    } else {
      var front, last := steps[..|steps| - 1], steps[|steps| - 1];
      RunPassed(c, front);
      if last.SourceStep? {
        if last.i < |Run(c, front).sources| {
          SourcePassed(c, ContextOf(c), Run(c, front), last.i, last.call);
        }
      } else {
        OtherPassed(c, ContextOf(c), Run(c, front), last);
      }
    }
  }

  lemma InitiallyPassed(c: Config, ctx: Context)
    ensures PassedOk(c, ctx, Initially(c))
  {
  }

  /** So the session captured in any run is well formed. */
  lemma SessionWellFormed(c: Config, steps: seq<Step>)
    requires Passed(c, steps)
    ensures WellFormed(Run(c, steps).session) && Run(c, steps).session.srec == c.srec
  {
    hide Run, Capturable, StorableRecord;
    RunPassed(c, steps);
  }

  /** The hash over the session hash and the end record, which the last signature is for. */
  ghost function EndHash(c: Config, steps: seq<Step>): Hash
    requires HashesOk(c) && Run(c, steps).main == Ended
  {
    EndedWithSignature(c, steps);
    c.hash(EndInput(c.hash, Run(c, steps).session))
  }

  lemma EndHashIs(c: Config, steps: seq<Step>)
    requires HashesOk(c) && Run(c, steps).main == Ended
    ensures var s := Run(c, steps).session;
            s.end.Some? && IsEndTime(s.end.value) && EndHash(c, steps) == c.hash(EndInput(c.hash, s))
  {
    hide Run, EndInput, HashesOk, StartOf, FinishOf;
    EndedWithSignature(c, steps);
  }

  lemma SameHash(c1: Config, c2: Config)
    requires c1.hash == c2.hash && HashesOk(c1)
    ensures HashesOk(c2)
  {
  }

  /** Two sessions which have ended, captured with whatever interleavings, whose end records have
      equal hashes (and so perhaps one signature) have the same events in their streams. */
  lemma EndHashFixesStream(c1: Config, steps1: seq<Step>, c2: Config, steps2: seq<Step>, n: nat)
    requires c1.hash == c2.hash && HashesOk(c1) && HasLength(c1.hash, n)
    requires Passed(c1, steps1) && Passed(c2, steps2)
    requires Run(c1, steps1).main == Ended && Run(c2, steps2).main == Ended
    requires NoCollision(c1.hash, Run(c1, steps1).session, Run(c2, steps2).session)
    requires EndHash(c1, steps1) == EndHash(c2, steps2)
    ensures c1.srec == c2.srec && Run(c1, steps1).session == Run(c2, steps2).session
    ensures EventsIn(Run(c1, steps1).stream) == EventsIn(Run(c2, steps2).stream)
  {
    hide Run, EventsIn, StampedEvents, WellFormed, NoCollision, HasLength, EndInput, Passed, HashesOk, EndHash;
    assert HashesOk(c2) by { SameHash(c1, c2); }
    EndHashIs(c1, steps1);
    EndHashIs(c2, steps2);
    CapturesOneChain(c1, steps1);
    CapturesOneChain(c2, steps2);
    SessionWellFormed(c1, steps1);
    SessionWellFormed(c2, steps2);
    EndHashBindsSession(c1.hash, n, Run(c1, steps1).session, Run(c2, steps2).session);
  }
}
