/** The session writer and the signer as objects. */
module CaptureIo {
  import opened Octets
  import opened Attributes
  import opened Codec
  import opened Records
  import opened Sessions
  import opened Capture

  /** Signs event records after the fact. An empty hash means that there is nothing to sign. */
  class EventSigner {
    const sign: HashFn
    var seqnum: UInt64
    var hash: Hash

    constructor (sign: HashFn)
      ensures this.sign == sign && hash == []
    {
      this.sign, seqnum, hash := sign, 0, [];
    }

    method MakeSignature(seqnum: Option<UInt64>, hash: Hash) returns (rec: Record)
      ensures rec == SignatureRecord(sign, seqnum, hash)
    {
      var sig := sign(hash);
      var attrs := [];
      if seqnum.Some? {
        attrs := Insert(attrs, UnsignedInt(ATTRID_SEQNUM, seqnum.value));
      }
      attrs := Insert(attrs, Binary(ATTRID_SIG, sig));
      rec := Record(CHANNEL_SIGNATURE, attrs);
    }

    /** Note the most recent event. */
    method HandleEvent(n: UInt64, h: Hash)
      modifies this
      ensures seqnum == n && hash == h
    {
      seqnum := n;
      hash := h;
    }

    /** Take the most recent event, so that it will not be signed again. */
    method TakeLatest() returns (n: UInt64, h: Hash)
      modifies this
      ensures n == old(seqnum) && h == old(hash) && hash == [] && seqnum == old(seqnum)
    {
      n := seqnum;
      h, hash := hash, [];
    }
  }

  /** The event records of a stream. */
  function EventsIn(stream: seq<Record>): seq<Record> {
    if stream == [] then []
    else
      var last := stream[|stream| - 1];
      EventsIn(stream[..|stream| - 1]) + if last.IsEvent() then [last] else []
  }

  lemma EventsInMore(stream: seq<Record>, rec: Record)
    ensures EventsIn(stream + [rec]) == EventsIn(stream) + if rec.IsEvent() then [rec] else []
  {
    assert (stream + [rec])[..|stream|] == stream;
  }

  class NewSessionWriter {
    const hashfn: Option<HashFn>
    const signer: EventSigner?
    var open: bool            // whether there is still a session writer to write to
    var stream: seq<Record>   // what has been written to it
    var seqnum: UInt64
    var sessionHash: Hash
    var hattr: Option<Hash>
    ghost var session: Session

    /** The object is part way through a session. If hashing is enabled then what it holds, and
        what it has written, are as the chain of hashes requires. */
    ghost predicate Valid()
      reads this
    {
      && seqnum == |session.events| % TWO64
      && (hashfn.None? ==> hattr == None)
      && (hashfn.Some? ==>
            && sessionHash == SessionHash(hashfn.value, session)
            && hattr == Previous(hashfn.value, session, |session.events|)
            && EventsIn(stream) == StampedEvents(hashfn.value, session))
    }

    constructor (hashfn: Option<HashFn>, signer: EventSigner?)
      ensures this.hashfn == hashfn && this.signer == signer
      ensures open && stream == [] && seqnum == 0 && hattr == None && session.events == []
    {
      this.hashfn, this.signer := hashfn, signer;
      open, stream, seqnum, sessionHash, hattr := true, [], 0, [], None;
      session := Session(Record(CHANNEL_SESSION, []), [], None);
    }

    method BeginSession(srec: Record)
      requires open && stream == [] && seqnum == 0 && hattr == None
      requires !srec.IsEvent()
      modifies this
      ensures Valid() && open && session == Session(srec, [], None)
      ensures hashfn.Some? ==> sessionHash == hashfn.value(EncodeRecord(srec))
      ensures stream == [srec] + if hashfn.Some? && signer != null
                                 then [SignatureRecord(signer.sign, None, SessionHash(hashfn.value, session))] else []
    {
      hide EncodeRecord, SignatureRecord, Stamp;
      stream := stream + [srec];
      session := Session(srec, [], None);
      EventsInMore([], srec);
      if hashfn.Some? {
        sessionHash := hashfn.value(EncodeRecord(srec));
        if signer != null {
          var sigrec := signer.MakeSignature(None, sessionHash);
          SignatureChannel(signer.sign, None, sessionHash);
          EventsInMore(stream, sigrec);
          stream := stream + [sigrec];
        }
      }
    }

    /** Capture an event. If the write is interrupted by termination then nothing has been written
        and the sequence number has not been used, but the hash of the event before is lost. */
    method WriteEvent(rec: Record, interrupted: bool)
      requires open && rec.IsEvent()
      modifies this, signer
      ensures open && sessionHash == old(sessionHash)
      ensures interrupted ==>
                && stream == old(stream) && session == old(session) && seqnum == old(seqnum) && hattr == None
                && (old(Valid()) ==> (Valid() <==> hashfn.None? || session.events == []))
      ensures !interrupted ==>
                && stream == old(stream) + [Stamp(rec, old(seqnum), old(hattr))]
                && session == With(old(session), rec) && (old(Valid()) ==> Valid())
                && seqnum == Successor(old(seqnum))
      ensures interrupted || hashfn.None? ==>
                signer != null ==> signer.seqnum == old(signer.seqnum) && signer.hash == old(signer.hash)
      ensures !interrupted && hashfn.Some? ==>
                && hattr == Some(hashfn.value(sessionHash + EncodeRecord(stream[|old(stream)|])))
                && (signer != null ==> signer.seqnum == old(seqnum) && signer.hash == hattr.value)
    {
      hide EncodeRecord, Insert, EventsIn;
      var attrs := Insert(rec.attributes, UnsignedInt(ATTRID_SEQNUM, seqnum));
      if hattr.Some? {
        attrs := Insert(attrs, Binary(ATTRID_HASH, hattr.value));
        hattr := None;
      }
      var nrec := Record(rec.channel, attrs);
      if interrupted {
        return;
      }
      EventsInMore(stream, nrec);
      stream := stream + [nrec];
      if hashfn.Some? {
        if old(Valid()) {
          ChainGrows(hashfn.value, session, rec);
        }
        var hash := hashfn.value(sessionHash + EncodeRecord(nrec));
        hattr := Some(hash);
        if signer != null {
          signer.HandleEvent(seqnum, hash);
        }
      }
      seqnum := Successor(seqnum);
      session := With(session, rec);
    }

    method WriteSignature(sigrec: Record)
      requires open && !sigrec.IsEvent()
      modifies this
      ensures open && session == old(session) && stream == old(stream) + [sigrec]
      ensures seqnum == old(seqnum) && hattr == old(hattr) && sessionHash == old(sessionHash)
      ensures old(Valid()) ==> Valid()
    {
      hide Stamp, EncodeRecord;
      EventsInMore(stream, sigrec);
      stream := stream + [sigrec];
    }

    /** End the session, with a record which includes the hash of the last event if that has not
        been lost. */
    method EndSession(now: Ts)
      requires IsEndTime(now)
      modifies this
      ensures !open
      ensures !old(open) ==> stream == old(stream)
      ensures old(open) ==> session == old(session).(end := Some(now))
      ensures old(open) ==>
                var erec := EndRecord(now, old(seqnum), old(hattr));
                stream == old(stream) + [erec] +
                  if hashfn.Some? && signer != null
                    then [SignatureRecord(signer.sign, Some(old(seqnum)),
                            hashfn.value(old(sessionHash) + EncodeRecord(erec)))] else []
      ensures old(open && Valid() && session.end == None) && hashfn.Some? ==>
                && EndRecord(now, old(seqnum), old(hattr)) == EndOf(hashfn.value, session)
                && old(sessionHash) + EncodeRecord(EndOf(hashfn.value, session)) == EndInput(hashfn.value, session)
    {
      hide EncodeRecord, SignatureRecord, Insert, EventsIn, Stamp;
      if open {
        var attrs := Insert([], Timestamp(ATTRID_TS, now.sec, now.nsec));
        attrs := Insert(attrs, UnsignedInt(ATTRID_SEQNUM, seqnum));
        if hattr.Some? {
          attrs := Insert(attrs, Binary(ATTRID_HASH, hattr.value));
          hattr := None;
        }
        var erec := Record(CHANNEL_END, attrs);
        stream := stream + [erec];
        session := session.(end := Some(now));
        if hashfn.Some? {
          EndKept(hashfn.value, old(session), session);
          var hash := hashfn.value(sessionHash + EncodeRecord(erec));
          if signer != null {
            var sigrec := signer.MakeSignature(Some(seqnum), hash);
            stream := stream + [sigrec];
          }
        }
        open := false;
      }
    }
  }

  /** An event is captured, a write is interrupted, and the session ends: the end record states no
      hash, although there has been an event, so it is not the one which fixes the session. */
  method EndAfterInterruption(w: NewSessionWriter, event: Record, lost: Record, now: Ts) returns (erec: Record)
    requires w.open && w.Valid() && w.session.end == None && w.hashfn.Some?
    requires event.IsEvent() && lost.IsEvent() && IsEndTime(now)
    modifies w, w.signer
    ensures w.session == With(old(w.session), event).(end := Some(now))
    ensures erec in w.stream && erec.channel == CHANNEL_END
    ensures FindOne(erec.attributes, ATTRID_HASH) == None
    ensures FindOne(EndOf(w.hashfn.value, w.session).attributes, ATTRID_HASH).Some?
    ensures erec != EndOf(w.hashfn.value, w.session)
  {
    hide FindOne, Insert, Stamp, EncodeRecord, EventsIn, SignatureRecord;
    w.WriteEvent(event, false);
    w.WriteEvent(lost, true);
    var n := |w.stream|;
    EndStates(now, w.seqnum, None);
    w.EndSession(now);
    erec := w.stream[n];
    EndStates(now, |w.session.events| % TWO64, Previous(w.hashfn.value, w.session, |w.session.events|));
  }

  lemma SignatureChannel(sign: HashFn, seqnum: Option<UInt64>, hash: Hash)
    ensures SignatureRecord(sign, seqnum, hash).channel == CHANNEL_SIGNATURE
  {
  }
}
