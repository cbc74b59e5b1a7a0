/** The buffered octet reader. */
module OctetReaders {
  import opened Octets

  /** A buffer filled from a source. The source delivers its octets in order but may
      hand over any non-zero number of them at a time, as a file or socket does. */
  class OctetReader {
    const buffer: array<Octet>
    var ptr: nat
    var end: nat
    var source: seq<Octet>

    ghost predicate Valid()
      reads this
    {
      ptr <= end <= buffer.Length
    }

    /** The octets still to be read: those in the buffer, then those in the source. */
    ghost function Remaining(): seq<Octet>
      reads this, buffer
      requires Valid()
    {
      buffer[ptr..end] + source
    }

    constructor (size: nat, content: seq<Octet>)
      ensures Valid() && Remaining() == content
      ensures buffer.Length == size && fresh(buffer)
    {
      buffer := new Octet[size](_ => 0);
      ptr, end := 0, 0;
      source := content;
    }

    /** Take an arbitrary, but non-empty if possible, prefix of what the source holds. */
    method ReadDirect(nbyte: nat) returns (octets: seq<Octet>)
      modifies this`source
      ensures octets + source == old(source)
      ensures |octets| <= nbyte
      ensures octets == [] <==> nbyte == 0 || old(source) == []
    {
      if nbyte == 0 || source == [] {
        octets := [];
      } else {
        var count: int :| 1 <= count <= nbyte && count <= |source|;
        octets := source[..count];
        source := source[count..];
      }
    }

    /** Discard the (empty) buffer content and try to get some more. */
    method Refill() returns (r: Result<()>)
      requires Valid() && ptr == end
      modifies this, buffer
      ensures Valid() && Remaining() == old(Remaining())
      ensures r == if buffer.Length == 0 || old(source) == [] then Err(Eof) else Ok(())
      ensures r.Err? && buffer.Length > 0 ==> Remaining() == []
      ensures r.Ok? ==> ptr < end
      ensures r.Err? ==> ptr == end
      ensures |source| <= |old(source)|
    {
      var octets := ReadDirect(buffer.Length);
      if octets == [] {
        return Err(Eof);
      }
      forall k | 0 <= k < |octets| {
        buffer[k] := octets[k];
      }
      assert buffer[..|octets|] == octets;
      ptr, end := 0, |octets|;
      r := Ok(());
    }

    /** Read one octet. */
    method Read() returns (r: Result<Octet>)
      requires Valid() && buffer.Length > 0
      modifies this, buffer
      ensures Valid()
      ensures old(Remaining()) == [] ==> r == Err(Eof) && Remaining() == []
      ensures old(Remaining()) != [] ==>
                r == Ok(old(Remaining())[0]) && Remaining() == old(Remaining())[1..]
    {
      if ptr == end {
        var f := Refill();
        if f.Err? {
          return Err(f.error);
        }
      }
      r := Ok(buffer[ptr]);
      ptr := ptr + 1;
    }

    /** Take some of what is in the buffer. */
    method TakeBuffered(count: nat) returns (octets: seq<Octet>)
      requires Valid() && count <= end - ptr
      modifies this`ptr
      ensures Valid() && |octets| == count
      ensures octets + Remaining() == old(Remaining())
    {
      octets := buffer[ptr..ptr + count];
      ptr := ptr + count;
    }

    /** With nothing in the buffer, read directly from the source. */
    method ReadPastBuffer(nbyte: nat) returns (octets: seq<Octet>)
      requires Valid() && ptr == end
      modifies this`source
      ensures Valid() && |octets| <= nbyte
      ensures octets + Remaining() == old(Remaining())
      ensures octets == [] && nbyte > 0 ==> Remaining() == []
    {
      octets := ReadDirect(nbyte);
    }

    /** Read a given number of octets, bypassing the buffer for large requests. */
    method ReadBlock(nbyte: nat) returns (r: Result<seq<Octet>>)
      requires Valid()
      modifies this, buffer
      ensures Valid()
      ensures nbyte <= |old(Remaining())| ==>
                r == Ok(old(Remaining())[..nbyte]) && Remaining() == old(Remaining())[nbyte..]
      ensures nbyte > |old(Remaining())| ==> r == Err(Eof) && Remaining() == []
    {
      hide Remaining;
      ghost var want := Remaining();
      var got: seq<Octet> := [];
      var left: nat := nbyte;
      while left != 0
        invariant Valid()
        invariant left + |got| == nbyte
        invariant got + Remaining() == want
        decreases left, ptr == end
      {
        if ptr != end {
          // Use what is in the buffer first.
          var octets := TakeBuffered(if end - ptr > left then left else end - ptr);
          got := got + octets;
          left := left - |octets|;
        } else if left * 2 >= buffer.Length {
          // Half a buffer or more is wanted, so go directly to the source.
          var octets := ReadPastBuffer(left);
          if octets == [] {
            return Err(Eof);
          }
          got := got + octets;
          left := left - |octets|;
        } else {
          var f := Refill();
          if f.Err? {
            return Err(f.error);
          }
        }
      }
      r := Ok(got);
    }
  }
}
