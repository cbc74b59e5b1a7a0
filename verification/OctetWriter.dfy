/** The buffered octet writer. */
module OctetWriters {
  import opened Octets

  /** A buffer in front of a sink. The sink stands for whatever a derived class
      does with the octets handed to its direct write function. */
  class OctetWriter {
    const buffer: array<Octet>
    var ptr: nat
    var sink: seq<Octet>

    ghost predicate Valid()
      reads this
    {
      ptr <= buffer.Length
    }

    /** Everything written so far: what was passed on, then what is still buffered. */
    ghost function Written(): seq<Octet>
      reads this, buffer
      requires Valid()
    {
      sink + buffer[..ptr]
    }

    constructor (size: nat)
      ensures Valid() && Written() == [] && buffer.Length == size && fresh(buffer)
    {
      buffer := new Octet[size](_ => 0);
      ptr := 0;
      sink := [];
    }

    method WriteDirect(octets: seq<Octet>)
      modifies this`sink
      ensures sink == old(sink) + octets
    {
      sink := sink + octets;
    }

    method Flush()
      requires Valid()
      modifies this
      ensures Valid() && ptr == 0
      ensures sink == old(Written())
      ensures Written() == old(Written())
    {
      if ptr != 0 {
        WriteDirect(buffer[..ptr]);
        ptr := 0;
      }
    }

    /** Copy octets into the free part of the buffer. */
    method Store(octets: seq<Octet>)
      requires Valid() && |octets| <= buffer.Length - ptr
      modifies this`ptr, buffer
      ensures Valid() && ptr == old(ptr) + |octets|
      ensures buffer[..ptr] == old(buffer[..ptr]) + octets
    {
      var base := ptr;
      forall k | 0 <= k < |octets| {
        buffer[base + k] := octets[k];
      }
      ptr := ptr + |octets|;
    }

    method Write(octet: Octet)
      requires Valid() && buffer.Length > 0
      modifies this, buffer
      ensures Valid()
      ensures Written() == old(Written()) + [octet]
    {
      if ptr == buffer.Length {
        Flush();
      }
      Store([octet]);
    }

    method WriteBlock(octets: seq<Octet>)
      requires Valid()
      modifies this, buffer
      ensures Valid()
      ensures Written() == old(Written()) + octets
    {
      if |octets| <= buffer.Length - ptr {
        Store(octets);
      } else {
        Flush();
        if |octets| * 2 >= buffer.Length - ptr {
          WriteDirect(octets);
        } else {
          Store(octets);
        }
      }
    }

    /** Write the low octets of an integer, most significant first. */
    method WriteUnsigned(value: int, width: nat)
      requires Valid() && buffer.Length > 0
      modifies this, buffer
      ensures Valid()
      ensures Written() == old(Written()) + BigEndian(value, width)
    {
      var i := width;
      while i != 0
        invariant 0 <= i <= width
        invariant Valid()
        invariant Written() + BigEndian(value, i) == old(Written()) + BigEndian(value, width)
        decreases i
      {
        ghost var before := Written();
        BigEndianFirst(value, i);
        Write(Shr(value, (i - 1) * 8) % 256);
        i := i - 1;
      }
    }
  }

  /** The low `width` octets of a two's complement integer, most significant first. */
  function BigEndian(value: int, width: nat): (s: seq<Octet>)
    ensures |s| == width
    decreases width
  {
    if width == 0 then [] else BigEndian(value / 256, width - 1) + [value % 256]
  }

  lemma {:induction false} BigEndianFirst(value: int, width: nat)
    requires width > 0
    ensures BigEndian(value, width)
         == [Shr(value, (width - 1) * 8) % 256] + BigEndian(value, width - 1)
    decreases width
  {
    if width == 1 {
      assert BigEndian(value, 1) == [value % 256];
    } else {
      BigEndianFirst(value / 256, width - 1);
      ShrLowFirst(value, (width - 2) * 8);
      assert (width - 1) * 8 == (width - 2) * 8 + 8;
    }
  }

  /** Shifting by eight first gives the same as shifting by eight last. */
  lemma {:induction false} ShrLowFirst(value: int, n: nat)
    ensures Shr(value / 256, n) == Shr(value, n + 8)
  {
    if n == 0 {
      ShrBy8(value, 0);
    } else {
      ShrLowFirst(value, n - 1);
    }
  }
}
