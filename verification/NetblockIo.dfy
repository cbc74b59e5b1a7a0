/** The netblock parsers as they work: over indices, filling a buffer and decompressing it in
    place. */
module NetblockIo {
  import opened Octets
  import opened Digits
  import opened Netblocks

  /** The field in progress. */
  function Field(str: string, srcidx: nat, digits: nat): string
    requires digits <= srcidx <= |str|
  {
    str[srcidx - digits..srcidx]
  }

  function Zip(zidx: int): Option<nat> { if zidx < 0 then None else Some(zidx) }

  lemma FieldMore(str: string, srcidx: nat, digits: nat)
    requires digits <= srcidx < |str|
    ensures Field(str, srcidx + 1, digits + 1) == Field(str, srcidx, digits) + [str[srcidx]]
    ensures str[srcidx..] == [str[srcidx]] + str[srcidx + 1..]
    ensures str[srcidx..][0] == str[srcidx] && str[srcidx..][1..] == str[srcidx + 1..]
  {
  }

  lemma NoDigits(str: string, srcidx: nat)
    requires srcidx <= |str|
    ensures Field(str, srcidx, 0) == "" && HexValue("") == 0 && ValueOf("") == 0
  {
  }

  lemma NothingScanned(str: string)
    ensures ScanOk(NEW_SCAN) && Field(str, 0, 0) == "" && HexValue("") == 0
  {
  }

  /** Parse four decimal fields. */
  method ScanDecimalFields(prefix: array<Octet>, str: string, start: nat, from: nat)
    returns (ok: bool, srcidx: nat, dstidx: nat)
    requires start <= |str| && from + 4 <= prefix.Length
    modifies prefix
    ensures srcidx <= |str| && from <= dstidx <= from + 4
    ensures if ok then QuadScan(str[start..], [], "") == Some((str[srcidx..], prefix[from..dstidx]))
                       && prefix[..from] == old(prefix[..from])
            else QuadScan(str[start..], [], "").None?
  {
    hide ValueOf;
    srcidx, dstidx := start, from;
    var digits, acc, fields := 0, 0, 0;
    NoDigits(str, start);
    assert prefix[from..dstidx] == [];
    while srcidx < |str|
      invariant start <= srcidx <= |str| && digits <= srcidx && fields <= 4 && dstidx == from + fields
      invariant AllDigits(Field(str, srcidx, digits)) && acc == ValueOf(Field(str, srcidx, digits)) <= 255
      invariant prefix[..from] == old(prefix[..from])
      invariant QuadScan(str[srcidx..], prefix[from..dstidx], Field(str, srcidx, digits))
             == QuadScan(str[start..], [], "")
    {
      var c := str[srcidx];
      FieldMore(str, srcidx, digits);
      if c == '.' {
        if digits == 0 || fields >= 4 {
          return false, srcidx, dstidx;
        }
        Store(prefix, dstidx, acc, from);
        dstidx := dstidx + 1;
        fields := fields + 1;
        acc := 0;
        digits := 0;
        NoDigits(str, srcidx + 1);
      } else if IsDigit(c) {
        if digits != 0 && acc == 0 {
          return false, srcidx, dstidx;
        }
        ValueMore(Field(str, srcidx, digits), c);
        acc := 10 * acc + DigitValue(c);
        digits := digits + 1;
        if acc > 255 {
          return false, srcidx, dstidx;
        }
      } else if c == '/' {
        break;
      } else {
        return false, srcidx, dstidx;
      }
      srcidx := srcidx + 1;
    }
    if digits == 0 || fields >= 4 {
      return false, srcidx, dstidx;
    }
    Store(prefix, dstidx, acc, from);
    dstidx := dstidx + 1;
    fields := fields + 1;
    ok := fields == 4;
  }

  method Store(prefix: array<Octet>, dstidx: nat, value: Octet, from: nat)
    requires from <= dstidx < prefix.Length
    modifies prefix
    ensures prefix[..from] == old(prefix[..from])
    ensures prefix[from..dstidx + 1] == old(prefix[from..dstidx]) + [value]
  {
    prefix[dstidx] := value;
  }

  /** Parse a prefix length. */
  method ScanLength(str: string, start: nat, limit: nat) returns (r: Option<nat>)
    requires start <= |str|
    ensures r == LengthScan(str[start..], "", limit)
  {
    hide ValueOf;
    var srcidx, digits, acc := start, 0, 0;
    NoDigits(str, start);
    while srcidx < |str|
      invariant digits <= srcidx <= |str|
      invariant AllDigits(Field(str, srcidx, digits)) && acc == ValueOf(Field(str, srcidx, digits))
      invariant LengthScan(str[srcidx..], Field(str, srcidx, digits), limit) == LengthScan(str[start..], "", limit)
    {
      var c := str[srcidx];
      FieldMore(str, srcidx, digits);
      if !IsDigit(c) || (digits != 0 && acc == 0) {
        return None;
      }
      ValueMore(Field(str, srcidx, digits), c);
      acc := 10 * acc + DigitValue(c);
      digits := digits + 1;
      if acc > limit {
        return None;
      }
      srcidx := srcidx + 1;
    }
    r := if digits == 0 then None else Some(acc);
  }

  class Inet6Netblock {
    const prefix: array<Octet>
    var prefixLength: nat

    ghost predicate Valid()
      reads this
    {
      prefix.Length == 16
    }

    constructor ()
      ensures Valid() && fresh(prefix)
    {
      prefix := new Octet[16](i => 0);
      prefixLength := 0;
    }

    /** The part of the buffer filled so far, with what else is known, as a value. */
    function State(str: string, srcidx: nat, dstidx: nat, zidx: int, digits: nat): Scan
      requires digits <= srcidx <= |str| && dstidx <= prefix.Length
      reads prefix
    {
      Scan(prefix[..dstidx], Zip(zidx), Field(str, srcidx, digits))
    }

    /** Parse hexadecimal fields. */
    method ScanHexFields(str: string)
      returns (ok: bool, srcidx: nat, dstidx: nat, zidx: int, digits: nat, acc: nat)
      requires Valid()
      modifies prefix
      ensures digits <= srcidx <= |str| && dstidx <= 16 && dstidx % 2 == 0 && -1 <= zidx <= dstidx && digits <= 4
      ensures AllHexDigits(Field(str, srcidx, digits)) && acc == HexValue(Field(str, srcidx, digits))
      ensures ok && srcidx < |str| ==> str[srcidx] == '.' || str[srcidx] == '/'
      ensures if ok then HexScan(true, str, NEW_SCAN)
                      == Some((str[srcidx..], State(str, srcidx, dstidx, zidx, digits)))
              else HexScan(true, str, NEW_SCAN).None?
    {
      hide HexValue, HexOctets, HexScan, AllHexDigits, Field;
      ok, srcidx, dstidx, zidx, digits, acc := false, 0, 0, -1, 0, 0;
      ghost var s := NEW_SCAN;
      assert str[0..] == str;
      NothingScanned(str);
      while srcidx < |str|
        invariant digits <= srcidx <= |str| && digits == |s.field| && dstidx == |s.octets| && -1 <= zidx <= dstidx
        invariant ScanOk(s) && dstidx % 2 == 0 && !ok && (srcidx == 0 ==> digits == 0)
        invariant s.octets == prefix[..dstidx] && s.zip == Zip(zidx) && s.field == Field(str, srcidx, digits)
        invariant acc == HexValue(s.field)
        invariant HexScan(srcidx == 0, str[srcidx..], s) == HexScan(true, str, NEW_SCAN)
      {
        var c := str[srcidx];
        FieldMore(str, srcidx, digits);
        HexUnfold(srcidx == 0, str, srcidx, s);
        if c == ':' {
          if srcidx == 0 {
            if |str| < 2 || str[1] != ':' {
              return;
            }
          } else if digits == 0 {
            if zidx != -1 {
              return;
            }
            zidx := dstidx;
            s := s.(zip := Some(dstidx));
          } else {
            if dstidx >= 16 {
              return;
            }
            StoreField(acc, str, srcidx, dstidx, digits);
            dstidx := dstidx + 2;
            acc := 0;
            digits := 0;
            s := Scan(s.octets + HexOctets([s.field]), s.zip, "");
          }
          NoDigits(str, srcidx + 1);
        } else if c == '.' || c == '/' {
          break;
        } else {
          if !IsHexDigit(c) || digits == 4 {
            return;
          }
          HexValueMore(s.field, c);
          acc := 16 * acc + HexDigitValue(c);
          digits := digits + 1;
          s := s.(field := s.field + [c]);
        }
        srcidx := srcidx + 1;
      }
      StopScan(srcidx == 0, str[srcidx..], s);
      ok := true;
    }

    /** Record a hexadecimal field as two octets. */
    method StoreField(acc: nat, str: string, srcidx: nat, dstidx: nat, digits: nat)
      requires Valid() && dstidx <= 14 && digits <= srcidx <= |str|
      requires IsHexField(Field(str, srcidx, digits)) && acc == HexValue(Field(str, srcidx, digits))
      modifies prefix
      ensures prefix[..dstidx + 2] == old(prefix[..dstidx]) + HexOctets([Field(str, srcidx, digits)])
    {
      var f := Field(str, srcidx, digits);
      HexBound(f);
      assert [f][1..] == [];
      prefix[dstidx] := acc / 256;
      prefix[dstidx + 1] := acc % 256;
    }

    /** Move everything to the right of the two colons to the end of the buffer, and fill the gap
        with zeros. */
    method MoveRight(dstidx: nat, zidx: nat)
      requires Valid() && zidx <= dstidx < 16
      modifies prefix
      ensures prefix[..] == old(prefix[..zidx]) + ZeroOctets(16 - dstidx) + old(prefix[zidx..dstidx])
    {
      var offset := 16 - dstidx;
      Shift(dstidx, zidx, offset);
      Fill(zidx, offset);
      assert prefix[..] == prefix[..zidx] + prefix[zidx..zidx + offset] + prefix[zidx + offset..];
    }

    method Shift(dstidx: nat, zidx: nat, offset: nat)
      requires Valid() && zidx <= dstidx && dstidx + offset == 16
      modifies prefix
      ensures prefix[..zidx] == old(prefix[..zidx])
      ensures prefix[zidx + offset..] == old(prefix[zidx..dstidx])
    {
      var i := dstidx - 1;
      while i >= zidx
        invariant zidx - 1 <= i < dstidx
        invariant forall k | 0 <= k <= i + offset && k < 16 :: prefix[k] == old(prefix[k])
        invariant forall k | i + offset < k < 16 :: prefix[k] == old(prefix[k - offset])
      {
        prefix[i + offset] := prefix[i];
        i := i - 1;
      }
    }

    method Fill(zidx: nat, offset: nat)
      requires Valid() && zidx + offset <= 16
      modifies prefix
      ensures prefix[..zidx] == old(prefix[..zidx])
      ensures prefix[zidx..zidx + offset] == ZeroOctets(offset)
      ensures prefix[zidx + offset..] == old(prefix[zidx + offset..])
    {
      var i := zidx + offset - 1;
      while i >= zidx
        invariant zidx - 1 <= i < zidx + offset
        invariant forall k | 0 <= k < zidx || zidx + offset <= k < 16 :: prefix[k] == old(prefix[k])
        invariant forall k | i < k < zidx + offset :: prefix[k] == 0
      {
        prefix[i] := 0;
        i := i - 1;
      }
    }

    /** Parse the last part of an address. */
    method ParseLast(str: string, i: nat, d: nat, zidx: int, digits: nat, acc: nat)
      returns (ok: bool, srcidx: nat, dstidx: nat)
      requires Valid() && digits <= i <= |str| && d <= 16 && d % 2 == 0 && -1 <= zidx <= d && digits <= 4
      requires AllHexDigits(Field(str, i, digits)) && acc == HexValue(Field(str, i, digits))
      modifies prefix
      ensures srcidx <= |str| && d <= dstidx <= 16
      ensures var r := LastScan(str[i..], old(State(str, i, d, zidx, digits)));
              if ok then r == Some((str[srcidx..], prefix[..dstidx])) else r.None?
    {
      hide HexScan, QuadScan, HexValue, HexOctets;
      ok, srcidx, dstidx := false, i, d;
      if i < |str| && str[i] == '.' {
        if d > 12 {
          return;
        }
        assert Field(str, i, digits) + str[i..] == str[i - digits..];
        ok, srcidx, dstidx := ScanDecimalFields(prefix, str, i - digits, d);
        assert ok ==> prefix[..dstidx] == old(prefix[..d]) + prefix[d..dstidx];
      } else if digits == 0 {
        ok := zidx == d;
      } else {
        if d >= 16 {
          return;
        }
        StoreField(acc, str, i, d, digits);
        dstidx := d + 2;
        ok := true;
      }
    }

    /** Parse a netblock: the buffer then holds its 16 octets. */
    method Parse(str: string) returns (ok: bool)
      requires Valid()
      modifies this, prefix
      ensures Valid()
      ensures ok <==> Parse6(str).Some?
      ensures ok ==> Parse6(str) == Some((prefix[..], prefixLength))
    {
      hide HexScan, QuadScan, LengthScan, HexValue, HexOctets;
      var srcidx, dstidx, zidx, digits, acc;
      ok, srcidx, dstidx, zidx, digits, acc := ScanHexFields(str);
      if !ok {
        return;
      }
      ok, srcidx, dstidx := ParseLast(str, srcidx, dstidx, zidx, digits, acc);
      if !ok {
        return;
      }
      if zidx == -1 {
        if dstidx < 16 {
          return false;
        }
        assert prefix[..dstidx] == prefix[..];
      } else {
        if dstidx >= 16 {
          return false;
        }
        assert prefix[..dstidx][..zidx] == prefix[..zidx] && prefix[..dstidx][zidx..] == prefix[zidx..dstidx];
        MoveRight(dstidx, zidx);
      }
      if srcidx < |str| && str[srcidx] == '/' {
        assert str[srcidx..][1..] == str[srcidx + 1..];
        var length := ScanLength(str, srcidx + 1, 128);
        if length.None? {
          return false;
        }
        prefixLength := length.value;
        srcidx := |str|;
      } else {
        prefixLength := 128;
      }
      ok := srcidx == |str|;
    }
  }

  class Inet4Netblock {
    const prefix: array<Octet>
    var prefixLength: nat

    constructor ()
      ensures prefix.Length == 4 && fresh(prefix)
    {
      prefix := new Octet[4](i => 0);
      prefixLength := 0;
    }

    /** Parse a netblock: the buffer then holds its 4 octets. */
    method Parse(str: string) returns (ok: bool)
      requires prefix.Length == 4
      modifies this, prefix
      ensures ok <==> Parse4(str).Some?
      ensures ok ==> Parse4(str) == Some((prefix[..], prefixLength))
    {
      hide QuadScan, LengthScan;
      var srcidx, dstidx;
      ok, srcidx, dstidx := ScanDecimalFields(prefix, str, 0, 0);
      assert str[0..] == str;
      if !ok {
        return;
      }
      QuadLength(str);
      assert prefix[0..dstidx] == prefix[..];
      if srcidx < |str| && str[srcidx] == '/' {
        assert str[srcidx..][1..] == str[srcidx + 1..];
        var length := ScanLength(str, srcidx + 1, 32);
        if length.None? {
          return false;
        }
        prefixLength := length.value;
        srcidx := |str|;
      } else {
        prefixLength := 32;
      }
      ok := srcidx == |str|;
    }
  }
}
