/** The textual forms of IPv4 and IPv6 netblocks, and their parsers. */
module Netblocks {
  import opened Octets
  import opened Digits

  // ---------------------------------------------------------------------------
  // The forms, as the standards describe them
  // ---------------------------------------------------------------------------

  /** A field of an IPv6 address: one to four hexadecimal digits. */
  predicate IsHexField(f: string) { 0 < |f| <= 4 && AllHexDigits(f) }

  /** Fields, each followed by a separator. */
  function Terminated(fs: seq<string>, sep: char): string {
    if fs == [] then [] else fs[0] + [sep] + Terminated(fs[1..], sep)
  }

  /** Four decimal numbers separated by full stops. */
  predicate IsQuad(ds: seq<string>) { |ds| == 4 && forall d | d in ds :: IsDecimal(d, 255) }

  function QuadText(ds: seq<string>): string
    requires |ds| == 4
  {
    Terminated(ds[..3], '.') + ds[3]
  }

  function DecimalOctets(ds: seq<string>): (r: seq<Octet>)
    requires forall d | d in ds :: IsDecimal(d, 255)
    ensures |r| == |ds|
  {
    if ds == [] then []
    else
      assert IsDecimal(ds[0], 255);
      [ValueOf(ds[0])] + DecimalOctets(ds[1..])
  }

  /** How an address ends. Only a compressed address may end in nothing. */
  datatype Last = Nothing | Hex(field: string) | Quad(ds: seq<string>)

  /** An IPv6 address: fields, then if it is compressed two colons and more fields, then the last
      part. (Sections 2.2.1, 2.2.2 and 2.2.3 of RFC 4291.) */
  datatype Address = Address(head: seq<string>, compressed: bool, tail: seq<string>, last: Last)

  predicate LastOk(last: Last) {
    match last
    case Nothing => true
    case Hex(f) => IsHexField(f)
    case Quad(ds) => IsQuad(ds)
  }

  function LastWidth(last: Last): nat {
    match last
    case Nothing => 0
    case Hex(_) => 2
    case Quad(_) => 4
  }

  function LastText(last: Last): string
    requires LastOk(last)
  {
    match last
    case Nothing => []
    case Hex(f) => f
    case Quad(ds) => QuadText(ds)
  }

  function LastOctets(last: Last): (r: seq<Octet>)
    requires LastOk(last)
    ensures |r| == LastWidth(last)
  {
    match last
    case Nothing => []
    case Hex(f) => HexOctets([f])
    case Quad(ds) => DecimalOctets(ds)
  }

  /** The number of octets for which an address has fields. */
  function Width(a: Address): nat { 2 * |a.head| + 2 * |a.tail| + LastWidth(a.last) }

  predicate IsAddress(a: Address) {
    && (forall f | f in a.head :: IsHexField(f))
    && (forall f | f in a.tail :: IsHexField(f))
    && LastOk(a.last)
    && (if a.compressed then Width(a) < 16 else Width(a) == 16 && a.tail == [])
    && (a.last.Nothing? ==> a.compressed && a.tail == [])
  }

  function AddressText(a: Address): string
    requires IsAddress(a)
  {
    Terminated(a.head, ':')
    + (if !a.compressed then [] else if a.head == [] then "::" else ":")
    + Terminated(a.tail, ':') + LastText(a.last)
  }

  /** Two octets for each field, most significant first. */
  function HexOctets(fs: seq<string>): (r: seq<Octet>)
    requires forall f | f in fs :: IsHexField(f)
    ensures |r| == 2 * |fs|
  {
    if fs == [] then []
    else
      HexBound(fs[0]);
      [HexValue(fs[0]) / 256, HexValue(fs[0]) % 256] + HexOctets(fs[1..])
  }

  lemma {:induction false} HexPower(f: string)
    requires AllHexDigits(f) && |f| <= 4
    ensures |f| == 0 ==> HexValue(f) == 0
    ensures |f| == 1 ==> HexValue(f) < 0x10
    ensures |f| == 2 ==> HexValue(f) < 0x100
    ensures |f| == 3 ==> HexValue(f) < 0x1000
    ensures HexValue(f) < 0x1_0000
    decreases |f|
  {
    if f == [] {
    } else {
      HexPower(f[..|f| - 1]);
    }
  }

  lemma HexBound(f: string)
    requires IsHexField(f)
    ensures HexValue(f) < 0x1_0000
  {
    HexPower(f);
  }

  /** Each field stands for its two octets as a number in base 256. */
  lemma {:induction false} FieldMeans(fs: seq<string>, i: nat)
    requires (forall f | f in fs :: IsHexField(f)) && i < |fs|
    ensures IsHexField(fs[i])
    ensures var hi: int, lo: int := HexOctets(fs)[2 * i], HexOctets(fs)[2 * i + 1]; HexValue(fs[i]) == 256 * hi + lo
  {
    hide HexValue;
    if i == 0 {
      HexBound(fs[0]);
    } else {
      FieldMeans(fs[1..], i - 1);
    }
  }

  function ZeroOctets(n: nat): (r: seq<Octet>)
    ensures |r| == n && forall i | 0 <= i < n :: r[i] == 0
  {
    seq(n, i => 0)
  }

  /** The octets of an address: where it is compressed, zeros make up what is missing. */
  function AddressOctets(a: Address): (r: seq<Octet>)
    requires IsAddress(a)
    ensures |r| == 16
  {
    HexOctets(a.head) + ZeroOctets(16 - Width(a)) + HexOctets(a.tail) + LastOctets(a.last)
  }

  /** An optional prefix length. (Section 2.3 of RFC 4291.) */
  predicate IsPrefix(p: Option<string>, limit: nat) { p.Some? ==> IsDecimal(p.value, limit) }

  function PrefixText(p: Option<string>): string { if p.Some? then "/" + p.value else "" }

  function PrefixLength(p: Option<string>, limit: nat): nat
    requires IsPrefix(p, limit)
  {
    if p.Some? then ValueOf(p.value) else limit
  }

  // ---------------------------------------------------------------------------
  // Scanning
  // ---------------------------------------------------------------------------

  /** What has been scanned of an IPv6 address: octets, the position of two colons if seen, and
      the field in progress. */
  datatype Scan = Scan(octets: seq<Octet>, zip: Option<nat>, field: string)

  const NEW_SCAN := Scan([], None, "")

  predicate ScanOk(s: Scan) {
    AllHexDigits(s.field) && |s.field| <= 4 && |s.octets| <= 16 && (s.zip.Some? ==> s.zip.value <= |s.octets|)
  }

  /** Scan hexadecimal fields as far as a full stop, slash, or the end. */
  function HexScan(first: bool, t: string, s: Scan): (r: Option<(string, Scan)>)
    requires ScanOk(s) && |s.octets| % 2 == 0
    ensures r.Some? ==> ScanOk(r.value.1)
    decreases |t|
  {
    if t == [] || t[0] == '.' || t[0] == '/' then Some((t, s))
    else if t[0] == ':' then
      if first then
        if |t| < 2 || t[1] != ':' then None else HexScan(false, t[1..], s)
      else if s.field == [] then
        if s.zip.Some? then None else HexScan(false, t[1..], s.(zip := Some(|s.octets|)))
      else if |s.octets| >= 16 then None
      else HexScan(false, t[1..], Scan(s.octets + HexOctets([s.field]), s.zip, ""))
    else if !IsHexDigit(t[0]) || |s.field| == 4 then None
    else HexScan(false, t[1..], s.(field := s.field + [t[0]]))
  }

  /** One step of the scan, by index. */
  lemma HexUnfold(first: bool, str: string, i: nat, s: Scan)
    requires ScanOk(s) && |s.octets| % 2 == 0 && i < |str|
    ensures var c := str[i];
            HexScan(first, str[i..], s) ==
              if c == '.' || c == '/' then Some((str[i..], s))
              else if c == ':' then
                if first then
                  if |str| < i + 2 || str[i + 1] != ':' then None else HexScan(false, str[i + 1..], s)
                else if s.field == [] then
                  if s.zip.Some? then None else HexScan(false, str[i + 1..], s.(zip := Some(|s.octets|)))
                else if |s.octets| >= 16 then None
                else HexScan(false, str[i + 1..], Scan(s.octets + HexOctets([s.field]), s.zip, ""))
              else if !IsHexDigit(c) || |s.field| == 4 then None
              else HexScan(false, str[i + 1..], s.(field := s.field + [c]))
  {
    hide HexValue, HexOctets;
    assert str[i..][1..] == str[i + 1..];
    if i + 1 < |str| {
      assert str[i..][1] == str[i + 1];
    }
  }

  /** Scan decimal fields as far as a slash or the end. There must be exactly four. */
  function QuadScan(t: string, done: seq<Octet>, field: string): Option<(string, seq<Octet>)>
    requires AllDigits(field) && (field != [] ==> ValueOf(field) <= 255)
    decreases |t|
  {
    if t == [] || t[0] == '/' then
      if field == [] || |done| != 3 then None else Some((t, done + [ValueOf(field)]))
    else if t[0] == '.' then
      if field == [] || |done| >= 4 then None else QuadScan(t[1..], done + [ValueOf(field)], "")
    else if !IsDigit(t[0]) || (field != [] && ValueOf(field) == 0) then None
    else
      ValueMore(field, t[0]);
      if ValueOf(field + [t[0]]) > 255 then None else QuadScan(t[1..], done, field + [t[0]])
  }

  /** Scan decimal digits to the end. */
  function LengthScan(t: string, field: string, limit: nat): Option<nat>
    requires AllDigits(field)
    decreases |t|
  {
    if t == [] then if field == [] then None else Some(ValueOf(field))
    else if !IsDigit(t[0]) || (field != [] && ValueOf(field) == 0) then None
    else
      ValueMore(field, t[0]);
      if ValueOf(field + [t[0]]) > limit then None else LengthScan(t[1..], field + [t[0]], limit)
  }

  /** The optional prefix length, once the address has been scanned. */
  function SuffixScan(t: string, limit: nat): Option<nat> {
    if t == [] then Some(limit)
    else if t[0] == '/' then LengthScan(t[1..], "", limit)
    else None
  }

  /** The last part of an IPv6 address, given what has been scanned before it. */
  function LastScan(t: string, s: Scan): (r: Option<(string, seq<Octet>)>)
    requires ScanOk(s)
    ensures r.Some? ==> |s.octets| <= |r.value.1|
  {
    if t != [] && t[0] == '.' then
      if |s.octets| > 12 then None
      else
        match QuadScan(s.field + t, [], "")
        case None => None
        case Some((rest, quad)) => Some((rest, s.octets + quad))
    else if s.field == [] then
      if s.zip == Some(|s.octets|) then Some((t, s.octets)) else None
    else if |s.octets| >= 16 then None
    else Some((t, s.octets + HexOctets([s.field])))
  }

  /** Make up the full 16 octets. */
  function Decompress(octets: seq<Octet>, zip: Option<nat>): Option<seq<Octet>>
    requires zip.Some? ==> zip.value <= |octets|
  {
    match zip
    case None => if |octets| < 16 then None else Some(octets)
    case Some(z) =>
      if |octets| >= 16 then None
      else Some(octets[..z] + ZeroOctets(16 - |octets|) + octets[z..])
  }

  /** What the parser makes of an IPv6 netblock: its 16 octets and prefix length. */
  function Parse6(t: string): Option<(seq<Octet>, nat)> {
    match HexScan(true, t, NEW_SCAN)
    case None => None
    case Some((u, s)) =>
      match LastScan(u, s)
      case None => None
      case Some((v, octets)) =>
        match Decompress(octets, s.zip)
        case None => None
        case Some(full) =>
          match SuffixScan(v, 128)
          case None => None
          case Some(len) => Some((full, len))
  }

  /** What the parser makes of an IPv4 netblock. */
  function Parse4(t: string): Option<(seq<Octet>, nat)> {
    match QuadScan(t, [], "")
    case None => None
    case Some((u, octets)) =>
      match SuffixScan(u, 32)
      case None => None
      case Some(len) => Some((octets, len))
  }

  // ---------------------------------------------------------------------------
  // Every text of the right form is accepted, with the right value
  // ---------------------------------------------------------------------------

  /** Scanning all or part of a field. */
  lemma {:induction false} HexFieldScan(first: bool, f: string, t: string, s: Scan)
    requires ScanOk(s) && |s.octets| % 2 == 0 && f != [] && AllHexDigits(f) && |s.field| + |f| <= 4
    ensures HexScan(first, f + t, s) == HexScan(false, t, s.(field := s.field + f))
    decreases |f|
  {
    hide HexValue;
    var c := f[0];
    assert c in f;
    assert (f + t)[1..] == f[1..] + t;
    var s' := s.(field := s.field + [c]);
    if |f| > 1 {
      HexFieldScan(false, f[1..], t, s');
      assert s.field + [c] + f[1..] == s.field + f;
    } else {
      assert f[1..] + t == t && f == [c];
    }
  }

  lemma TerminatedText(f: string, more: seq<string>, sep: char, t: string)
    ensures Terminated([f] + more, sep) + t == f + ([sep] + (Terminated(more, sep) + t))
  {
    hide Terminated;
    TerminatedMore(f, more, sep);
  }

  lemma HexStop(f: string, t: string, s: Scan)
    requires ScanOk(s) && |s.octets| % 2 == 0 && s.field == f && f != [] && |s.octets| < 16
    ensures HexScan(false, [':'] + t, s) == HexScan(false, t, Scan(s.octets + HexOctets([f]), s.zip, ""))
  {
    hide HexValue, HexOctets;
    assert ([':'] + t)[1..] == t;
  }

  /** Scanning a number of fields, each with a colon after it. */
  lemma {:induction false} HexFieldsScan(first: bool, fs: seq<string>, t: string, s: Scan)
    requires ScanOk(s) && |s.octets| % 2 == 0 && s.field == [] && |s.octets| + 2 * |fs| <= 16
    requires forall f | f in fs :: IsHexField(f)
    ensures HexScan(first, Terminated(fs, ':') + t, s)
         == HexScan(first && fs == [], t, s.(octets := s.octets + HexOctets(fs)))
    decreases |fs|
  {
    hide HexValue, HexScan, Terminated, HexOctets;
    if fs == [] {
      TerminatedNone(':');
      assert "" + t == t && s.octets + HexOctets(fs) == s.octets;
    } else {
      var f, more := fs[0], fs[1..];
      assert f in fs && IsHexField(f) && fs == [f] + more;
      var rest := Terminated(more, ':') + t;
      TerminatedText(f, more, ':', t);
      HexFieldScan(first, f, [':'] + rest, s);
      assert "" + f == f;
      HexStop(f, rest, s.(field := f));
      HexFieldsScan(false, more, t, s.(octets := s.octets + HexOctets([f])));
      OneField(f, more);
      assert s.octets + HexOctets([f]) + HexOctets(more) == s.octets + HexOctets(fs);
    }
  }

  lemma OneField(f: string, more: seq<string>)
    requires IsHexField(f) && forall g | g in more :: IsHexField(g)
    ensures HexOctets([f] + more) == HexOctets([f]) + HexOctets(more)
  {
    hide HexValue;
    assert ([f] + more)[1..] == more && [f][1..] == [];
  }

  lemma {:induction false} DecimalScan(f: string, g: string, t: string, done: seq<Octet>)
    requires IsDecimal(f + g, 255) && AllDigits(f) && (f != [] ==> ValueOf(f) <= 255)
    ensures QuadScan(g + t, done, f) == QuadScan(t, done, f + g)
    decreases |g|
  {
    hide ValueOf, IsDecimal;
    if g == [] {
      assert g + t == t && f + g == f;
    } else {
      var c := g[0];
      assert f + g == f + [c] + g[1..];
      assert (g + t)[1..] == g[1..] + t;
      DecimalFront(f, c, g[1..], 255);
      DecimalScan(f + [c], g[1..], t, done);
    }
  }

  lemma DecimalStop(d: string, t: string, done: seq<Octet>)
    requires IsDecimal(d, 255) && |done| < 4
    ensures d != [] && AllDigits(d) && ValueOf(d) <= 255
    ensures QuadScan(['.'] + t, done, d) == QuadScan(t, done + [ValueOf(d)], "")
  {
    hide ValueOf;
    assert (['.'] + t)[1..] == t;
  }

  lemma {:induction false} DecimalsScan(ds: seq<string>, t: string, done: seq<Octet>)
    requires |done| + |ds| <= 4 && forall d | d in ds :: IsDecimal(d, 255)
    ensures QuadScan(Terminated(ds, '.') + t, done, "") == QuadScan(t, done + DecimalOctets(ds), "")
    decreases |ds|
  {
    hide ValueOf, QuadScan, Terminated, DecimalOctets;
    if ds == [] {
      TerminatedNone('.');
      DecimalsNone();
      assert "" + t == t && done + [] == done;
    } else {
      var d, more := ds[0], ds[1..];
      assert d in ds && IsDecimal(d, 255) && ds == [d] + more;
      var rest := Terminated(more, '.') + t;
      TerminatedText(d, more, '.', t);
      assert "" + d == d;
      DecimalScan("", d, ['.'] + rest, done);
      DecimalStop(d, rest, done);
      DecimalsScan(more, t, done + [ValueOf(d)]);
      DecimalsFirst(d, more);
      assert done + [ValueOf(d)] + DecimalOctets(more) == done + ([ValueOf(d)] + DecimalOctets(more));
    }
  }

  lemma DecimalsNone()
    ensures DecimalOctets([]) == []
  {
  }

  lemma DecimalsFirst(d: string, more: seq<string>)
    requires IsDecimal(d, 255) && forall e | e in more :: IsDecimal(e, 255)
    ensures DecimalOctets([d] + more) == [ValueOf(d)] + DecimalOctets(more)
  {
    hide ValueOf;
    assert ([d] + more)[1..] == more;
  }

  lemma QuadAccepted(ds: seq<string>, t: string)
    requires IsQuad(ds) && (t == [] || t[0] == '/')
    ensures QuadScan(QuadText(ds) + t, [], "") == Some((t, DecimalOctets(ds)))
  {
    hide ValueOf, IsDecimal;
    var front, d := ds[..3], ds[3];
    assert d in ds;
    assert QuadText(ds) + t == Terminated(front, '.') + (d + t);
    DecimalsScan(front, d + t, []);
    assert [] + DecimalOctets(front) == DecimalOctets(front);
    assert "" + d == d;
    DecimalScan("", d, t, DecimalOctets(front));
    assert ds == front + [d];
    DecimalsMore(front, d);
    DecimalValid(d);
  }

  lemma DecimalValid(d: string)
    requires IsDecimal(d, 255)
    ensures d != [] && AllDigits(d) && ValueOf(d) <= 255
  {
  }

  lemma {:induction false} DecimalsMore(ds: seq<string>, d: string)
    requires forall e | e in ds + [d] :: IsDecimal(e, 255)
    ensures AllDigits(d) && ValueOf(d) <= 255
    ensures DecimalOctets(ds + [d]) == DecimalOctets(ds) + [ValueOf(d)]
  {
    hide ValueOf;
    assert d in ds + [d];
    if ds == [] {
    } else {
      assert (ds + [d])[1..] == ds[1..] + [d];
      DecimalsMore(ds[1..], d);
    }
  }

  lemma {:induction false} LengthAccepted(f: string, g: string, limit: nat)
    requires IsDecimal(f + g, limit) && AllDigits(f)
    ensures LengthScan(g, f, limit) == Some(ValueOf(f + g))
    decreases |g|
  {
    hide ValueOf, IsDecimal;
    if g == [] {
      assert f + g == f;
      DecimalNonEmpty(f, limit);
    } else {
      assert f + g == f + [g[0]] + g[1..];
      DecimalFront(f, g[0], g[1..], limit);
      LengthAccepted(f + [g[0]], g[1..], limit);
    }
  }

  lemma DecimalNonEmpty(f: string, limit: nat)
    requires IsDecimal(f, limit)
    ensures f != [] && AllDigits(f)
  {
  }

  lemma SuffixAccepted(p: Option<string>, limit: nat)
    requires IsPrefix(p, limit)
    ensures SuffixScan(PrefixText(p), limit) == Some(PrefixLength(p, limit))
  {
    hide ValueOf, IsDecimal;
    if p.Some? {
      assert ("/" + p.value)[1..] == p.value && "" + p.value == p.value;
      LengthAccepted("", p.value, limit);
    }
  }

  lemma Accepted4(ds: seq<string>, p: Option<string>)
    requires IsQuad(ds) && IsPrefix(p, 32)
    ensures Parse4(QuadText(ds) + PrefixText(p)) == Some((DecimalOctets(ds), PrefixLength(p, 32)))
  {
    hide QuadScan, QuadText, IsDecimal;
    QuadAccepted(ds, PrefixText(p));
    SuffixAccepted(p, 32);
  }

  lemma {:induction false} DecimalLarge(d: string)
    requires AllDigits(d) && |d| > 3 && d[0] != '0'
    ensures ValueOf(d) >= 1000
    decreases |d|
  {
    var front := d[..|d| - 1];
    if |d| > 4 {
      DecimalLarge(front);
    } else {
      NotZero(d[..1]);
      assert front[..2] == d[..2] && front[..2][..1] == d[..1];
      assert ValueOf(d[..2]) >= 10;
    }
  }

  /** A decimal field is short enough to be mistaken for a hexadecimal one. */
  lemma DecimalIsHex(d: string)
    requires IsDecimal(d, 255)
    ensures IsHexField(d)
  {
    if |d| > 3 {
      DecimalLarge(d);
    }
  }

  lemma StopScan(first: bool, t: string, s: Scan)
    requires ScanOk(s) && |s.octets| % 2 == 0 && (t == [] || t[0] == '/' || t[0] == '.')
    ensures HexScan(first, t, s) == Some((t, s))
  {
  }

  /** The last part of an address is accepted, whatever it is. */
  lemma LastAccepted(first: bool, last: Last, t: string, s: Scan)
    requires ScanOk(s) && |s.octets| % 2 == 0 && s.field == [] && LastOk(last)
    requires |s.octets| + LastWidth(last) <= 16 && (t == [] || t[0] == '/')
    requires last.Nothing? ==> s.zip == Some(|s.octets|)
    ensures var h := HexScan(first, LastText(last) + t, s);
            && h.Some? && h.value.1.zip == s.zip
            && LastScan(h.value.0, h.value.1) == Some((t, s.octets + LastOctets(last)))
  {
    hide HexScan, QuadScan, IsDecimal, HexValue, ValueOf;
    match last
    case Nothing =>
      assert LastText(last) + t == t && s.octets + LastOctets(last) == s.octets;
      StopScan(first, t, s);
    case Hex(f) =>
      HexFieldScan(first, f, t, s);
      assert s.field + f == f;
      StopScan(false, t, s.(field := f));
    case Quad(ds) =>
      var d := ds[0];
      assert d in ds;
      DecimalIsHex(d);
      var rest := "." + Terminated(ds[1..3], '.') + ds[3] + t;
      QuadSplit(ds);
      assert QuadText(ds) + t == d + rest;
      HexFieldScan(first, d, rest, s);
      assert s.field + d == d;
      StopScan(false, rest, s.(field := d));
      QuadAccepted(ds, t);
  }

  lemma QuadSplit(ds: seq<string>)
    requires |ds| == 4
    ensures QuadText(ds) == ds[0] + ("." + Terminated(ds[1..3], '.') + ds[3])
  {
    assert ds[..3][1..] == ds[1..3];
  }

  lemma CompressedScan(head: bool, t: string, s: Scan)
    requires ScanOk(s) && |s.octets| % 2 == 0 && s.field == [] && s.zip.None?
    ensures HexScan(!head, (if head then ":" else "::") + t, s) == HexScan(false, t, s.(zip := Some(|s.octets|)))
  {
    if !head {
      assert ("::" + t)[1..] == ":" + t;
    }
    assert (":" + t)[1..] == t;
  }

  lemma DecompressAccepted(x: seq<Octet>, y: seq<Octet>, z: seq<Octet>)
    requires |x| + |y| + |z| < 16
    ensures Decompress(x + y + z, Some(|x|)) == Some(x + ZeroOctets(16 - |x| - |y| - |z|) + y + z)
  {
    var all := x + y + z;
    assert all[..|x|] == x && all[|x|..] == y + z;
    var zeros := ZeroOctets(16 - |all|);
    assert x + zeros + (y + z) == x + zeros + y + z;
  }

  lemma NoTail(a: Address, t: string)
    requires IsAddress(a) && !a.compressed
    ensures AddressText(a) + t == Terminated(a.head, ':') + (LastText(a.last) + t)
    ensures AddressOctets(a) == HexOctets(a.head) + LastOctets(a.last)
  {
    hide IsHexField, LastText, LastOctets, HexValue;
    assert Terminated(a.tail, ':') == [] && HexOctets(a.tail) == [];
  }

  lemma CompressedAccepted(a: Address, t: string)
    requires IsAddress(a) && a.compressed && (t == [] || t[0] == '/')
    ensures var h := HexScan(true, AddressText(a) + t, NEW_SCAN);
            && h.Some?
            && var l := LastScan(h.value.0, h.value.1);
            && l.Some? && l.value.0 == t && Decompress(l.value.1, h.value.1.zip) == Some(AddressOctets(a))
  {
    hide HexScan, LastScan, IsHexField, LastText, LastOctets, HexOctets, Terminated, LastOk;
    var last := LastText(a.last) + t;
    var s1 := Scan(HexOctets(a.head), None, "");
    assert [] + HexOctets(a.head) == HexOctets(a.head);
    var rest := Terminated(a.tail, ':') + last;
    var sep := if a.head == [] then "::" else ":";
    assert AddressText(a) + t == Terminated(a.head, ':') + (sep + rest);
    HexFieldsScan(true, a.head, sep + rest, NEW_SCAN);
    CompressedScan(a.head != [], rest, s1);
    var s2 := s1.(zip := Some(|s1.octets|));
    HexFieldsScan(false, a.tail, last, s2);
    LastAccepted(false, a.last, t, s2.(octets := s2.octets + HexOctets(a.tail)));
    DecompressAccepted(HexOctets(a.head), HexOctets(a.tail), LastOctets(a.last));
  }

  lemma FullAccepted(a: Address, t: string)
    requires IsAddress(a) && !a.compressed && (t == [] || t[0] == '/')
    ensures var h := HexScan(true, AddressText(a) + t, NEW_SCAN);
            && h.Some?
            && var l := LastScan(h.value.0, h.value.1);
            && l.Some? && l.value.0 == t && Decompress(l.value.1, h.value.1.zip) == Some(AddressOctets(a))
  {
    hide HexScan, LastScan, IsHexField, LastText, LastOctets, HexOctets, Terminated, AddressText, AddressOctets, LastOk;
    var s1 := Scan(HexOctets(a.head), None, "");
    assert [] + HexOctets(a.head) == HexOctets(a.head);
    NoTail(a, t);
    HexFieldsScan(true, a.head, LastText(a.last) + t, NEW_SCAN);
    LastAccepted(a.head == [], a.last, t, s1);
  }

  /** Every text of an IPv6 netblock is accepted, and has the octets and prefix length that it
      should. */
  lemma Accepted6(a: Address, p: Option<string>)
    requires IsAddress(a) && IsPrefix(p, 128)
    ensures Parse6(AddressText(a) + PrefixText(p)) == Some((AddressOctets(a), PrefixLength(p, 128)))
  {
    hide HexScan, LastScan, IsDecimal, ValueOf, AddressText, AddressOctets, IsAddress;
    SuffixAccepted(p, 128);
    if a.compressed {
      CompressedAccepted(a, PrefixText(p));
    } else {
      FullAccepted(a, PrefixText(p));
    }
  }

  // ---------------------------------------------------------------------------
  // Nothing else is accepted
  // ---------------------------------------------------------------------------

  lemma {:induction false} QuadSound(t: string, done: seq<Octet>, field: string) returns (ds: seq<string>)
    requires AllDigits(field) && (field != [] ==> IsDecimal(field, 255)) && QuadScan(t, done, field).Some?
    ensures 0 < |ds| == 4 - |done| && forall d | d in ds :: IsDecimal(d, 255)
    ensures var u := QuadScan(t, done, field).value.0;
            && (u == [] || u[0] == '/')
            && field + t == Terminated(ds[..|ds| - 1], '.') + ds[|ds| - 1] + u
    decreases |t|
  {
    hide ValueOf, IsDecimal, Terminated;
    if t == [] || t[0] == '/' {
      ds := [field];
      TerminatedNone('.');
      assert ds[..0] == [];
    } else if t[0] == '.' {
      DecimalValid(field);
      var more := QuadSound(t[1..], done + [ValueOf(field)], "");
      QuadSoundText(t, field, more, QuadScan(t, done, field).value.0);
      ds := [field] + more;
    } else {
      var c := t[0];
      ValueMore(field, c);
      StartsDecimal(field, c, 255);
      ds := QuadSound(t[1..], done, field + [c]);
      assert field + [c] + t[1..] == field + t;
    }
  }

  lemma QuadSoundText(t: string, field: string, more: seq<string>, u: string)
    requires t != [] && t[0] == '.' && more != []
    requires "" + t[1..] == Terminated(more[..|more| - 1], '.') + more[|more| - 1] + u
    ensures var ds := [field] + more;
            field + t == Terminated(ds[..|ds| - 1], '.') + ds[|ds| - 1] + u
  {
    hide Terminated;
    var ds := [field] + more;
    var front, last := more[..|more| - 1], more[|more| - 1];
    assert ds[..|ds| - 1] == [field] + front && ds[|ds| - 1] == last;
    TerminatedMore(field, front, '.');
    assert t == ['.'] + t[1..] && "" + t[1..] == t[1..];
    Reassociate(field, ['.'], Terminated(front, '.'), last, u);
  }

  lemma Reassociate(a: string, b: string, c: string, d: string, e: string)
    ensures a + (b + (c + d + e)) == a + b + c + d + e
  {
  }

  lemma TerminatedMore(f: string, fs: seq<string>, sep: char)
    ensures Terminated([f] + fs, sep) == f + [sep] + Terminated(fs, sep)
  {
    assert ([f] + fs)[1..] == fs;
  }

  lemma StartsDecimal(f: string, c: char, limit: nat)
    requires AllDigits(f) && IsDigit(c) && ValueOf(f + [c]) <= limit
    requires f != [] ==> IsDecimal(f, limit) && ValueOf(f) != 0
    ensures IsDecimal(f + [c], limit)
  {
    hide ValueOf;
    DecimalMore(f, c, limit);
  }

  lemma {:induction false} LengthSound(t: string, field: string, limit: nat)
    requires AllDigits(field) && (field != [] ==> IsDecimal(field, limit)) && LengthScan(t, field, limit).Some?
    ensures IsDecimal(field + t, limit)
    decreases |t|
  {
    hide ValueOf, IsDecimal;
    if t == [] {
      assert field + t == field;
    } else {
      var c := t[0];
      ValueMore(field, c);
      StartsDecimal(field, c, limit);
      LengthSound(t[1..], field + [c], limit);
      assert field + [c] + t[1..] == field + t;
    }
  }

  lemma SuffixSound(t: string, limit: nat) returns (p: Option<string>)
    requires SuffixScan(t, limit).Some?
    ensures IsPrefix(p, limit) && PrefixText(p) == t
  {
    hide ValueOf, IsDecimal;
    if t == [] {
      p := None;
    } else {
      LengthSound(t[1..], "", limit);
      assert "" + t[1..] == t[1..] && t == "/" + t[1..];
      p := Some(t[1..]);
    }
  }

  function HexText(a: seq<string>, zip: bool, b: seq<string>, rest: string): string {
    Terminated(a, ':') + (if zip then ":" else "") + Terminated(b, ':') + rest
  }

  lemma HexTextNone(rest: string)
    ensures HexText([], false, [], rest) == rest
  {
  }

  lemma HexTextZip(a: seq<string>, rest: string)
    ensures HexText([], true, a, rest) == [':'] + HexText(a, false, [], rest)
  {
    TerminatedNone(':');
  }

  lemma HexTextMore(f: string, a: seq<string>, zip: bool, b: seq<string>, rest: string)
    ensures HexText([f] + a, zip, b, rest) == f + ([':'] + HexText(a, zip, b, rest))
  {
    hide Terminated;
    TerminatedMore(f, a, ':');
  }

  /** What was scanned is some fields, perhaps two colons (one having been scanned before) and
      more fields, and part of another. */
  lemma {:induction false} HexSound(t: string, s: Scan) returns (a: seq<string>, zip: bool, b: seq<string>)
    requires ScanOk(s) && |s.octets| % 2 == 0 && HexScan(false, t, s).Some?
    ensures forall f | f in a + b :: IsHexField(f)
    ensures var (u, s') := HexScan(false, t, s).value;
            && (u == [] || u[0] == '.' || u[0] == '/')
            && s.field + t == HexText(a, zip, b, s'.field + u)
            && |s'.octets| == |s.octets| + 2 * |a| + 2 * |b|
            && (if zip then s.zip.None? && s'.zip == Some(|s.octets| + 2 * |a|) else s'.zip == s.zip && b == [])
    decreases |t|
  {
    hide HexValue, HexText, HexOctets;
    if t == [] || t[0] == '.' || t[0] == '/' {
      a, zip, b := [], false, [];
      HexTextNone(s.field + t);
    } else if t[0] != ':' {
      a, zip, b := HexSound(t[1..], s.(field := s.field + [t[0]]));
      assert s.field + [t[0]] + t[1..] == s.field + t;
    } else {
      assert t == [':'] + t[1..] && "" + t[1..] == t[1..];
      var (u, s') := HexScan(false, t, s).value;
      if s.field == [] {
        a, zip, b := HexSound(t[1..], s.(zip := Some(|s.octets|)));
        HexTextZip(a, s'.field + u);
        a, zip, b := [], true, a;
      } else {
        a, zip, b := HexSound(t[1..], Scan(s.octets + HexOctets([s.field]), s.zip, ""));
        HexTextMore(s.field, a, zip, b, s'.field + u);
        a := [s.field] + a;
      }
    }
  }

  lemma TerminatedNone(sep: char)
    ensures Terminated([], sep) == []
  {
  }

  /** The last part of an accepted address, put back together with what was scanned before it. */
  lemma LastSound(u: string, s: Scan) returns (last: Last)
    requires ScanOk(s) && |s.octets| % 2 == 0 && LastScan(u, s).Some?
    requires u == [] || u[0] == '.' || u[0] == '/'
    ensures LastOk(last) && s.field + u == LastText(last) + LastScan(u, s).value.0
    ensures |LastScan(u, s).value.1| == |s.octets| + LastWidth(last) <= 16
    ensures last.Nothing? ==> s.zip == Some(|s.octets|)
  {
    hide QuadScan, IsDecimal, HexValue, ValueOf, HexOctets;
    if u != [] && u[0] == '.' {
      var ds := QuadSound(s.field + u, [], "");
      assert "" + (s.field + u) == s.field + u;
      QuadLength(s.field + u);
      last := Quad(ds);
    } else if s.field == [] {
      last := Nothing;
    } else {
      last := Hex(s.field);
    }
  }

  lemma QuadLength(t: string)
    requires QuadScan(t, [], "").Some?
    ensures |QuadScan(t, [], "").value.1| == 4
  {
    QuadScanLength(t, [], "");
  }

  lemma {:induction false} QuadScanLength(t: string, done: seq<Octet>, field: string)
    requires AllDigits(field) && (field != [] ==> ValueOf(field) <= 255) && QuadScan(t, done, field).Some?
    ensures |QuadScan(t, done, field).value.1| == 4
    decreases |t|
  {
    hide ValueOf;
    if t == [] || t[0] == '/' {
    } else {
      if t[0] == '.' {
        QuadScanLength(t[1..], done + [ValueOf(field)], "");
      } else {
        ValueMore(field, t[0]);
        QuadScanLength(t[1..], done, field + [t[0]]);
      }
    }
  }

  /** Whatever is accepted as an IPv6 netblock is the text of one. */
  lemma Sound6(t: string) returns (a: Address, p: Option<string>)
    requires Parse6(t).Some?
    ensures IsAddress(a) && IsPrefix(p, 128) && t == AddressText(a) + PrefixText(p)
  {
    hide HexScan, LastScan, IsDecimal, IsHexField, HexText, SuffixScan, LastText, LastOk;
    var (u, s) := HexScan(true, t, NEW_SCAN).value;
    var head, zip, tail := HexSoundStart(t);
    var last := LastSound(u, s);
    var (v, octets) := LastScan(u, s).value;
    p := SuffixSound(v, 128);
    a := Address(head, zip, tail, last);
    assert forall f | f in head :: f in head + tail;
    assert forall f | f in tail :: f in head + tail;
    AddressSound(a, v, t, s.field + u);
  }

  lemma AddressSound(a: Address, v: string, t: string, rest: string)
    requires IsAddress(a) && rest == LastText(a.last) + v
    requires t == (if a.head == [] && a.compressed then ":" else "") + HexText(a.head, a.compressed, a.tail, rest)
    ensures t == AddressText(a) + v
  {
    hide LastText, LastOk, IsHexField;
    TerminatedNone(':');
  }

  /** As `HexSound`, but from the beginning, where two colons must both be present. */
  lemma HexSoundStart(t: string) returns (a: seq<string>, zip: bool, b: seq<string>)
    requires HexScan(true, t, NEW_SCAN).Some?
    ensures forall f | f in a + b :: IsHexField(f)
    ensures var (u, s) := HexScan(true, t, NEW_SCAN).value;
            && (u == [] || u[0] == '.' || u[0] == '/')
            && t == (if a == [] && zip then ":" else "") + HexText(a, zip, b, s.field + u)
            && |s.octets| == 2 * |a| + 2 * |b|
            && s.zip == (if zip then Some(2 * |a|) else None) && (!zip ==> b == [])
  {
    hide HexText, HexValue, HexOctets;
    var (u, s) := HexScan(true, t, NEW_SCAN).value;
    if t != [] && t[0] == ':' {
      a, zip, b := HexSound(t[1..], NEW_SCAN);
      assert t == ":" + t[1..] && "" + t[1..] == t[1..];
      HexTextColon(a, zip, b, s.field, u);
    } else {
      assert HexScan(true, t, NEW_SCAN) == HexScan(false, t, NEW_SCAN);
      a, zip, b := HexSound(t, NEW_SCAN);
      assert "" + t == t;
      if a == [] && zip {
        HexTextZipped(b, s.field + u);
      }
    }
  }

  lemma HexTextZipped(b: seq<string>, rest: string)
    ensures HexText([], true, b, rest) != [] && HexText([], true, b, rest)[0] == ':'
  {
    TerminatedNone(':');
  }

  /** Text which begins with a colon begins with two colons in the middle of an address. */
  lemma HexTextColon(a: seq<string>, zip: bool, b: seq<string>, field: string, u: string)
    requires forall f | f in a + b :: IsHexField(f)
    requires AllHexDigits(field) && (u == [] || u[0] == '.' || u[0] == '/') && (!zip ==> b == [])
    requires HexText(a, zip, b, field + u) != [] && HexText(a, zip, b, field + u)[0] == ':'
    ensures a == [] && zip
  {
    hide HexText;
    if a != [] {
      HexTextField(a, zip, b, field + u);
    } else if !zip {
      HexTextNone(field + u);
      FieldFirst(field, u);
    }
  }

  lemma HexTextField(a: seq<string>, zip: bool, b: seq<string>, rest: string)
    requires a != [] && forall f | f in a + b :: IsHexField(f)
    ensures HexText(a, zip, b, rest) != [] && HexText(a, zip, b, rest)[0] != ':'
  {
    assert a[0] in a + b;
    assert HexText(a, zip, b, rest)[0] == a[0][0] && a[0][0] in a[0];
  }

  lemma FieldFirst(field: string, u: string)
    requires AllHexDigits(field) && (u == [] || u[0] == '.' || u[0] == '/')
    ensures field + u != [] ==> (field + u)[0] != ':'
  {
    if field != [] {
      assert field[0] in field;
    }
  }

  // ---------------------------------------------------------------------------
  // Exactness
  // ---------------------------------------------------------------------------

  /** A text is accepted as an IPv6 netblock exactly if it is of one of the forms described,
      and then its octets and prefix length are the ones which that form stands for. */
  lemma Exact6(t: string, octets: seq<Octet>, length: nat)
    ensures Parse6(t) == Some((octets, length)) <==>
              exists a, p :: IsAddress(a) && IsPrefix(p, 128) && t == AddressText(a) + PrefixText(p)
                          && octets == AddressOctets(a) && length == PrefixLength(p, 128)
  {
    hide IsAddress, AddressText, AddressOctets, PrefixText, PrefixLength, IsPrefix, Parse6;
    if Parse6(t).Some? {
      var a, p := Sound6(t);
      Accepted6(a, p);
    }
    forall a, p | IsAddress(a) && IsPrefix(p, 128) && t == AddressText(a) + PrefixText(p)
      ensures Parse6(t) == Some((AddressOctets(a), PrefixLength(p, 128)))
    {
      Accepted6(a, p);
    }
  }

  lemma Sound4(t: string) returns (ds: seq<string>, p: Option<string>)
    requires Parse4(t).Some?
    ensures IsQuad(ds) && IsPrefix(p, 32) && t == QuadText(ds) + PrefixText(p)
  {
    hide QuadScan, IsDecimal, SuffixScan, Terminated;
    ds := QuadSound(t, [], "");
    assert "" + t == t;
    p := SuffixSound(QuadScan(t, [], "").value.0, 32);
  }

  /** Likewise for IPv4. */
  lemma Exact4(t: string, octets: seq<Octet>, length: nat)
    ensures Parse4(t) == Some((octets, length)) <==>
              exists ds, p :: IsQuad(ds) && IsPrefix(p, 32) && t == QuadText(ds) + PrefixText(p)
                           && octets == DecimalOctets(ds) && length == PrefixLength(p, 32)
  {
    hide QuadText, PrefixText, PrefixLength, IsPrefix, Parse4, DecimalOctets, IsDecimal;
    if Parse4(t).Some? {
      var ds, p := Sound4(t);
      Accepted4(ds, p);
    }
    forall ds, p | IsQuad(ds) && IsPrefix(p, 32) && t == QuadText(ds) + PrefixText(p)
      ensures Parse4(t) == Some((DecimalOctets(ds), PrefixLength(p, 32)))
    {
      Accepted4(ds, p);
    }
  }
}
