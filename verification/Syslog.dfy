/** What the syslog parser reads, and that the original message can be rebuilt from it. */
module Syslog {
  import opened Octets
  import opened Digits

  /** What is passed to the record builder, in order. */
  datatype Field =
    | Priority(value: nat)
    | Version(number: nat)
    | TimestampText(timestamp: string)
    | Hostname(hostname: string)
    | Appname(appname: string)
    | Procid(procid: string)
    | Msgid(msgid: string)
    | StructuredData(data: string)
    | Message(message: string)

  // ---------------------------------------------------------------------------
  // Components. Each function takes the text not yet parsed, and gives what was read with the
  // text which is left, or nothing if the component cannot be parsed.
  // ---------------------------------------------------------------------------

  /** A single trailing LF, CR or CRLF is framing. */
  function Trim(t: string): string {
    var u := if t != [] && t[|t| - 1] == '\n' then t[..|t| - 1] else t;
    if u != [] && u[|u| - 1] == '\r' then u[..|u| - 1] else u
  }

  function Min(a: nat, b: nat): nat { if a < b then a else b }

  /** How many spaces there are at the start of a text, up to a limit. */
  function Spaces(t: string, limit: nat): (n: nat)
    ensures n <= limit && n <= |t|
    ensures forall i | 0 <= i < n :: t[i] == ' '
    ensures n < limit && n < |t| ==> t[n] != ' '
  {
    if limit == 0 || t == [] || t[0] != ' ' then 0 else 1 + Spaces(t[1..], limit - 1)
  }

  /** How many digits there are at the start of a text, up to a limit. */
  function DigitCount(t: string, limit: nat): (n: nat)
    ensures n <= limit && n <= |t|
  {
    if limit == 0 || t == [] || !IsDigit(t[0]) then 0 else 1 + DigitCount(t[1..], limit - 1)
  }

  lemma {:induction false} DigitCountMeans(t: string, limit: nat)
    ensures var n := DigitCount(t, limit);
            AllDigits(t[..n]) && (n < limit && n < |t| ==> !IsDigit(t[n]))
  {
    var n := DigitCount(t, limit);
    if n == 0 {
    } else {
      DigitCountMeans(t[1..], limit - 1);
      assert t[..n] == [t[0]] + t[1..][..n - 1];
    }
  }

  /** Arithmetic on an unsigned 32-bit integer. */
  function Wrapped(n: nat): (r: nat)
    ensures n < TWO32 ==> r == n
  {
    n % TWO32
  }

  /** A decimal number of a certain width, perhaps with spaces or zeros in front. The value is an
      unsigned 32-bit one, so it wraps round if there are too many digits. */
  function ReadDecimal(t: string, minWidth: nat, maxWidth: nat, allowSpaces: bool, allowZeros: bool)
    : (r: Option<(nat, string)>)
    ensures r.Some? ==> minWidth <= |t| - |r.value.1| <= maxWidth
  {
    var limit := Min(maxWidth, |t|);
    var a := if allowSpaces then Spaces(t, limit) else 0;
    var u := t[a..];
    var b := DigitCount(u, limit - a);
    if b == 0 || a + b < minWidth then None
    else
      DigitCountMeans(u, limit - a);
      var value := Wrapped(ValueOf(u[..b]));
      if !allowZeros && b > 1 && u[0] == '0' && (u[1] == '0' || value != 0) then None
      else Some((value, u[b..]))
  }

  /** A space, unless at the end. */
  function ReadDelimiter(t: string): Option<string> {
    if t == [] then Some([]) else if t[0] == ' ' then Some(t[1..]) else None
  }

  function ReadPriority(t: string): Option<(nat, string)> {
    if t == [] || t[0] != '<' then None
    else
      match ReadDecimal(t[1..], 1, 3, false, false)
      case None => None
      case Some((n, u)) =>
        if n > 191 || u == [] || u[0] != '>' then None else Some((n, u[1..]))
  }

  function ReadVersion(t: string): Option<(nat, string)> {
    match ReadDecimal(t, 1, 3, false, false)
    case None => None
    case Some((n, u)) =>
      if n == 0 then None
      else
        match ReadDelimiter(u)
        case None => None
        case Some(v) => Some((n, v))
  }

  /** A printable US ASCII character other than a space. */
  predicate IsGraph(c: char) { '!' <= c <= '~' }

  function GraphCount(t: string): (n: nat)
    ensures n <= |t|
    ensures forall i | 0 <= i < n :: IsGraph(t[i])
    ensures n < |t| ==> !IsGraph(t[n])
  {
    if t == [] || !IsGraph(t[0]) then 0 else 1 + GraphCount(t[1..])
  }

  function ReadToken(t: string): Option<(string, string)> {
    var n := GraphCount(t);
    if n == 0 then None
    else
      match ReadDelimiter(t[n..])
      case None => None
      case Some(u) => Some((t[..n], u))
  }

  const MONTH_NAMES := "JanFebMarAprMayJunJulAugSepOctNovDec"
  const MONTH_LENGTHS := [31, 29, 31, 30, 31, 30, 31, 31, 30, 31, 30, 31]

  /** A C string extends as far as its first NUL. */
  function CString(t: string): string {
    if t == [] || t[0] == '\0' then [] else [t[0]] + CString(t[1..])
  }

  /** Where one string first occurs within another. */
  function StrStr(haystack: string, needle: string): (r: Option<nat>)
    ensures r.Some? ==> if needle == [] then r.value == 0 else r.value < |haystack|
  {
    if needle <= haystack then Some(0)
    else if haystack == [] then None
    else
      match StrStr(haystack[1..], needle)
      case None => None
      case Some(n) => Some(n + 1)
  }

  /** The month which a name stands for. (A name containing a NUL is cut short there.) */
  function MonthOf(name: string): (r: Option<nat>)
    ensures r.Some? ==> r.value < 12
  {
    match StrStr(MONTH_NAMES, CString(name))
    case None => None
    case Some(n) => if n % 3 == 0 then Some(n / 3) else None
  }

  /** Two digits with a given greatest value, and perhaps with a space in front. */
  predicate IsTwo(t: string, allowSpaces: bool, lo: nat, hi: nat) {
    var r := ReadDecimal(t, 2, 2, allowSpaces, !allowSpaces);
    r.Some? && lo <= r.value.0 <= hi
  }

  /** The part of a timestamp which follows the name of the month. */
  predicate IsClock(t: string, days: nat)
    requires |t| >= 12
  {
    && t[0] == ' ' && IsTwo(t[1..], true, 1, days)
    && t[3] == ' ' && IsTwo(t[4..], false, 0, 59)
    && t[6] == ':' && IsTwo(t[7..], false, 0, 59)
    && t[9] == ':' && IsTwo(t[10..], false, 0, 59)
  }

  /** A timestamp of the form "Mmm dd hh:mm:ss". */
  function ReadTimestamp(t: string): Option<(string, string)> {
    if |t| < 15 then None
    else
      var month := MonthOf(t[..3]);
      if month.None? || !IsClock(t[3..], MONTH_LENGTHS[month.value]) then None
      else
        match ReadDelimiter(t[15..])
        case None => None
        case Some(u) => Some((t[..15], u))
  }

  /** The text after the bracket which closes structured data. */
  function AfterBracket(t: string, quoted: bool): (r: Option<string>)
    ensures r.Some? ==> |r.value| < |t| && r.value == t[|t| - |r.value|..] && t[|t| - |r.value| - 1] == ']'
    decreases |t|
  {
    if t == [] then None
    else if t[0] == ']' then if quoted then None else Some(t[1..])
    else if t[0] == '"' then AfterBracket(t[1..], !quoted)
    else if t[0] == '\\' && quoted then if |t| == 1 then None else AfterBracket(t[2..], quoted)
    else AfterBracket(t[1..], quoted)
  }

  function ReadStructuredData(t: string): Option<(string, string)> {
    if t != [] && t[0] == '-' then
      match ReadDelimiter(t[1..])
      case None => None
      case Some(u) => Some(("-", u))
    else if t == [] || t[0] != '[' then None
    else
      match AfterBracket(t[1..], false)
      case None => None
      case Some(u) =>
        match ReadDelimiter(u)
        case None => None
        case Some(v) => Some((t[..|t| - |u|], v))
  }

  // ---------------------------------------------------------------------------
  // Whole messages
  // ---------------------------------------------------------------------------

  /** The rest of a message, given the whole of it: this is a field if it is not empty, or if it
      follows a space. */
  function Tail(whole: string, t: string): seq<Field> {
    if (|t| < |whole| && whole[|whole| - |t| - 1] == ' ') || t != [] then [Message(t)] else []
  }

  /** The fields of a message in the older format, after the priority. */
  function OldFields(whole: string, t: string): seq<Field> {
    match ReadTimestamp(t)
    case None => Tail(whole, t)
    case Some((timestamp, u)) =>
      [TimestampText(timestamp)] +
      match ReadToken(u)
      case None => Tail(whole, u)
      case Some((hostname, v)) => [Hostname(hostname)] + Tail(whole, v)
  }

  /** The header fields of a message in the newer format. They are all present, or none is. */
  function ReadHeader(t: string): Option<(seq<Field>, string)> {
    var a := ReadToken(t);
    if a.None? then None else
    var b := ReadToken(a.value.1);
    if b.None? then None else
    var c := ReadToken(b.value.1);
    if c.None? then None else
    var d := ReadToken(c.value.1);
    if d.None? then None else
    var e := ReadToken(d.value.1);
    if e.None? then None
    else Some(([Version(1), TimestampText(a.value.0), Hostname(b.value.0), Appname(c.value.0),
                Procid(d.value.0), Msgid(e.value.0)], e.value.1))
  }

  /** The fields after the header. */
  function AfterFields(whole: string, t: string): seq<Field> {
    match ReadStructuredData(t)
    case None => Tail(whole, t)
    case Some((data, u)) => [StructuredData(data)] + Tail(whole, u)
  }

  /** The fields of a message in the newer format, where `t` is what follows the priority, and
      `u` what follows the version. */
  function NewFields(whole: string, t: string, u: string): seq<Field> {
    match ReadHeader(u)
    case None => Tail(whole, t)
    case Some((header, v)) => header + AfterFields(whole, v)
  }

  /** The fields after the priority. */
  function Body(whole: string, t: string): seq<Field> {
    match ReadVersion(t)
    case None => OldFields(whole, t)
    case Some((version, u)) => if version == 1 then NewFields(whole, t, u) else Tail(whole, u)
  }

  function ReadMessage(whole: string): seq<Field> {
    match ReadPriority(whole)
    case None => Tail(whole, whole)
    case Some((priority, t)) => [Priority(priority)] + Body(whole, t)
  }

  // ---------------------------------------------------------------------------
  // Rebuilding a message
  // ---------------------------------------------------------------------------

  function FieldText(f: Field): string {
    match f
    case Priority(n) => "<" + Decimal(n) + ">"
    case Version(n) => Decimal(n)
    case TimestampText(s) => s
    case Hostname(s) => s
    case Appname(s) => s
    case Procid(s) => s
    case Msgid(s) => s
    case StructuredData(s) => s
    case Message(s) => s
  }

  /** Fields with a space between each and the next. */
  function Joined(fs: seq<Field>): string {
    if fs == [] then [] else if |fs| == 1 then FieldText(fs[0]) else FieldText(fs[0]) + " " + Joined(fs[1..])
  }

  /** The original message: the priority, if any, is not separated from what follows. */
  function Rebuild(fs: seq<Field>): string {
    if fs != [] && fs[0].Priority? then FieldText(fs[0]) + Joined(fs[1..]) else Joined(fs)
  }

  /** The fields rebuild a text which may follow a space. */
  predicate Rebuilds(fs: seq<Field>, spaced: bool, t: string) {
    if spaced || t != [] then fs != [] && Joined(fs) == t else fs == []
  }

  /** A text is a field, and either nothing else or a space and something that follows. */
  predicate Delimited(t: string, text: string, spaced: bool, u: string) {
    text != [] && text[|text| - 1] != ' ' && t == text + (if spaced then " " + u else []) && (!spaced ==> u == [])
  }

  lemma RebuildsMore(t: string, f: Field, spaced: bool, u: string, fs: seq<Field>, before: bool)
    requires Delimited(t, FieldText(f), spaced, u) && Rebuilds(fs, spaced, u)
    ensures Rebuilds([f] + fs, before, t)
  {
    hide FieldText;
    assert ([f] + fs)[1..] == fs;
    assert t == FieldText(f) + " " + u || t == FieldText(f);
  }

  /** The end of one text is another. */
  predicate EndsIn(whole: string, t: string) { |t| <= |whole| && whole[|whole| - |t|..] == t }

  lemma TailRebuilds(whole: string, t: string)
    ensures Rebuilds(Tail(whole, t), |t| < |whole| && whole[|whole| - |t| - 1] == ' ', t)
  {
  }

  /** Whether what follows a field came after a space can be told from the message. */
  lemma DelimitedTail(whole: string, t: string, text: string, spaced: bool, u: string)
    requires EndsIn(whole, t) && Delimited(t, text, spaced, u)
    ensures EndsIn(whole, u) && |u| < |whole| && (whole[|whole| - |u| - 1] == ' ' <==> spaced)
  {
    var n := |whole| - |t|;
    assert forall i | 0 <= i < |t| :: whole[n + i] == t[i];
    if spaced {
      assert t[|text|] == ' ';
      assert u == t[|text| + 1..];
      assert whole[|whole| - |u|..] == u;
    } else {
      assert t[|t| - 1] == text[|text| - 1];
    }
  }

  lemma DelimiterMeans(t: string, n: nat, u: string)
    requires 0 < n <= |t| && t[n - 1] != ' ' && ReadDelimiter(t[n..]) == Some(u)
    ensures Delimited(t, t[..n], n < |t|, u)
  {
    if n < |t| {
      assert t[n..][1..] == t[n + 1..];
      assert t == t[..n] + (" " + t[n + 1..]);
    } else {
      assert t[..n] == t;
    }
  }

  lemma {:induction false} SmallValue(s: string)
    requires AllDigits(s) && |s| <= 3
    ensures |s| == 0 ==> ValueOf(s) == 0
    ensures |s| == 1 ==> ValueOf(s) < 10
    ensures |s| == 2 ==> ValueOf(s) < 100
    ensures ValueOf(s) < 1000
    decreases |s|
  {
    if s == [] {
    } else {
      SmallValue(s[..|s| - 1]);
    }
  }

  /** With up to three digits there is no wrapping round, and a leading zero is always refused. */
  lemma DecimalMeans(t: string, minWidth: nat, maxWidth: nat, n: nat, u: string)
    requires maxWidth <= 3 && ReadDecimal(t, minWidth, maxWidth, false, false) == Some((n, u))
    ensures Decimal(n) != [] && AllDigits(Decimal(n)) && t == Decimal(n) + u
  {
    hide Decimal, ValueOf;
    var b := |t| - |u|;
    assert t[0..] == t;
    DigitCountMeans(t, Min(maxWidth, |t|));
    var d := t[..b];
    SmallValue(d);
    if b > 1 && d[0] == '0' && d[1] != '0' {
      TailNotZero(d);
    }
    DecimalOfValue(d, n);
  }

  lemma TailNotZero(d: string)
    requires AllDigits(d) && 2 <= |d| <= 3 && d[1] != '0'
    ensures ValueOf(d) != 0
  {
    var front := d[..|d| - 1];
    assert d[1] in d;
    if |d| == 3 {
      assert front[..1] + [d[1]] == front;
      ValueMore(front[..1], d[1]);
    } else {
      assert front + [d[1]] == d;
    }
    assert DigitValue(d[1]) != 0 by { assert DigitOf(0) == '0'; }
  }

  lemma PriorityMeans(t: string, n: nat, u: string)
    requires ReadPriority(t) == Some((n, u))
    ensures t == FieldText(Priority(n)) + u && EndsIn(t, u) && |u| < |t| && t[|t| - |u| - 1] == '>'
  {
    hide ReadDecimal, Decimal;
    var (_, v) := ReadDecimal(t[1..], 1, 3, false, false).value;
    DecimalMeans(t[1..], 1, 3, n, v);
    assert t == "<" + t[1..] && v == ">" + u;
    assert t == "<" + Decimal(n) + ">" + u;
  }

  lemma VersionMeans(t: string, n: nat, u: string) returns (spaced: bool)
    requires ReadVersion(t) == Some((n, u))
    ensures Delimited(t, FieldText(Version(n)), spaced, u)
  {
    hide ReadDecimal, Decimal;
    var (_, v) := ReadDecimal(t, 1, 3, false, false).value;
    DecimalMeans(t, 1, 3, n, v);
    var d := Decimal(n);
    assert d[|d| - 1] in d;
    DelimiterMeans(t, |d|, u);
    assert t[..|d|] == d && t[|d|..] == v;
    spaced := |d| < |t|;
  }

  lemma TokenMeans(t: string, token: string, u: string) returns (spaced: bool)
    requires ReadToken(t) == Some((token, u))
    ensures Delimited(t, token, spaced, u)
  {
    var n := GraphCount(t);
    DelimiterMeans(t, n, u);
    spaced := n < |t|;
  }

  lemma TimestampMeans(t: string, timestamp: string, u: string) returns (spaced: bool)
    requires ReadTimestamp(t) == Some((timestamp, u))
    ensures Delimited(t, timestamp, spaced, u)
  {
    hide MonthOf, IsTwo;
    TwoDigits(t[3..][10..], 0, 59);
    assert t[3..][10..][1] == t[14];
    DelimiterMeans(t, 15, u);
    spaced := 15 < |t|;
  }

  lemma TwoDigits(t: string, lo: nat, hi: nat)
    requires IsTwo(t, false, lo, hi)
    ensures |t| >= 2 && IsDigit(t[1])
  {
    hide ValueOf;
    assert t[0..] == t;
    var b := DigitCount(t, Min(2, |t|));
    DigitCountMeans(t, Min(2, |t|));
    assert t[1] in t[..b];
  }

  lemma StructuredDataMeans(t: string, data: string, u: string) returns (spaced: bool)
    requires ReadStructuredData(t) == Some((data, u))
    ensures Delimited(t, data, spaced, u)
  {
    hide AfterBracket;
    if t[0] == '-' {
      assert t[..1] == "-";
      DelimiterMeans(t, 1, u);
      spaced := 1 < |t|;
    } else {
      var v := AfterBracket(t[1..], false).value;
      var n := |t| - |v|;
      assert t[n..] == v && t[n - 1] == ']';
      DelimiterMeans(t, n, u);
      spaced := n < |t|;
    }
  }

  /** The field just read, and what follows, rebuild the text. */
  lemma FieldRebuilds(whole: string, t: string, f: Field, spaced: bool, u: string)
    requires EndsIn(whole, t) && Delimited(t, FieldText(f), spaced, u)
    ensures Rebuilds([f] + Tail(whole, u), false, t)
  {
    hide FieldText;
    DelimitedTail(whole, t, FieldText(f), spaced, u);
    TailRebuilds(whole, u);
    RebuildsMore(t, f, spaced, u, Tail(whole, u), false);
  }

  lemma OldRebuilds(whole: string, t: string)
    requires EndsIn(whole, t) && |t| < |whole| && whole[|whole| - |t| - 1] != ' '
    ensures Rebuilds(OldFields(whole, t), false, t)
  {
    hide ReadTimestamp, ReadToken, Tail, Rebuilds, Delimited, Joined;
    match ReadTimestamp(t)
    case None => TailRebuilds(whole, t);
    case Some((timestamp, u)) =>
      var f := TimestampText(timestamp);
      var spaced := TimestampMeans(t, timestamp, u);
      match ReadToken(u)
      case None => FieldRebuilds(whole, t, f, spaced, u);
      case Some((hostname, v)) =>
        var g := Hostname(hostname);
        DelimitedTail(whole, t, timestamp, spaced, u);
        var spaced' := TokenMeans(u, hostname, v);
        FieldRebuilds(whole, u, g, spaced', v);
        RebuildsNonEmpty(whole, u, g, spaced', v, spaced);
        RebuildsMore(t, f, spaced, u, [g] + Tail(whole, v), false);
  }

  /** Having read a field, it makes no difference whether a space came before it. */
  lemma RebuildsNonEmpty(whole: string, t: string, f: Field, spaced: bool, u: string, before: bool)
    requires Delimited(t, FieldText(f), spaced, u) && Rebuilds([f] + Tail(whole, u), false, t)
    ensures Rebuilds([f] + Tail(whole, u), before, t)
  {
    hide FieldText, Tail;
  }

  /** One step through the header: what is left follows on from the token. */
  lemma HeaderToken(whole: string, t: string, token: string, u: string) returns (spaced: bool)
    requires EndsIn(whole, t) && ReadToken(t) == Some((token, u))
    ensures Delimited(t, token, spaced, u) && EndsIn(whole, u)
    ensures |u| < |whole| && (whole[|whole| - |u| - 1] == ' ' <==> spaced)
  {
    hide ReadToken;
    spaced := TokenMeans(t, token, u);
    DelimitedTail(whole, t, token, spaced, u);
  }

  /** The fields which follow the header rebuild the text which does. */
  lemma AfterHeader(whole: string, v: string)
    requires EndsIn(whole, v) && |v| < |whole|
    ensures Rebuilds(AfterFields(whole, v), whole[|whole| - |v| - 1] == ' ', v)
  {
    hide ReadStructuredData, Tail, Rebuilds, Delimited, EndsIn;
    var spaced := whole[|whole| - |v| - 1] == ' ';
    match ReadStructuredData(v)
    case None => TailRebuilds(whole, v);
    case Some((data, w)) =>
      var f := StructuredData(data);
      var after := StructuredDataMeans(v, data, w);
      FieldRebuilds(whole, v, f, after, w);
      RebuildsNonEmpty(whole, v, f, after, w, spaced);
  }

  /** The last three fields of the header, and those after it. */
  lemma LastThree(whole: string, t: string, a: (string, string), b: (string, string), c: (string, string), before: bool)
    requires EndsIn(whole, t) && ReadToken(t) == Some(a) && ReadToken(a.1) == Some(b) && ReadToken(b.1) == Some(c)
    ensures Rebuilds([Appname(a.0)] + ([Procid(b.0)] + ([Msgid(c.0)] + AfterFields(whole, c.1))), before, t)
  {
    hide ReadToken, ReadStructuredData, AfterFields, Rebuilds, Delimited, EndsIn, Joined;
    var sa := HeaderToken(whole, t, a.0, a.1);
    var sb := HeaderToken(whole, a.1, b.0, b.1);
    var sc := HeaderToken(whole, b.1, c.0, c.1);
    AfterHeader(whole, c.1);
    var fs := AfterFields(whole, c.1);
    RebuildsMore(b.1, Msgid(c.0), sc, c.1, fs, sb);
    RebuildsMore(a.1, Procid(b.0), sb, b.1, [Msgid(c.0)] + fs, sa);
    RebuildsMore(t, Appname(a.0), sa, a.1, [Procid(b.0)] + ([Msgid(c.0)] + fs), before);
  }

  lemma HeaderRebuilds(whole: string, t: string, u: string, first: bool)
    requires EndsIn(whole, t) && Delimited(t, FieldText(Version(1)), first, u) && ReadHeader(u).Some?
    ensures Rebuilds(NewFields(whole, t, u), false, t)
  {
    hide ReadToken, Rebuilds, Delimited, EndsIn, Joined, Decimal, AfterFields, NewFields;
    DelimitedTail(whole, t, FieldText(Version(1)), first, u);
    var a := ReadToken(u).value;
    var b := ReadToken(a.1).value;
    var c := ReadToken(b.1).value;
    var d := ReadToken(c.1).value;
    var e := ReadToken(d.1).value;
    var sa := HeaderToken(whole, u, a.0, a.1);
    var sb := HeaderToken(whole, a.1, b.0, b.1);
    LastThree(whole, b.1, c, d, e, sb);
    var fs := [Appname(c.0)] + ([Procid(d.0)] + ([Msgid(e.0)] + AfterFields(whole, e.1)));
    RebuildsMore(a.1, Hostname(b.0), sb, b.1, fs, sa);
    RebuildsMore(u, TimestampText(a.0), sa, a.1, [Hostname(b.0)] + fs, first);
    RebuildsMore(t, Version(1), first, u, [TimestampText(a.0)] + ([Hostname(b.0)] + fs), false);
    NewFieldsAre(whole, t, u, a.0, b.0, c.0, d.0, e);
  }

  lemma NewFieldsAre(whole: string, t: string, u: string,
                     a: string, b: string, c: string, d: string, e: (string, string))
    requires ReadHeader(u) ==
               Some(([Version(1), TimestampText(a), Hostname(b), Appname(c), Procid(d), Msgid(e.0)], e.1))
    ensures NewFields(whole, t, u) ==
              [Version(1)] + ([TimestampText(a)] + ([Hostname(b)] + ([Appname(c)] + ([Procid(d)] + ([Msgid(e.0)] +
                AfterFields(whole, e.1))))))
  {
    hide ReadHeader, AfterFields;
  }

  lemma NewRebuilds(whole: string, t: string, u: string)
    requires EndsIn(whole, t) && |t| < |whole| && whole[|whole| - |t| - 1] != ' '
    requires ReadVersion(t) == Some((1, u))
    ensures Rebuilds(NewFields(whole, t, u), false, t)
  {
    hide ReadVersion, ReadHeader, Tail, Rebuilds, Delimited, FieldText, NewFields;
    var spaced := VersionMeans(t, 1, u);
    if ReadHeader(u).Some? {
      HeaderRebuilds(whole, t, u, spaced);
    } else {
      TailRebuilds(whole, t);
      NoHeader(whole, t, u);
    }
  }

  lemma NoHeader(whole: string, t: string, u: string)
    requires ReadHeader(u).None?
    ensures NewFields(whole, t, u) == Tail(whole, t)
  {
  }

  /** The message has a version number which is not the one expected. */
  predicate HasOtherVersion(t: string) {
    match ReadPriority(t)
    case None => false
    case Some((_, u)) =>
      match ReadVersion(u)
      case None => false
      case Some((version, _)) => version != 1
  }

  /** A message can be rebuilt from the fields read from it, unless it has an unexpected version
      number (which is lost). */
  lemma MessageRebuilds(t: string)
    ensures Rebuild(ReadMessage(t)) == t <==> !HasOtherVersion(t)
  {
    hide ReadPriority, ReadVersion, OldFields, NewFields, Joined, FieldText, Tail;
    match ReadPriority(t)
    case None =>
      TailRebuilds(t, t);
      TailOnly(t);
    case Some((priority, u)) =>
      PriorityMeans(t, priority, u);
      var f := Priority(priority);
      assert ReadMessage(t) == [f] + Body(t, u) && ([f] + Body(t, u))[1..] == Body(t, u);
      match ReadVersion(u)
      case None =>
        OldRebuilds(t, u);
        JoinedBody(Body(t, u), u);
      case Some((version, v)) =>
        if version == 1 {
          NewRebuilds(t, u, v);
          JoinedBody(Body(t, u), u);
        } else {
          VersionLost(t, u, v, version);
        }
  }

  lemma TailOnly(t: string)
    ensures Rebuild(Tail(t, t)) == t
  {
  }

  lemma JoinedBody(fs: seq<Field>, t: string)
    requires Rebuilds(fs, false, t)
    ensures Joined(fs) == t
  {
  }

  lemma VersionLost(whole: string, t: string, u: string, version: nat)
    requires ReadVersion(t) == Some((version, u))
    ensures |Joined(Tail(whole, u))| < |t|
  {
    hide ReadVersion, Decimal;
    var spaced := VersionMeans(t, version, u);
  }
}
