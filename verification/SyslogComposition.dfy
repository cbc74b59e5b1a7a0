/** What the syslog parser makes of messages composed as RFC 3164 and RFC 5424 say. */
module SyslogComposition {
  import opened Octets
  import opened Digits
  import opened Syslog
  import opened SyslogTimestamps

  // ---------------------------------------------------------------------------
  // Composition
  // ---------------------------------------------------------------------------

  /** A priority, and what follows it. */
  function Prioritised(n: nat, t: string): string { "<" + Decimal(n) + ">" + t }

  /** A text and what follows it, if anything does, after a space. */
  function Then(text: string, more: Option<string>): string {
    if more.None? then text else text + " " + more.value
  }

  function MessageOf(m: Option<string>): seq<Field> { if m.None? then [] else [Message(m.value)] }

  predicate IsToken(s: string) { s != [] && forall c | c in s :: '!' <= c <= '~' }

  /** Structured data (section 6.3 of RFC 5424): elements, each with a name and parameters. */
  datatype Param = Param(name: string, value: string)
  datatype Element = Element(id: string, params: seq<Param>)

  predicate IsName(s: string) { forall c | c in s :: '!' <= c <= '~' && c != '=' && c != ']' && c != '"' }

  predicate IsElement(e: Element) { IsName(e.id) && forall p | p in e.params :: IsName(p.name) }

  /** A quote, backslash or closing bracket in a value has a backslash in front. */
  function Escaped(v: string): string {
    if v == [] then []
    else (if IsSpecial(v[0]) then ['\\', v[0]] else [v[0]]) + Escaped(v[1..])
  }

  function ParamText(p: Param): string { " " + p.name + "=\"" + Escaped(p.value) + "\"" }

  function ParamsText(ps: seq<Param>): string {
    if ps == [] then [] else ParamText(ps[0]) + ParamsText(ps[1..])
  }

  function ElementText(e: Element): string { "[" + e.id + ParamsText(e.params) + "]" }

  function ElementsText(es: seq<Element>): string {
    if es == [] then [] else ElementText(es[0]) + ElementsText(es[1..])
  }

  // ---------------------------------------------------------------------------
  // Components
  // ---------------------------------------------------------------------------

  lemma {:induction false} AllCounted(d: string, u: string, limit: nat)
    requires AllDigits(d) && |d| <= limit && (u == [] || !IsDigit(u[0]))
    ensures DigitCount(d + u, limit) == |d|
    decreases |d|
  {
    if d == [] {
      assert d + u == u;
    } else {
      assert (d + u)[1..] == d[1..] + u;
      AllCounted(d[1..], u, limit - 1);
    }
  }

  lemma ShortDecimal(n: nat)
    requires n < 1000
    ensures |Decimal(n)| <= 3
  {
    assert |Decimal(n / 100)| == 1;
    assert |Decimal(n / 10)| <= 2;
  }

  /** A number of up to three digits is read, if no digit follows. */
  lemma DecimalRead(n: nat, u: string)
    requires n < 1000 && (u == [] || !IsDigit(u[0]))
    ensures ReadDecimal(Decimal(n) + u, 1, 3, false, false) == Some((n, u))
  {
    hide Decimal, ValueOf, DigitCount;
    var d, t := Decimal(n), Decimal(n) + u;
    DecimalValue(n);
    ShortDecimal(n);
    assert t[0..] == t;
    if |t| >= 3 {
      AllCounted(d, u, 3);
    } else {
      AllCounted(d, u, |t|);
    }
    assert t[..|d|] == d && t[|d|..] == u;
    assert d[0] == t[0];
    if n == 0 {
      assert |Decimal(0)| == 1 by { ZeroShort(); }
    }
  }

  lemma ZeroShort()
    ensures |Decimal(0)| == 1
  {
  }

  lemma PriorityRead(n: nat, t: string)
    requires n <= 191
    ensures ReadPriority(Prioritised(n, t)) == Some((n, t))
  {
    hide Decimal, ReadDecimal;
    var whole := Prioritised(n, t);
    assert whole[1..] == Decimal(n) + (">" + t);
    DecimalRead(n, ">" + t);
    assert (">" + t)[1..] == t;
  }

  /** A version number has to be a number. */
  lemma NoVersion(t: string)
    requires t != [] && !IsDigit(t[0])
    ensures ReadVersion(t).None?
  {
    assert t[0..] == t;
  }

  lemma VersionRead(n: nat, u: string)
    requires 0 < n < 1000
    ensures ReadVersion(Decimal(n) + " " + u) == Some((n, u))
  {
    hide Decimal, ReadDecimal;
    assert Decimal(n) + " " + u == Decimal(n) + (" " + u);
    DecimalRead(n, " " + u);
    assert (" " + u)[1..] == u;
  }

  function Rest(more: Option<string>): string { if more.None? then [] else more.value }

  lemma DelimiterRead(more: Option<string>)
    ensures ReadDelimiter(Then("", more)) == Some(Rest(more))
  {
    if more.Some? {
      assert ("" + " " + more.value)[1..] == more.value;
    }
  }

  lemma ThenParts(text: string, more: Option<string>)
    ensures Then(text, more) == text + Then("", more)
    ensures Then(text, more)[|text|..] == Then("", more) && Then(text, more)[..|text|] == text
  {
  }

  lemma {:induction false} AllGraph(s: string, u: string)
    requires (forall c | c in s :: IsGraph(c)) && (u == [] || !IsGraph(u[0]))
    ensures GraphCount(s + u) == |s|
    decreases |s|
  {
    if s == [] {
      assert s + u == u;
    } else {
      assert (s + u)[1..] == s[1..] + u;
      AllGraph(s[1..], u);
    }
  }

  lemma TokenRead(s: string, more: Option<string>)
    requires IsToken(s)
    ensures ReadToken(Then(s, more)) == Some((s, Rest(more)))
  {
    hide GraphCount, ReadDelimiter;
    ThenParts(s, more);
    AllGraph(s, Then("", more));
    DelimiterRead(more);
  }

  lemma TimestampRead(ts: string, more: Option<string>)
    requires IsTimestamp(ts)
    ensures ReadTimestamp(Then(ts, more)) == Some((ts, Rest(more)))
  {
    hide IsClock, MonthOf, ReadDelimiter, IsTimestamp;
    TimestampLength(ts);
    ThenParts(ts, more);
    MeetsRfc3164(Then(ts, more));
    DelimiterRead(more);
  }

  lemma TimestampLength(ts: string)
    requires IsTimestamp(ts)
    ensures |ts| == 15 && !IsDigit(ts[0])
  {
    hide ClockText;
    var m :| IsTextOf(ts, m);
    NameLength(m.month);
    MonthInitial(m.month);
  }

  lemma MonthInitial(month: nat)
    requires month < 12
    ensures |MONTHS[month]| == 3 && 'A' <= MONTHS[month][0] <= 'Z'
  {
  }

  // ---------------------------------------------------------------------------
  // Structured data
  // ---------------------------------------------------------------------------

  /** Anything but a bracket or a quote is passed over. */
  lemma {:induction false} PlainSkipped(s: string, t: string)
    requires forall c | c in s :: c != ']' && c != '"'
    ensures AfterBracket(s + t, false) == AfterBracket(t, false)
    decreases |s|
  {
    if s == [] {
      assert s + t == t;
    } else {
      assert s[0] in s && forall c | c in s[1..] :: c in s;
      assert (s + t)[1..] == s[1..] + t;
      PlainSkipped(s[1..], t);
    }
  }

  lemma QuotedPlain(c: char, u: string)
    requires c != '"' && c != '\\' && c != ']'
    ensures AfterBracket([c] + u, true) == AfterBracket(u, true)
  {
    assert ([c] + u)[1..] == u;
  }

  lemma QuotedEscape(c: char, u: string)
    ensures AfterBracket(['\\', c] + u, true) == AfterBracket(u, true)
  {
    assert (['\\', c] + u)[2..] == u;
  }

  lemma QuoteCloses(t: string)
    ensures AfterBracket("\"" + t, true) == AfterBracket(t, false)
  {
    assert ("\"" + t)[1..] == t;
  }

  predicate IsSpecial(c: char) { c == '"' || c == '\\' || c == ']' }

  lemma EscapedFirst(v: string, w: string)
    requires v != []
    ensures Escaped(v) + w == (if IsSpecial(v[0]) then ['\\', v[0]] else [v[0]]) + (Escaped(v[1..]) + w)
  {
  }

  lemma EscapedNothing(w: string)
    ensures Escaped("") + w == w
  {
  }

  /** So is a value, up to the closing quote. */
  lemma {:induction false} ValueSkipped(v: string, t: string)
    ensures AfterBracket(Escaped(v) + ("\"" + t), true) == AfterBracket(t, false)
    decreases |v|
  {
    hide AfterBracket, Escaped;
    var close := "\"" + t;
    if v == [] {
      EscapedNothing(close);
      QuoteCloses(t);
    } else {
      EscapedFirst(v, close);
      ValueSkipped(v[1..], t);
      if IsSpecial(v[0]) {
        QuotedEscape(v[0], Escaped(v[1..]) + close);
      } else {
        QuotedPlain(v[0], Escaped(v[1..]) + close);
      }
    }
  }

  lemma ParamSkipped(p: Param, t: string)
    requires IsName(p.name)
    ensures AfterBracket(ParamText(p) + t, false) == AfterBracket(t, false)
  {
    hide AfterBracket, Escaped;
    var s, value := " " + p.name + "=", Escaped(p.value) + ("\"" + t);
    assert ParamText(p) + t == s + ("\"" + value);
    PlainSkipped(s, "\"" + value);
    QuoteOpens(value);
    ValueSkipped(p.value, t);
  }

  lemma QuoteOpens(t: string)
    ensures AfterBracket("\"" + t, false) == AfterBracket(t, true)
  {
    assert ("\"" + t)[1..] == t;
  }

  lemma {:induction false} ParamsSkipped(ps: seq<Param>, t: string)
    requires forall p | p in ps :: IsName(p.name)
    ensures AfterBracket(ParamsText(ps) + t, false) == AfterBracket(t, false)
    decreases |ps|
  {
    hide AfterBracket, ParamText, IsName;
    if ps == [] {
      assert ParamsText(ps) + t == t;
    } else {
      var more := ParamsText(ps[1..]) + t;
      assert ParamsText(ps) + t == ParamText(ps[0]) + more;
      ParamSkipped(ps[0], more);
      ParamsSkipped(ps[1..], t);
    }
  }

  /** An element is passed over up to its own closing bracket. */
  lemma ElementEnds(e: Element, t: string)
    requires IsElement(e)
    ensures (ElementText(e) + t)[0] == '[' && AfterBracket((ElementText(e) + t)[1..], false) == Some(t)
  {
    hide AfterBracket, ParamsText;
    var u := ParamsText(e.params) + ("]" + t);
    assert (ElementText(e) + t)[1..] == e.id + u;
    PlainSkipped(e.id, u);
    ParamsSkipped(e.params, "]" + t);
    BracketEnds(t);
  }

  lemma BracketEnds(t: string)
    ensures AfterBracket("]" + t, false) == Some(t)
  {
    assert ("]" + t)[1..] == t;
  }

  /** Structured data of one element is read. */
  lemma ElementRead(e: Element, more: Option<string>)
    requires IsElement(e)
    ensures ReadStructuredData(Then(ElementText(e), more)) == Some((ElementText(e), Rest(more)))
  {
    hide AfterBracket, ElementText, ReadDelimiter;
    var s := ElementText(e);
    BracketFirst(e);
    ThenParts(s, more);
    ElementEnds(e, Then("", more));
    DelimiterRead(more);
    var t := Then(s, more);
    assert t == s + Then("", more);
    assert t[0] == '[' && AfterBracket(t[1..], false) == Some(Then("", more));
    assert t[..|t| - |Then("", more)|] == s;
  }

  lemma NilRead(more: Option<string>)
    ensures ReadStructuredData(Then("-", more)) == Some(("-", Rest(more)))
  {
    hide ReadDelimiter;
    ThenParts("-", more);
    DelimiterRead(more);
  }

  /** Of more than one it is not. */
  lemma MoreElementsRefused(e: Element, es: seq<Element>, more: Option<string>)
    requires IsElement(e) && es != []
    ensures ReadStructuredData(Then(ElementsText([e] + es), more)).None?
  {
    hide AfterBracket, ElementText;
    var t := Then(ElementsText(es), more);
    assert ([e] + es)[1..] == es;
    assert Then(ElementsText([e] + es), more) == ElementText(e) + t;
    ElementEnds(e, t);
    BracketFirst(es[0]);
    assert t[0] == '[';
  }

  lemma BracketFirst(e: Element)
    ensures ElementText(e) != [] && ElementText(e)[0] == '['
  {
  }

  // ---------------------------------------------------------------------------
  // Whole messages
  // ---------------------------------------------------------------------------

  /** What is left is the message, if there was a space or the end before it. */
  lemma TailRead(whole: string, front: string, text: string, more: Option<string>)
    requires whole == front + Then(text, more) && text != [] && text[|text| - 1] != ' '
    ensures Tail(whole, Rest(more)) == MessageOf(more)
  {
    if more.Some? {
      assert whole == (front + text) + (" " + more.value);
      assert whole[|whole| - |more.value| - 1] == ' ';
    } else {
      assert whole == front + text;
    }
  }

  lemma NotSpace(s: string)
    requires IsToken(s)
    ensures s[|s| - 1] != ' '
  {
    assert s[|s| - 1] in s;
  }

  /** A message composed as section 4.1 of RFC 3164 says is read as what it was composed of. */
  lemma OldComposed(n: nat, ts: string, host: string, m: Option<string>)
    requires n <= 191 && IsTimestamp(ts) && IsToken(host)
    ensures ReadMessage(Prioritised(n, ts + " " + Then(host, m)))
         == [Priority(n), TimestampText(ts), Hostname(host)] + MessageOf(m)
  {
    hide Decimal, ReadPriority, ReadVersion, ReadTimestamp, ReadToken, Tail, IsTimestamp, MessageOf;
    var t := ts + " " + Then(host, m);
    var whole := Prioritised(n, t);
    PriorityRead(n, t);
    TimestampLength(ts);
    assert t[0] == ts[0];
    NoVersion(t);
    assert Then(ts, Some(Then(host, m))) == t;
    TimestampRead(ts, Some(Then(host, m)));
    TokenRead(host, m);
    NotSpace(host);
    assert whole == ("<" + Decimal(n) + ">" + ts + " ") + Then(host, m);
    TailRead(whole, "<" + Decimal(n) + ">" + ts + " ", host, m);
  }

  datatype Header = Header(timestamp: string, hostname: string, appname: string, procid: string, msgid: string)

  predicate IsHeader(h: Header) {
    IsToken(h.timestamp) && IsToken(h.hostname) && IsToken(h.appname) && IsToken(h.procid) && IsToken(h.msgid)
  }

  function HeaderText(h: Header): string {
    h.timestamp + " " + h.hostname + " " + h.appname + " " + h.procid + " " + h.msgid
  }

  function HeaderFields(h: Header): seq<Field> {
    [Version(1), TimestampText(h.timestamp), Hostname(h.hostname), Appname(h.appname), Procid(h.procid), Msgid(h.msgid)]
  }

  lemma HeaderRead(h: Header, v: string)
    requires IsHeader(h)
    ensures ReadHeader(HeaderText(h) + " " + v) == Some((HeaderFields(h), v))
  {
    hide ReadToken, IsToken;
    var e := Then(h.msgid, Some(v));
    var d := Then(h.procid, Some(e));
    var c := Then(h.appname, Some(d));
    var b := Then(h.hostname, Some(c));
    assert HeaderText(h) + " " + v == Then(h.timestamp, Some(b));
    TokenRead(h.timestamp, Some(b));
    TokenRead(h.hostname, Some(c));
    TokenRead(h.appname, Some(d));
    TokenRead(h.procid, Some(e));
    TokenRead(h.msgid, Some(v));
  }

  /** A message of version 1 up to the structured data. */
  function NewText(n: nat, h: Header, v: string): string { Prioritised(n, "1 " + HeaderText(h) + " " + v) }

  lemma HeaderComposed(n: nat, h: Header, v: string)
    requires n <= 191 && IsHeader(h)
    ensures ReadMessage(NewText(n, h, v)) == [Priority(n)] + HeaderFields(h) + AfterFields(NewText(n, h, v), v)
  {
    hide Decimal, ReadPriority, ReadVersion, ReadHeader, HeaderText, AfterFields, IsHeader;
    var u := HeaderText(h) + " " + v;
    var t := "1 " + HeaderText(h) + " " + v;
    PriorityRead(n, t);
    assert Decimal(1) == "1" by { OneDigit(); }
    assert t == Decimal(1) + " " + u;
    VersionRead(1, u);
    HeaderRead(h, v);
  }

  lemma OneDigit()
    ensures Decimal(1) == "1"
  {
  }

  lemma DataComposed(n: nat, h: Header, data: string, m: Option<string>)
    requires n <= 191 && IsHeader(h) && data != [] && data[|data| - 1] != ' '
    requires ReadStructuredData(Then(data, m)) == Some((data, Rest(m)))
    ensures ReadMessage(NewText(n, h, Then(data, m)))
         == [Priority(n)] + HeaderFields(h) + [StructuredData(data)] + MessageOf(m)
  {
    hide Decimal, ReadMessage, ReadStructuredData, Tail, IsHeader, HeaderText, HeaderFields, MessageOf;
    HeaderComposed(n, h, Then(data, m));
    var whole := NewText(n, h, Then(data, m));
    var front := "<" + Decimal(n) + ">" + "1 " + HeaderText(h) + " ";
    assert whole == front + Then(data, m);
    TailRead(whole, front, data, m);
  }

  /** A message composed as section 6 of RFC 5424 says, with no structured data or with an element of
      it, is read as what it was composed of. */
  lemma NewComposed(n: nat, h: Header, sd: Option<Element>, m: Option<string>)
    requires n <= 191 && IsHeader(h) && (sd.Some? ==> IsElement(sd.value))
    ensures var data := if sd.None? then "-" else ElementText(sd.value);
            ReadMessage(NewText(n, h, Then(data, m)))
              == [Priority(n)] + HeaderFields(h) + [StructuredData(data)] + MessageOf(m)
  {
    hide ReadMessage, ReadStructuredData, IsHeader, HeaderFields, NewText, MessageOf;
    if sd.None? {
      NilRead(m);
      DataComposed(n, h, "-", m);
    } else {
      ElementRead(sd.value, m);
      DataComposed(n, h, ElementText(sd.value), m);
    }
  }

  /** But with more elements than one (which that section allows), they are left to the message. */
  lemma ElementsLeft(n: nat, h: Header, e: Element, es: seq<Element>, m: Option<string>)
    requires n <= 191 && IsHeader(h) && IsElement(e) && es != []
    ensures var v := Then(ElementsText([e] + es), m);
            ReadMessage(NewText(n, h, v)) == [Priority(n)] + HeaderFields(h) + [Message(v)]
  {
    hide ReadMessage, ReadStructuredData, IsHeader, HeaderFields, NewText, ElementText;
    var v := Then(ElementsText([e] + es), m);
    MoreElementsRefused(e, es, m);
    HeaderComposed(n, h, v);
    BracketFirst(e);
    assert v != [];
  }

  // ---------------------------------------------------------------------------
  // Messages which are not so composed
  // ---------------------------------------------------------------------------

  function Leftover(t: string): seq<Field> { if t == [] then [] else [Message(t)] }

  /** Without a priority the whole of it is the message. */
  lemma NoPriority(whole: string)
    requires ReadPriority(whole).None?
    ensures ReadMessage(whole) == Leftover(whole)
  {
    hide ReadPriority;
  }

  /** So is everything after the priority, if there is neither a version nor a timestamp, or if there
      is a version 1 without the whole of a header. */
  lemma NothingRecognised(n: nat, t: string)
    requires n <= 191
    requires var v := ReadVersion(t);
             if v.None? then ReadTimestamp(t).None? else v.value.0 == 1 && ReadHeader(v.value.1).None?
    ensures ReadMessage(Prioritised(n, t)) == [Priority(n)] + Leftover(t)
  {
    hide Decimal, ReadPriority, ReadVersion, ReadTimestamp, ReadHeader, Tail;
    PriorityRead(n, t);
    TailAfterPriority(n, t);
  }

  lemma TailAfterPriority(n: nat, t: string)
    ensures Tail(Prioritised(n, t), t) == Leftover(t)
  {
    hide Decimal;
    var whole := Prioritised(n, t);
    assert whole[|whole| - |t| - 1] == '>';
  }

  /** With a timestamp but no hostname, the message follows the timestamp. */
  lemma NoHostname(n: nat, ts: string, m: Option<string>)
    requires n <= 191 && IsTimestamp(ts) && ReadToken(Rest(m)).None?
    ensures ReadMessage(Prioritised(n, Then(ts, m))) == [Priority(n), TimestampText(ts)] + MessageOf(m)
  {
    hide Decimal, ReadPriority, ReadVersion, ReadTimestamp, ReadToken, Tail, IsTimestamp, MessageOf;
    var t := Then(ts, m);
    PriorityRead(n, t);
    TimestampLength(ts);
    assert t[0] == ts[0];
    NoVersion(t);
    TimestampRead(ts, m);
    TimestampLast(ts);
    assert Prioritised(n, t) == ("<" + Decimal(n) + ">") + t;
    TailRead(Prioritised(n, t), "<" + Decimal(n) + ">", ts, m);
  }

  lemma TimestampLast(ts: string)
    requires IsTimestamp(ts)
    ensures ts != [] && ts[|ts| - 1] != ' '
  {
    var m :| IsTextOf(ts, m);
    NameLength(m.month);
    ClockLetters(m);
    PairOfTwo(m.second);
    hide MONTHS, Two, DayText, ClockText;
    assert ts[|ts| - 1] == ClockText(m)[11];
  }
}
