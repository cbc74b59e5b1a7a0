/** The syslog parser as an object, which moves an index over a message. */
module SyslogIo {
  import opened Octets
  import opened Digits
  import opened Syslog

  lemma SpacesStep(t: string, i: nat, limit: nat)
    requires i < limit <= |t|
    ensures Spaces(t[i..], limit - i) == if t[i] == ' ' then 1 + Spaces(t[i + 1..], limit - i - 1) else 0
  {
    assert t[i..][1..] == t[i + 1..];
  }

  lemma DigitsStep(t: string, limit: nat, count: nat)
    requires t != [] && count < limit && IsDigit(t[0])
    ensures DigitCount(t, limit - count) == 1 + DigitCount(t[1..], limit - (count + 1))
  {
  }

  lemma GraphStep(t: string)
    requires t != []
    ensures GraphCount(t) == if IsGraph(t[0]) then 1 + GraphCount(t[1..]) else 0
  {
  }

  lemma DecimalParts(t: string, minWidth: nat, maxWidth: nat, allowSpaces: bool, allowZeros: bool,
                     a: nat, u: string, b: nat, value: nat)
    requires var limit := Min(maxWidth, |t|);
             a == (if allowSpaces then Spaces(t, limit) else 0) && u == t[a..] && b == DigitCount(u, limit - a)
    requires AllDigits(u[..b]) && value == Wrapped(ValueOf(u[..b]))
    ensures Syslog.ReadDecimal(t, minWidth, maxWidth, allowSpaces, allowZeros)
         == if b == 0 || a + b < minWidth then None
            else if !allowZeros && b > 1 && u[0] == '0' && (u[1] == '0' || value != 0) then None
            else Some((value, u[b..]))
  {
    hide ValueOf, Spaces, DigitCount;
  }

  /** Wrapping round at each digit comes to the same as wrapping round at the end. */
  lemma WrappedMore(v: nat, d: nat)
    ensures Wrapped(10 * Wrapped(v) + d) == Wrapped(10 * v + d)
  {
    var w, q := v % TWO32, v / TWO32;
    assert 10 * v + d == (10 * w + d) + TWO32 * (10 * q);
    AddWraps(10 * w + d, 10 * q);
  }

  lemma AddWraps(a: nat, k: nat)
    ensures (a + TWO32 * k) % TWO32 == a % TWO32
  {
  }

  lemma Regroup(before: seq<Field>, f: Field, after: seq<Field>)
    ensures before + [f] + after == before + ([f] + after)
  {
  }

  class SyslogParser {
    const content: string
    var length: nat
    var index: nat

    predicate Valid()
      reads this
    {
      index <= length <= |content|
    }

    /** What has not yet been parsed. */
    function Rest(): string
      requires Valid()
      reads this
    {
      content[index..length]
    }

    constructor (content: string)
      ensures Valid() && this.content == content && index == 0 && Rest() == Trim(content)
    {
      this.content := content;
      length, index := |content|, 0;
      new;
      if length != 0 && content[length - 1] == '\n' {
        length := length - 1;
      }
      if length != 0 && content[length - 1] == '\r' {
        length := length - 1;
      }
    }

    /** What every reading method does: on failure it leaves the index where it was, and otherwise
        it moves on to what is left. */
    ghost predicate Moved<T>(r: Option<T>, expected: Option<(T, string)>, from: nat)
      requires Valid()
      reads this
    {
      match expected
      case None => r.None? && index == from
      case Some((value, rest)) => r == Some(value) && Rest() == rest && index >= from
    }

    /** Pass over spaces, if allowed, up to a limit. */
    method SkipSpaces(allowed: bool, limit: nat) returns (count: nat)
      requires Valid() && index + limit <= length
      modifies this`index
      ensures Valid() && count == (if allowed then Spaces(old(Rest()), limit) else 0)
      ensures index == old(index) + count && Rest() == old(Rest())[count..]
    {
      hide Spaces;
      ghost var t := Rest();
      assert t[0..] == t;
      count := 0;
      if !allowed {
        return;
      }
      while count < limit && content[index] == ' '
        invariant count <= limit && index == old(index) + count
        invariant Spaces(t, limit) == count + Spaces(t[count..], limit - count)
      {
        SpacesStep(t, count, limit);
        index := index + 1;
        count := count + 1;
      }
      SpacesEnd(t, count, limit);
    }

    /** Read digits, up to a limit: their value, how many there are, and how many of them are
        zeros in front. */
    method TakeDigits(limit: nat) returns (value: nat, count: nat, zeros: nat)
      requires Valid() && index + limit <= length
      modifies this`index
      ensures Valid() && count == DigitCount(old(Rest()), limit)
      ensures index == old(index) + count && Rest() == old(Rest())[count..]
      ensures AllDigits(old(Rest())[..count]) && value == Wrapped(ValueOf(old(Rest())[..count]))
      ensures zeros != 0 && (value != 0 || zeros > 1) <==>
                count > 1 && old(Rest())[0] == '0' && (old(Rest())[1] == '0' || value != 0)
    {
      hide Taking;
      ghost var t := Rest();
      ghost var rest := t;
      TakingStarts(t, limit);
      value, count, zeros := 0, 0, 0;
      while count < limit && IsDigit(content[index])
        invariant count <= limit && index == old(index) + count && rest == Rest()
        invariant Taking(t, rest, limit, count, value, zeros)
      {
        TakingMore(t, rest, limit, count, value, zeros);
        var digit := DigitValue(content[index]);
        index := index + 1;
        if digit == 0 {
          if count == zeros {
            zeros := zeros + 1;
          }
        }
        value := Wrapped(10 * value + digit);
        count := count + 1;
        rest := rest[1..];
      }
      TakingEnds(t, rest, limit, count, value, zeros);
    }

    method ReadDecimal(minWidth: nat, maxWidth: nat, allowSpaces: bool, allowZeros: bool) returns (r: Option<nat>)
      requires Valid()
      modifies this`index
      ensures Valid()
      ensures Moved(r, Syslog.ReadDecimal(old(Rest()), minWidth, maxWidth, allowSpaces, allowZeros), old(index))
    {
      hide ValueOf, Spaces, DigitCount, AllDigits, Syslog.ReadDecimal;
      ghost var t := Rest();
      var restore := index;
      var limit := Min(maxWidth, length - index);
      var spaces := SkipSpaces(allowSpaces, limit);
      ghost var u := Rest();
      var value, digits, zeros := TakeDigits(limit - spaces);
      var count := spaces + digits;
      DecimalParts(t, minWidth, maxWidth, allowSpaces, allowZeros, spaces, u, digits, value);
      if count == spaces || count < minWidth || (!allowZeros && zeros != 0 && (value != 0 || zeros > 1)) {
        index := restore;
        return None;
      }
      r := Some(value);
    }

    method ReadPriority() returns (r: Option<nat>)
      requires Valid()
      modifies this`index
      ensures Valid() && Moved(r, Syslog.ReadPriority(old(Rest())), old(index))
    {
      hide Syslog.ReadDecimal;
      ghost var t := Rest();
      var restore := index;
      if index == length || content[index] != '<' {
        return None;
      }
      index := index + 1;
      assert Rest() == t[1..];
      var priority := ReadDecimal(1, 3, false, false);
      if priority.None? || priority.value > 191 || index == length || content[index] != '>' {
        index := restore;
        return None;
      }
      ghost var u := Rest();
      index := index + 1;
      assert Rest() == u[1..];
      r := priority;
    }

    /** A space, unless at the end. */
    method ReadDelimiter() returns (ok: bool)
      requires Valid()
      modifies this`index
      ensures Valid() && index >= old(index)
      ensures match Syslog.ReadDelimiter(old(Rest())) case None => !ok case Some(u) => ok && Rest() == u
    {
      ghost var t := Rest();
      if index != length {
        if content[index] != ' ' {
          return false;
        }
        index := index + 1;
        assert Rest() == t[1..];
      }
      ok := true;
    }

    method ReadVersion() returns (r: Option<nat>)
      requires Valid()
      modifies this`index
      ensures Valid() && Moved(r, Syslog.ReadVersion(old(Rest())), old(index))
    {
      hide Syslog.ReadDecimal, Syslog.ReadDelimiter;
      var restore := index;
      var version := ReadDecimal(1, 3, false, false);
      if version.None? || version.value == 0 {
        index := restore;
        return None;
      }
      var ok := ReadDelimiter();
      if !ok {
        index := restore;
        return None;
      }
      r := version;
    }

    method ReadToken() returns (r: Option<string>)
      requires Valid()
      modifies this`index
      ensures Valid() && Moved(r, Syslog.ReadToken(old(Rest())), old(index))
    {
      hide GraphCount, Syslog.ReadDelimiter;
      ghost var t := Rest();
      var base := index;
      ghost var rest := t;
      while index != length && IsGraph(content[index])
        invariant base <= index <= length
        invariant rest == Rest() && GraphCount(t) == index - base + GraphCount(rest)
        decreases length - index
      {
        GraphStep(rest);
        index := index + 1;
        rest := rest[1..];
      }
      GraphEnd(rest);
      if index == base {
        return None;
      }
      var token := content[base..index];
      assert token == t[..index - base] && Rest() == t[index - base..];
      var ok := ReadDelimiter();
      if !ok {
        index := base;
        return None;
      }
      r := Some(token);
    }

    method Expect(c: char) returns (ok: bool)
      requires Valid() && index < length
      modifies this`index
      ensures Valid() && index == old(index) + 1 && ok == (old(Rest())[0] == c)
    {
      ok := content[index] == c;
      index := index + 1;
    }

    /** Two digits, or a space and one digit, of which the value is within a range. */
    method ExpectTwo(allowSpaces: bool, lo: nat, hi: nat) returns (ok: bool)
      requires Valid() && index + 2 <= length
      modifies this`index
      ensures Valid() && ok == IsTwo(old(Rest()), allowSpaces, lo, hi)
      ensures ok ==> index == old(index) + 2
    {
      hide Syslog.ReadDecimal;
      var value := ReadDecimal(2, 2, allowSpaces, !allowSpaces);
      ok := value.Some? && lo <= value.value <= hi;
    }

    method ReadTimestamp() returns (r: Option<string>)
      requires Valid()
      modifies this`index
      ensures Valid() && Moved(r, Syslog.ReadTimestamp(old(Rest())), old(index))
    {
      hide IsClock, MonthOf, Syslog.ReadDelimiter;
      ghost var t := Rest();
      var restore := index;
      if index + 15 > length {
        return None;
      }
      var month := MonthOf(content[index..index + 3]);
      assert content[index..index + 3] == t[..3];
      index := index + 3;
      assert Rest() == t[3..];
      if month.Some? {
        var ok := ReadClock(MONTH_LENGTHS[month.value]);
        if ok {
          var timestamp := content[restore..index];
          assert timestamp == t[..15] && Rest() == t[15..];
          ok := ReadDelimiter();
          if ok {
            return Some(timestamp);
          }
        }
      }
      index := restore;
      r := None;
    }

    /** The rest of a timestamp, after the name of the month. */
    method ReadClock(days: nat) returns (ok: bool)
      requires Valid() && index + 12 <= length
      modifies this`index
      ensures Valid() && ok == IsClock(old(Rest()), days)
      ensures ok ==> index == old(index) + 12
    {
      hide IsTwo;
      ghost var t := Rest();
      ok := Expect(' ');
      assert Rest() == t[1..];
      if ok {
        ok := ExpectTwo(true, 1, days);
      }
      if ok {
        assert Rest() == t[3..];
        ok := Expect(' ');
      }
      if ok {
        assert Rest() == t[4..];
        ok := ExpectTwo(false, 0, 59);
      }
      if ok {
        assert Rest() == t[6..];
        ok := Expect(':');
      }
      if ok {
        assert Rest() == t[7..];
        ok := ExpectTwo(false, 0, 59);
      }
      if ok {
        assert Rest() == t[9..];
        ok := Expect(':');
      }
      if ok {
        assert Rest() == t[10..];
        ok := ExpectTwo(false, 0, 59);
      }
    }

    method ReadStructuredData() returns (r: Option<string>)
      requires Valid()
      modifies this`index
      ensures Valid() && Moved(r, Syslog.ReadStructuredData(old(Rest())), old(index))
    {
      hide AfterBracket, Syslog.ReadDelimiter;
      ghost var t := Rest();
      var restore := index;
      if index != length && content[index] == '-' {
        index := index + 1;
        assert Rest() == t[1..];
        var ok := ReadDelimiter();
        if !ok {
          index := restore;
          return None;
        }
        return Some("-");
      }
      if index == length || content[index] != '[' {
        return None;
      }
      index := index + 1;
      assert Rest() == t[1..];
      var ok := FindBracket();
      if !ok {
        index := restore;
        return None;
      }
      var data := content[restore..index];
      assert data == t[..|t| - |Rest()|];
      ok := ReadDelimiter();
      if !ok {
        index := restore;
        return None;
      }
      r := Some(data);
    }

    /** Pass over the bracket which closes structured data, disregarding what is quoted. */
    method FindBracket() returns (ok: bool)
      requires Valid()
      modifies this`index
      ensures Valid() && index >= old(index)
      ensures match AfterBracket(old(Rest()), false) case None => !ok case Some(u) => ok && Rest() == u
    {
      hide AfterBracket;
      var quote := false;
      ghost var rest := Rest();
      while index != length && content[index] != ']'
        invariant old(index) <= index <= length && rest == Rest()
        invariant AfterBracket(rest, quote) == AfterBracket(old(Rest()), false)
        decreases length - index
      {
        BracketStep(rest, quote);
        var c := content[index];
        index := index + 1;
        rest := rest[1..];
        if c == '"' {
          quote := !quote;
        } else if c == '\\' {
          if quote {
            if index == length {
              return false;
            }
            index := index + 1;
            rest := rest[1..];
          }
        }
      }
      BracketStep(rest, quote);
      if quote || index == length {
        return false;
      }
      index := index + 1;
      assert Rest() == rest[1..];
      ok := true;
    }

    method ReadRemaining() returns (message: string)
      requires Valid()
      modifies this`index
      ensures Valid() && message == old(Rest()) && Rest() == ""
    {
      message := content[index..length];
      index := length;
    }

    /** Whatever remains is a field if it is not empty, or if it follows a space. */
    method ReadTail(builder: RecordBuilder)
      requires Valid()
      modifies this`index, builder
      ensures Valid() && builder.fields == old(builder.fields) + Tail(content[..length], old(Rest()))
    {
      assert |content[..length]| - |Rest()| == index;
      if (index != 0 && content[index - 1] == ' ') || index != length {
        var message := ReadRemaining();
        builder.Add(Message(message));
      }
    }

    /** The fields after the priority, in the older format. */
    method ReadOldFields(builder: RecordBuilder)
      requires Valid()
      modifies this`index, builder
      ensures Valid()
      ensures builder.fields + Tail(content[..length], Rest())
           == old(builder.fields) + OldFields(content[..length], old(Rest()))
    {
      hide Syslog.ReadTimestamp, Syslog.ReadToken, Tail;
      var timestamp := ReadTimestamp();
      if timestamp.Some? {
        builder.Add(TimestampText(timestamp.value));
        var hostname := ReadToken();
        if hostname.Some? {
          builder.Add(Hostname(hostname.value));
        }
      }
    }

    /** The fields after the version, in the newer format. If the header cannot all be read then
        the restore point is before the version. */
    method ReadNewFields(builder: RecordBuilder, restore: nat)
      requires Valid() && restore <= index
      modifies this`index, builder
      ensures Valid()
      ensures builder.fields + Tail(content[..length], Rest())
           == old(builder.fields) + NewFields(content[..length], content[restore..length], old(Rest()))
    {
      hide Syslog.ReadToken, Syslog.ReadStructuredData, Tail;
      var header := ReadHeader();
      if header.None? {
        index := restore;
        return;
      }
      builder.AddAll(header.value);
      var data := ReadStructuredData();
      if data.Some? {
        builder.Add(StructuredData(data.value));
      }
    }

    method ReadHeader() returns (r: Option<seq<Field>>)
      requires Valid()
      modifies this`index
      ensures Valid() && index >= old(index)
      ensures match Syslog.ReadHeader(old(Rest()))
              case None => r.None?
              case Some((header, u)) => r == Some(header) && Rest() == u
    {
      hide Syslog.ReadToken;
      var timestamp := ReadToken();
      if timestamp.None? {
        return None;
      }
      var hostname := ReadToken();
      if hostname.None? {
        return None;
      }
      var appname := ReadToken();
      if appname.None? {
        return None;
      }
      var procid := ReadToken();
      if procid.None? {
        return None;
      }
      var msgid := ReadToken();
      if msgid.None? {
        return None;
      }
      r := Some([Version(1), TimestampText(timestamp.value), Hostname(hostname.value), Appname(appname.value),
                 Procid(procid.value), Msgid(msgid.value)]);
    }

    /** Read what follows the priority, except for what is left over at the end. */
    method ReadBody(builder: RecordBuilder)
      requires Valid()
      modifies this`index, builder
      ensures Valid()
      ensures builder.fields + Tail(content[..length], Rest())
           == old(builder.fields) + Body(content[..length], old(Rest()))
    {
      hide Syslog.ReadVersion, OldFields, NewFields, Tail;
      var restore := index;
      var version := ReadVersion();
      if version.None? {
        ReadOldFields(builder);
      } else if version.value == 1 {
        ReadNewFields(builder, restore);
      }
    }

    /** Read a full message. */
    method ReadMessage(builder: RecordBuilder)
      requires Valid() && index == 0
      modifies this`index, builder
      ensures Valid() && builder.fields == old(builder.fields) + Syslog.ReadMessage(content[..length])
    {
      hide Syslog.ReadPriority, Body, Tail;
      ghost var whole, before := content[..length], builder.fields;
      assert Rest() == whole;
      var priority := ReadPriority();
      if priority.Some? {
        Regroup(before, Priority(priority.value), Body(whole, Rest()));
        builder.Add(Priority(priority.value));
        ReadBody(builder);
      }
      ReadTail(builder);
    }
  }

  /** Collects fields into a record. */
  class RecordBuilder {
    var fields: seq<Field>

    constructor ()
      ensures fields == []
    {
      fields := [];
    }

    method Add(f: Field)
      modifies this
      ensures fields == old(fields) + [f]
    {
      fields := fields + [f];
    }

    method AddAll(fs: seq<Field>)
      modifies this
      ensures fields == old(fields) + fs
    {
      fields := fields + fs;
    }
  }

  lemma BracketStep(t: string, quoted: bool)
    ensures AfterBracket(t, quoted) ==
              if t == [] then None
              else if t[0] == ']' then if quoted then None else Some(t[1..])
              else if t[0] == '"' then AfterBracket(t[1..], !quoted)
              else if t[0] == '\\' && quoted then if |t| == 1 then None else AfterBracket(t[1..][1..], quoted)
              else AfterBracket(t[1..], quoted)
  {
    assert |t| >= 2 ==> t[1..][1..] == t[2..];
  }

  lemma GraphEnd(t: string)
    requires t == [] || !IsGraph(t[0])
    ensures GraphCount(t) == 0
  {
  }

  lemma NoValue()
    ensures AllDigits("") && ValueOf("") == 0
  {
  }

  lemma SpacesEnd(t: string, i: nat, limit: nat)
    requires i <= limit <= |t| && (i < limit ==> t[i] != ' ')
    ensures Spaces(t[i..], limit - i) == 0
  {
  }

  /** Of the first characters of a text, how many are zeros in front of any others. */
  predicate Leading(t: string, count: nat, zeros: nat) {
    zeros <= count <= |t| && (forall k | 0 <= k < zeros :: t[k] == '0') && (zeros < count ==> t[zeros] != '0')
  }

  lemma LeadingMore(t: string, count: nat, zeros: nat)
    requires Leading(t, count, zeros) && count < |t|
    ensures zeros <= count
    ensures Leading(t, count + 1, if zeros == count && t[count] == '0' then zeros + 1 else zeros)
  {
  }

  lemma LeadingMeans(t: string, count: nat, zeros: nat)
    requires Leading(t, count, zeros)
    ensures zeros <= count <= |t|
    ensures zeros > 0 <==> count > 0 && t[0] == '0'
    ensures zeros > 1 <==> count > 1 && t[0] == '0' && t[1] == '0'
  {
  }

  /** The state of the loop which reads digits, with what is left of a text. */
  ghost predicate Taking(t: string, rest: string, limit: nat, count: nat, value: nat, zeros: nat) {
    && count <= |t| && count <= limit && rest == t[count..] && AllDigits(t[..count])
    && DigitCount(t, limit) == count + DigitCount(rest, limit - count)
    && value == Wrapped(ValueOf(t[..count]))
    && Leading(t, count, zeros) && (zeros == count ==> value == 0)
  }

  lemma TakingStarts(t: string, limit: nat)
    ensures Taking(t, t, limit, 0, 0, 0)
  {
    NoValue();
    assert t[..0] == "" && t[0..] == t;
  }

  lemma TakingMore(t: string, rest: string, limit: nat, count: nat, value: nat, zeros: nat)
    requires Taking(t, rest, limit, count, value, zeros) && rest != [] && count < limit && IsDigit(rest[0])
    ensures zeros <= count
    ensures Taking(t, rest[1..], limit, count + 1, Wrapped(10 * value + DigitValue(rest[0])),
                   if DigitValue(rest[0]) == 0 && count == zeros then zeros + 1 else zeros)
  {
    hide ValueOf, DigitCount, AllDigits, Leading, Wrapped;
    assert rest[0] == t[count] && rest[1..] == t[count + 1..] && t[..count + 1] == t[..count] + [t[count]];
    DigitsStep(rest, limit, count);
    ValueMore(t[..count], t[count]);
    WrappedMore(ValueOf(t[..count]), DigitValue(t[count]));
    LeadingMore(t, count, zeros);
    ZeroDigit(t[count]);
    assert Wrapped(0) == 0;
  }

  lemma ZeroDigit(c: char)
    requires IsDigit(c)
    ensures DigitValue(c) == 0 <==> c == '0'
  {
  }

  lemma TakingEnds(t: string, rest: string, limit: nat, count: nat, value: nat, zeros: nat)
    requires Taking(t, rest, limit, count, value, zeros) && (count == limit || rest == [] || !IsDigit(rest[0]))
    ensures count <= |t| && rest == t[count..] && count == DigitCount(t, limit)
    ensures AllDigits(t[..count]) && value == Wrapped(ValueOf(t[..count]))
    ensures zeros != 0 && (value != 0 || zeros > 1) <==> count > 1 && t[0] == '0' && (t[1] == '0' || value != 0)
  {
    hide ValueOf, DigitCount, AllDigits, Leading;
    DigitsEnd(rest, limit - count);
    LeadingMeans(t, count, zeros);
  }

  lemma DigitsEnd(t: string, limit: nat)
    requires limit == 0 || t == [] || !IsDigit(t[0])
    ensures DigitCount(t, limit) == 0
  {
  }
}
