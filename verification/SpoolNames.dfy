/** The names of spoolfiles, and what is learned by scanning a directory of them. */
module SpoolNames {
  import opened Octets
  import opened Digits

  const ULONG_MAX := TWO64 - 1
  const UINT_MAX := 0xFFFF_FFFF

  function Zeros(n: nat): string { seq(n, i => '0') }

  /** The name of a spoolfile, given its number and a minimum width. */
  function PrintName(n: nat, width: nat): string {
    var s := Decimal(n);
    if |s| < width then Zeros(width - |s|) + s else s
  }

  predicate IsName(s: string) { s != [] && AllDigits(s) }

  predicate HasPadding(s: string) { s != [] && s[0] == '0' }

  // ---------------------------------------------------------------------------
  // Printing and parsing are inverse
  // ---------------------------------------------------------------------------

  lemma {:induction false} ZerosValue(k: nat, s: string)
    requires AllDigits(s)
    ensures AllDigits(Zeros(k) + s) && ValueOf(Zeros(k) + s) == ValueOf(s)
    decreases k + |s|
  {
    var t := Zeros(k) + s;
    if s != [] {
      ZerosValue(k, s[..|s| - 1]);
      assert t[..|t| - 1] == Zeros(k) + s[..|s| - 1];
    } else if k > 0 {
      ZerosValue(k - 1, s);
      assert t[..|t| - 1] == Zeros(k - 1) + s;
    }
  }

  /** A name has the value it was made from, and whatever the width there is only one name of
      a given length with that value. */
  lemma PrintedValue(n: nat, width: nat)
    ensures var s := PrintName(n, width); IsName(s) && ValueOf(s) == n
    ensures |PrintName(n, width)| == if |Decimal(n)| < width then width else |Decimal(n)|
  {
    DecimalValue(n);
    var s := Decimal(n);
    if |s| < width {
      ZerosValue(width - |s|, s);
    }
  }

  /** Which widths a name could have been printed with. */
  lemma PrintedShape(s: string, width: nat)
    requires IsName(s)
    ensures PrintName(ValueOf(s), width) == s <==> FitsWidth(s, width)
  {
    hide Decimal, ValueOf;
    var v := ValueOf(s);
    PrintedValue(v, width);
    DecimalShortest(s);
    if |PrintName(v, width)| == |s| {
      SameValue(PrintName(v, width), s);
    }
  }

  predicate FitsWidth(s: string, width: nat) {
    var w := if width == 0 then 1 else width;
    if HasPadding(s) then |s| == w else w <= |s|
  }

  /** Parse the name of a spoolfile. The overflow tests reject exactly the values which do not
      fit in 64 bits. */
  method ParseName(s: string) returns (r: Result<nat>)
    ensures r.Ok? <==> s != [] && AllDigits(s) && ValueOf(s) <= 0xFFFF_FFFF_FFFF_FFFF
    ensures r.Ok? ==> r.value == ValueOf(s)
    ensures r == Err(Overflow) <==>
            exists i :: 0 <= i <= |s| && AllDigits(s[..i]) && ValueOf(s[..i]) > 0xFFFF_FFFF_FFFF_FFFF
    ensures r.Err? ==> r.error == Overflow || r.error == Invalid
  {
    if s == [] {
      return Err(Invalid);
    }
    var n := 0;
    for i := 0 to |s|
      invariant AllDigits(s[..i]) && n == ValueOf(s[..i]) && n <= ULONG_MAX
    {
      if !IsDigit(s[i]) {
        NoOverflow(s, i);
        return Err(Invalid);
      }
      var digit := DigitValue(s[i]);
      assert s[..i + 1][..i] == s[..i];
      assert ValueOf(s[..i + 1]) == 10 * n + digit;
      if n > ULONG_MAX / 10 {
        PrefixNot(s, i + 1);
        return Err(Overflow);
      }
      n := 10 * n;
      if n > ULONG_MAX - digit {
        PrefixNot(s, i + 1);
        return Err(Overflow);
      }
      n := n + digit;
    }
    assert s[..|s|] == s;
    forall i | 0 <= i <= |s| ensures ValueOf(s[..i]) <= ULONG_MAX { PrefixValue(s, i); }
    r := Ok(n);
  }

  lemma PrefixNot(s: string, i: nat)
    requires i <= |s| && AllDigits(s[..i]) && ValueOf(s[..i]) > ULONG_MAX
    ensures !(IsName(s) && ValueOf(s) <= ULONG_MAX)
  {
    if AllDigits(s) {
      PrefixValue(s, i);
    }
  }

  lemma NoOverflow(s: string, i: nat)
    requires i < |s| && !IsDigit(s[i]) && AllDigits(s[..i]) && ValueOf(s[..i]) <= ULONG_MAX
    ensures forall j | 0 <= j <= |s| && AllDigits(s[..j]) :: ValueOf(s[..j]) <= ULONG_MAX
  {
    forall j | 0 <= j <= |s| && AllDigits(s[..j])
      ensures ValueOf(s[..j]) <= ULONG_MAX
    {
      var t := s[..j];
      assert forall k | 0 <= k < j :: t[k] == s[k] && t[k] in t;
      PrefixValue(s[..i], j);
      assert s[..i][..j] == s[..j];
    }
  }

  // ---------------------------------------------------------------------------
  // Scanning
  // ---------------------------------------------------------------------------

  /** Names which begin with a dot are disregarded. */
  predicate IsVisible(s: string) { s != [] && s[0] != '.' }

  /** A name which could be that of a spoolfile made with a given width. */
  predicate IsMade(s: string, width: nat) {
    IsName(s) && ValueOf(s) < ULONG_MAX && PrintName(ValueOf(s), width) == s
  }

  ghost predicate AllMade(names: seq<string>, width: nat) {
    forall s | s in names && IsVisible(s) :: IsMade(s, width)
  }

  /** A listing can be explained by a width exactly if everything in it that does not begin with
      a dot is the name, printed with that width, of a number less than the largest. */
  lemma MadeMeans(names: seq<string>, width: nat)
    ensures AllMade(names, width) <==>
            forall s | s in names && s != [] && s[0] != '.' ::
              exists n: nat :: n < 0xFFFF_FFFF_FFFF_FFFF && s == PrintName(n, width)
  {
    hide PrintName, ValueOf;
    if AllMade(names, width) {
      forall s | s in names && s != [] && s[0] != '.'
        ensures exists n: nat :: n < 0xFFFF_FFFF_FFFF_FFFF && s == PrintName(n, width)
      {
        assert IsVisible(s) && PrintName(ValueOf(s), width) == s;
      }
    } else {
      var s :| s in names && IsVisible(s) && !IsMade(s, width);
      forall n: nat | n < 0xFFFF_FFFF_FFFF_FFFF
        ensures s != PrintName(n, width)
      {
        PrintedValue(n, width);
      }
    }
  }

  /** Names printed with one width are accepted as such. */
  lemma PrintedMade(numbers: set<nat>, names: seq<string>, width: nat)
    requires forall n | n in numbers :: n < ULONG_MAX
    requires forall s | s in names && IsVisible(s) :: exists n :: n in numbers && s == PrintName(n, width)
    ensures AllMade(names, width)
  {
    hide PrintName, ValueOf;
    forall s | s in names && IsVisible(s)
      ensures IsMade(s, width)
    {
      var n :| n in numbers && s == PrintName(n, width);
      PrintedValue(n, width);
    }
  }

  datatype Scan = Scan(first: nat, next: nat, width: nat)

  /** The first number, the number following the last, and the length of the shortest name;
      or all zero if there are no names. */
  ghost predicate Describes(scan: Scan, names: seq<string>) {
    if !AnyVisible(names) then scan == Scan(0, 0, 0)
    else
      && (forall s | s in names && IsVisible(s) ::
            IsName(s) && scan.first <= ValueOf(s) < scan.next && scan.width <= |s|)
      && (exists s :: s in names && IsVisible(s) && ValueOf(s) == scan.first)
      && (exists s :: s in names && IsVisible(s) && ValueOf(s) == scan.next - 1)
      && (exists s :: s in names && IsVisible(s) && |s| == scan.width)
  }

  /** Scanning is independent of the order in which the names are listed. */
  lemma DescriptionUnique(a: Scan, b: Scan, names: seq<string>, others: seq<string>)
    requires Describes(a, names) && Describes(b, others)
    requires forall s :: s in names <==> s in others
    ensures a == b
  {
    hide ValueOf;
  }

  /** The width found gives every spoolfile from the first onwards the name that it had, or
      would have had, with the width originally used. */
  lemma WidthRegenerates(scan: Scan, names: seq<string>, width: nat, n: nat)
    requires Describes(scan, names) && AllMade(names, width)
    requires AnyVisible(names)
    requires scan.first <= n
    ensures PrintName(n, scan.width) == PrintName(n, width)
  {
    hide Decimal, ValueOf;
    var s :| s in names && IsVisible(s) && |s| == scan.width;
    var t :| t in names && IsVisible(t) && ValueOf(t) == scan.first;
    PrintedShape(s, width);
    PrintedShape(t, width);
    PrintedValue(n, width);
    PrintedValue(n, scan.width);
    DecimalShortest(t);
    DecimalMonotone(scan.first, n);
    if |PrintName(n, scan.width)| == |PrintName(n, width)| {
      SameValue(PrintName(n, scan.width), PrintName(n, width));
    }
  }

  lemma {:induction false} DecimalMonotone(m: nat, n: nat)
    requires m <= n
    ensures |Decimal(m)| <= |Decimal(n)|
    decreases n
  {
    if m < 10 {
    } else {
      DecimalMonotone(m / 10, n / 10);
    }
  }

  predicate IsUsable(s: string) { IsName(s) && ValueOf(s) < ULONG_MAX }

  ghost predicate AnyVisible(names: seq<string>) { exists s :: s in names && IsVisible(s) }

  ghost predicate AnyPadded(names: seq<string>) { exists s :: s in names && IsVisible(s) && HasPadding(s) }

  /** What the scanner knows after some of the names: whether one of them fixed the width by
      being padded, and if not, which is the shortest. */
  ghost predicate SoFar(names: seq<string>, first: nat, next: nat, width: nat, fixed: bool) {
    && Bounded(names, first, next, width, fixed)
    && (fixed ==> AnyPadded(names))
    && if AnyVisible(names) then Attained(names, first, next, width)
       else first == ULONG_MAX && next == 0 && width == UINT_MAX
  }

  ghost predicate Bounded(names: seq<string>, first: nat, next: nat, width: nat, fixed: bool) {
    forall s | s in names && IsVisible(s) ::
      IsUsable(s) && first <= ValueOf(s) < next && width <= |s| && (HasPadding(s) ==> fixed && |s| == width)
  }

  ghost predicate HasValue(names: seq<string>, n: int) {
    exists s :: s in names && IsVisible(s) && IsUsable(s) && ValueOf(s) == n
  }

  ghost predicate HasLength(names: seq<string>, n: nat) {
    exists s :: s in names && IsVisible(s) && |s| == n
  }

  ghost predicate Attained(names: seq<string>, first: nat, next: nat, width: nat) {
    HasValue(names, first) && HasValue(names, next - 1) && HasLength(names, width)
  }

  lemma SoFarNothing(names: seq<string>)
    ensures SoFar(names[..0], ULONG_MAX, 0, UINT_MAX, false)
  {
  }

  lemma SoFarHidden(names: seq<string>, first: nat, next: nat, width: nat, fixed: bool, s: string)
    requires SoFar(names, first, next, width, fixed) && !IsVisible(s)
    ensures SoFar(names + [s], first, next, width, fixed)
  {
    hide ValueOf, IsName, HasPadding, IsVisible;
    assert forall t | t in names + [s] :: t in names || t == s;
    assert forall t | t in names :: t in names + [s];
  }

  /** Whether a name agrees with those seen before it. */
  predicate IsConsistent(s: string, width: nat, fixed: bool) {
    if HasPadding(s) then (if fixed then |s| == width else |s| <= width) else fixed ==> width <= |s|
  }

  lemma SoFarMore(names: seq<string>, first: nat, next: nat, width: nat, fixed: bool, s: string)
    requires SoFar(names, first, next, width, fixed) && IsVisible(s) && IsUsable(s) && |s| < UINT_MAX
    requires IsConsistent(s, width, fixed)
    ensures SoFar(names + [s], if ValueOf(s) < first then ValueOf(s) else first,
                  if ValueOf(s) >= next then ValueOf(s) + 1 else next,
                  if |s| < width then |s| else width, fixed || HasPadding(s))
  {
    hide ValueOf, AllDigits, IsVisible, Attained, Bounded, AnyVisible, AnyPadded;
    Visible(names, s);
    BoundedMore(names, first, next, width, fixed, s);
    AttainedMore(names, first, next, width, s);
  }

  lemma Visible(names: seq<string>, s: string)
    requires IsVisible(s)
    ensures AnyVisible(names + [s]) && (HasPadding(s) || AnyPadded(names) ==> AnyPadded(names + [s]))
  {
    hide IsVisible, HasPadding;
    assert s in names + [s];
    assert forall t | t in names :: t in names + [s];
  }

  lemma BoundedMore(names: seq<string>, first: nat, next: nat, width: nat, fixed: bool, s: string)
    requires Bounded(names, first, next, width, fixed) && IsVisible(s) && IsUsable(s)
    requires IsConsistent(s, width, fixed)
    ensures Bounded(names + [s], if ValueOf(s) < first then ValueOf(s) else first,
                    if ValueOf(s) >= next then ValueOf(s) + 1 else next,
                    if |s| < width then |s| else width, fixed || HasPadding(s))
  {
    hide ValueOf, AllDigits, HasPadding, IsVisible;
    assert forall t | t in names + [s] :: t in names || t == s;
  }

  lemma AttainedMore(names: seq<string>, first: nat, next: nat, width: nat, s: string)
    requires IsVisible(s) && IsUsable(s) && |s| < UINT_MAX
    requires if AnyVisible(names) then Attained(names, first, next, width)
             else first == ULONG_MAX && next == 0 && width == UINT_MAX
    ensures Attained(names + [s], if ValueOf(s) < first then ValueOf(s) else first,
                     if ValueOf(s) >= next then ValueOf(s) + 1 else next,
                     if |s| < width then |s| else width)
  {
    hide ValueOf, AllDigits, IsVisible, AnyVisible, HasValue, HasLength;
    Has(names, s);
    if AnyVisible(names) {
      HasMore(names, first, width, s);
      HasMore(names, next - 1, width, s);
    }
  }

  lemma Has(names: seq<string>, s: string)
    requires IsVisible(s) && IsUsable(s)
    ensures HasValue(names + [s], ValueOf(s)) && HasLength(names + [s], |s|)
  {
    hide ValueOf, AllDigits, IsVisible;
    assert s in names + [s];
  }

  lemma HasMore(names: seq<string>, n: int, width: nat, s: string)
    ensures HasValue(names, n) ==> HasValue(names + [s], n)
    ensures HasLength(names, width) ==> HasLength(names + [s], width)
  {
    hide ValueOf, AllDigits, IsVisible;
    assert forall t | t in names :: t in names + [s];
  }

  /** Names which no one width could have produced. */
  lemma Inconsistent(names: seq<string>, width: nat, s: string, t: string)
    requires s in names && t in names && IsVisible(s) && IsVisible(t) && IsUsable(s) && IsUsable(t)
    requires HasPadding(s) && |s| != |t| && (HasPadding(t) || |t| < |s|)
    ensures !AllMade(names, width)
  {
    hide ValueOf, PrintName;
    PrintedShape(s, width);
    PrintedShape(t, width);
  }

  lemma Conflict(names: seq<string>, i: nat, first: nat, next: nat, width: nat, fixed: bool, s: string)
    requires i < |names| && names[i] == s && SoFar(names[..i], first, next, width, fixed)
    requires IsVisible(s) && IsUsable(s) && |s| < UINT_MAX && !IsConsistent(s, width, fixed)
    ensures !exists w: nat :: AllMade(names, w)
  {
    hide ValueOf, HasPadding, IsVisible, IsName, AllMade;
    var t: string;
    if fixed {
      t :| t in names[..i] && IsVisible(t) && HasPadding(t);
    } else {
      t :| t in names[..i] && IsVisible(t) && |t| == width;
    }
    assert t in names && s in names;
    forall w: nat
      ensures !AllMade(names, w)
    {
      if HasPadding(s) {
        Inconsistent(names, w, s, t);
      } else {
        Inconsistent(names, w, t, s);
      }
    }
  }

  lemma NotMade(names: seq<string>, s: string)
    requires s in names && IsVisible(s) && !IsUsable(s)
    ensures !exists width: nat :: AllMade(names, width)
  {
    hide IsVisible, ValueOf, IsName, PrintName;
    forall w: nat ensures !AllMade(names, w) {}
  }

  lemma SoFarMade(names: seq<string>, first: nat, next: nat, width: nat, fixed: bool)
    requires SoFar(names, first, next, width, fixed)
    ensures AllMade(names, width)
  {
    hide ValueOf, PrintName;
    forall s | s in names && IsVisible(s)
      ensures IsMade(s, width)
    {
      PrintedShape(s, width);
    }
  }

  lemma SoFarAll(names: seq<string>, first: nat, next: nat, width: nat, fixed: bool)
    requires SoFar(names, first, next, width, fixed)
    requires forall s | s in names :: |s| < UINT_MAX
    ensures var scan := Scan(if first == ULONG_MAX then 0 else first, next, if width == UINT_MAX then 0 else width);
            Describes(scan, names) && AllMade(names, scan.width)
  {
    hide ValueOf, HasPadding, IsVisible, IsName, IsMade;
    SoFarMade(names, first, next, width, fixed);
  }

  /** Scan a directory. This succeeds exactly if the names could all have been made with the
      same width (and number less than the largest), whatever their order. */
  method ScanFilestore(names: seq<string>) returns (r: Result<Scan>)
    requires forall s | s in names :: |s| < 0xFFFF_FFFF
    ensures r.Ok? <==> exists width: nat :: AllMade(names, width)
    ensures r.Ok? ==> Describes(r.value, names)
    ensures r.Ok? ==> AllMade(names, r.value.width)
  {
    hide ValueOf, AllDigits, HasPadding, SoFar, IsMade, AllMade, Describes;
    var first: nat, next: nat, width: nat, fixed := ULONG_MAX, 0, UINT_MAX, false;
    SoFarNothing(names);
    for i := 0 to |names|
      invariant SoFar(names[..i], first, next, width, fixed)
    {
      var s := names[i];
      assert s in names && names[..i + 1] == names[..i] + [s];
      if IsVisible(s) {
        var num := ParseName(s);
        if num.Err? || num.value == ULONG_MAX {
          NotMade(names, s);
          return Err(if num.Err? then num.error else Overflow);
        }
        if IsConsistent(s, width, fixed) {
          SoFarMore(names[..i], first, next, width, fixed, s);
        } else {
          Conflict(names, i, first, next, width, fixed, s);
        }
        if !fixed {
          if HasPadding(s) {
            if |s| > width {
              return Err(Invalid);
            }
            width := |s|;
            fixed := true;
          } else if |s| < width {
            width := |s|;
          }
        } else if HasPadding(s) {
          if |s| != width {
            return Err(Invalid);
          }
        } else if |s| < width {
          return Err(Invalid);
        }
        if num.value < first {
          first := num.value;
        }
        if num.value >= next {
          next := num.value + 1;
        }
      } else {
        SoFarHidden(names[..i], first, next, width, fixed, s);
      }
    }
    assert names[..|names|] == names;
    SoFarAll(names, first, next, width, fixed);
    if first == ULONG_MAX {
      first := 0;
    }
    if width == UINT_MAX {
      width := 0;
    }
    r := Ok(Scan(first, next, width));
  }
}
