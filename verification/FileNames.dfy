/** The names of a database's files (db/filename.cc), printed and parsed; numbers are uint64 (util/logging.cc). */
module FileNames {
  import opened Slices
  import opened Words

  datatype FileType = LogFile | DBLockFile | TableFile | DescriptorFile | CurrentFile | TempFile | InfoLogFile

  datatype FileName = FileName(number: nat, kind: FileType)

  // ---- Decimal numbers ----

  predicate IsDigit(c: char) {
    '0' <= c <= '9'
  }

  function DigitValue(c: char): nat
    requires IsDigit(c)
  {
    c as int - '0' as int
  }

  function DigitChar(d: nat): (c: char)
    requires d < 10
    ensures IsDigit(c) && DigitValue(c) == d
  {
    ('0' as int + d) as char
  }

  predicate AllDigits(s: string) {
    forall i | 0 <= i < |s| :: IsDigit(s[i])
  }

  /** The number a string of digits denotes, leading zeros allowed. */
  function NumberOf(s: string): nat
    requires AllDigits(s)
  {
    if s == "" then 0 else 10 * NumberOf(s[..|s| - 1]) + DigitValue(s[|s| - 1])
  }

  /** %llu. */
  function Decimal(n: nat): (s: string)
    ensures AllDigits(s) && s != ""
  {
    if n < 10 then [DigitChar(n)] else Decimal(n / 10) + [DigitChar(n % 10)]
  }

  function ZeroPad(s: string, width: nat): (r: string)
    requires AllDigits(s)
    ensures AllDigits(r) && (s != "" ==> r != "")
    decreases width - |s|
  {
    if |s| >= width then s else ZeroPad(['0'] + s, width)
  }

  /** %06llu. */
  function Padded(n: nat): (s: string)
    ensures AllDigits(s) && s != ""
  {
    ZeroPad(Decimal(n), 6)
  }

  lemma {:induction false} LeadingZero(s: string)
    requires AllDigits(s)
    ensures NumberOf(['0'] + s) == NumberOf(s)
  {
    var z := ['0'] + s;
    if s == "" {
      assert z[..0] == "";
    } else {
      LeadingZero(s[..|s| - 1]);
      assert z[..|z| - 1] == ['0'] + s[..|s| - 1];
    }
  }

  lemma {:induction false} PadKeepsNumber(s: string, width: nat)
    requires AllDigits(s)
    ensures NumberOf(ZeroPad(s, width)) == NumberOf(s)
    decreases width - |s|
  {
    if |s| < width {
      LeadingZero(s);
      PadKeepsNumber(['0'] + s, width);
    }
  }

  lemma {:induction false} DecimalDenotes(n: nat)
    ensures NumberOf(Decimal(n)) == n
  {
    var s := Decimal(n);
    if n < 10 {
      assert s[..0] == "";
    } else {
      DecimalDenotes(n / 10);
      assert s[..|s| - 1] == Decimal(n / 10);
    }
  }

  lemma PaddedDenotes(n: nat)
    ensures NumberOf(Padded(n)) == n
  {
    DecimalDenotes(n);
    PadKeepsNumber(Decimal(n), 6);
  }

  // ---- The printed width ----

  function Pow10(k: nat): (p: nat)
    ensures p > 0
  {
    if k == 0 then 1 else 10 * Pow10(k - 1)
  }

  lemma {:induction false} DecimalLength(n: nat, k: nat)
    requires k > 0
    ensures |Decimal(n)| <= k <==> n < Pow10(k)
    decreases k
  {
    if k == 1 {
      assert Pow10(1) == 10 && Pow10(0) == 1;
    } else if n >= 10 {
      DecimalLength(n / 10, k - 1);
      assert n / 10 < Pow10(k - 1) <==> n < Pow10(k);
    } else {
      assert Pow10(k - 1) >= 1;
    }
  }

  lemma {:induction false} NoLeadingZero(n: nat)
    requires n > 0
    ensures Decimal(n)[0] != '0'
  {
    if n >= 10 {
      NoLeadingZero(n / 10);
    }
  }

  lemma {:induction false} PadLength(s: string, width: nat)
    requires AllDigits(s)
    ensures |ZeroPad(s, width)| == if |s| < width then width else |s|
    ensures |s| >= width ==> ZeroPad(s, width) == s
    decreases width - |s|
  {
    if |s| < width {
      PadLength(['0'] + s, width);
    }
  }

  /** %06llu: six digits below a million, and from there no leading zero. */
  predicate SixOrMore(n: nat, s: string) {
    AllDigits(s) && s != "" && NumberOf(s) == n && if n < 1_000_000 then |s| == 6 else s[0] != '0'
  }

  lemma PaddedWidth(n: nat)
    ensures SixOrMore(n, Padded(n))
  {
    PaddedDenotes(n);
    assert Pow10(6) == 1_000_000;
    DecimalLength(n, 6);
    PadLength(Decimal(n), 6);
    if n >= 1_000_000 {
      NoLeadingZero(n);
    }
  }

  lemma LastDigit(s: string)
    requires AllDigits(s) && s != ""
    ensures NumberOf(s) / 10 == NumberOf(s[..|s| - 1]) && NumberOf(s) % 10 == DigitValue(s[|s| - 1])
  {
  }

  lemma SameDigit(a: char, b: char)
    requires IsDigit(a) && IsDigit(b) && DigitValue(a) == DigitValue(b)
    ensures a == b
  {
  }

  lemma {:induction false} SameLengthSame(s: string, t: string)
    requires AllDigits(s) && AllDigits(t) && |s| == |t| && NumberOf(s) == NumberOf(t)
    ensures s == t
  {
    if s != "" {
      LastDigit(s);
      LastDigit(t);
      SameDigit(s[|s| - 1], t[|t| - 1]);
      SameLengthSame(s[..|s| - 1], t[..|t| - 1]);
      assert s == s[..|s| - 1] + [s[|s| - 1]] && t == t[..|t| - 1] + [t[|t| - 1]];
    }
  }

  lemma {:induction false} NoZeroIsDecimal(s: string)
    requires AllDigits(s) && s != "" && s[0] != '0'
    ensures NumberOf(s) > 0 && s == Decimal(NumberOf(s))
  {
    LastDigit(s);
    var p := s[..|s| - 1];
    assert s == p + [s[|s| - 1]];
    if p != "" {
      NoZeroIsDecimal(p);
    }
  }

  /** The number and the width determine the string. */
  lemma PaddedIff(n: nat, s: string)
    ensures s == Padded(n) <==> SixOrMore(n, s)
  {
    PaddedWidth(n);
    if SixOrMore(n, s) {
      if n < 1_000_000 {
        SameLengthSame(s, Padded(n));
      } else {
        NoZeroIsDecimal(s);
        NoZeroIsDecimal(Padded(n));
      }
    }
  }

  /** Length of the longest prefix of digits. */
  function DigitCount(s: string): (n: nat)
    ensures n <= |s| && AllDigits(s[..n])
    ensures n < |s| ==> !IsDigit(s[n])
  {
    if s == "" || !IsDigit(s[0]) then 0
    else
      var n := 1 + DigitCount(s[1..]);
      assert s[..n] == [s[0]] + s[1..][..n - 1];
      n
  }

  /** The digit count of digits followed by something else. */
  lemma CountOf(digits: string, t: string)
    requires AllDigits(digits) && (t == "" || !IsDigit(t[0]))
    ensures DigitCount(digits + t) == |digits|
    ensures (digits + t)[..|digits|] == digits && (digits + t)[|digits|..] == t
  {
    var s, n := digits + t, DigitCount(digits + t);
    assert forall i | 0 <= i < |digits| :: s[i] == digits[i];
    assert |s| > |digits| ==> s[|digits|] == t[0];
  }

  // ---- ConsumeDecimalNumber ----

  datatype Consumed = Consumed(number: nat, rest: string)

  function Consume(s: string): Option<Consumed> {
    var n := DigitCount(s);
    if n == 0 || NumberOf(s[..n]) >= TWO_64 then None else Some(Consumed(NumberOf(s[..n]), s[n..]))
  }

  /** A longer prefix denotes no smaller a number. */
  lemma {:induction false} PrefixSmaller(s: string, i: nat)
    requires AllDigits(s) && i <= |s|
    ensures NumberOf(s[..i]) <= NumberOf(s)
  {
    if i == |s| {
      assert s[..i] == s;
    } else {
      PrefixSmaller(s[..|s| - 1], i);
      assert s[..|s| - 1][..i] == s[..i];
    }
  }

  /** The number read so far and the next digit would not fit in 64 bits. */
  predicate Overflows(value: nat, d: nat) {
    value > (TWO_64 - 1) / 10 || (value == (TWO_64 - 1) / 10 && d > (TWO_64 - 1) % 10)
  }

  /** ConsumeDecimalNumber: it refuses exactly when there is no digit or the number does not fit. */
  method ConsumeDecimalNumber(s: string) returns (ok: bool, val: nat, rest: string)
    ensures ok <==> Consume(s).Some?
    ensures ok ==> Consume(s).value == Consumed(val, rest)
  {
    var value, current := 0, 0;
    ghost var n := DigitCount(s);
    while current < |s|
      invariant current <= n && AllDigits(s[..n]) && value == NumberOf(s[..current]) && value < TWO_64
    {
      var ch := s[current];
      if !IsDigit(ch) {
        break;
      }
      assert s[..current + 1][..current] == s[..current] && current < n;
      if Overflows(value, DigitValue(ch)) {
        PrefixSmaller(s[..n], current + 1);
        assert s[..n][..current + 1] == s[..current + 1];
        return false, 0, s;
      }
      value := value * 10 + DigitValue(ch);
      current := current + 1;
    }
    return current != 0, value, s[current..];
  }

  // ---- Names ----

  /** MakeFileName. */
  function MakeFileName(dbname: string, number: nat, suffix: string): string {
    dbname + "/" + Padded(number) + "." + suffix
  }

  function DescriptorFileName(dbname: string, number: nat): string {
    dbname + "/" + "MANIFEST-" + Padded(number)
  }

  const MANIFEST: string := "MANIFEST-"

  predicate StartsWith(s: string, p: string) {
    |p| <= |s| && s[..|p|] == p
  }

  /** The type of a numbered file by what follows its number. */
  function SuffixType(suffix: string): Option<FileType> {
    if suffix == ".log" then Some(LogFile)
    else if suffix == ".sst" || suffix == ".ldb" then Some(TableFile)
    else if suffix == ".dbtmp" then Some(TempFile)
    else None
  }

  /** ParseFileName. */
  function ParseFileName(name: string): Option<FileName> {
    if name == "CURRENT" then Some(FileName(0, CurrentFile))
    else if name == "LOCK" then Some(FileName(0, DBLockFile))
    else if name == "LOG" || name == "LOG.old" then Some(FileName(0, InfoLogFile))
    else if StartsWith(name, MANIFEST) then
      var c := Consume(name[|MANIFEST|..]);
      if c.None? || c.value.rest != "" then None else Some(FileName(c.value.number, DescriptorFile))
    else
      var c := Consume(name);
      if c.None? then None
      else
        var t := SuffixType(c.value.rest);
        if t.None? then None else Some(FileName(c.value.number, t.value))
  }

  /** The names as they stand in the directory: a slash, the number in six digits or more, and a suffix or prefix. */
  lemma NameIsPrinted(dbname: string, number: nat, suffix: string, s: string)
    requires SixOrMore(number, s)
    ensures MakeFileName(dbname, number, suffix) == dbname + "/" + s + "." + suffix
    ensures DescriptorFileName(dbname, number) == dbname + "/MANIFEST-" + s
  {
    PaddedIff(number, s);
    assert "/" + "MANIFEST-" == "/MANIFEST-";
    assert dbname + "/" + "MANIFEST-" == dbname + "/MANIFEST-";
  }

  lemma ConsumePadded(n: nat, t: string)
    requires n < TWO_64 && (t == "" || !IsDigit(t[0]))
    ensures Consume(Padded(n) + t) == Some(Consumed(n, t))
  {
    PaddedDenotes(n);
    CountOf(Padded(n), t);
  }

  /** A name that begins with a digit is none of the fixed names. */
  lemma NumberedName(digits: string, t: string)
    requires AllDigits(digits) && digits != ""
    ensures var s := digits + t;
            s != "CURRENT" && s != "LOCK" && s != "LOG" && s != "LOG.old" && !StartsWith(s, MANIFEST)
  {
    var s := digits + t;
    assert IsDigit(s[0]);
    assert |MANIFEST| <= |s| ==> s[..|MANIFEST|][0] == s[0];
  }

  /** Parsing a printed log, table or temporary name, directory removed, gives back its number and type. */
  lemma ParsePrinted(dbname: string, number: nat, suffix: string)
    requires number < TWO_64 && SuffixType("." + suffix).Some?
    ensures ParseFileName(MakeFileName(dbname, number, suffix)[|dbname| + 1..]) ==
            Some(FileName(number, SuffixType("." + suffix).value))
  {
    var t := "." + suffix;
    assert MakeFileName(dbname, number, suffix)[|dbname| + 1..] == Padded(number) + t;
    ConsumePadded(number, t);
    NumberedName(Padded(number), t);
  }

  lemma ParsePrintedManifest(dbname: string, number: nat)
    requires number < TWO_64
    ensures ParseFileName(DescriptorFileName(dbname, number)[|dbname| + 1..]) == Some(FileName(number, DescriptorFile))
  {
    var name := DescriptorFileName(dbname, number)[|dbname| + 1..];
    assert name == MANIFEST + Padded(number);
    assert name[|MANIFEST|..] == Padded(number) + "";
    ConsumePadded(number, "");
    assert name[0] == 'M';
  }

  /** Zero-padded names are injective in number and suffix, whatever the suffix. */
  lemma NamesInjective(dbname: string, a: nat, b: nat, s: string, t: string)
    requires MakeFileName(dbname, a, s) == MakeFileName(dbname, b, t)
    ensures a == b && s == t
  {
    var p, q := "." + s, "." + t;
    var x, y := MakeFileName(dbname, a, s)[|dbname| + 1..], MakeFileName(dbname, b, t)[|dbname| + 1..];
    assert x == Padded(a) + p && y == Padded(b) + q;
    CountOf(Padded(a), p);
    CountOf(Padded(b), q);
    PaddedDenotes(a);
    PaddedDenotes(b);
    assert s == p[1..] && t == q[1..];
  }

  // ---- Exactly which names are accepted ----

  /** A nonempty run of digits, then a suffix; the number fits in 64 bits. */
  ghost predicate Numbered(name: string, digits: string, suffix: string, number: nat) {
    digits != "" && AllDigits(digits) && name == digits + suffix && number == NumberOf(digits) < TWO_64
  }

  ghost predicate SomeNumber(name: string, suffix: string, number: nat) {
    exists digits :: Numbered(name, digits, suffix, number)
  }

  lemma ConsumeIff(name: string, number: nat, suffix: string)
    requires suffix == "" || !IsDigit(suffix[0])
    ensures Consume(name) == Some(Consumed(number, suffix)) <==> SomeNumber(name, suffix, number)
  {
    if Consume(name) == Some(Consumed(number, suffix)) {
      assert Numbered(name, name[..DigitCount(name)], suffix, number);
    }
    if SomeNumber(name, suffix, number) {
      var digits :| Numbered(name, digits, suffix, number);
      CountOf(digits, suffix);
    }
  }

  /** The names the database owns, and what they stand for. */
  ghost predicate Owned(name: string, f: FileName) {
    match f.kind
    case CurrentFile => f.number == 0 && name == "CURRENT"
    case DBLockFile => f.number == 0 && name == "LOCK"
    case InfoLogFile => f.number == 0 && (name == "LOG" || name == "LOG.old")
    case DescriptorFile => StartsWith(name, MANIFEST) && SomeNumber(name[|MANIFEST|..], "", f.number)
    case LogFile => SomeNumber(name, ".log", f.number)
    case TableFile => SomeNumber(name, ".sst", f.number) || SomeNumber(name, ".ldb", f.number)
    case TempFile => SomeNumber(name, ".dbtmp", f.number)
  }

  lemma NumberedIsOther(name: string, suffix: string, number: nat)
    requires SomeNumber(name, suffix, number)
    ensures name != "CURRENT" && name != "LOCK" && name != "LOG" && name != "LOG.old" && !StartsWith(name, MANIFEST)
  {
    var digits :| Numbered(name, digits, suffix, number);
    NumberedName(digits, suffix);
  }

  predicate Fixed(name: string) {
    name == "CURRENT" || name == "LOCK" || name == "LOG" || name == "LOG.old"
  }

  lemma ManifestIffOwned(name: string, f: FileName)
    requires StartsWith(name, MANIFEST)
    ensures ParseFileName(name) == Some(f) <==> Owned(name, f)
  {
    assert name[..|MANIFEST|][0] == name[0];
    ConsumeIff(name[|MANIFEST|..], f.number, "");
    NumberedIff(name, f, ".log");
    NumberedIff(name, f, ".sst");
    NumberedIff(name, f, ".ldb");
    NumberedIff(name, f, ".dbtmp");
  }

  lemma FixedIffOwned(name: string, f: FileName)
    requires Fixed(name)
    ensures ParseFileName(name) == Some(f) <==> Owned(name, f)
  {
    assert !StartsWith(name, MANIFEST) by {
      assert |name| < |MANIFEST|;
    }
    NumberedIff(name, f, ".log");
    NumberedIff(name, f, ".sst");
    NumberedIff(name, f, ".ldb");
    NumberedIff(name, f, ".dbtmp");
  }

  lemma NumberedIffOwned(name: string, f: FileName)
    requires !Fixed(name) && !StartsWith(name, MANIFEST)
    ensures ParseFileName(name) == Some(f) <==> Owned(name, f)
  {
    NumberedIff(name, f, ".log");
    NumberedIff(name, f, ".sst");
    NumberedIff(name, f, ".ldb");
    NumberedIff(name, f, ".dbtmp");
  }

  /** ParseFileName accepts exactly the owned names, with their number and type. */
  lemma ParseIffOwned(name: string, f: FileName)
    ensures ParseFileName(name) == Some(f) <==> Owned(name, f)
  {
    if StartsWith(name, MANIFEST) {
      ManifestIffOwned(name, f);
    } else if Fixed(name) {
      FixedIffOwned(name, f);
    } else {
      NumberedIffOwned(name, f);
    }
  }

  lemma NumberedIff(name: string, f: FileName, suffix: string)
    requires SuffixType(suffix).Some?
    ensures Consume(name) == Some(Consumed(f.number, suffix)) <==> SomeNumber(name, suffix, f.number)
    ensures SomeNumber(name, suffix, f.number) ==>
              name != "CURRENT" && name != "LOCK" && name != "LOG" && name != "LOG.old" && !StartsWith(name, MANIFEST)
  {
    ConsumeIff(name, f.number, suffix);
    if SomeNumber(name, suffix, f.number) {
      NumberedIsOther(name, suffix, f.number);
    }
  }
}
