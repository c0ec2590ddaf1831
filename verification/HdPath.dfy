/**
Wallet derivation paths: lists of 32-bit components, written in decimal with a quote for hardened
ones, and read back from text that may be relative, spaced, or in other bases.
*/
module HdPath {
  import opened Wrappers

  const HARDENED := 0x8000_0000
  const MAX_UINT32 := 0xFFFF_FFFF

  type Path = seq<nat>

  const DEFAULT_ROOT: Path := [HARDENED + 44, HARDENED + 60, HARDENED + 0, 0]

  ghost predicate IsPath(p: Path) {
    forall i :: 0 <= i < |p| ==> p[i] <= MAX_UINT32
  }

  datatype Error = EmptyPath | Ambiguous | InvalidComponent | OutOfRange

  datatype Result<T> = Ok(value: T) | Err(error: Error)

  // ----- numbers in text -----

  function DigitChar(d: nat): char
    requires d < 10
  {
    '0' + d as char
  }

  function Decimal(n: nat): (s: string)
    ensures s != ""
  {
    if n < 10 then [DigitChar(n)] else Decimal(n / 10) + [DigitChar(n % 10)]
  }

  function DigitValue(c: char): nat {
    if '0' <= c <= '9' then (c - '0') as nat
    else if 'a' <= c <= 'z' then (c - 'a') as nat + 10
    else if 'A' <= c <= 'Z' then (c - 'A') as nat + 10
    else 36
  }

  /** Digits in a base, at least one. */
  function Digits(s: string, base: nat): Option<nat> {
    if s == "" then None
    else
      var d := DigitValue(s[|s| - 1]);
      if d >= base then None
      else if |s| == 1 then Some(d)
      else match Digits(s[..|s| - 1], base)
           case None => None
           case Some(n) => Some(n * base + d)
  }

  /** An optional sign, then digits whose base their prefix tells. */
  function Number(s: string): Option<int> {
    if s != "" && (s[0] == '-' || s[0] == '+') then
      match Unsigned(s[1..])
      case None => None
      case Some(n) => var v: int := if s[0] == '-' then -(n as int) else n; Some(v)
    else
      match Unsigned(s)
      case None => None
      case Some(n) => Some(n)
  }

  function Unsigned(s: string): Option<nat> {
    if |s| >= 2 && s[0] == '0' then
      if s[1] == 'x' || s[1] == 'X' then Digits(s[2..], 16)
      else if s[1] == 'b' || s[1] == 'B' then Digits(s[2..], 2)
      else Digits(s[1..], 8)
    else Digits(s, 10)
  }

  // ----- space -----

  predicate IsSpace(c: char) {
    c in " \t\n\r" || c in {11 as char, 12 as char, 0x85 as char, 0xA0 as char, 0x1680 as char, 0x2028 as char,
                            0x2029 as char,
                            0x202F as char, 0x205F as char, 0x3000 as char} || 0x2000 as char <= c <= 0x200A as char
  }

  function Trim(s: string): string {
    if s != "" && IsSpace(s[0]) then Trim(s[1..])
    else if s != "" && IsSpace(s[|s| - 1]) then Trim(s[..|s| - 1])
    else s
  }

  // ----- paths in text -----

  function Split(s: string): (parts: seq<string>)
    ensures parts != []
  {
    if s == "" then [""]
    else if s[0] == '/' then [""] + Split(s[1..])
    else var rest := Split(s[1..]); [[s[0]] + rest[0]] + rest[1..]
  }

  function ParsedComponent(text: string): Result<nat> {
    var component := Trim(text);
    var hardened := component != "" && component[|component| - 1] == '\'';
    var digits := if hardened then Trim(component[..|component| - 1]) else component;
    var base := if hardened then HARDENED else 0;
    match Number(digits)
    case None => Err(InvalidComponent)
    case Some(n) => if n < 0 || n > MAX_UINT32 - base then Err(OutOfRange) else Ok(base + n)
  }

  /** The components in order; the first that cannot be read decides. */
  function ParsedAll(parts: seq<string>): Result<Path> {
    if parts == [] then Ok([])
    else match ParsedAll(parts[..|parts| - 1])
         case Err(e) => Err(e)
         case Ok(p) =>
           match ParsedComponent(parts[|parts| - 1])
           case Err(e) => Err(e)
           case Ok(n) => Ok(p + [n])
  }

  function Printed(p: Path): string {
    if p == [] then "m" else Printed(p[..|p| - 1]) + "/" + PrintedComponent(p[|p| - 1])
  }

  function PrintedComponent(n: nat): string {
    if n >= HARDENED then Decimal(n - HARDENED) + "'" else Decimal(n)
  }

  method ToString(p: Path) returns (s: string)
    ensures s == Printed(p)
  {
    s := "m";
    for i := 0 to |p|
      invariant s == Printed(p[..i])
    {
      var component, hardened := p[i], false;
      if component >= HARDENED {
        component := component - HARDENED;
        hardened := true;
      }
      assert p[..i + 1][..i] == p[..i];
      s := s + "/" + Decimal(component);
      if hardened {
        s := s + "'";
      }
    }
    assert p[..|p|] == p;
  }

  /** What the text of a path is read as. */
  function Parsed(s: string): Result<Path> {
    var parts := Split(s);
    var first := Trim(parts[0]);
    if first == "" then Err(Ambiguous)
    else if first == "m" then
      if |parts| == 1 then Err(EmptyPath) else ParsedAll(parts[1..])
    else
      match ParsedAll(parts)
      case Err(e) => Err(e)
      case Ok(p) => Ok(DEFAULT_ROOT + p)
  }

  method ParseComponent(text: string) returns (r: Result<nat>)
    ensures r == ParsedComponent(text) && (r.Ok? ==> r.value <= MAX_UINT32)
  {
    hide Trim, Number;
    var component := Trim(text);
    var value := 0;
    if component != "" && component[|component| - 1] == '\'' {
      value := HARDENED;
      component := Trim(component[..|component| - 1]);
    }
    var bigval := Number(component);
    if bigval == None {
      return Err(InvalidComponent);
    }
    if bigval.value < 0 || bigval.value > MAX_UINT32 - value {
      return Err(OutOfRange);
    }
    return Ok(value + bigval.value);
  }

  method ParseDerivationPath(s: string) returns (r: Result<Path>)
    ensures r == Parsed(s)
    ensures r.Ok? ==> IsPath(r.value) && r.value != []
  {
    hide Split, Trim, ParsedComponent;
    var parts := Split(s);
    var result: Path := [];
    if Trim(parts[0]) == "" {
      return Err(Ambiguous);
    } else if Trim(parts[0]) == "m" {
      parts := parts[1..];
    } else {
      result := DEFAULT_ROOT;
    }
    if |parts| == 0 {
      return Err(EmptyPath);
    }
    ghost var root := result;
    for i := 0 to |parts|
      invariant IsPath(result) && |result| == |root| + i
      invariant ParsedAll(parts[..i]).Ok? && result == root + ParsedAll(parts[..i]).value
    {
      assert parts[..i + 1][..i] == parts[..i];
      var value := ParseComponent(parts[i]);
      if value.Err? {
        FirstFailure(parts, i);
        return Err(value.error);
      }
      result := result + [value.value];
    }
    assert parts[..|parts|] == parts;
    assert [] + ParsedAll(parts).value == ParsedAll(parts).value;
    return Ok(result);
  }

  lemma {:induction false} FirstFailure(parts: seq<string>, i: nat)
    requires i < |parts| && ParsedAll(parts[..i]).Ok? && ParsedComponent(parts[i]).Err?
    ensures ParsedAll(parts) == Err(ParsedComponent(parts[i]).error)
    decreases |parts|
  {
    hide ParsedComponent;
    if i < |parts| - 1 {
      var before := parts[..|parts| - 1];
      assert before[..i] == parts[..i];
      FirstFailure(before, i);
    }
  }

  // ----- what is written is read back -----

  ghost predicate IsDecimal(s: string) {
    s != "" && forall i :: 0 <= i < |s| ==> '0' <= s[i] <= '9'
  }

  lemma {:induction false} DecimalRead(n: nat)
    ensures IsDecimal(Decimal(n)) && Digits(Decimal(n), 10) == Some(n)
    ensures Decimal(n)[0] == '0' <==> n == 0
    ensures n < 10 ==> |Decimal(n)| == 1
  {
    var s := Decimal(n);
    if n >= 10 {
      DecimalRead(n / 10);
      assert s[..|s| - 1] == Decimal(n / 10);
    }
  }

  /** Decimals are read in base ten: only zero itself starts with a zero. */
  lemma NumberRead(n: nat)
    ensures Number(Decimal(n)) == Some(n)
  {
    hide Decimal, Digits;
    DecimalRead(n);
  }

  lemma TrimNothing(s: string)
    requires s != "" && !IsSpace(s[0]) && !IsSpace(s[|s| - 1])
    ensures Trim(s) == s
  {
  }

  lemma NoSpace(c: char)
    requires '0' <= c <= '9' || c == '\'' || c == 'm'
    ensures !IsSpace(c)
  {
  }

  lemma ComponentRead(n: nat)
    requires n <= MAX_UINT32
    ensures ParsedComponent(PrintedComponent(n)) == Ok(n) && '/' !in PrintedComponent(n)
  {
    hide Decimal, Number, Trim, IsSpace;
    var m := if n >= HARDENED then n - HARDENED else n;
    var s, d := PrintedComponent(n), Decimal(m);
    DecimalRead(m);
    NumberRead(m);
    NoSpace(d[0]);
    NoSpace(d[|d| - 1]);
    NoSpace('\'');
    TrimNothing(d);
    TrimNothing(s);
    assert n >= HARDENED ==> s[..|s| - 1] == d;
  }

  lemma {:induction false} SplitOne(b: string)
    requires '/' !in b
    ensures Split(b) == [b]
  {
    if b != "" {
      SplitOne(b[1..]);
      assert [b[0]] + b[1..] == b;
    }
  }

  lemma {:induction false} SplitLast(a: string, b: string)
    requires '/' !in b
    ensures Split(a + "/" + b) == Split(a) + [b]
  {
    var s := a + "/" + b;
    if a == "" {
      assert s[1..] == b;
      SplitOne(b);
    } else {
      assert s[1..] == a[1..] + "/" + b;
      SplitLast(a[1..], b);
    }
  }

  function Components(p: Path): seq<string> {
    if p == [] then [] else Components(p[..|p| - 1]) + [PrintedComponent(p[|p| - 1])]
  }

  lemma {:induction false} PathRead(p: Path)
    requires IsPath(p)
    ensures Split(Printed(p)) == ["m"] + Components(p) && ParsedAll(Components(p)) == Ok(p)
  {
    hide PrintedComponent, ParsedComponent;
    if p == [] {
      SplitOne("m");
    } else {
      var before, n := p[..|p| - 1], p[|p| - 1];
      PathRead(before);
      ComponentRead(n);
      SplitLast(Printed(before), PrintedComponent(n));
      var cs := Components(p);
      assert cs[..|cs| - 1] == Components(before);
      assert before + [n] == p;
    }
  }

  /** A path is read back from its text, exactly if it is not empty. */
  lemma RoundTrip(p: Path)
    requires IsPath(p)
    ensures Parsed(Printed(p)) == Ok(p) <==> p != []
  {
    hide Split, Trim, IsSpace, ParsedAll;
    PathRead(p);
    NoSpace('m');
    TrimNothing("m");
    assert (["m"] + Components(p))[1..] == Components(p);
  }

  // ----- other ways to write a path -----

  ghost predicate Blank(s: string) {
    forall i :: 0 <= i < |s| ==> IsSpace(s[i])
  }

  /** Space is what Unicode calls white space. */
  lemma WhiteSpace(c: char)
    ensures var x := c as int;
            IsSpace(c) == (9 <= x <= 13 || 0x2000 <= x <= 0x200A ||
                           x in {0x20, 0x85, 0xA0, 0x1680, 0x2028, 0x2029, 0x202F, 0x205F, 0x3000})
  {
  }

  lemma {:induction false} TrimAround(a: string, s: string, b: string)
    requires Blank(a) && Blank(b)
    ensures Trim(a + s + b) == Trim(s)
    decreases |a| + |s| + |b|
  {
    hide IsSpace;
    var t := a + s + b;
    if a != "" {
      assert t[1..] == a[1..] + s + b;
      TrimAround(a[1..], s, b);
    } else if s != "" && IsSpace(s[0]) {
      assert t[1..] == "" + s[1..] + b;
      TrimAround("", s[1..], b);
    } else if b != "" {
      if s == "" {
        assert t[1..] == "" + "" + b[1..];
        TrimAround("", "", b[1..]);
      } else {
        assert t[..|t| - 1] == "" + s + b[..|b| - 1];
        TrimAround("", s, b[..|b| - 1]);
      }
    } else {
      assert t == s;
    }
  }

  /** Space around a component does not matter. */
  lemma SpaceIgnored(a: string, text: string, b: string)
    requires Blank(a) && Blank(b)
    ensures ParsedComponent(a + text + b) == ParsedComponent(text)
  {
    hide Trim, Number, IsSpace;
    TrimAround(a, text, b);
  }

  /** A decimal number is read if it fits 32 bits, a hardened one if it leaves the highest bit free. */
  lemma DecimalRange(n: nat)
    ensures ParsedComponent(Decimal(n)) == if n <= 0xFFFF_FFFF then Ok(n) else Err(OutOfRange)
    ensures ParsedComponent(Decimal(n) + "'") == if n <= 0x7FFF_FFFF then Ok(0x8000_0000 + n) else Err(OutOfRange)
    ensures ParsedComponent("-" + Decimal(n)) == if n == 0 then Ok(0) else Err(OutOfRange)
    ensures ParsedComponent("+" + Decimal(n)) == ParsedComponent(Decimal(n))
  {
    hide Decimal, Digits, Trim, IsSpace;
    var d := Decimal(n);
    DecimalRead(n);
    NoSpace(d[0]);
    NoSpace(d[|d| - 1]);
    NoSpace('\'');
    TrimNothing(d);
    TrimNothing(d + "'");
    assert (d + "'")[..|d|] == d;
    var m := "-" + d;
    var p := "+" + d;
    assert !IsSpace('-') && !IsSpace('+') by { Signs(); }
    TrimNothing(m);
    TrimNothing(p);
    assert m[1..] == d && p[1..] == d;
  }

  lemma Signs()
    ensures !IsSpace('-') && !IsSpace('+')
  {
  }

  function Numeral(n: nat, base: nat): (s: string)
    requires 2 <= base <= 16
    ensures s != ""
  {
    if n < base then [NumeralChar(n)] else Numeral(n / base, base) + [NumeralChar(n % base)]
  }

  function NumeralChar(d: nat): char
    requires d < 16
  {
    if d < 10 then '0' + d as char else 'a' + (d - 10) as char
  }

  lemma DigitRead(d: nat)
    requires d < 16
    ensures DigitValue(NumeralChar(d)) == d
  {
  }

  lemma DigitsEnd(s: string, base: nat, n: nat, d: nat)
    requires 2 <= base <= 16 && d < base && Digits(s, base) == Some(n)
    ensures Digits(s + [NumeralChar(d)], base) == Some(n * base + d)
  {
    hide DigitValue, NumeralChar;
    var t := s + [NumeralChar(d)];
    assert t[..|t| - 1] == s;
    DigitRead(d);
  }

  lemma {:induction false} NumeralRead(n: nat, base: nat)
    requires 2 <= base <= 16
    ensures Digits(Numeral(n, base), base) == Some(n)
    decreases n
  {
    hide Digits, DigitValue, NumeralChar;
    if n < base {
      OneDigit(n, base);
    } else {
      Smaller(n, base);
      NumeralRead(n / base, base);
      DigitsEnd(Numeral(n / base, base), base, n / base, n % base);
    }
  }

  lemma OneDigit(d: nat, base: nat)
    requires 2 <= base <= 16 && d < base
    ensures Digits([NumeralChar(d)], base) == Some(d)
  {
    hide DigitValue, NumeralChar;
    DigitRead(d);
  }

  lemma Smaller(n: nat, base: nat)
    requires 2 <= base <= n
    ensures 0 <= n / base < n && n / base * base + n % base == n
  {
  }

  /** A prefix tells the base: hexadecimal, binary or octal. */
  lemma PrefixRead(n: nat)
    ensures Number("0x" + Numeral(n, 16)) == Some(n) && Number("0X" + Numeral(n, 16)) == Some(n)
    ensures Number("0b" + Numeral(n, 2)) == Some(n) && Number("0" + Numeral(n, 8)) == Some(n)
  {
    hide Numeral, Digits;
    NumeralRead(n, 16);
    NumeralRead(n, 2);
    NumeralRead(n, 8);
    var hex, bin, oct := Numeral(n, 16), Numeral(n, 2), Numeral(n, 8);
    assert ("0x" + hex)[2..] == hex && ("0X" + hex)[2..] == hex && ("0b" + bin)[2..] == bin && ("0" + oct)[1..] == oct;
    OctalStart(n);
  }

  lemma {:induction false} OctalStart(n: nat)
    ensures '0' <= Numeral(n, 8)[0] <= '7'
  {
    if n >= 8 {
      OctalStart(n / 8);
    }
  }

  ghost predicate Only(s: string, digits: string) {
    s != "" && forall i :: 0 <= i < |s| ==> s[i] in digits
  }

  /** What is a number: digits of the base that the prefix tells, at least one, with at most one sign. */
  lemma NumberIff(s: string)
    ensures Number(s).Some? <==>
            var u := if s != "" && (s[0] == '+' || s[0] == '-') then s[1..] else s;
            if |u| >= 2 && u[0] == '0' && (u[1] == 'x' || u[1] == 'X') then Only(u[2..], "0123456789abcdefABCDEF")
            else if |u| >= 2 && u[0] == '0' && (u[1] == 'b' || u[1] == 'B') then Only(u[2..], "01")
            else if |u| >= 2 && u[0] == '0' then Only(u[1..], "01234567")
            else Only(u, "0123456789")
  {
    hide Digits, Only, DigitValue;
    var u := if s != "" && (s[0] == '+' || s[0] == '-') then s[1..] else s;
    if |u| >= 2 {
      HexDigits();
      DigitsIff(u[2..], 16, "0123456789abcdefABCDEF");
      FewDigits();
      DigitsIff(u[2..], 2, "01");
      DigitsIff(u[1..], 8, "01234567");
    }
    FewDigits();
    DigitsIff(u, 10, "0123456789");
  }

  lemma HexDigits()
    ensures forall c {:trigger DigitValue(c)} :: DigitValue(c) < 16 <==> c in "0123456789abcdefABCDEF"
  {
  }

  lemma FewDigits()
    ensures forall c {:trigger DigitValue(c)} :: DigitValue(c) < 2 <==> c in "01"
    ensures forall c {:trigger DigitValue(c)} :: DigitValue(c) < 8 <==> c in "01234567"
    ensures forall c {:trigger DigitValue(c)} :: DigitValue(c) < 10 <==> c in "0123456789"
  {
  }

  lemma {:induction false} DigitsIff(s: string, base: nat, digits: string)
    requires forall c {:trigger DigitValue(c)} :: DigitValue(c) < base <==> c in digits
    ensures Digits(s, base).Some? <==> Only(s, digits)
  {
    hide DigitValue;
    if |s| > 1 {
      var before, c := s[..|s| - 1], s[|s| - 1];
      DigitsIff(before, base, digits);
      assert s == before + [c];
    }
  }

  /** Letters of either case stand for the same digits. */
  lemma UpperCase(d: nat)
    requires d < 16
    ensures DigitValue("0123456789abcdef"[d]) == d && DigitValue("0123456789ABCDEF"[d]) == d
  {
  }

  /** The components of a path without its root. */
  function Joined(p: Path): string
    requires p != []
  {
    if |p| == 1 then PrintedComponent(p[0]) else Joined(p[..|p| - 1]) + "/" + PrintedComponent(p[|p| - 1])
  }

  lemma {:induction false} JoinedSplit(p: Path)
    requires IsPath(p) && p != []
    ensures Split(Joined(p)) == Components(p)
  {
    hide PrintedComponent;
    var before, n := p[..|p| - 1], p[|p| - 1];
    ComponentRead(n);
    if |p| == 1 {
      SplitOne(PrintedComponent(n));
      assert Components(before) == [];
    } else {
      JoinedSplit(before);
      SplitLast(Joined(before), PrintedComponent(n));
    }
  }

  /** A path without a root stands under the default one. */
  lemma RelativeRead(p: Path)
    requires IsPath(p) && p != []
    ensures Parsed(Joined(p)) == Ok([0x8000_002C, 0x8000_003C, 0x8000_0000, 0] + p)
  {
    hide Split, Trim, IsSpace, ParsedAll, Decimal;
    JoinedSplit(p);
    PathRead(p);
    FirstComponent(p);
    var c := PrintedComponent(p[0]);
    var m := if p[0] >= HARDENED then p[0] - HARDENED else p[0];
    DecimalRead(m);
    NoSpace(c[0]);
    NoSpace(c[|c| - 1]);
    TrimNothing(c);
    assert DEFAULT_ROOT + p == [0x8000_002C, 0x8000_003C, 0x8000_0000, 0] + p;
  }

  lemma {:induction false} FirstComponent(p: Path)
    requires p != []
    ensures Components(p) != [] && Components(p)[0] == PrintedComponent(p[0])
  {
    hide PrintedComponent;
    if |p| == 1 {
      assert Components(p[..0]) == [];
    } else {
      FirstComponent(p[..|p| - 1]);
    }
  }

  /** No text, a root alone, and text that starts with a slash are errors. */
  lemma NoPath(s: string)
    ensures Parsed("") == Err(Ambiguous) && Parsed("m") == Err(EmptyPath) && Parsed("/" + s) == Err(Ambiguous)
  {
    hide IsSpace;
    SplitOne("");
    SplitOne("m");
    NoSpace('m');
    TrimNothing("m");
    assert ("/" + s)[1..] == s;
  }
}
