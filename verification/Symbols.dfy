/** From code addresses to function names and offsets, into a text file, and back out of it. */
module Symbols {
  import opened Sequences

  // ----- the symbol at or below an address -----

  datatype Symbol = Symbol(name: string, start: nat)

  ghost predicate SortedByStart(s: seq<Symbol>) {
    forall i, j :: 0 <= i < j < |s| ==> s[i].start <= s[j].start
  }

  method SortByStart(functions: seq<Symbol>) returns (s: seq<Symbol>)
    ensures SortedByStart(s) && multiset(s) == multiset(functions)
  {
    s := [];
    for i := 0 to |functions|
      invariant SortedByStart(s) && multiset(s) == multiset(functions[..i])
    {
      var x := functions[i];
      var k := LowerBound(s, x.start);
      SortedInsert(s, k, x);
      assert functions[..i + 1] == functions[..i] + [x];
      s := s[..k] + [x] + s[k..];
    }
    assert functions[..|functions|] == functions;
  }

  lemma SortedInsert(s: seq<Symbol>, k: nat, x: Symbol)
    requires SortedByStart(s) && k <= |s|
    requires (forall i :: 0 <= i < k ==> s[i].start < x.start) && forall i :: k <= i < |s| ==> x.start <= s[i].start
    ensures SortedByStart(s[..k] + [x] + s[k..])
    ensures multiset(s[..k] + [x] + s[k..]) == multiset(s) + multiset{x}
  {
    var t := s[..k] + [x] + s[k..];
    forall i, j | 0 <= i < j < |t| ensures t[i].start <= t[j].start {
      assert t[i] == if i < k then s[i] else if i == k then x else s[i - 1];
      assert t[j] == if j < k then s[j] else if j == k then x else s[j - 1];
    }
    assert s == s[..k] + s[k..];
  }

  /** The first entry whose start is not below `ip`, by halving the range. */
  method LowerBound(s: seq<Symbol>, ip: nat) returns (low: nat)
    requires SortedByStart(s)
    ensures low <= |s|
    ensures forall i :: 0 <= i < low ==> s[i].start < ip
    ensures forall i :: low <= i < |s| ==> ip <= s[i].start
  {
    low := 0;
    var count := |s|;
    while count > 0
      invariant 0 <= low && 0 <= count && low + count <= |s|
      invariant forall i :: 0 <= i < low ==> s[i].start < ip
      invariant forall i :: low + count <= i < |s| ==> ip <= s[i].start
    {
      var step := count / 2;
      if s[low + step].start < ip {
        low, count := low + step + 1, count - step - 1;
      } else {
        count := step;
      }
    }
  }

  /** Steps back from the lower bound unless it is an exact hit. The step leaves the table exactly when no
      symbol starts at or below `ip`; otherwise the entry found has the greatest such start, and the
      offset printed with it leads back to `ip`. */
  method Locate(functions: seq<Symbol>, ip: nat) returns (found: bool, symbol: Symbol, delta: nat)
    ensures found <==> exists f :: f in functions && f.start <= ip
    ensures found ==> symbol in functions && symbol.start + delta == ip
    ensures found ==> forall f :: f in functions && f.start <= ip ==> f.start <= symbol.start
  {
    var s := SortByStart(functions);
    assert forall f :: f in functions <==> f in s by {
      assert forall f :: f in s <==> f in multiset(s);
      assert forall f :: f in functions <==> f in multiset(functions);
    }
    var low: int := LowerBound(s, ip);
    ghost var bound := low;
    if low == |s| || s[low].start != ip {
      low := low - 1;
    }
    if low < 0 {
      return false, Symbol("", 0), 0;
    }
    assert s[low] in s;
    found, symbol, delta := true, s[low], ip - s[low].start;
    forall f | f in functions && f.start <= ip ensures f.start <= symbol.start {
      assert f in s;
      var i :| 0 <= i < |s| && s[i] == f;
      assert i <= low || s[i].start == s[low].start;
    }
  }

  // ----- numbers -----

  const LIMIT: int := 0x8000_0000_0000_0000

  function DigitChar(d: nat): char
    requires d < 16
  {
    if d < 10 then '0' + d as char else 'a' + (d - 10) as char
  }

  function Digits(n: nat, base: nat): string
    requires 2 <= base <= 16
  {
    if n < base then [DigitChar(n)] else Digits(n / base, base) + [DigitChar(n % base)]
  }

  function Decimal(n: nat): string {
    Digits(n, 10)
  }

  function DigitOf(c: char): nat {
    if '0' <= c <= '9' then (c - '0') as nat
    else if 'a' <= c <= 'z' then (c - 'a') as nat + 10
    else if 'A' <= c <= 'Z' then (c - 'A') as nat + 10
    else 99
  }

  /** How many of the leading characters are digits of the base. */
  function DigitRun(s: string, base: nat): (k: nat)
    ensures k <= |s|
    ensures forall i :: 0 <= i < k ==> DigitOf(s[i]) < base
    ensures k < |s| ==> DigitOf(s[k]) >= base
  {
    if s == [] || DigitOf(s[0]) >= base then 0 else 1 + DigitRun(s[1..], base)
  }

  function Value(s: string, base: nat): nat {
    if s == [] then 0 else Value(s[..|s| - 1], base) * base + DigitOf(s[|s| - 1])
  }

  predicate IsSpace(c: char) { c == ' ' || c == '\t' || c == '\n' || c == '\r' || c == 11 as char || c == 12 as char }

  function Spaces(s: string): (k: nat)
    ensures k <= |s|
    ensures |s| > 0 && !IsSpace(s[0]) ==> k == 0
  {
    if s == [] || !IsSpace(s[0]) then 0 else 1 + Spaces(s[1..])
  }

  /** The leading digits of the base: their value and how many they are. */
  function Scan(s: string, base: nat): (nat, nat) {
    var run := DigitRun(s, base);
    (Value(s[..run], base), run)
  }

  lemma ScanAll(s: string, base: nat)
    requires forall i :: 0 <= i < |s| ==> DigitOf(s[i]) < base
    ensures Scan(s, base) == (Value(s, base), |s|)
  {
    assert DigitRun(s, base) == |s|;
    assert s[..|s|] == s;
  }

  predicate IsHex(t: string) {
    |t| > 2 && t[0] == '0' && (t[1] == 'x' || t[1] == 'X') && DigitOf(t[2]) < 16
  }

  /** The digits of `t`, in the base that their prefix chooses: the value and the characters used. */
  function Magnitude(t: string): (nat, nat) {
    if IsHex(t) then (Scan(t[2..], 16).0, Scan(t[2..], 16).1 + 2)
    else if |t| > 0 && t[0] == '0' then Scan(t, 8)
    else Scan(t, 10)
  }

  function Clamp(v: int): int {
    if v < -LIMIT then -LIMIT else if v >= LIMIT then LIMIT - 1 else v
  }

  /** The C library's conversion with base 0: spaces, a sign, digits; a value out of range is cut off. */
  function Strtoll(s: string): (int, nat) {
    var w := Spaces(s);
    var sign := if w < |s| && (s[w] == '-' || s[w] == '+') then 1 else 0;
    var (v, used) := Magnitude(s[w + sign..]);
    if used == 0 then (0, 0)
    else (Clamp(if sign == 1 && s[w] == '-' then 0 - v as int else v), w + sign + used)
  }

  datatype Option<T> = None | Some(value: T)

  /** A field is a number when the conversion uses all of it. */
  function Number(s: string): Option<int> {
    var (v, used) := Strtoll(s);
    if used == |s| then Some(v) else None
  }

  lemma {:induction false} DigitsShape(n: nat, base: nat)
    requires 2 <= base <= 16
    ensures |Digits(n, base)| > 0
    ensures forall i :: 0 <= i < |Digits(n, base)| ==> DigitOf(Digits(n, base)[i]) < base
    ensures n > 0 ==> Digits(n, base)[0] != '0'
    ensures n == 0 ==> Digits(n, base) == "0"
    ensures Value(Digits(n, base), base) == n
  {
    if n >= base {
      var p, d := Digits(n / base, base), n % base;
      DivideFirst(n, base);
      DigitsShape(n / base, base);
      CharOfDigit(d);
      ValueSnoc(p, DigitChar(d), base);
    } else {
      CharOfDigit(n);
      ValueSnoc([], DigitChar(n), base);
      assert [] + [DigitChar(n)] == [DigitChar(n)];
    }
  }

  lemma DivideFirst(n: nat, base: nat)
    requires 2 <= base <= n
    ensures 0 < n / base < n && n / base * base + n % base == n
  {
  }

  lemma CharOfDigit(d: nat)
    requires d < 16
    ensures DigitOf(DigitChar(d)) == d && (DigitChar(d) == '0' <==> d == 0)
  {
  }

  lemma ValueSnoc(p: string, c: char, base: nat)
    ensures Value(p + [c], base) == Value(p, base) * base + DigitOf(c)
  {
    assert (p + [c])[..|p|] == p;
  }

  /** Decimal digits without a leading zero that stand for the number. */
  lemma {:induction false} DecimalShape(n: nat)
    ensures |Decimal(n)| > 0
    ensures forall i :: 0 <= i < |Decimal(n)| ==> '0' <= Decimal(n)[i] <= '9'
    ensures n > 0 ==> Decimal(n)[0] != '0'
    ensures n == 0 ==> Decimal(n) == "0"
    ensures Value(Decimal(n), 10) == n
  {
    DigitsShape(n, 10);
  }

  /** A number printed in decimal is read back as it was, although the reader guesses the base; one that is too large is
      cut off. */
  lemma NumberOfDecimal(n: nat)
    ensures Number(Decimal(n)) == Some(if n < LIMIT then n else LIMIT - 1)
  {
    DecimalShape(n);
    MagnitudeOfDecimal(n);
    PlainNumber(Decimal(n), n);
  }

  /** A field that begins with a digit has no sign. */
  lemma PlainNumber(s: string, v: nat)
    requires |s| > 0 && '0' <= s[0] <= '9' && Magnitude(s) == (v, |s|)
    ensures Number(s) == Some(Clamp(v))
  {
    assert Spaces(s) == 0 && s[0..] == s;
  }

  /** The other forms that the reader takes: octal digits after a 0, hexadecimal digits after 0x, and a minus sign. */
  lemma NumberOfOctal(n: nat)
    requires n < LIMIT
    ensures Number("0" + Digits(n, 8)) == Some(n)
  {
    DigitsShape(n, 8);
    MagnitudeOfOctal(Digits(n, 8));
    PlainNumber("0" + Digits(n, 8), n);
  }

  lemma MagnitudeOfOctal(digits: string)
    requires |digits| > 0 && forall i :: 0 <= i < |digits| ==> DigitOf(digits[i]) < 8
    ensures Magnitude("0" + digits) == (Value(digits, 8), |digits| + 1)
  {
    ZeroFirst(digits, 8);
    LeadingZero(digits, 8);
    OctalDigits("0" + digits);
  }

  lemma ZeroFirst(digits: string, base: nat)
    requires 0 < base && forall i :: 0 <= i < |digits| ==> DigitOf(digits[i]) < base
    ensures var s := "0" + digits; s[0] == '0' && forall i :: 0 <= i < |s| ==> DigitOf(s[i]) < base
  {
    var s := "0" + digits;
    assert forall i :: 1 <= i < |s| ==> s[i] == digits[i - 1];
  }

  lemma OctalDigits(s: string)
    requires |s| > 1 && s[0] == '0' && forall i :: 0 <= i < |s| ==> DigitOf(s[i]) < 8
    ensures Magnitude(s) == (Value(s, 8), |s|)
  {
    assert DigitOf(s[1]) < 8 && !IsHex(s);
    ScanAll(s, 8);
  }

  lemma {:induction false} LeadingZero(digits: string, base: nat)
    ensures Value("0" + digits, base) == Value(digits, base)
  {
    var s := "0" + digits;
    if digits == [] {
      assert s == "0" && s[..0] == [];
    } else {
      var k := |digits| - 1;
      LeadingZero(digits[..k], base);
      assert s[..|s| - 1] == "0" + digits[..k];
    }
  }

  lemma NumberOfHex(n: nat)
    requires n < LIMIT
    ensures Number("0x" + Digits(n, 16)) == Some(n)
  {
    var digits := Digits(n, 16);
    var s := "0x" + digits;
    DigitsShape(n, 16);
    assert s[2..] == digits && s[2] == digits[0] && IsHex(s);
    ScanAll(digits, 16);
    PlainNumber(s, n);
  }

  lemma NumberOfNegative(n: nat)
    requires n <= LIMIT
    ensures Number("-" + Decimal(n)) == Some(0 - n)
  {
    var s := "-" + Decimal(n);
    MagnitudeOfDecimal(n);
    DecimalShape(n);
    assert s[0] == '-' && s[1..] == Decimal(n);
  }

  lemma MagnitudeOfZero()
    ensures Magnitude("0") == (0, 1)
  {
    var s := "0";
    ScanAll(s, 8);
    assert s[..0] == [];
    assert Value(s, 8) == 0;
  }

  lemma MagnitudeOfDigits(s: string)
    requires |s| > 0 && s[0] != '0' && forall i :: 0 <= i < |s| ==> '0' <= s[i] <= '9'
    ensures Magnitude(s) == (Value(s, 10), |s|)
  {
    ScanAll(s, 10);
  }

  lemma MagnitudeOfDecimal(n: nat)
    ensures Magnitude(Decimal(n)) == (n, |Decimal(n)|)
  {
    DecimalShape(n);
    if n == 0 {
      MagnitudeOfZero();
    } else {
      MagnitudeOfDigits(Decimal(n));
    }
  }

  // ----- a text and its lines -----

  /** What reading line by line yields: each line with its newline, and the rest if the last has none. */
  function SplitLines(text: string): seq<string> {
    var k := IndexOf(text, '\n');
    if text == [] then [] else if k == |text| then [text] else [text[..k + 1]] + SplitLines(text[k + 1..])
  }

  function Concat(lines: seq<string>): string {
    if lines == [] then [] else lines[0] + Concat(lines[1..])
  }

  predicate IsLine(l: string) {
    |l| > 0 && l[|l| - 1] == '\n' && '\n' !in l[..|l| - 1]
  }

  lemma SplitFirst(l: string, rest: string)
    requires IsLine(l)
    ensures SplitLines(l + rest) == [l] + SplitLines(rest)
  {
    var text, k := l + rest, |l| - 1;
    assert forall i :: 0 <= i < k ==> text[i] == l[..k][i];
    FoundIndex(text, '\n', k);
    assert text[..k + 1] == l && text[k + 1..] == rest;
  }

  /** Writing lines one after the other and splitting the text gives them back. */
  lemma {:induction false} SplitConcat(lines: seq<string>)
    requires forall i :: 0 <= i < |lines| ==> IsLine(lines[i])
    ensures SplitLines(Concat(lines)) == lines
  {
    if lines != [] {
      SplitConcat(lines[1..]);
      SplitFirst(lines[0], Concat(lines[1..]));
      assert lines == [lines[0]] + lines[1..];
    }
  }

  lemma {:induction false} ConcatSnoc(lines: seq<string>, l: string)
    ensures Concat(lines + [l]) == Concat(lines) + l
  {
    if lines == [] {
      assert Concat([l]) == l + Concat([l][1..]);
    } else {
      ConcatSnoc(lines[1..], l);
      assert (lines + [l])[1..] == lines[1..] + [l];
    }
  }

  /** A text that ends with a newline is one line exactly when it has no other. */
  lemma SplitBody(body: string)
    ensures |SplitLines(body + ['\n'])| == 1 <==> '\n' !in body
    ensures '\n' !in body ==> SplitLines(body + ['\n']) == [body + ['\n']]
  {
    var text := body + ['\n'];
    if '\n' !in body {
      assert text[..|text| - 1] == body;
      SplitFirst(text, []);
      assert text + [] == text;
    } else {
      var k := IndexOf(text, '\n');
      var i :| 0 <= i < |body| && body[i] == '\n';
      assert text[i] == '\n' && k <= i;
      assert text[k + 1..] != [];
    }
  }

  // ----- the line that the converter prints and the pass reads -----

  /** What is known about one logged record: its source line and its place in a function. */
  datatype Located = Located(file: string, line: string, func: string, offset: nat)

  function PrintLine(index: nat, l: Located): string {
    Decimal(index) + "\t" + (l.file + ":" + l.line) + "\t" + (l.func + "\t" + Decimal(l.offset)) + "\n"
  }

  datatype Parsed = Bad | Parsed(index: int, file: string, func: string, offset: int)

  datatype Cut = NoCut | Cut(head: string, rest: string)

  /** The text before the first `c`, and the text after it. */
  function CutAt(s: string, c: char): Cut {
    var k := IndexOf(s, c);
    if k == |s| then NoCut else Cut(s[..k], s[k + 1..])
  }

  function ParseRest(index: int, file: string, s: string): Parsed {
    match CutAt(s, '\t')
    case NoCut => Bad
    case Cut(_, afterLine) =>
      match CutAt(afterLine, '\t')
      case NoCut => Bad
      case Cut(func, afterFunc) =>
        match CutAt(afterFunc, '\n')
        case NoCut => Bad
        case Cut(digits, _) =>
          match Number(digits) case None => Bad case Some(offset) => Parsed(index, file, func, offset)
  }

  /** The index and the file name, and the text after them. */
  datatype Head = NoHead | Head(index: int, file: string, rest: string)

  function ParseHead(s: string): Head {
    match CutAt(s, '\t')
    case NoCut => NoHead
    case Cut(digits, afterIndex) =>
      match Number(digits)
      case None => NoHead
      case Some(index) => HeadOf(index, CutAt(afterIndex, ':'))
  }

  function HeadOf(index: int, c: Cut): Head {
    match c case NoCut => NoHead case Cut(file, rest) => Head(index, file, rest)
  }

  function ParseLine(s: string): Parsed {
    match ParseHead(s) case NoHead => Bad case Head(index, file, rest) => ParseRest(index, file, rest)
  }

  /** The parts of a line that can be parsed. */
  datatype Parts = Parts(index: string, file: string, line: string, func: string, offset: string, rest: string)

  ghost predicate MadeOf(s: string, p: Parts) {
    && s == p.index + ['\t'] + (p.file + [':'] +
            (p.line + ['\t'] + (p.func + ['\t'] + (p.offset + ['\n'] + p.rest))))
    && '\t' !in p.index && ':' !in p.file && '\t' !in p.line && '\t' !in p.func && '\n' !in p.offset
  }

  /** A line is parsed exactly if it is made of such parts, with numbers for index and offset; and then to them. */
  lemma ParseExactly(s: string)
    ensures ParseLine(s) == Bad <==>
      !exists p :: MadeOf(s, p) && Number(p.index).Some? && Number(p.offset).Some?
    ensures forall p :: MadeOf(s, p) && Number(p.index).Some? && Number(p.offset).Some? ==>
      ParseLine(s) == Parsed(Number(p.index).value, p.file, p.func, Number(p.offset).value)
  {
    forall p | MadeOf(s, p) && Number(p.index).Some? && Number(p.offset).Some?
      ensures ParseLine(s) == Parsed(Number(p.index).value, p.file, p.func, Number(p.offset).value)
    {
      ParseMade(s, p);
    }
    if ParseLine(s) != Bad {
      var p := PartsOf(s);
    }
  }

  lemma ParseMade(s: string, p: Parts)
    requires MadeOf(s, p) && Number(p.index).Some? && Number(p.offset).Some?
    ensures ParseLine(s) == Parsed(Number(p.index).value, p.file, p.func, Number(p.offset).value)
  {
    var e := p.offset + ['\n'] + p.rest;
    var d := p.func + ['\t'] + e;
    var c := p.line + ['\t'] + d;
    CutJoined(p.index, '\t', p.file + [':'] + c);
    CutJoined(p.file, ':', c);
    RestMade(Number(p.index).value, p);
  }

  lemma RestMade(index: int, p: Parts)
    requires '\t' !in p.line && '\t' !in p.func && '\n' !in p.offset && Number(p.offset).Some?
    ensures
      var c := p.line + ['\t'] + (p.func + ['\t'] + (p.offset + ['\n'] + p.rest));
      ParseRest(index, p.file, c) == Parsed(index, p.file, p.func, Number(p.offset).value)
  {
    var e := p.offset + ['\n'] + p.rest;
    var d := p.func + ['\t'] + e;
    CutJoined(p.line, '\t', d);
    CutJoined(p.func, '\t', e);
    CutJoined(p.offset, '\n', p.rest);
  }

  lemma PartsOf(s: string) returns (p: Parts)
    requires ParseLine(s) != Bad
    ensures MadeOf(s, p) && Number(p.index).Some? && Number(p.offset).Some?
  {
    var b := CutBack(s, '\t');
    var c := CutBack(b.rest, ':');
    var line, func, offset, rest := RestParts(Number(b.head).value, c.head, c.rest);
    p := Parts(b.head, c.head, line, func, offset, rest);
  }

  lemma RestParts(index: int, file: string, s: string)
    returns (line: string, func: string, offset: string, rest: string)
    requires ParseRest(index, file, s) != Bad
    ensures s == line + ['\t'] + (func + ['\t'] + (offset + ['\n'] + rest))
    ensures '\t' !in line && '\t' !in func && '\n' !in offset && Number(offset).Some?
  {
    var d := CutBack(s, '\t');
    var e := CutBack(d.rest, '\t');
    var f := CutBack(e.rest, '\n');
    line, func, offset, rest := d.head, e.head, f.head, f.rest;
  }

  /** Cutting loses nothing but the delimiter. */
  lemma CutBack(s: string, c: char) returns (r: Cut)
    requires CutAt(s, c).Cut?
    ensures r == CutAt(s, c) && s == r.head + [c] + r.rest && c !in r.head
  {
    r := CutAt(s, c);
  }

  lemma CutJoined(a: string, c: char, b: string)
    ensures c !in a ==> CutAt(a + [c] + b, c) == Cut(a, b)
    ensures c in a ==> CutAt(a + [c] + b, c).Cut? && CutAt(a + [c] + b, c).head != a
  {
    var s := a + [c] + b;
    var k := IndexOf(s, c);
    assert s[|a|] == c;
    if c !in a {
      assert forall i :: 0 <= i < |a| ==> s[i] == a[i] && a[i] in a;
      assert k == |a|;
      assert s[..k] == a && s[k + 1..] == b;
    } else {
      var i :| 0 <= i < |a| && a[i] == c;
      assert s[i] == c;
      assert |s[..k]| < |a|;
    }
  }

  lemma DecimalHasNo(n: nat, c: char)
    requires c == '\t' || c == '\n' || c == ':'
    ensures c !in Decimal(n)
  {
    DecimalShape(n);
  }

  lemma LineParses(index: nat, l: Located)
    requires index < LIMIT && l.offset < LIMIT && '\t' !in l.line
    ensures ParseLine(PrintLine(index, l)) == Parsed(index, l.file, l.func, l.offset)
            <==> ':' !in l.file && '\t' !in l.func
  {
    var rest := l.line + ['\t'] + (l.func + ['\t'] + (Decimal(l.offset) + ['\n'] + []));
    var afterIndex := l.file + [':'] + rest;
    assert PrintLine(index, l) == Decimal(index) + ['\t'] + afterIndex;
    IndexParses(index, afterIndex);
    CutJoined(l.file, ':', rest);
    if ':' !in l.file {
      RestRoundTrip(index, l);
    }
  }

  lemma IndexParses(index: nat, after: string)
    requires index < LIMIT
    ensures ParseHead(Decimal(index) + ['\t'] + after) == HeadOf(index, CutAt(after, ':'))
  {
    DecimalHasNo(index, '\t');
    NumberOfDecimal(index);
    CutJoined(Decimal(index), '\t', after);
  }

  /** The parsed lines of a text. */
  function ParseText(text: string): seq<Parsed> {
    var lines := SplitLines(text);
    seq(|lines|, i requires 0 <= i < |lines| => ParseLine(lines[i]))
  }

  predicate OneLine(l: Located) {
    '\n' !in l.file && '\n' !in l.line && '\n' !in l.func
  }

  lemma PrintedBody(index: nat, l: Located) returns (body: string)
    ensures PrintLine(index, l) == body + ['\n']
    ensures '\n' !in body <==> OneLine(l)
  {
    body := Decimal(index) + "\t" + (l.file + ":" + l.line) + "\t" + (l.func + "\t" + Decimal(l.offset));
    DecimalHasNo(index, '\n');
    DecimalHasNo(l.offset, '\n');
  }

  /** Round trip of one printed line, as a text that is read line by line: it is read back as printed exactly
      when the file name has no colon, the function name no tab, and nothing in it a newline. */
  lemma LineRoundTrip(index: nat, l: Located)
    requires index < LIMIT && l.offset < LIMIT && '\t' !in l.line
    ensures ParseText(PrintLine(index, l)) == [Parsed(index, l.file, l.func, l.offset)]
            <==> ':' !in l.file && '\t' !in l.func && OneLine(l)
  {
    var body := PrintedBody(index, l);
    ParseBody(body, Parsed(index, l.file, l.func, l.offset));
    LineParses(index, l);
  }

  lemma ParseBody(body: string, goal: Parsed)
    ensures ParseText(body + ['\n']) == [goal] <==> '\n' !in body && ParseLine(body + ['\n']) == goal
  {
    var text := body + ['\n'];
    SplitBody(body);
    assert |ParseText(text)| == |SplitLines(text)|;
    if '\n' !in body {
      assert ParseText(text)[0] == ParseLine(text);
      assert ParseLine(text) == goal ==> ParseText(text) == [goal];
    }
  }

  lemma RestRoundTrip(index: nat, l: Located)
    requires l.offset < LIMIT && '\t' !in l.line
    ensures
      var rest := l.line + ['\t'] + (l.func + ['\t'] + (Decimal(l.offset) + ['\n'] + []));
      ParseRest(index, l.file, rest) == Parsed(index, l.file, l.func, l.offset) <==> '\t' !in l.func
  {
    var digits := Decimal(l.offset) + ['\n'] + [];
    var tail := l.func + ['\t'] + digits;
    CutJoined(l.line, '\t', tail);
    CutJoined(l.func, '\t', digits);
    DecimalHasNo(l.offset, '\n');
    CutJoined(Decimal(l.offset), '\n', []);
    NumberOfDecimal(l.offset);
  }

  // ----- the whole file -----

  /** A location that the debug information does not know is left out of the file. */
  predicate Unknown(l: Located) {
    var text := l.file + ":" + l.line;
    |text| >= 4 && text[0] == '?' && text[1] == '?' && text[2] == ':' && text[3] == '0'
  }

  /** Without a colon in the file name, that is line 0 of the unknown file. */
  lemma UnknownIs(l: Located)
    requires ':' !in l.file
    ensures Unknown(l) <==> l.file == "??" && |l.line| > 0 && l.line[0] == '0'
  {
    var f, text := l.file, l.file + ":" + l.line;
    assert forall i :: 0 <= i < |f| ==> text[i] == f[i] && f[i] in f;
    assert text[|f|] == ':';
    assert |l.line| > 0 ==> text[|f| + 1] == l.line[0];
  }

  predicate IsUnknown(name: string) {
    |name| >= 4 && name[..4] == "??:0"
  }

  function LinesOf(log: seq<Located>): seq<string> {
    if log == [] then []
    else
      var n := |log| - 1;
      LinesOf(log[..n]) + if Unknown(log[n]) then [] else [PrintLine(n, log[n])]
  }

  predicate EndsLine(s: string) {
    |s| > 0 && s[|s| - 1] == '\n'
  }

  /** The lines put together from the first `n` pairs of lines; none after a line without its newline, where the
      program's assertion fails. */
  function CombineLines(names: seq<string>, funcs: seq<string>, n: nat): Option<seq<string>>
    requires n <= |names| && n <= |funcs|
  {
    if n == 0 then Some([])
    else
      match CombineLines(names, funcs, n - 1)
      case None => None
      case Some(before) =>
        var name, func := names[n - 1], funcs[n - 1];
        if IsUnknown(name) then Some(before)
        else if !EndsLine(name) || !EndsLine(func) then None
        else Some(before + [Decimal(n - 1) + "\t" + name[..|name| - 1] + "\t" + func[..|func| - 1] + "\n"])
  }

  function Pairs(names: seq<string>, funcs: seq<string>): nat {
    if |names| <= |funcs| then |names| else |funcs|
  }

  /** The file that is made of the two texts. */
  function CombineText(filenames: string, functions: string): Option<string> {
    var names, funcs := SplitLines(filenames), SplitLines(functions);
    match CombineLines(names, funcs, Pairs(names, funcs))
    case None => None
    case Some(lines) => Some(Concat(lines))
  }

  /** Numbers each line with the position of its record, also after lines that are left out. */
  method Combine(filenames: string, functions: string) returns (ok: bool, text: string)
    ensures CombineText(filenames, functions) == if ok then Some(text) else None
  {
    ok, text := true, [];
    var names, funcs := SplitLines(filenames), SplitLines(functions);
    ghost var lines: seq<string> := [];
    var count := 0;
    while count < |names| && count < |funcs|
      invariant 0 <= count <= |names| && count <= |funcs|
      invariant CombineLines(names, funcs, count) == Some(lines) && text == Concat(lines)
    {
      count := count + 1;
      var name, func := names[count - 1], funcs[count - 1];
      if IsUnknown(name) {
        continue;
      }
      if !EndsLine(name) || !EndsLine(func) {
        NoneStays(names, funcs, count, Pairs(names, funcs));
        return false, [];
      }
      var line := Decimal(count - 1) + "\t" + name[..|name| - 1] + "\t" + func[..|func| - 1] + "\n";
      ConcatSnoc(lines, line);
      text := text + line;
      lines := lines + [line];
    }
  }

  lemma {:induction false} NoneStays(names: seq<string>, funcs: seq<string>, k: nat, n: nat)
    requires k <= n <= |names| && n <= |funcs| && CombineLines(names, funcs, k) == None
    ensures CombineLines(names, funcs, n) == None
    decreases n
  {
    if k < n {
      NoneStays(names, funcs, k, n - 1);
    }
  }

  // The two texts: source lines, and functions with offsets, one line for each logged record.

  function NameLine(l: Located): string {
    l.file + ":" + l.line + "\n"
  }

  function FuncLine(l: Located): string {
    l.func + "\t" + Decimal(l.offset) + "\n"
  }

  function NameLines(log: seq<Located>): seq<string> {
    seq(|log|, i requires 0 <= i < |log| => NameLine(log[i]))
  }

  function FuncLines(log: seq<Located>): seq<string> {
    seq(|log|, i requires 0 <= i < |log| => FuncLine(log[i]))
  }

  lemma AreLines(l: Located)
    requires OneLine(l)
    ensures IsLine(NameLine(l)) && IsLine(FuncLine(l))
  {
    DecimalHasNo(l.offset, '\n');
    assert NameLine(l)[..|NameLine(l)| - 1] == l.file + ":" + l.line;
    assert FuncLine(l)[..|FuncLine(l)| - 1] == l.func + "\t" + Decimal(l.offset);
  }

  lemma IsPrinted(l: Located, n: nat)
    ensures
      var name, func := NameLine(l), FuncLine(l);
      && EndsLine(name) && EndsLine(func) && (IsUnknown(name) <==> Unknown(l))
      && Decimal(n) + "\t" + name[..|name| - 1] + "\t" + func[..|func| - 1] + "\n" == PrintLine(n, l)
  {
    var name, func, text := NameLine(l), FuncLine(l), l.file + ":" + l.line;
    assert name == text + "\n" && name[..|name| - 1] == text;
    assert func[..|func| - 1] == l.func + "\t" + Decimal(l.offset);
    var mark := "??:0";
    assert |name| >= 4 ==> (name[..4] == mark <==> forall i :: 0 <= i < 4 ==> name[i] == mark[i]);
  }

  lemma {:induction false} CombinesTo(log: seq<Located>, n: nat)
    requires n <= |log|
    ensures CombineLines(NameLines(log), FuncLines(log), n) == Some(LinesOf(log[..n]))
  {
    if n > 0 {
      CombinesTo(log, n - 1);
      IsPrinted(log[n - 1], n - 1);
      assert log[..n][..n - 1] == log[..n - 1];
      assert LinesOf(log[..n - 1]) + [] == LinesOf(log[..n - 1]);
    }
  }

  /** The converter's two intermediate texts are put together to the lines of the log. */
  lemma CombinePrinted(log: seq<Located>)
    requires forall i :: 0 <= i < |log| ==> OneLine(log[i])
    ensures CombineText(Concat(NameLines(log)), Concat(FuncLines(log))) == Some(Concat(LinesOf(log)))
  {
    forall i | 0 <= i < |log| ensures IsLine(NameLines(log)[i]) && IsLine(FuncLines(log)[i]) {
      AreLines(log[i]);
    }
    SplitConcat(NameLines(log));
    SplitConcat(FuncLines(log));
    CombinesTo(log, |log|);
    assert log[..|log|] == log;
  }

  datatype Sample = Sample(index: int, offset: int)

  datatype LineResult = Error | Skip | Got(sample: Sample)

  /** A line for another source file is skipped before the rest of it is looked at. */
  function ReadLine(s: string, file: string, func: string): LineResult {
    match ParseHead(s)
    case NoHead => Error
    case Head(index, f, rest) =>
      if f != file then Skip
      else
        match ParseRest(index, f, rest)
        case Bad => Error
        case Parsed(_, _, g, offset) => if g != func then Skip else Got(Sample(index, offset))
  }

  /** A line gives a sample exactly if it is parsed to the file and function wanted. It is an error exactly if it cannot
      be parsed, unless its index and file can and the file is another one. */
  lemma ReadLineExactly(s: string, file: string, func: string)
    ensures forall i, o :: ReadLine(s, file, func) == Got(Sample(i, o)) <==> ParseLine(s) == Parsed(i, file, func, o)
    ensures ReadLine(s, file, func) == Error <==>
      ParseLine(s) == Bad && !(ParseHead(s).Head? && ParseHead(s).file != file)
  {
  }

  /** Reading is the same whatever is done with a line. */
  type LineReader = string -> LineResult

  function ReaderOf(file: string, func: string): LineReader {
    s => ReadLine(s, file, func)
  }

  /** The lines in order; a line that cannot be parsed ends the reading without samples. */
  function ReadLines(lines: seq<string>, read: LineReader): Option<seq<Sample>> {
    if lines == [] then Some([])
    else
      match ReadLines(lines[..|lines| - 1], read)
      case None => None
      case Some(before) => Extended(before, read(lines[|lines| - 1]))
  }

  function Extended(before: seq<Sample>, r: LineResult): Option<seq<Sample>> {
    match r
    case Error => None
    case Skip => Some(before)
    case Got(sample) => Some(before + [sample])
  }

  method Read(text: string, read: LineReader) returns (ok: bool, samples: seq<Sample>)
    ensures ReadLines(SplitLines(text), read) == if ok then Some(samples) else None
  {
    ok, samples := true, [];
    var lines := SplitLines(text);
    for i := 0 to |lines|
      invariant ok && ReadLines(lines[..i], read) == Some(samples)
    {
      assert lines[..i + 1][..i] == lines[..i];
      match read(lines[i]) {
        case Error =>
          BadLineStays(lines, i + 1, read);
          return false, [];
        case Skip =>
        case Got(sample) => samples := samples + [sample];
      }
    }
    assert lines[..|lines|] == lines;
  }

  lemma {:induction false} BadLineStays(lines: seq<string>, i: nat, read: LineReader)
    requires i <= |lines| && ReadLines(lines[..i], read) == None
    ensures ReadLines(lines, read) == None
    decreases |lines| - i
  {
    if i == |lines| {
      assert lines[..i] == lines;
    } else {
      assert lines[..i + 1][..i] == lines[..i];
      BadLineStays(lines, i + 1, read);
    }
  }

  /** Reading fails exactly if some line cannot be parsed; otherwise it yields the samples of the lines that have one,
      in order. */
  lemma {:induction false} ReadExactly(lines: seq<string>, read: LineReader)
    ensures ReadLines(lines, read) == None <==> Yields(lines, read, Error)
    ensures ReadLines(lines, read).Some? ==>
      forall x :: x in ReadLines(lines, read).value <==> Yields(lines, read, Got(x))
  {
    if lines != [] {
      var n := |lines| - 1;
      ReadExactly(lines[..n], read);
      forall r ensures Yields(lines, read, r) <==> read(lines[n]) == r || Yields(lines[..n], read, r) {
        YieldsSplit(lines, read, r);
      }
    }
  }

  ghost predicate Yields(lines: seq<string>, read: LineReader, r: LineResult) {
    exists i :: 0 <= i < |lines| && read(lines[i]) == r
  }

  lemma YieldsSplit(lines: seq<string>, read: LineReader, r: LineResult)
    requires lines != []
    ensures
      var n := |lines| - 1;
      Yields(lines, read, r) <==> read(lines[n]) == r || Yields(lines[..n], read, r)
  {
    var n := |lines| - 1;
    if i :| 0 <= i < |lines| && read(lines[i]) == r {
      assert i < n ==> lines[..n][i] == lines[i];
    }
    if i :| 0 <= i < n && read(lines[..n][i]) == r {
      assert lines[i] == lines[..n][i];
    }
  }

  /** The samples of one function of one source file, with the indices of their records. */
  function SamplesOf(log: seq<Located>, file: string, func: string): seq<Sample> {
    if log == [] then []
    else
      var n := |log| - 1;
      SamplesOf(log[..n], file, func) + SampleAt(n, log[n], file, func)
  }

  /** Line 0 of the unknown file is no location. */
  function SampleAt(n: nat, l: Located, file: string, func: string): seq<Sample> {
    if l.file != file || l.func != func || (file == "??" && |l.line| > 0 && l.line[0] == '0') then []
    else [Sample(n, l.offset)]
  }

  ghost predicate Printable(l: Located) {
    ':' !in l.file && '\t' !in l.func && '\t' !in l.line && OneLine(l) && l.offset < LIMIT
  }

  lemma ReadPrinted(n: nat, l: Located, file: string, func: string)
    requires n < LIMIT && Printable(l)
    ensures ReadLine(PrintLine(n, l), file, func) == Expected(n, l, file, func)
  {
    LineParses(n, l);
  }

  function Expected(n: nat, l: Located, file: string, func: string): LineResult {
    if l.file == file && l.func == func then Got(Sample(n, l.offset)) else Skip
  }

  ghost predicate ReadsBack(read: LineReader, file: string, func: string) {
    forall n: nat, l :: n < LIMIT && Printable(l) ==> read(PrintLine(n, l)) == Expected(n, l, file, func)
  }

  lemma {:induction false} ReadsWholeFile(log: seq<Located>, read: LineReader, file: string, func: string)
    requires |log| < LIMIT && forall i :: 0 <= i < |log| ==> Printable(log[i])
    requires ReadsBack(read, file, func)
    ensures ReadLines(LinesOf(log), read) == Some(SamplesOf(log, file, func))
  {
    if log != [] {
      var n := |log| - 1;
      var lines, before := LinesOf(log[..n]), SamplesOf(log[..n], file, func);
      ReadsWholeFile(log[..n], read, file, func);
      UnknownIs(log[n]);
      if Unknown(log[n]) {
        assert lines + [] == lines && before + [] == before;
      } else {
        assert read(PrintLine(n, log[n])) == Expected(n, log[n], file, func);
        OneLineMore(lines, PrintLine(n, log[n]), read);
        ExtendedBy(before, n, log[n], file, func);
      }
    }
  }

  lemma OneLineMore(lines: seq<string>, l: string, read: LineReader)
    requires ReadLines(lines, read).Some?
    ensures ReadLines(lines + [l], read) == Extended(ReadLines(lines, read).value, read(l))
  {
    assert (lines + [l])[..|lines|] == lines;
  }

  lemma ExtendedBy(before: seq<Sample>, n: nat, l: Located, file: string, func: string)
    requires ':' !in l.file && !Unknown(l)
    ensures Extended(before, Expected(n, l, file, func)) == Some(before + SampleAt(n, l, file, func))
  {
    UnknownIs(l);
    assert before + [] == before;
  }

  lemma {:induction false} LinesAreLines(log: seq<Located>)
    requires forall i :: 0 <= i < |log| ==> OneLine(log[i])
    ensures forall i :: 0 <= i < |LinesOf(log)| ==> IsLine(LinesOf(log)[i])
  {
    if log != [] {
      var n := |log| - 1;
      LinesAreLines(log[..n]);
      var body := PrintedBody(n, log[n]);
      assert PrintLine(n, log[n])[..|body|] == body;
    }
  }

  lemma FileReadsBack(log: seq<Located>, file: string, func: string)
    requires |log| < LIMIT && forall i :: 0 <= i < |log| ==> Printable(log[i])
    ensures ReadLines(LinesOf(log), ReaderOf(file, func)) == Some(SamplesOf(log, file, func))
  {
    forall n: nat, l | n < LIMIT && Printable(l)
      ensures ReaderOf(file, func)(PrintLine(n, l)) == Expected(n, l, file, func)
    {
      ReadPrinted(n, l, file, func);
    }
    ReadsWholeFile(log, ReaderOf(file, func), file, func);
  }

  /** Round trip of the whole file, text to text: what the pass reads for a function, out of the file put together
      from the converter's two texts, is exactly the records of that function whose location is known, in
      order, each under its own index in the log. */
  lemma FileRoundTrip(log: seq<Located>, file: string, func: string)
    requires |log| < LIMIT && forall i :: 0 <= i < |log| ==> Printable(log[i])
    ensures
      var made := CombineText(Concat(NameLines(log)), Concat(FuncLines(log)));
      made.Some? && ReadLines(SplitLines(made.value), ReaderOf(file, func)) == Some(SamplesOf(log, file, func))
  {
    CombinePrinted(log);
    LinesAreLines(log);
    SplitConcat(LinesOf(log));
    FileReadsBack(log, file, func);
  }
}
