/** The text that the checksum of a book is taken over: figures with nine decimals, price and
    quantity joined by `@`, levels by `|`.

    A strict reader of that format is given beside the printer, and each is shown to be the
    exact inverse of the other. */
module ChecksumText {
  import opened Options
  import opened OrderBook
  import opened FixedDecimal

  // ----- Printing -------------------------------------------------------------------

  function Digit(d: nat): char
    requires d < 10
  {
    ('0' as int + d) as char
  }

  /** The `width` lowest decimal digits of `n`. */
  function Fixed(n: nat, width: nat): (s: string)
    ensures |s| == width
    decreases width
  {
    if width == 0 then [] else Fixed(n / 10, width - 1) + [Digit(n % 10)]
  }

  function Decimal(n: nat): (s: string)
    ensures s != []
  {
    if n < 10 then [Digit(n)] else Decimal(n / 10) + [Digit(n % 10)]
  }

  function Magnitude(m: nat): string { Decimal(m / SCALE) + "." + Fixed(m % SCALE, 9) }

  function Render(x: int): string { if x < 0 then "-" + Magnitude(Abs(x)) else Magnitude(Abs(x)) }

  function RenderLevel(l: Level): string { Render(l.price) + "@" + Render(l.qty) }

  function Mapped<T, U>(s: seq<T>, f: T -> U): (r: seq<U>)
    ensures |r| == |s|
  {
    seq(|s|, i requires 0 <= i < |s| => f(s[i]))
  }

  function Parts(levels: seq<Level>): (r: seq<string>)
    ensures |r| == |levels|
  {
    Mapped(levels, RenderLevel)
  }

  function Join(parts: seq<string>): string {
    if parts == [] then [] else if |parts| == 1 then parts[0] else parts[0] + "|" + Join(parts[1..])
  }

  function Text(levels: seq<Level>): string { Join(Parts(levels)) }

  // ----- Reading --------------------------------------------------------------------

  predicate IsDigit(c: char) { '0' <= c <= '9' }

  predicate AllDigits(s: string) {
    forall i :: 0 <= i < |s| ==> IsDigit(s[i])
  }

  /** The value of a digit. */
  function ValueOf(c: char): int { c as int - 48 }

  /** The number that a run of digits writes. */
  function Number(s: string): int {
    if s == [] then 0 else 10 * Number(s[..|s| - 1]) + ValueOf(s[|s| - 1])
  }

  /** A whole number without leading zeros. */
  predicate IsWhole(s: string) {
    s != [] && AllDigits(s) && (s[0] == '0' ==> |s| == 1)
  }

  /** The figure written by what stands in front of the point and behind it. */
  function Figure(whole: string, decimals: string): Option<int> {
    if IsWhole(whole) && AllDigits(decimals) && |decimals| == 9
    then Some(1_000_000_000 * Number(whole) + Number(decimals))
    else None
  }

  /** A whole number, a point and nine decimals, in units of the ninth. */
  function ReadUnsigned(s: string): Option<int> {
    if |s| < 10 || s[|s| - 10] != '.' then None else Figure(s[..|s| - 10], s[|s| - 9..])
  }

  /** The same with a minus sign in front of what is below zero. */
  function ReadFigure(s: string): Option<int> {
    if s == [] || s[0] != '-' then ReadUnsigned(s) else Negated(ReadUnsigned(s[1..]))
  }

  function Negated(m: Option<int>): Option<int> { if m.Some? && m.value > 0 then Some(-m.value) else None }

  /** Where a separator first occurs; the end when it does not. */
  function First(s: string, sep: char): (k: nat)
    ensures k <= |s|
  {
    if s == [] || s[0] == sep then 0 else 1 + First(s[1..], sep)
  }

  /** A price, an at sign and a quantity. */
  function ReadLevel(s: string): Option<Level> {
    var k := First(s, '@');
    if k == |s| then None else Pair(ReadFigure(s[..k]), ReadFigure(s[k + 1..]))
  }

  function Pair(price: Option<int>, qty: Option<int>): Option<Level> {
    if price.Some? && qty.Some? then Some(Level(price.value, qty.value)) else None
  }

  /** One level or more, with bars between them. */
  function ReadLevels(s: string): Option<seq<Level>> {
    var k := First(s, '|');
    if k == |s| then Prepend(ReadLevel(s), Some([])) else Prepend(ReadLevel(s[..k]), ReadLevels(s[k + 1..]))
  }

  function Prepend(l: Option<Level>, rest: Option<seq<Level>>): Option<seq<Level>> {
    if l.Some? && rest.Some? then Some([l.value] + rest.value) else None
  }

  function Read(s: string): Option<seq<Level>> { if s == [] then Some([]) else ReadLevels(s) }

  // ----- Digits ---------------------------------------------------------------------

  lemma DigitFacts(d: nat)
    requires d < 10
    ensures IsDigit(Digit(d)) && ValueOf(Digit(d)) == d
  {
  }

  lemma ValueFacts(c: char)
    requires IsDigit(c)
    ensures 0 <= ValueOf(c) < 10 && Digit(ValueOf(c)) == c
    ensures ValueOf(c) == 0 <==> c == '0'
  {
  }

  lemma NumberNext(s: string, c: char)
    ensures Number(s + [c]) == 10 * Number(s) + ValueOf(c)
    ensures AllDigits(s + [c]) <==> AllDigits(s) && IsDigit(c)
  {
    assert (s + [c])[..|s|] == s && (s + [c])[|s|] == c;
  }

  function Pow10(k: nat): nat { if k == 0 then 1 else 10 * Pow10(k - 1) }

  lemma BillionIsPow10()
    ensures Pow10(9) == SCALE
  {
    assert Pow10(3) == 1000 && Pow10(6) == 1000 * Pow10(3);
  }

  lemma {:induction false} NumberOfFixed(n: nat, width: nat)
    requires n < Pow10(width)
    ensures AllDigits(Fixed(n, width)) && Number(Fixed(n, width)) == n
    decreases width
  {
    if width > 0 {
      NumberOfFixed(n / 10, width - 1);
      DigitFacts(n % 10);
      NumberNext(Fixed(n / 10, width - 1), Digit(n % 10));
    }
  }

  lemma FixedNext(n: nat, d: nat, width: nat)
    requires d < 10
    ensures Fixed(10 * n + d, width + 1) == Fixed(n, width) + [Digit(d)]
  {
    assert (10 * n + d) / 10 == n && (10 * n + d) % 10 == d;
  }

  lemma DecimalNext(n: nat, d: nat)
    requires d < 10 && n > 0
    ensures Decimal(10 * n + d) == Decimal(n) + [Digit(d)]
  {
    assert (10 * n + d) / 10 == n && (10 * n + d) % 10 == d;
  }

  lemma {:induction false} FixedOfNumber(s: string)
    requires AllDigits(s)
    ensures 0 <= Number(s) < Pow10(|s|) && Fixed(Number(s), |s|) == s
  {
    if s != [] {
      var init, c := s[..|s| - 1], s[|s| - 1];
      assert s == init + [c];
      FixedOfNumber(init);
      ValueFacts(c);
      NumberNext(init, c);
      FixedNext(Number(init), ValueOf(c), |init|);
    }
  }

  lemma {:induction false} NumberOfDecimal(n: nat)
    ensures IsWhole(Decimal(n)) && Number(Decimal(n)) == n && (n > 0 ==> Decimal(n)[0] != '0')
  {
    DigitFacts(n % 10);
    ValueFacts(Digit(n % 10));
    NumberNext(if n < 10 then [] else Decimal(n / 10), Digit(n % 10));
    if n >= 10 {
      NumberOfDecimal(n / 10);
    }
  }

  lemma {:induction false} NumberPositive(s: string)
    requires AllDigits(s)
    ensures Number(s) >= 0 && (s != [] && s[0] != '0' ==> Number(s) > 0)
  {
    if s != [] {
      ValueFacts(s[|s| - 1]);
      NumberPositive(s[..|s| - 1]);
    }
  }

  lemma DecimalStep(init: string, c: char)
    requires IsDigit(c) && Number(init) >= 0
    requires if init == [] then true else Number(init) > 0 && Decimal(Number(init)) == init
    ensures Number(init + [c]) >= 0 && Decimal(Number(init + [c])) == init + [c]
  {
    ValueFacts(c);
    NumberNext(init, c);
    if init != [] {
      DecimalNext(Number(init), ValueOf(c));
    }
  }

  lemma {:induction false} DecimalOfNumber(s: string)
    requires IsWhole(s)
    ensures Number(s) >= 0 && Decimal(Number(s)) == s
  {
    var init, c := s[..|s| - 1], s[|s| - 1];
    NumberPositive(init);
    if init != [] {
      DecimalOfNumber(init);
    }
    DecimalStep(init, c);
    assert s == init + [c];
  }

  // ----- Figures --------------------------------------------------------------------

  lemma MagnitudeParts(m: nat)
    ensures var s := Magnitude(m);
      && |s| >= 11 && s[..|s| - 10] == Decimal(m / SCALE) && s[|s| - 10] == '.'
      && s[|s| - 9..] == Fixed(m % SCALE, 9)
  {
  }

  lemma Recombine(a: nat, b: nat)
    requires b < SCALE
    ensures (SCALE * a + b) / SCALE == a && (SCALE * a + b) % SCALE == b
  {
  }

  lemma MagnitudeOf(a: nat, b: nat)
    requires b < SCALE
    ensures Magnitude(SCALE * a + b) == Decimal(a) + "." + Fixed(b, 9)
  {
    Recombine(a, b);
  }

  lemma FigureOfPrinted(a: nat, b: nat)
    requires b < SCALE
    ensures Figure(Decimal(a), Fixed(b, 9)) == Some(SCALE * a + b)
  {
    NumberOfDecimal(a);
    BillionIsPow10();
    NumberOfFixed(b, 9);
  }

  lemma MagnitudeReads(m: nat)
    ensures ReadUnsigned(Magnitude(m)) == Some(m)
  {
    MagnitudeParts(m);
    FigureOfPrinted(m / SCALE, m % SCALE);
  }

  lemma NineDecimals(decimals: string)
    requires AllDigits(decimals) && |decimals| == 9
    ensures 0 <= Number(decimals) < SCALE && Fixed(Number(decimals), 9) == decimals
  {
    FixedOfNumber(decimals);
    BillionIsPow10();
  }

  lemma PartsPrinted(whole: string, decimals: string, a: nat, b: nat, x: int)
    requires b < SCALE && whole == Decimal(a) && decimals == Fixed(b, 9) && x == 1_000_000_000 * a + b
    ensures x >= 0 && Magnitude(x) == whole + "." + decimals
  {
    MagnitudeOf(a, b);
  }

  lemma FigurePrinted(whole: string, decimals: string, x: int)
    requires Figure(whole, decimals) == Some(x)
    ensures x >= 0 && Magnitude(x) == whole + "." + decimals
  {
    DecimalOfNumber(whole);
    NineDecimals(decimals);
    PartsPrinted(whole, decimals, Number(whole), Number(decimals), x);
  }

  lemma UnsignedPrinted(s: string)
    requires ReadUnsigned(s).Some?
    ensures ReadUnsigned(s).value >= 0 && Magnitude(ReadUnsigned(s).value) == s
  {
    FigurePrinted(s[..|s| - 10], s[|s| - 9..], ReadUnsigned(s).value);
    Rejoin(s, |s| - 10);
  }

  lemma Rejoin(s: string, k: nat)
    requires k < |s|
    ensures s[..k] + [s[k]] + s[k + 1..] == s && s[..k] + ([s[k]] + s[k + 1..]) == s
  {
  }

  lemma MagnitudeStartsWithDigit(m: nat)
    ensures Magnitude(m) != [] && IsDigit(Magnitude(m)[0])
  {
    NumberOfDecimal(m / SCALE);
    assert Magnitude(m)[0] == Decimal(m / SCALE)[0];
  }

  lemma MinusRead(t: string)
    ensures ReadFigure("-" + t) == Negated(ReadUnsigned(t))
  {
    assert ("-" + t)[1..] == t;
  }

  lemma RenderReads(x: int)
    ensures ReadFigure(Render(x)) == Some(x)
  {
    MagnitudeReads(Abs(x));
    MagnitudeStartsWithDigit(Abs(x));
    MinusRead(Magnitude(Abs(x)));
  }

  lemma FigureIsRendered(s: string)
    requires ReadFigure(s).Some?
    ensures Render(ReadFigure(s).value) == s
  {
    if s != [] && s[0] == '-' {
      UnsignedPrinted(s[1..]);
      assert s == "-" + s[1..];
    } else {
      UnsignedPrinted(s);
    }
  }

  /** Reading finds the figure that was printed, and nothing else reads so. */
  lemma RenderExactly(s: string, x: int)
    ensures ReadFigure(s) == Some(x) <==> s == Render(x)
  {
    RenderReads(x);
    if ReadFigure(s) == Some(x) {
      FigureIsRendered(s);
    }
  }

  /** Two figures have one text only if they are the same. */
  lemma RenderInjective(x: int, y: int)
    ensures Render(x) == Render(y) <==> x == y
  {
    RenderExactly(Render(x), x);
    RenderExactly(Render(x), y);
  }

  // ----- Levels ---------------------------------------------------------------------

  ghost predicate Free(s: string, sep: char) {
    forall i :: 0 <= i < |s| ==> s[i] != sep
  }

  lemma {:induction false} FirstIs(a: string, sep: char, t: string)
    requires Free(a, sep)
    ensures First(a + [sep] + t, sep) == |a| && First(a, sep) == |a|
  {
    var s := a + [sep] + t;
    if a != [] {
      assert s[0] == a[0] && s[1..] == a[1..] + [sep] + t;
      FirstIs(a[1..], sep, t);
    }
  }

  lemma {:induction false} FirstFound(s: string, sep: char)
    ensures Free(s[..First(s, sep)], sep) && (First(s, sep) < |s| ==> s[First(s, sep)] == sep)
  {
    if s != [] && s[0] != sep {
      FirstFound(s[1..], sep);
      var k := First(s, sep);
      forall i | 0 <= i < k ensures s[i] != sep {
        assert i > 0 ==> s[i] == s[1..][..k - 1][i - 1];
      }
    }
  }

  lemma Parts3(a: string, sep: char, t: string)
    ensures (a + [sep] + t)[..|a|] == a && (a + [sep] + t)[|a| + 1..] == t && |a + [sep] + t| > |a|
  {
  }

  lemma MagnitudeFree(m: nat)
    ensures Free(Magnitude(m), '@') && Free(Magnitude(m), '|')
  {
    MagnitudeParts(m);
    NumberOfDecimal(m / SCALE);
    BillionIsPow10();
    NumberOfFixed(m % SCALE, 9);
    var a, b, s := Decimal(m / SCALE), Fixed(m % SCALE, 9), Magnitude(m);
    forall i | 0 <= i < |s| ensures s[i] != '@' && s[i] != '|' {
      assert s[i] == if i < |a| then a[i] else if i == |a| then '.' else b[i - |a| - 1];
    }
  }

  lemma RenderFree(x: int)
    ensures Free(Render(x), '@') && Free(Render(x), '|')
  {
    MagnitudeFree(Abs(x));
  }

  lemma LevelFree(l: Level)
    ensures Free(RenderLevel(l), '|') && RenderLevel(l) != []
  {
    RenderFree(l.price);
    RenderFree(l.qty);
  }

  lemma LevelReads(l: Level)
    ensures ReadLevel(RenderLevel(l)) == Some(l)
  {
    RenderFree(l.price);
    FirstIs(Render(l.price), '@', Render(l.qty));
    Parts3(Render(l.price), '@', Render(l.qty));
    RenderReads(l.price);
    RenderReads(l.qty);
  }

  lemma LevelIsRendered(s: string)
    requires ReadLevel(s).Some?
    ensures RenderLevel(ReadLevel(s).value) == s
  {
    var k := First(s, '@');
    FirstFound(s, '@');
    FigureIsRendered(s[..k]);
    FigureIsRendered(s[k + 1..]);
    Rejoin(s, k);
  }

  lemma JoinNext(p: string, parts: seq<string>)
    requires parts != []
    ensures Join([p] + parts) == p + "|" + Join(parts)
  {
    assert ([p] + parts)[1..] == parts;
  }

  lemma MappedPrepend<T, U>(x: T, rest: seq<T>, f: T -> U)
    ensures Mapped([x] + rest, f) == [f(x)] + Mapped(rest, f)
  {
  }

  lemma PartsNext(l: Level, rest: seq<Level>)
    ensures Parts([l] + rest) == [RenderLevel(l)] + Parts(rest)
  {
    MappedPrepend(l, rest, RenderLevel);
  }

  lemma TextOne(l: Level)
    ensures Text([l]) == RenderLevel(l)
  {
    assert Parts([l]) == [RenderLevel(l)];
  }

  lemma TextNext(l: Level, rest: seq<Level>)
    requires rest != []
    ensures Text([l] + rest) == RenderLevel(l) + "|" + Text(rest)
  {
    PartsNext(l, rest);
    JoinNext(RenderLevel(l), Parts(rest));
  }

  lemma OneReads(s: string, l: Level)
    requires Free(s, '|') && ReadLevel(s) == Some(l)
    ensures ReadLevels(s) == Some([l])
  {
    FirstIs(s, '|', []);
    assert s[..|s|] == s && [l] + [] == [l];
  }

  lemma MoreReads(s: string, l: Level, t: string, rest: seq<Level>)
    requires Free(s, '|') && ReadLevel(s) == Some(l) && ReadLevels(t) == Some(rest)
    ensures ReadLevels(s + "|" + t) == Some([l] + rest)
  {
    FirstIs(s, '|', t);
    Parts3(s, '|', t);
  }

  lemma {:induction false} TextReads(levels: seq<Level>)
    requires levels != []
    ensures ReadLevels(Text(levels)) == Some(levels) && Text(levels) != []
  {
    var l, rest := levels[0], levels[1..];
    assert levels == [l] + rest;
    LevelFree(l);
    LevelReads(l);
    if rest == [] {
      TextOne(l);
      OneReads(RenderLevel(l), l);
    } else {
      TextReads(rest);
      TextNext(l, rest);
      MoreReads(RenderLevel(l), l, Text(rest), rest);
    }
  }

  lemma {:induction false} ReadIsPrinted(s: string)
    requires ReadLevels(s).Some?
    ensures ReadLevels(s).value != [] && Text(ReadLevels(s).value) == s
  {
    var k := First(s, '|');
    FirstFound(s, '|');
    assert k == |s| ==> s[..k] == s;
    LevelIsRendered(s[..k]);
    if k == |s| {
      TextOne(ReadLevel(s).value);
    } else {
      ReadIsPrinted(s[k + 1..]);
      TextNext(ReadLevel(s[..k]).value, ReadLevels(s[k + 1..]).value);
      Rejoin(s, k);
    }
  }

  /** Reading a text gives a list of levels if and only if the text is the printed list. */
  lemma TextExactly(s: string, levels: seq<Level>)
    ensures Read(s) == Some(levels) <==> s == Text(levels)
  {
    if levels != [] {
      TextReads(levels);
    }
    if s != [] && Read(s) == Some(levels) {
      ReadIsPrinted(s);
    }
  }

  /** The joined text determines the list of levels. */
  lemma TextInjective(x: seq<Level>, y: seq<Level>)
    ensures Text(x) == Text(y) <==> x == y
  {
    TextExactly(Text(x), x);
    TextExactly(Text(x), y);
  }

  // ----- Bytes ----------------------------------------------------------------------

  predicate Ascii(s: string) {
    forall i :: 0 <= i < |s| ==> s[i] <= '~'
  }

  /** The byte of an ASCII character; the text has no others. */
  function Byte(c: char): bv8 { if c <= '~' then c as bv8 else 0 }

  function Encoded(s: string): (r: seq<bv8>)
    ensures |r| == |s|
  {
    seq(|s|, i requires 0 <= i < |s| => Byte(s[i]))
  }

  lemma ByteValue(c: char)
    requires c <= '~'
    ensures Byte(c) as int == c as int
  {
  }

  /** Each byte is the code of its character. */
  lemma EncodedExactly(s: string, bytes: seq<bv8>)
    requires Ascii(s)
    ensures bytes == Encoded(s) <==> |bytes| == |s| && forall i :: 0 <= i < |s| ==> bytes[i] as int == s[i] as int
  {
    forall i | 0 <= i < |s| ensures Encoded(s)[i] as int == s[i] as int {
      ByteValue(s[i]);
    }
  }

  lemma EncodedInjective(s: string, t: string)
    requires Ascii(s) && Ascii(t)
    ensures Encoded(s) == Encoded(t) <==> s == t
  {
    if Encoded(s) == Encoded(t) {
      EncodedExactly(s, Encoded(s));
      EncodedExactly(t, Encoded(t));
    }
  }

  lemma EncodedConcat(s: string, t: string)
    ensures Encoded(s + t) == Encoded(s) + Encoded(t)
  {
  }

  lemma AsciiConcat(s: string, t: string)
    ensures Ascii(s + t) <==> Ascii(s) && Ascii(t)
  {
    assert forall i :: 0 <= i < |s| ==> s[i] == (s + t)[i];
    assert forall i :: 0 <= i < |t| ==> t[i] == (s + t)[|s| + i];
  }

  lemma RenderAscii(x: int)
    ensures Ascii(Render(x))
  {
    var m := Abs(x);
    MagnitudeParts(m);
    NumberOfDecimal(m / SCALE);
    BillionIsPow10();
    NumberOfFixed(m % SCALE, 9);
    AsciiConcat(Decimal(m / SCALE) + ".", Fixed(m % SCALE, 9));
    AsciiConcat(Decimal(m / SCALE), ".");
    AsciiConcat("-", Magnitude(m));
  }

  lemma LevelAscii(l: Level)
    ensures Ascii(RenderLevel(l))
  {
    RenderAscii(l.price);
    RenderAscii(l.qty);
    AsciiConcat(Render(l.price) + "@", Render(l.qty));
    AsciiConcat(Render(l.price), "@");
  }

  lemma {:induction false} TextAscii(levels: seq<Level>)
    ensures Ascii(Text(levels))
  {
    if levels != [] {
      var l, rest := levels[0], levels[1..];
      assert levels == [l] + rest;
      LevelAscii(l);
      if rest == [] {
        TextOne(l);
      } else {
        TextAscii(rest);
        TextNext(l, rest);
        AsciiConcat(RenderLevel(l) + "|", Text(rest));
        AsciiConcat(RenderLevel(l), "|");
      }
    }
  }

  // ----- An example -----------------------------------------------------------------

  lemma NumberPrefix(s: string, k: nat)
    requires k < |s|
    ensures Number(s[..k + 1]) == 10 * Number(s[..k]) + ValueOf(s[k])
  {
    assert s[..k + 1] == s[..k] + [s[k]];
    NumberNext(s[..k], s[k]);
  }

  lemma {:induction false} LeadingZeros(s: string, k: nat)
    requires k <= |s| && forall i :: 0 <= i < k ==> s[i] == '0'
    ensures Number(s[..k]) == 0
  {
    if k > 0 {
      LeadingZeros(s, k - 1);
      NumberPrefix(s, k - 1);
    }
  }

  /** `n` with `k` zeros behind it. */
  function Shifted(n: int, k: nat): int { if k == 0 then n else 10 * Shifted(n, k - 1) }

  lemma ShiftedSix(n: int)
    ensures Shifted(n, 6) == 1_000_000 * n
  {
    assert Shifted(n, 1) == 10 * n;
    assert Shifted(n, 3) == 1000 * n;
    assert Shifted(n, 5) == 100_000 * n;
  }

  /** What stands behind the third digit is zero. */
  lemma {:induction false} TrailingZeros(s: string, k: nat)
    requires 3 <= k <= |s| && forall i :: 3 <= i < k ==> s[i] == '0'
    ensures Number(s[..k]) == Shifted(100 * ValueOf(s[0]) + 10 * ValueOf(s[1]) + ValueOf(s[2]), k - 3)
  {
    NumberPrefix(s, k - 1);
    if k > 3 {
      TrailingZeros(s, k - 1);
    } else {
      NumberPrefix(s, 0);
      NumberPrefix(s, 1);
    }
  }

  lemma FigureIs(s: string, x: nat)
    requires |s| >= 11 && s[|s| - 10] == '.' && IsWhole(s[..|s| - 10]) && AllDigits(s[|s| - 9..])
    requires x == 1_000_000_000 * Number(s[..|s| - 10]) + Number(s[|s| - 9..])
    ensures Render(x) == s
  {
    NumberPositive(s[..|s| - 10]);
    NumberPositive(s[|s| - 9..]);
    UnsignedPrinted(s);
  }

  lemma Whole(s: string)
    requires |s| == 3
    ensures Number(s) == 100 * ValueOf(s[0]) + 10 * ValueOf(s[1]) + ValueOf(s[2])
  {
    assert s[..3] == s;
    TrailingZeros(s, 3);
  }

  lemma Decimals(s: string)
    requires |s| == 9 && forall i :: 3 <= i < 9 ==> s[i] == '0'
    ensures Number(s) == 1_000_000 * (100 * ValueOf(s[0]) + 10 * ValueOf(s[1]) + ValueOf(s[2]))
  {
    var n := 100 * ValueOf(s[0]) + 10 * ValueOf(s[1]) + ValueOf(s[2]);
    assert s[..9] == s;
    ShiftedSix(n);
    TrailingZeros(s, 9);
  }

  /** Three digits, a point and three more, then zeros. */
  lemma LongFigure(s: string, x: nat)
    requires |s| == 13 && s[3] == '.' && s[0] != '0' && forall i :: 0 <= i < 13 && i != 3 ==> IsDigit(s[i])
    requires forall i :: 7 <= i < 13 ==> s[i] == '0'
    requires x == 1_000_000_000 * (100 * ValueOf(s[0]) + 10 * ValueOf(s[1]) + ValueOf(s[2]))
                  + 1_000_000 * (100 * ValueOf(s[4]) + 10 * ValueOf(s[5]) + ValueOf(s[6]))
    ensures Render(x) == s
  {
    Whole(s[..3]);
    Decimals(s[4..]);
    FigureIs(s, x);
  }

  /** One digit, a point and zeros up to the last digit. */
  lemma ShortFigure(s: string, x: nat)
    requires |s| == 11 && s[1] == '.' && forall i :: 0 <= i < 11 && i != 1 ==> IsDigit(s[i])
    requires forall i :: 2 <= i < 10 ==> s[i] == '0'
    requires x == 1_000_000_000 * ValueOf(s[0]) + ValueOf(s[10])
    ensures Render(x) == s
  {
    var whole, decimals := s[..1], s[2..];
    assert whole[..1] == whole && decimals[..9] == decimals;
    NumberPrefix(whole, 0);
    LeadingZeros(decimals, 8);
    NumberPrefix(decimals, 8);
    FigureIs(s, x);
  }

  lemma ExamplePrices(x: int, y: int)
    requires x == 100_500_000_000 && y == 101_250_000_000
    ensures Render(x) == "100.500000000" && Render(y) == "101.250000000"
  {
    LongFigure("100.500000000", x);
    LongFigure("101.250000000", y);
  }

  lemma ExampleQuantities(x: int, y: int)
    requires x == 2_000_000_000 && y == 1
    ensures Render(x) == "2.000000000" && Render(y) == "0.000000001"
  {
    ShortFigure("2.000000000", x);
    ShortFigure("0.000000001", y);
  }

  lemma ExampleJoined()
    ensures "100.500000000" + "@" + "2.000000000" + "|" + "101.250000000" + "@" + "0.000000001" ==
      "100.500000000@2.000000000|101.250000000@0.000000001"
  {
  }

  /** Bid 100.5 for 2, ask 101.25 for 0.000000001. */
  lemma TextExample(bid: Level, ask: Level)
    requires bid == Level(100_500_000_000, 2_000_000_000) && ask == Level(101_250_000_000, 1)
    ensures Text([bid, ask]) == "100.500000000@2.000000000|101.250000000@0.000000001"
  {
    ExamplePrices(bid.price, ask.price);
    ExampleQuantities(bid.qty, ask.qty);
    TextOne(ask);
    TextNext(bid, [ask]);
    assert [bid] + [ask] == [bid, ask];
    assert Text([bid, ask]) ==
      "100.500000000" + "@" + "2.000000000" + "|" + "101.250000000" + "@" + "0.000000001";
    ExampleJoined();
  }
}
