/**
 * The test table of src/format.rs, proved about the model: the default
 * template, the newline count, thirteen renderings and six templates that
 * do not parse. Each template is read left to right with the laws of
 * `ParseLaws`, one directive or one run of text at a time.
 */
module FormatExamples {
  import opened Wrappers
  import opened Numerals
  import opened Pieces
  import opened Syntax
  import opened ParseLaws

  // ---------------------------------------------------------------------
  // Reading a template piece by piece

  /** The template `p` parses, and its directives display at `d` as `out`. */
  ghost predicate Shows(p: string, d: Duration, out: string) {
    Scan(p).Ok? && ItemsText(Scan(p).value, d) == out
  }

  lemma ShowsText(p: string, d: Duration, out: string, a: string)
    requires Shows(p, d, out) && Plain(a)
    ensures Shows(p + a, d, out + a)
  {
    PlainScan(a);
    ScanAppend(p, a);
    ItemsTextAppend(Scan(p).value, Lits(a), d);
    LitsText(a, d);
  }

  lemma ShowsField(p: string, d: Duration, out: string, c: char, f: Piece)
    requires Shows(p, d, out) && PercentItem(c) == Some(Field(f))
    ensures Shows(p + ['%', c], d, out + PieceText(f, d))
  {
    LetterDirective(p, c, []);
    assert p + ['%', c] + [] == p + ['%', c];
    assert Scan(p).value + [Field(f)] + [] == Scan(p).value + [Field(f)];
    ItemsTextAppend(Scan(p).value, [Field(f)], d);
  }

  lemma ShowsSpecial(p: string, d: Duration, out: string, c: char, x: char)
    requires Shows(p, d, out) && PercentItem(c) == Some(Lit(x))
    ensures Shows(p + ['%', c], d, out + [x])
  {
    LetterDirective(p, c, []);
    assert p + ['%', c] + [] == p + ['%', c];
    assert Scan(p).value + [Lit(x)] + [] == Scan(p).value + [Lit(x)];
    ItemsTextAppend(Scan(p).value, [Lit(x)], d);
  }

  lemma ShowsEscape(p: string, d: Duration, out: string, c: char)
    requires Shows(p, d, out) && EscapedChar(c).Some?
    ensures Shows(p + ['\\', c], d, out + [EscapedChar(c).value])
  {
    EscapeDirective(p, c, []);
    var item := Lit(EscapedChar(c).value);
    assert p + ['\\', c] + [] == p + ['\\', c];
    assert Scan(p).value + [item] + [] == Scan(p).value + [item];
    ItemsTextAppend(Scan(p).value, [item], d);
  }

  /** A directive `x` read in full after the template `p`: its meaning follows `out`. */
  lemma ShowsDirective(p: string, d: Duration, out: string, x: string)
    requires Shows(p, d, out) && x != [] && Step(x).Ok? && Step(x).value.1 == |x|
    ensures Shows(p + x, d, out + ItemsText([Step(x).value.0], d))
  {
    var item := Step(x).value.0;
    DirectiveAt(p, x, []);
    assert p + x + [] == p + x;
    assert Scan(p).value + [item] + [] == Scan(p).value + [item];
    ItemsTextAppend(Scan(p).value, [item], d);
  }

  lemma PrecisionStep(digits: string)
    requires digits != [] && AllDigits(digits) && DigitsValue(digits) <= U32_MAX
    ensures Step("%" + digits + "f") == Ok((Field(Subseconds(DigitsValue(digits))), |digits| + 2))
  {
    var x := "%" + digits + "f";
    var j := |digits| + 1;
    assert x[1..j] == digits;
    assert x[j] == 'f';
    StepPrecision(x, j);
  }

  lemma ShowsPrecision(p: string, d: Duration, out: string, digits: string)
    requires Shows(p, d, out) && digits != [] && AllDigits(digits) && DigitsValue(digits) <= U32_MAX
    ensures Shows(p + ("%" + digits + "f"), d, out + SubsecondText(d.nanos, DigitsValue(digits)))
  {
    var x := "%" + digits + "f";
    var f := Subseconds(DigitsValue(digits));
    assert Step(x) == Ok((Field(f), |x|)) by {
      PrecisionStep(digits);
    }
    assert ItemsText([Field(f)], d) == SubsecondText(d.nanos, DigitsValue(digits)) by {
      FieldText(f, d);
    }
    ShowsDirective(p, d, out, x);
  }

  /** A single field directive displays as its piece. */
  lemma FieldText(f: Piece, d: Duration)
    ensures ItemsText([Field(f)], d) == PieceText(f, d)
  {
    assert [Field(f)][..0] == [];
  }

  /** What `Format::display` returns for a template read in full. */
  lemma ShowsDisplay(s: string, d: Duration, out: string)
    requires Shows(s, d, out)
    ensures Parse(s).Ok? && Render(Parse(s).value, d) == out
  {
    ParseRender(s, d);
  }

  /** The template `p` parses to the pieces `ps`, which hold `n` newlines. */
  ghost predicate Builds(p: string, ps: seq<Piece>, n: nat) {
    Scan(p).Ok? && Assemble([], Scan(p).value) == ps && Coalesced(ps) && LiteralNewlines(ps) == n
  }

  lemma BuildsText(p: string, ps: seq<Piece>, n: nat, a: string, k: nat)
    requires Builds(p, ps, n) && Plain(a) && k == multiset(a)['\n']
    ensures Builds(p + a, WithText(ps, a), n + k)
  {
    PlainScan(a);
    ScanAppend(p, a);
    AssembleAppend([], Scan(p).value, Lits(a));
    AssembleLits(ps, a);
    AssembleShape(ps, Lits(a));
    LitsNewlines(a);
  }

  lemma BuildsLetter(p: string, ps: seq<Piece>, n: nat, c: char)
    requires Builds(p, ps, n) && PercentItem(c).Some?
    ensures Builds(p + ['%', c], AddItem(ps, PercentItem(c).value),
                   n + if PercentItem(c).value == Lit('\n') then 1 else 0)
  {
    var item := PercentItem(c).value;
    LetterDirective(p, c, []);
    assert p + ['%', c] + [] == p + ['%', c];
    assert Scan(p).value + [item] + [] == Scan(p).value + [item];
    AssembleSnoc([], Scan(p).value, item);
    match item
    case Lit(x) => AppendCharShape(ps, x);
    case Field(f) => PushFieldShape(ps, f);
  }

  lemma BuildsEscape(p: string, ps: seq<Piece>, n: nat, c: char)
    requires Builds(p, ps, n) && EscapedChar(c).Some?
    ensures Builds(p + ['\\', c], AppendChar(ps, EscapedChar(c).value),
                   n + if EscapedChar(c).value == '\n' then 1 else 0)
  {
    var item := Lit(EscapedChar(c).value);
    EscapeDirective(p, c, []);
    assert p + ['\\', c] + [] == p + ['\\', c];
    assert Scan(p).value + [item] + [] == Scan(p).value + [item];
    AssembleSnoc([], Scan(p).value, item);
    AppendCharShape(ps, EscapedChar(c).value);
  }

  lemma {:induction false} LitsNewlines(s: string)
    ensures ItemNewlines(Lits(s)) == multiset(s)['\n']
    decreases |s|
  {
    if s != [] {
      var init := s[..|s| - 1];
      assert Lits(s)[..|s| - 1] == Lits(init);
      LitsNewlines(init);
      assert s == init + [s[|s| - 1]];
      assert multiset(s) == multiset(init) + multiset{s[|s| - 1]};
    }
  }

  // ---------------------------------------------------------------------
  // Concrete values

  lemma SmallNumerals()
    ensures TwoDigits(0) == "00" && TwoDigits(2) == "02"
    ensures TwoDigits(34) == "34" && TwoDigits(56) == "56"
    ensures Decimal(0) == "0" && Decimal(9296) == "9296"
  {
  }

  lemma Decimal123456789()
    ensures Decimal(123456789) == "123456789"
  {
    assert Decimal(12) == "12";
    assert Decimal(123) == "123";
    assert Decimal(1234) == "1234";
    assert Decimal(12345) == "12345";
    assert Decimal(123456) == "123456";
    assert Decimal(1234567) == "1234567";
    assert Decimal(12345678) == "12345678";
  }

  lemma Decimal123000000()
    ensures Decimal(123000000) == "123000000"
  {
    assert Decimal(12) == "12";
    assert Decimal(123) == "123";
    assert Decimal(1230) == "1230";
    assert Decimal(12300) == "12300";
    assert Decimal(123000) == "123000";
    assert Decimal(1230000) == "1230000";
    assert Decimal(12300000) == "12300000";
  }

  lemma Decimal999000000()
    ensures Decimal(999000000) == "999000000"
  {
    assert Decimal(99) == "99";
    assert Decimal(999) == "999";
    assert Decimal(9990) == "9990";
    assert Decimal(99900) == "99900";
    assert Decimal(999000) == "999000";
    assert Decimal(9990000) == "9990000";
    assert Decimal(99900000) == "99900000";
  }

  lemma TwelveNines()
    ensures AllDigits("999999999999") && DigitsValue("999999999999") == 999999999999
  {
    assert Decimal(99) == "99";
    assert Decimal(999) == "999";
    assert Decimal(9999) == "9999";
    assert Decimal(99999) == "99999";
    assert Decimal(999999) == "999999";
    assert Decimal(9999999) == "9999999";
    assert Decimal(99999999) == "99999999";
    assert Decimal(999999999) == "999999999";
    assert Decimal(9999999999) == "9999999999";
    assert Decimal(99999999999) == "99999999999";
    assert Decimal(999999999999) == "999999999999";
    DecimalValue(999999999999);
  }

  // ---------------------------------------------------------------------
  // The templates of the test table

  const DEFAULT_TEMPLATE: string := "Elapsed: %H:%M:%S"
  const NEWLINES_TEMPLATE: string := "Hours: %H%nMinutes: %M\\nSeconds: %S\n"
  const SUBSECONDS_TEMPLATE: string := "Elapsed: %H:%M:%S.%f"
  const TOTAL_DEFAULT_TEMPLATE: string := "Elapsed: %s.%f"
  const TOTAL_TEMPLATE: string := "Elapsed: %s"
  const ESCAPES_TEMPLATE: string := "/%%\\\\ %e[1mElapsed:\\e[m%t\\t%H:%M:%S"

  /** "Elapsed: %s.%<digits>f". */
  function TotalWithPrecision(digits: string): string {
    "Elapsed: %s.%" + digits + "f"
  }

  // ---------------------------------------------------------------------
  // Template shapes, after any literal text `a`

  lemma ShowsPlain(a: string, d: Duration)
    requires Plain(a)
    ensures Shows(a, d, a)
  {
    ShowsText([], d, [], a);
    assert [] + a == a;
  }

  /** `%H:%M:%S` after any template: two digits each of hours, minutes and seconds. */
  lemma ShowsClock(p: string, d: Duration, out: string)
    requires Shows(p, d, out)
    ensures Shows(p + "%H" + ":" + "%M" + ":" + "%S", d,
                  out + TwoDigits(d.secs / 3600) + ":" + TwoDigits(d.secs / 60 % 60) + ":" + TwoDigits(d.secs % 60))
  {
    ShowsField(p, d, out, 'H', Hour);
    ShowsText(p + "%H", d, out + PieceText(Hour, d), ":");
    ShowsField(p + "%H" + ":", d, out + PieceText(Hour, d) + ":", 'M', Minute);
    var q, o := p + "%H" + ":" + "%M", out + PieceText(Hour, d) + ":" + PieceText(Minute, d);
    ShowsText(q, d, o, ":");
    ShowsField(q + ":", d, o + ":", 'S', Second);
  }

  /** `%s.` after literal text `a`: the whole seconds in decimal and a dot. */
  lemma ShowsTotalDot(a: string, d: Duration)
    requires Plain(a)
    ensures Shows(a + "%s" + ".", d, a + Decimal(d.secs) + ".")
  {
    ShowsPlain(a, d);
    ShowsField(a, d, a, 's', TotalSeconds);
    ShowsText(a + "%s", d, a + Decimal(d.secs), ".");
  }

  // ---------------------------------------------------------------------
  // src/format.rs, `display`: each template of the test table at every duration

  lemma DisplayDefault(d: Duration)
    ensures Parse(DEFAULT_TEMPLATE).Ok?
    ensures Render(Parse(DEFAULT_TEMPLATE).value, d)
      == "Elapsed: " + TwoDigits(d.secs / 3600) + ":" + TwoDigits(d.secs / 60 % 60) + ":" + TwoDigits(d.secs % 60)
  {
    var out := "Elapsed: " + TwoDigits(d.secs / 3600) + ":" + TwoDigits(d.secs / 60 % 60) + ":" + TwoDigits(d.secs % 60);
    assert Shows(DEFAULT_TEMPLATE, d, out) by {
      ClockAfter("Elapsed: ", d);
      assert "Elapsed: " + "%H" + ":" + "%M" + ":" + "%S" == DEFAULT_TEMPLATE;
    }
    ShowsDisplay(DEFAULT_TEMPLATE, d, out);
  }

  lemma ClockAfter(a: string, d: Duration)
    requires Plain(a)
    ensures Shows(a + "%H" + ":" + "%M" + ":" + "%S", d,
                  a + TwoDigits(d.secs / 3600) + ":" + TwoDigits(d.secs / 60 % 60) + ":" + TwoDigits(d.secs % 60))
  {
    ShowsPlain(a, d);
    ShowsClock(a, d, a);
  }

  lemma DisplaySubseconds(d: Duration)
    ensures Parse(SUBSECONDS_TEMPLATE).Ok?
    ensures Render(Parse(SUBSECONDS_TEMPLATE).value, d)
      == "Elapsed: " + TwoDigits(d.secs / 3600) + ":" + TwoDigits(d.secs / 60 % 60) + ":" + TwoDigits(d.secs % 60)
         + "." + SubsecondText(d.nanos, DEFAULT_PRECISION)
  {
    var out := "Elapsed: " + TwoDigits(d.secs / 3600) + ":" + TwoDigits(d.secs / 60 % 60) + ":" + TwoDigits(d.secs % 60)
      + "." + SubsecondText(d.nanos, DEFAULT_PRECISION);
    assert Shows(SUBSECONDS_TEMPLATE, d, out) by {
      SubsecondsAfter("Elapsed: ", d);
      assert "Elapsed: " + "%H" + ":" + "%M" + ":" + "%S" + "." + "%f" == SUBSECONDS_TEMPLATE;
    }
    ShowsDisplay(SUBSECONDS_TEMPLATE, d, out);
  }

  lemma SubsecondsAfter(a: string, d: Duration)
    requires Plain(a)
    ensures Shows(a + "%H" + ":" + "%M" + ":" + "%S" + "." + "%f", d,
                  a + TwoDigits(d.secs / 3600) + ":" + TwoDigits(d.secs / 60 % 60) + ":" + TwoDigits(d.secs % 60)
                  + "." + SubsecondText(d.nanos, DEFAULT_PRECISION))
  {
    var p := a + "%H" + ":" + "%M" + ":" + "%S";
    var out := a + TwoDigits(d.secs / 3600) + ":" + TwoDigits(d.secs / 60 % 60) + ":" + TwoDigits(d.secs % 60);
    ClockAfter(a, d);
    ShowsText(p, d, out, ".");
    ShowsField(p + ".", d, out + ".", 'f', Subseconds(DEFAULT_PRECISION));
  }

  lemma DisplayTotal(d: Duration)
    ensures Parse(TOTAL_TEMPLATE).Ok?
    ensures Render(Parse(TOTAL_TEMPLATE).value, d) == "Elapsed: " + Decimal(d.secs)
  {
    assert Shows(TOTAL_TEMPLATE, d, "Elapsed: " + Decimal(d.secs)) by {
      TotalAfter("Elapsed: ", d);
      assert "Elapsed: " + "%s" == TOTAL_TEMPLATE;
    }
    ShowsDisplay(TOTAL_TEMPLATE, d, "Elapsed: " + Decimal(d.secs));
  }

  lemma TotalAfter(a: string, d: Duration)
    requires Plain(a)
    ensures Shows(a + "%s", d, a + Decimal(d.secs))
  {
    ShowsPlain(a, d);
    ShowsField(a, d, a, 's', TotalSeconds);
  }

  lemma DisplayTotalDefaultPrecision(d: Duration)
    ensures Parse(TOTAL_DEFAULT_TEMPLATE).Ok?
    ensures Render(Parse(TOTAL_DEFAULT_TEMPLATE).value, d)
      == "Elapsed: " + Decimal(d.secs) + "." + SubsecondText(d.nanos, DEFAULT_PRECISION)
  {
    var out := "Elapsed: " + Decimal(d.secs) + "." + SubsecondText(d.nanos, DEFAULT_PRECISION);
    assert Shows(TOTAL_DEFAULT_TEMPLATE, d, out) by {
      TotalFractionAfter("Elapsed: ", d);
      assert "Elapsed: " + "%s" + "." + "%f" == TOTAL_DEFAULT_TEMPLATE;
    }
    ShowsDisplay(TOTAL_DEFAULT_TEMPLATE, d, out);
  }

  lemma TotalFractionAfter(a: string, d: Duration)
    requires Plain(a)
    ensures Shows(a + "%s" + "." + "%f", d, a + Decimal(d.secs) + "." + SubsecondText(d.nanos, DEFAULT_PRECISION))
  {
    ShowsTotalDot(a, d);
    ShowsField(a + "%s" + ".", d, a + Decimal(d.secs) + ".", 'f', Subseconds(DEFAULT_PRECISION));
  }

  /** "Elapsed: %s.%<digits>f" at `d`: the seconds, a dot, and the subsecond digits. */
  lemma DisplayTotalPrecision(d: Duration, digits: string)
    requires digits != [] && AllDigits(digits) && DigitsValue(digits) <= U32_MAX
    ensures Parse(TotalWithPrecision(digits)).Ok?
    ensures Render(Parse(TotalWithPrecision(digits)).value, d)
      == "Elapsed: " + Decimal(d.secs) + "." + SubsecondText(d.nanos, DigitsValue(digits))
  {
    ShowsTotalDot("Elapsed: ", d);
    var p, out := "Elapsed: " + "%s" + ".", "Elapsed: " + Decimal(d.secs) + ".";
    ShowsPrecision(p, d, out, digits);
    assert p + ("%" + digits + "f") == TotalWithPrecision(digits);
    ShowsDisplay(TotalWithPrecision(digits), d, out + SubsecondText(d.nanos, DigitsValue(digits)));
  }

  /** `%%\\<b>%e`: a percent sign, a backslash, the text `b` and an escape character. */
  lemma ShowsEscapesFirst(p: string, d: Duration, out: string, b: string)
    requires Shows(p, d, out) && Plain(b)
    ensures Shows(p + "%%" + "\\\\" + b + "%e", d, out + "%" + "\\" + b + [ESC])
  {
    var p1, o1 := p + "%%", out + "%";
    assert Shows(p1, d, o1) by { ShowsSpecial(p, d, out, '%', '%'); }
    var p2, o2 := p1 + "\\\\", o1 + "\\";
    assert Shows(p2, d, o2) by { ShowsEscape(p1, d, o1, '\\'); }
    var p3, o3 := p2 + b, o2 + b;
    assert Shows(p3, d, o3) by { ShowsText(p2, d, o2, b); }
    ShowsSpecial(p3, d, o3, 'e', ESC);
  }

  /** `<c>\\e<e>%t\\t`: the text `c`, an escape character, the text `e` and two tabs. */
  lemma ShowsEscapesSecond(p: string, d: Duration, out: string, c: string, e: string)
    requires Shows(p, d, out) && Plain(c) && Plain(e)
    ensures Shows(p + c + "\\e" + e + "%t" + "\\t", d, out + c + [ESC] + e + "\t" + "\t")
  {
    ShowsText(p, d, out, c);
    ShowsEscape(p + c, d, out + c, 'e');
    ShowsText(p + c + "\\e", d, out + c + [ESC], e);
    ShowsSpecial(p + c + "\\e" + e, d, out + c + [ESC] + e, 't', '\t');
    ShowsEscape(p + c + "\\e" + e + "%t", d, out + c + [ESC] + e + "\t", 't');
  }

  lemma EscapesAfter(a: string, b: string, c: string, e: string, d: Duration)
    requires Plain(a) && Plain(b) && Plain(c) && Plain(e)
    ensures Shows(a + "%%" + "\\\\" + b + "%e" + c + "\\e" + e + "%t" + "\\t" + "%H" + ":" + "%M" + ":" + "%S", d,
                  a + "%" + "\\" + b + [ESC] + c + [ESC] + e + "\t" + "\t"
                  + TwoDigits(d.secs / 3600) + ":" + TwoDigits(d.secs / 60 % 60) + ":" + TwoDigits(d.secs % 60))
  {
    ShowsPlain(a, d);
    ShowsEscapesFirst(a, d, a, b);
    var p, out := a + "%%" + "\\\\" + b + "%e", a + "%" + "\\" + b + [ESC];
    ShowsEscapesSecond(p, d, out, c, e);
    ShowsClock(p + c + "\\e" + e + "%t" + "\\t", d, out + c + [ESC] + e + "\t" + "\t");
  }

  lemma EscapesTemplate()
    ensures "/" + "%%" + "\\\\" + " " + "%e" + "[1mElapsed:" + "\\e" + "[m" + "%t" + "\\t" + "%H" + ":" + "%M" + ":" + "%S"
      == ESCAPES_TEMPLATE
  {
  }

  /** Every escape of both kinds, between literal text. */
  lemma DisplayEscapes(d: Duration)
    ensures Parse(ESCAPES_TEMPLATE).Ok?
    ensures Render(Parse(ESCAPES_TEMPLATE).value, d)
      == "/" + "%" + "\\" + " " + [ESC] + "[1mElapsed:" + [ESC] + "[m" + "\t" + "\t"
         + TwoDigits(d.secs / 3600) + ":" + TwoDigits(d.secs / 60 % 60) + ":" + TwoDigits(d.secs % 60)
  {
    var out := "/" + "%" + "\\" + " " + [ESC] + "[1mElapsed:" + [ESC] + "[m" + "\t" + "\t"
      + TwoDigits(d.secs / 3600) + ":" + TwoDigits(d.secs / 60 % 60) + ":" + TwoDigits(d.secs % 60);
    assert Shows(ESCAPES_TEMPLATE, d, out) by {
      EscapesAfter("/", " ", "[1mElapsed:", "[m", d);
      EscapesTemplate();
    }
    ShowsDisplay(ESCAPES_TEMPLATE, d, out);
  }

  // ---------------------------------------------------------------------
  // src/format.rs, `display`: the durations of the test table

  lemma ClockAtZero(d: Duration, x: string)
    requires d == Duration(0, 0)
    requires x == "Elapsed: " + TwoDigits(d.secs / 3600) + ":" + TwoDigits(d.secs / 60 % 60) + ":" + TwoDigits(d.secs % 60)
    ensures x == "Elapsed: 00:00:00"
  {
    SmallNumerals();
  }

  lemma DisplayDefaultAtZero()
    ensures Parse(DEFAULT_TEMPLATE).Ok?
    ensures Render(Parse(DEFAULT_TEMPLATE).value, Duration(0, 0)) == "Elapsed: 00:00:00"
  {
    DisplayDefault(Duration(0, 0));
    ClockAtZero(Duration(0, 0), Render(Parse(DEFAULT_TEMPLATE).value, Duration(0, 0)));
  }

  lemma DisplayEmpty(d: Duration)
    ensures Parse("") == Ok([]) && Render(Parse("").value, d) == ""
  {
    PlainTextRoundTrip([], d);
  }

  lemma ClockFractionAtZero(d: Duration, x: string)
    requires d == Duration(0, 0)
    requires x == "Elapsed: " + TwoDigits(d.secs / 3600) + ":" + TwoDigits(d.secs / 60 % 60) + ":" + TwoDigits(d.secs % 60)
                  + "." + SubsecondText(d.nanos, DEFAULT_PRECISION)
    ensures x == "Elapsed: 00:00:00.000000"
  {
    SmallNumerals();
    assert SubsecondText(0, 6) == "000000";
  }

  lemma DisplaySubsecondsAtZero()
    ensures Parse(SUBSECONDS_TEMPLATE).Ok?
    ensures Render(Parse(SUBSECONDS_TEMPLATE).value, Duration(0, 0)) == "Elapsed: 00:00:00.000000"
  {
    DisplaySubseconds(Duration(0, 0));
    ClockFractionAtZero(Duration(0, 0), Render(Parse(SUBSECONDS_TEMPLATE).value, Duration(0, 0)));
  }

  lemma DisplayTotalDefaultPrecisionAtZero()
    ensures Parse(TOTAL_DEFAULT_TEMPLATE).Ok?
    ensures Render(Parse(TOTAL_DEFAULT_TEMPLATE).value, Duration(0, 0)) == "Elapsed: 0.000000"
  {
    DisplayTotalDefaultPrecision(Duration(0, 0));
    FractionAt(Duration(0, 0), DEFAULT_PRECISION, Render(Parse(TOTAL_DEFAULT_TEMPLATE).value, Duration(0, 0)), "Elapsed: 0.000000");
  }

  /** "0", "1", "2" and "20" are precisions that fit in a `u32`. */
  lemma SmallPrecisions()
    ensures AllDigits("0") && DigitsValue("0") == 0
    ensures AllDigits("1") && DigitsValue("1") == 1
    ensures AllDigits("2") && DigitsValue("2") == 2
    ensures AllDigits("20") && DigitsValue("20") == 20
  {
    assert "20"[..1] == "2";
  }

  lemma FractionAt(d: Duration, precision: nat, x: string, expected: string)
    requires x == "Elapsed: " + Decimal(d.secs) + "." + SubsecondText(d.nanos, precision)
    requires d.secs == 0 && (d.nanos, precision, expected) in {
      (0, 0, "Elapsed: 0."),
      (0, 1, "Elapsed: 0.0"),
      (0, 6, "Elapsed: 0.000000")}
    ensures x == expected
  {
    SmallNumerals();
    assert SubsecondText(0, 0) == "" && SubsecondText(0, 1) == "0" && SubsecondText(0, 6) == "000000";
  }

  lemma MillisecondsAt(d: Duration, x: string, expected: string)
    requires x == "Elapsed: " + Decimal(d.secs) + "." + SubsecondText(d.nanos, 2)
    requires d.secs == 0 && (d.nanos, expected) in {(123_000_000, "Elapsed: 0.12"), (999_000_000, "Elapsed: 0.99")}
    ensures x == expected
  {
    SmallNumerals();
    if d.nanos == 123_000_000 {
      Decimal123000000();
      assert SubsecondText(123_000_000, 2) == "12";
    } else {
      Decimal999000000();
      assert SubsecondText(999_000_000, 2) == "99";
    }
  }

  /** The first nine digits of 123456789 ns, before any truncation or padding. */
  lemma NanosDigits()
    ensures Decimal(0) == "0"
    ensures ZeroPad(Decimal(123456789), 9) == "123456789"
  {
    Decimal123456789();
  }

  lemma SixDigitsOfNanos(d: Duration, x: string)
    requires x == "Elapsed: " + Decimal(d.secs) + "." + SubsecondText(d.nanos, 6)
    requires d == Duration(0, 123456789)
    ensures x == "Elapsed: 0.123456"
  {
    NanosDigits();
    assert "123456789"[..6] == "123456";
  }

  lemma TwentyDigitsOfNanos(d: Duration, x: string)
    requires x == "Elapsed: " + Decimal(d.secs) + "." + SubsecondText(d.nanos, 20)
    requires d == Duration(0, 123456789)
    ensures x == "Elapsed: 0.12345678900000000000"
  {
    NanosDigits();
    assert Zeros(11) == "00000000000";
  }

  lemma DisplayZeroPrecision()
    ensures Parse(TotalWithPrecision("0")).Ok?
    ensures Render(Parse(TotalWithPrecision("0")).value, Duration(0, 0)) == "Elapsed: 0."
  {
    SmallPrecisions();
    DisplayTotalPrecision(Duration(0, 0), "0");
    FractionAt(Duration(0, 0), 0, Render(Parse(TotalWithPrecision("0")).value, Duration(0, 0)), "Elapsed: 0.");
  }

  lemma DisplayOnePrecision()
    ensures Parse(TotalWithPrecision("1")).Ok?
    ensures Render(Parse(TotalWithPrecision("1")).value, Duration(0, 0)) == "Elapsed: 0.0"
  {
    SmallPrecisions();
    DisplayTotalPrecision(Duration(0, 0), "1");
    FractionAt(Duration(0, 0), 1, Render(Parse(TotalWithPrecision("1")).value, Duration(0, 0)), "Elapsed: 0.0");
  }

  lemma ClockAt9296(d: Duration, x: string)
    requires d == Duration(2 * 3600 + 34 * 60 + 56, 0)
    requires x == "Elapsed: " + TwoDigits(d.secs / 3600) + ":" + TwoDigits(d.secs / 60 % 60) + ":" + TwoDigits(d.secs % 60)
    ensures x == "Elapsed: 02:34:56"
  {
    SmallNumerals();
  }

  lemma DisplayDefaultAt9296()
    ensures Parse(DEFAULT_TEMPLATE).Ok?
    ensures Render(Parse(DEFAULT_TEMPLATE).value, Duration(2 * 3600 + 34 * 60 + 56, 0)) == "Elapsed: 02:34:56"
  {
    var d := Duration(2 * 3600 + 34 * 60 + 56, 0);
    DisplayDefault(d);
    ClockAt9296(d, Render(Parse(DEFAULT_TEMPLATE).value, d));
  }

  lemma TotalAt9296(d: Duration, x: string)
    requires d == Duration(2 * 3600 + 34 * 60 + 56, 0)
    requires x == "Elapsed: " + Decimal(d.secs)
    ensures x == "Elapsed: 9296"
  {
    SmallNumerals();
  }

  lemma DisplayTotalAt9296()
    ensures Parse(TOTAL_TEMPLATE).Ok?
    ensures Render(Parse(TOTAL_TEMPLATE).value, Duration(2 * 3600 + 34 * 60 + 56, 0)) == "Elapsed: 9296"
  {
    var d := Duration(2 * 3600 + 34 * 60 + 56, 0);
    DisplayTotal(d);
    TotalAt9296(d, Render(Parse(TOTAL_TEMPLATE).value, d));
  }

  lemma DisplayTwoDigitsOf123ms()
    ensures Parse(TotalWithPrecision("2")).Ok?
    ensures Render(Parse(TotalWithPrecision("2")).value, Duration(0, 123_000_000)) == "Elapsed: 0.12"
  {
    var d := Duration(0, 123_000_000);
    SmallPrecisions();
    DisplayTotalPrecision(d, "2");
    MillisecondsAt(d, Render(Parse(TotalWithPrecision("2")).value, d), "Elapsed: 0.12");
  }

  /** Subseconds are truncated, not rounded: 999 ms at two digits is "99". */
  lemma DisplayTwoDigitsOf999ms()
    ensures Parse(TotalWithPrecision("2")).Ok?
    ensures Render(Parse(TotalWithPrecision("2")).value, Duration(0, 999_000_000)) == "Elapsed: 0.99"
  {
    var d := Duration(0, 999_000_000);
    SmallPrecisions();
    DisplayTotalPrecision(d, "2");
    MillisecondsAt(d, Render(Parse(TotalWithPrecision("2")).value, d), "Elapsed: 0.99");
  }

  lemma DisplayDefaultPrecisionOfNanos()
    ensures Parse(TOTAL_DEFAULT_TEMPLATE).Ok?
    ensures Render(Parse(TOTAL_DEFAULT_TEMPLATE).value, Duration(0, 123456789)) == "Elapsed: 0.123456"
  {
    var d := Duration(0, 123456789);
    DisplayTotalDefaultPrecision(d);
    SixDigitsOfNanos(d, Render(Parse(TOTAL_DEFAULT_TEMPLATE).value, d));
  }

  /** Past nine digits the nanoseconds are followed by zeros. */
  lemma DisplayTwentyDigitsOfNanos()
    ensures Parse(TotalWithPrecision("20")).Ok?
    ensures Render(Parse(TotalWithPrecision("20")).value, Duration(0, 123456789))
      == "Elapsed: 0.12345678900000000000"
  {
    var d := Duration(0, 123456789);
    SmallPrecisions();
    DisplayTotalPrecision(d, "20");
    TwentyDigitsOfNanos(d, Render(Parse(TotalWithPrecision("20")).value, d));
  }

  lemma EscapesAtZero(d: Duration, x: string)
    requires d == Duration(0, 0)
    requires x == "/" + "%" + "\\" + " " + [ESC] + "[1mElapsed:" + [ESC] + "[m" + "\t" + "\t"
                  + TwoDigits(d.secs / 3600) + ":" + TwoDigits(d.secs / 60 % 60) + ":" + TwoDigits(d.secs % 60)
    ensures x == "/%\\ " + [ESC] + "[1mElapsed:" + [ESC] + "[m\t\t00:00:00"
  {
    SmallNumerals();
  }

  lemma DisplayEscapesAtZero()
    ensures Parse(ESCAPES_TEMPLATE).Ok?
    ensures Render(Parse(ESCAPES_TEMPLATE).value, Duration(0, 0))
      == "/%\\ " + [ESC] + "[1mElapsed:" + [ESC] + "[m\t\t00:00:00"
  {
    DisplayEscapes(Duration(0, 0));
    EscapesAtZero(Duration(0, 0), Render(Parse(ESCAPES_TEMPLATE).value, Duration(0, 0)));
  }

  // ---------------------------------------------------------------------
  // src/format.rs, `parse_default` and `newlines`

  lemma BuildsPlain(a: string, k: nat)
    requires Plain(a) && k == multiset(a)['\n']
    ensures Builds(a, WithText([], a), k)
  {
    BuildsText([], [], 0, a, k);
    assert [] + a == a;
  }

  /** A field directive and then literal text: the field's piece and a new text piece. */
  lemma BuildsFieldText(p: string, ps: seq<Piece>, n: nat, c: char, f: Piece, a: string, k: nat)
    requires Builds(p, ps, n) && PercentItem(c) == Some(Field(f))
    requires Plain(a) && a != [] && k == multiset(a)['\n']
    ensures Builds(p + ['%', c] + a, ps + [f, Str(a)], n + k)
  {
    BuildsLetter(p, ps, n, c);
    var qs := ps + [f];
    assert AddItem(ps, Field(f)) == qs;
    FieldThenText(ps, f, a);
    BuildsText(p + ['%', c], qs, n, a, k);
  }

  lemma FieldThenText(ps: seq<Piece>, f: Piece, a: string)
    requires !f.Str? && a != []
    ensures WithText(ps + [f], a) == ps + [f, Str(a)]
  {
    assert (ps + [f])[|ps|] == f;
  }

  /** `%H:%M:` after any template: hours, ":", minutes, ":". */
  lemma BuildsHoursMinutes(p: string, ps: seq<Piece>, n: nat)
    requires Builds(p, ps, n)
    ensures Builds(p + "%H" + ":" + "%M" + ":", ps + [Hour, Str(":"), Minute, Str(":")], n)
  {
    BuildsFieldText(p, ps, n, 'H', Hour, ":", 0);
    BuildsFieldText(p + "%H" + ":", ps + [Hour, Str(":")], n, 'M', Minute, ":", 0);
    assert ps + [Hour, Str(":")] + [Minute, Str(":")] == ps + [Hour, Str(":"), Minute, Str(":")];
  }

  /** `%H:%M:%S` after any template: three numeric pieces, with a text piece ":" between each two. */
  lemma BuildsClock(p: string, ps: seq<Piece>, n: nat)
    requires Builds(p, ps, n)
    ensures Builds(p + "%H" + ":" + "%M" + ":" + "%S", ps + [Hour, Str(":"), Minute, Str(":"), Second], n)
  {
    BuildsHoursMinutes(p, ps, n);
    BuildsLetter(p + "%H" + ":" + "%M" + ":", ps + [Hour, Str(":"), Minute, Str(":")], n, 'S');
    assert ps + [Hour, Str(":"), Minute, Str(":")] + [Second] == ps + [Hour, Str(":"), Minute, Str(":"), Second];
  }

  lemma ParseClock(a: string)
    requires Plain(a) && a != []
    ensures Parse(a + "%H" + ":" + "%M" + ":" + "%S") == Ok([Str(a), Hour, Str(":"), Minute, Str(":"), Second])
  {
    BuildsPlain(a, multiset(a)['\n']);
    assert WithText([], a) == [Str(a)];
    BuildsClock(a, [Str(a)], multiset(a)['\n']);
    assert [Str(a)] + [Hour, Str(":"), Minute, Str(":"), Second] == [Str(a), Hour, Str(":"), Minute, Str(":"), Second];
  }

  /** "Elapsed: %H:%M:%S" parses to exactly the pieces of `Format::default()`. */
  lemma ParseDefault()
    ensures Parse(DEFAULT_TEMPLATE) == Ok(DEFAULT_PIECES)
  {
    ParseClock("Elapsed: ");
    assert "Elapsed: " + "%H" + ":" + "%M" + ":" + "%S" == DEFAULT_TEMPLATE;
  }

  /** `%H%n<b>`: hours, then a newline piece that the text `b` extends. */
  lemma BuildsHoursLine(p: string, ps: seq<Piece>, n: nat, b: string, k: nat) returns (qs: seq<Piece>)
    requires Builds(p, ps, n) && Plain(b) && k == multiset(b)['\n']
    ensures Builds(p + "%H" + "%n" + b, qs, n + 1 + k)
  {
    BuildsLetter(p, ps, n, 'H');
    BuildsLetter(p + "%H", AddItem(ps, Field(Hour)), n, 'n');
    qs := AddItem(AddItem(ps, Field(Hour)), Lit('\n'));
    BuildsText(p + "%H" + "%n", qs, n + 1, b, k);
    qs := WithText(qs, b);
  }

  /** `%M\\n<c>`: minutes, then a newline piece that the text `c` extends. */
  lemma BuildsMinutesLine(p: string, ps: seq<Piece>, n: nat, c: string, k: nat) returns (qs: seq<Piece>)
    requires Builds(p, ps, n) && Plain(c) && k == multiset(c)['\n']
    ensures Builds(p + "%M" + "\\n" + c, qs, n + 1 + k)
  {
    BuildsLetter(p, ps, n, 'M');
    BuildsEscape(p + "%M", AddItem(ps, Field(Minute)), n, 'n');
    qs := AppendChar(AddItem(ps, Field(Minute)), '\n');
    BuildsText(p + "%M" + "\\n", qs, n + 1, c, k);
    qs := WithText(qs, c);
  }

  /** `%S<e>`: seconds, then the text `e`. */
  lemma BuildsSecondsLine(p: string, ps: seq<Piece>, n: nat, e: string, k: nat) returns (qs: seq<Piece>)
    requires Builds(p, ps, n) && Plain(e) && k == multiset(e)['\n']
    ensures Builds(p + "%S" + e, qs, n + k)
  {
    BuildsLetter(p, ps, n, 'S');
    qs := AddItem(ps, Field(Second));
    BuildsText(p + "%S", qs, n, e, k);
    qs := WithText(qs, e);
  }

  lemma NewlinesAfter(a: string, b: string, c: string, e: string)
    requires Plain(a) && Plain(b) && Plain(c) && Plain(e)
    ensures Parse(a + "%H" + "%n" + b + "%M" + "\\n" + c + "%S" + e).Ok?
    ensures Coalesced(Parse(a + "%H" + "%n" + b + "%M" + "\\n" + c + "%S" + e).value)
    ensures LiteralNewlines(Parse(a + "%H" + "%n" + b + "%M" + "\\n" + c + "%S" + e).value)
      == 2 + multiset(a)['\n'] + multiset(b)['\n'] + multiset(c)['\n'] + multiset(e)['\n']
  {
    var ka, kb, kc, ke := multiset(a)['\n'], multiset(b)['\n'], multiset(c)['\n'], multiset(e)['\n'];
    BuildsPlain(a, ka);
    var ps := BuildsHoursLine(a, WithText([], a), ka, b, kb);
    ps := BuildsMinutesLine(a + "%H" + "%n" + b, ps, ka + 1 + kb, c, kc);
    ps := BuildsSecondsLine(a + "%H" + "%n" + b + "%M" + "\\n" + c, ps, ka + 1 + kb + 1 + kc, e, ke);
  }

  lemma NoNewlines(s: string)
    requires '\n' !in s
    ensures multiset(s)['\n'] == 0
  {
    assert '\n' !in multiset(s);
  }

  /** Text without `%`, `\\` or a newline: plain, and no newline to count. */
  lemma QuietText(s: string)
    requires '%' !in s && '\\' !in s && '\n' !in s
    ensures Plain(s) && multiset(s)['\n'] == 0
  {
    NoNewlines(s);
  }

  lemma NewlineText()
    ensures Plain("\n") && multiset("\n")['\n'] == 1
  {
    assert multiset("\n") == multiset{'\n'};
  }

  lemma NewlinesTemplate()
    ensures "Hours: " + "%H" + "%n" + "Minutes: " + "%M" + "\\n" + "Seconds: " + "%S" + "\n" == NEWLINES_TEMPLATE
  {
  }

  lemma NewlinesBetween(a: string, b: string, c: string)
    requires '%' !in a && '\\' !in a && '\n' !in a
    requires '%' !in b && '\\' !in b && '\n' !in b
    requires '%' !in c && '\\' !in c && '\n' !in c
    ensures Parse(a + "%H" + "%n" + b + "%M" + "\\n" + c + "%S" + "\n").Ok?
    ensures LiteralNewlines(Parse(a + "%H" + "%n" + b + "%M" + "\\n" + c + "%S" + "\n").value) == 3
  {
    QuietText(a);
    QuietText(b);
    QuietText(c);
    NewlineText();
    NewlinesAfter(a, b, c, "\n");
  }

  lemma ParseNewlines()
    ensures Parse(NEWLINES_TEMPLATE).Ok? && LiteralNewlines(Parse(NEWLINES_TEMPLATE).value) == 3
  {
    NewlinesBetween("Hours: ", "Minutes: ", "Seconds: ");
    NewlinesTemplate();
  }

  /** A template with a `%n`, a `\\n` and a literal newline counts three newlines. */
  lemma NewlinesExample()
    ensures Parse(NEWLINES_TEMPLATE).Ok? && LiteralNewlines(Parse(NEWLINES_TEMPLATE).value) == 3
    ensures forall d :: multiset(Render(Parse(NEWLINES_TEMPLATE).value, d))['\n'] == 3
  {
    ParseNewlines();
    forall d: Duration
      ensures multiset(Render(Parse(NEWLINES_TEMPLATE).value, d))['\n'] == 3
    {
      RenderNewlines(Parse(NEWLINES_TEMPLATE).value, d);
    }
  }

  // ---------------------------------------------------------------------
  // src/format.rs, `parse_err`

  lemma TextScans(a: string)
    requires '%' !in a && '\\' !in a
    ensures Scan(a).Ok?
  {
    PlainScan(a);
  }

  /** Literal text and then `%s`: a template that parses so far. */
  lemma TotalScans(a: string)
    requires '%' !in a && '\\' !in a
    ensures Scan(a + "%s").Ok?
  {
    TextScans(a);
    LetterDirective(a, 's', []);
    assert a + ['%', 's'] + [] == a + "%s";
  }

  /** Literal text and then `%s.`: a template that parses so far. */
  lemma TotalDotScans(a: string)
    requires '%' !in a && '\\' !in a
    ensures Scan(a + "%s" + ".").Ok?
  {
    TotalScans(a);
    PlainScan(".");
    ScanAppend(a + "%s", ".");
  }

  const YEARS_TEMPLATE: string := "Years: %Y"
  const TRUNCATED_TEMPLATE: string := "Years: %"
  const ESCAPE_R_TEMPLATE: string := "Time: %s\\r"
  const TRAILING_BACKSLASH_TEMPLATE: string := "Time: %s\\"
  const HUGE_PRECISION_TEMPLATE: string := "Time: %s.%999999999999f"
  const UNDERSCORE_TEMPLATE: string := "Time: %s.%999_999f"

  lemma UnknownAfterText(a: string, c: char)
    requires '%' !in a && '\\' !in a && PercentItem(c).None? && !IsDigit(c)
    ensures Parse(a + ['%', c]) == Err(InvalidPercent(c))
  {
    TextScans(a);
    UnknownSpecifier(a, c, []);
    assert a + ['%', c] + [] == a + ['%', c];
  }

  lemma UnknownSpecifierExample()
    ensures Parse(YEARS_TEMPLATE) == Err(InvalidPercent('Y'))
  {
    UnknownAfterText("Years: ", 'Y');
    assert "Years: " + ['%', 'Y'] == YEARS_TEMPLATE;
  }

  lemma TrailingPercentExample()
    ensures Parse(TRUNCATED_TEMPLATE) == Err(BrokenPercent)
  {
    TextScans("Years: ");
    TrailingPercent("Years: ");
    assert "Years: " + "%" == TRUNCATED_TEMPLATE;
  }

  lemma UnknownEscapeExample()
    ensures Parse(ESCAPE_R_TEMPLATE) == Err(InvalidEscape('r'))
  {
    TotalScans("Time: ");
    UnknownEscape("Time: " + "%s", 'r', []);
    assert "Time: " + "%s" + ['\\', 'r'] + [] == ESCAPE_R_TEMPLATE;
  }

  lemma TrailingBackslashExample()
    ensures Parse(TRAILING_BACKSLASH_TEMPLATE) == Err(BrokenEscape)
  {
    TotalScans("Time: ");
    TrailingBackslash("Time: " + "%s");
    assert "Time: " + "%s" + "\\" == TRAILING_BACKSLASH_TEMPLATE;
  }

  lemma PrecisionOverflowExample()
    ensures Parse(HUGE_PRECISION_TEMPLATE) == Err(PrecisionOverflow)
  {
    var p, digits := "Time: " + "%s" + ".", "999999999999";
    assert Parse(p + "%" + digits + "f") == Err(PrecisionOverflow) by {
      TotalDotScans("Time: ");
      TwelveNines();
      PrecisionTooLarge(p, digits, "f");
    }
    assert p + "%" + digits + "f" == HUGE_PRECISION_TEMPLATE;
  }

  /** The digit run stops at `_`, which is not `f`: the error carries the first digit. */
  lemma DigitsWithoutFExample()
    ensures Parse(UNDERSCORE_TEMPLATE) == Err(InvalidPercent('9'))
  {
    var p, digits := "Time: " + "%s" + ".", "999";
    assert Parse(p + "%" + digits + "_999f") == Err(InvalidPercent('9')) by {
      TotalDotScans("Time: ");
      assert DigitsValue(digits) == 999 by {
        assert digits[..2] == "99" && "99"[..1] == "9";
      }
      DigitsWithoutF(p, digits, "_999f");
    }
    assert p + "%" + digits + "_999f" == UNDERSCORE_TEMPLATE;
  }
}
