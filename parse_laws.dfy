/**
 * Laws of the template language (src/format.rs, `Format::from_str`):
 * directives are read left to right independently of what follows them,
 * literal text is merged into single text pieces, every parsed format
 * keeps the shape `push_char` maintains, rendering a parse gives back the
 * meaning of each directive in order, and every error variant is raised
 * exactly where the parser raises it.
 */
module ParseLaws {
  import opened Wrappers
  import opened Numerals
  import opened Pieces
  import opened Syntax

  /** A template without `%` and `\`: every character stands for itself. */
  predicate Plain(s: string) {
    forall i :: 0 <= i < |s| ==> s[i] != '%' && s[i] != '\\'
  }

  /** The literal directives that spell `s`. */
  function Lits(s: string): (items: seq<Item>)
    ensures |items| == |s|
  {
    seq(|s|, i requires 0 <= i < |s| => Lit(s[i]))
  }

  /** The format holding `ps` after `push_char` of every character of `s`. */
  function WithText(ps: seq<Piece>, s: string): seq<Piece> {
    if s == [] then ps
    else if ps != [] && ps[|ps| - 1].Str? then ps[..|ps| - 1] + [Str(ps[|ps| - 1].text + s)]
    else ps + [Str(s)]
  }

  /** Fields of a directive list are numeric pieces, never text. */
  predicate NumericFields(items: seq<Item>) {
    forall i :: 0 <= i < |items| && items[i].Field? ==> !items[i].p.Str?
  }

  /** How many of the directives stand for a newline character. */
  function ItemNewlines(items: seq<Item>): nat {
    if items == [] then 0
    else ItemNewlines(items[..|items| - 1]) + (if items[|items| - 1] == Lit('\n') then 1 else 0)
  }

  // ---------------------------------------------------------------------
  // Reading left to right

  /** A directive is read the same way whatever text follows it. */
  lemma StepExtend(u: string, t: string)
    requires u != [] && Step(u).Ok?
    ensures Step(u + t) == Step(u)
  {
    var w := u + t;
    if u[0] == '%' && PercentItem(u[1]).None? && IsDigit(u[1]) {
      var k := 1 + DigitRun(u[2..]);
      assert 1 + k < |u| && u[1 + k] == 'f';
      assert w[2..][..k - 1] == u[2..][..k - 1];
      assert w[2..][k - 1] == u[1 + k];
      DigitRunExact(w[2..], k - 1);
      assert w[1..1 + k] == u[1..1 + k];
    }
  }

  lemma PrependAssoc(a: seq<Item>, b: seq<Item>, r: Result<seq<Item>, ParseError>)
    ensures Prepend(a, Prepend(b, r)) == Prepend(a + b, r)
  {
    match r
    case Ok(rest) => assert a + (b + rest) == (a + b) + rest;
    case Err(_) =>
  }

  lemma PrependNothing(r: Result<seq<Item>, ParseError>)
    ensures Prepend([], r) == r
  {
    match r
    case Ok(rest) => assert [] + rest == rest;
    case Err(_) =>
  }

  lemma ScanUnfold(s: string)
    requires s != [] && Step(s).Ok?
    ensures Scan(s) == Prepend([Step(s).value.0], Scan(s[Step(s).value.1..]))
  {
  }

  lemma Regroup(p: string, a: string, b: string, c: string)
    ensures p + a + b + c == p + (a + b + c)
  {
  }

  /** A template that parses can be followed by anything: its directives come first. */
  lemma {:induction false} ScanAppend(p: string, t: string)
    requires Scan(p).Ok?
    ensures Scan(p + t) == Prepend(Scan(p).value, Scan(t))
    decreases |p|
  {
    if p == [] {
      assert p + t == t;
      PrependNothing(Scan(t));
    } else {
      var (item, k) := Step(p).value;
      StepExtend(p, t);
      assert (p + t)[k..] == p[k..] + t;
      ScanUnfold(p);
      ScanUnfold(p + t);
      ScanAppend(p[k..], t);
      PrependAssoc([item], Scan(p[k..]).value, Scan(t));
    }
  }

  /** Literal text scans to one literal directive per character. */
  lemma {:induction false} PlainScan(s: string)
    requires Plain(s)
    ensures Scan(s) == Ok(Lits(s))
    decreases |s|
  {
    if s != [] {
      assert Step(s) == Ok((Lit(s[0]), 1));
      assert Plain(s[1..]) by {
        assert forall i :: 0 <= i < |s| - 1 ==> s[1..][i] == s[i + 1];
      }
      PlainScan(s[1..]);
      assert Lits(s) == [Lit(s[0])] + Lits(s[1..]);
    }
  }

  /** Every field the parser reads is a numeric piece. */
  lemma {:induction false} ScanNumericFields(s: string)
    requires Scan(s).Ok?
    ensures NumericFields(Scan(s).value)
    decreases |s|
  {
    if s != [] {
      var (item, k) := Step(s).value;
      ScanNumericFields(s[k..]);
      var items := Scan(s).value;
      assert items == [item] + Scan(s[k..]).value;
      forall i | 0 <= i < |items| && items[i].Field?
        ensures !items[i].p.Str?
      {
        if i > 0 {
          assert items[i] == Scan(s[k..]).value[i - 1];
        }
      }
    }
  }

  // ---------------------------------------------------------------------
  // Assembling pieces

  lemma {:induction false} AssembleAppend(ps: seq<Piece>, a: seq<Item>, b: seq<Item>)
    ensures Assemble(ps, a + b) == Assemble(Assemble(ps, a), b)
    decreases |b|
  {
    if b == [] {
      assert a + b == a;
    } else {
      var init := b[..|b| - 1];
      assert (a + b)[..|a + b| - 1] == a + init;
      assert (a + b)[|a + b| - 1] == b[|b| - 1];
      AssembleAppend(ps, a, init);
    }
  }

  /** Consecutive literal characters end up in one text piece, merged with a trailing one. */
  lemma {:induction false} AssembleLits(ps: seq<Piece>, s: string)
    ensures Assemble(ps, Lits(s)) == WithText(ps, s)
    decreases |s|
  {
    if s != [] {
      var init := s[..|s| - 1];
      var c := s[|s| - 1];
      assert Lits(s)[..|s| - 1] == Lits(init);
      AssembleLits(ps, init);
      assert init + [c] == s;
      if init == [] {
        assert WithText(ps, s) == AppendChar(ps, c);
      } else if ps != [] && ps[|ps| - 1].Str? {
        var last := ps[|ps| - 1];
        assert WithText(ps, init)[..|ps| - 1] == ps[..|ps| - 1];
        assert last.text + init + [c] == last.text + s;
      } else {
        assert WithText(ps, init)[..|ps|] == ps;
      }
    }
  }

  /**
   * Assembling numeric fields and literal characters onto a coalesced
   * format keeps it coalesced and adds one newline per newline directive.
   */
  lemma {:induction false} AssembleShape(ps: seq<Piece>, items: seq<Item>)
    requires Coalesced(ps) && NumericFields(items)
    ensures Coalesced(Assemble(ps, items))
    ensures LiteralNewlines(Assemble(ps, items)) == LiteralNewlines(ps) + ItemNewlines(items)
    decreases |items|
  {
    if items != [] {
      var init := items[..|items| - 1];
      var last := items[|items| - 1];
      assert NumericFields(init) by {
        assert forall i :: 0 <= i < |init| ==> init[i] == items[i];
      }
      AssembleShape(ps, init);
      match last
      case Lit(c) => AppendCharShape(Assemble(ps, init), c);
      case Field(p) => PushFieldShape(Assemble(ps, init), p);
    }
  }

  /** The rendering of an assembled format: the old pieces, then each directive's meaning. */
  lemma {:induction false} RenderAssemble(ps: seq<Piece>, items: seq<Item>, d: Duration)
    ensures Render(Assemble(ps, items), d) == Render(ps, d) + ItemsText(items, d)
    decreases |items|
  {
    if items != [] {
      var init := items[..|items| - 1];
      var prefix := Assemble(ps, init);
      RenderAssemble(ps, init, d);
      match items[|items| - 1]
      case Lit(c) => AppendCharRender(prefix, c, d);
      case Field(p) => assert (prefix + [p])[..|prefix|] == prefix;
    }
  }

  lemma {:induction false} ItemsTextAppend(a: seq<Item>, b: seq<Item>, d: Duration)
    ensures ItemsText(a + b, d) == ItemsText(a, d) + ItemsText(b, d)
    decreases |b|
  {
    if b == [] {
      assert a + b == a;
    } else {
      var init := b[..|b| - 1];
      assert (a + b)[..|a + b| - 1] == a + init;
      assert (a + b)[|a + b| - 1] == b[|b| - 1];
      ItemsTextAppend(a, init, d);
    }
  }

  lemma {:induction false} LitsText(s: string, d: Duration)
    ensures ItemsText(Lits(s), d) == s
    decreases |s|
  {
    if s != [] {
      assert Lits(s)[..|s| - 1] == Lits(s[..|s| - 1]);
      LitsText(s[..|s| - 1], d);
    }
  }

  // ---------------------------------------------------------------------
  // What a parsed template is

  /**
   * Every format `from_str` returns is coalesced, and its newline counter
   * equals the number of literal newlines, `%n` and `\n` in the template.
   */
  lemma ParseShape(s: string)
    requires Parse(s).Ok?
    ensures Coalesced(Parse(s).value)
    ensures LiteralNewlines(Parse(s).value) == ItemNewlines(Scan(s).value)
  {
    ScanNumericFields(s);
    AssembleShape([], Scan(s).value);
  }

  /** Displaying a parsed format writes each directive's meaning in order. */
  lemma ParseRender(s: string, d: Duration)
    requires Parse(s).Ok?
    ensures Render(Parse(s).value, d) == ItemsText(Scan(s).value, d)
  {
    RenderAssemble([], Scan(s).value, d);
  }

  /** A template without `%` and `\` is one text piece that displays as itself. */
  lemma PlainTextRoundTrip(s: string, d: Duration)
    requires Plain(s)
    ensures Parse(s) == Ok(if s == [] then [] else [Str(s)])
    ensures Render(Parse(s).value, d) == s
  {
    PlainScan(s);
    AssembleLits([], s);
    ParseRender(s, d);
    LitsText(s, d);
  }

  /** A one-letter `%` directive stands for its piece or character, wherever it appears. */
  lemma LetterDirective(p: string, c: char, t: string)
    requires Scan(p).Ok? && PercentItem(c).Some?
    ensures Scan(p + ['%', c] + t) == Prepend(Scan(p).value + [PercentItem(c).value], Scan(t))
  {
    DirectiveAt(p, ['%', c], t);
  }

  /** One of the four backslash escapes stands for its character, wherever it appears. */
  lemma EscapeDirective(p: string, c: char, t: string)
    requires Scan(p).Ok? && EscapedChar(c).Some?
    ensures Scan(p + ['\\', c] + t) == Prepend(Scan(p).value + [Lit(EscapedChar(c).value)], Scan(t))
  {
    DirectiveAt(p, ['\\', c], t);
  }

  /** `%<digits>f` with a precision that fits in a `u32` is a `Subseconds` field of that precision. */
  lemma ExplicitPrecision(p: string, digits: string, t: string)
    requires Scan(p).Ok? && digits != [] && AllDigits(digits) && DigitsValue(digits) <= U32_MAX
    ensures Scan(p + ("%" + digits + "f") + t)
      == Prepend(Scan(p).value + [Field(Subseconds(DigitsValue(digits)))], Scan(t))
  {
    var x := "%" + digits + "f";
    var j := |digits| + 1;
    assert x[1..j] == digits;
    StepPrecision(x, j);
    DirectiveAt(p, x, t);
  }

  /** A directive `x` read in full: what precedes and what follows it scan independently. */
  lemma DirectiveAt(p: string, x: string, t: string)
    requires Scan(p).Ok? && x != [] && Step(x).Ok? && Step(x).value.1 == |x|
    ensures Scan(p + x + t) == Prepend(Scan(p).value + [Step(x).value.0], Scan(t))
  {
    StepExtend(x, t);
    assert (x + t)[|x|..] == t;
    assert p + x + t == p + (x + t);
    ScanAppend(p, x + t);
    ScanUnfold(x + t);
    PrependAssoc(Scan(p).value, [Step(x).value.0], Scan(t));
  }

  // ---------------------------------------------------------------------
  // The five errors

  /** The directive `x + t` raises `e`: so does the template, after any prefix that parses. */
  lemma ErrorAt(p: string, x: string, e: ParseError)
    requires Scan(p).Ok? && x != [] && Step(x) == Err(e)
    ensures Parse(p + x) == Err(e)
  {
    ScanAppend(p, x);
  }

  /** A `%` at the very end: `BrokenPercent`. */
  lemma TrailingPercent(p: string)
    requires Scan(p).Ok?
    ensures Parse(p + "%") == Err(BrokenPercent)
  {
    ErrorAt(p, "%", BrokenPercent);
  }

  /** A `\` at the very end: `BrokenEscape`. */
  lemma TrailingBackslash(p: string)
    requires Scan(p).Ok?
    ensures Parse(p + "\\") == Err(BrokenEscape)
  {
    ErrorAt(p, "\\", BrokenEscape);
  }

  /** `%` and a character that is no specifier and no digit: `InvalidPercent` of that character. */
  lemma UnknownSpecifier(p: string, c: char, t: string)
    requires Scan(p).Ok? && PercentItem(c).None? && !IsDigit(c)
    ensures Parse(p + ['%', c] + t) == Err(InvalidPercent(c))
  {
    assert p + ['%', c] + t == p + (['%', c] + t);
    ErrorAt(p, ['%', c] + t, InvalidPercent(c));
  }

  /** `\` and a character other than `n`, `t`, `e`, `\`: `InvalidEscape` of that character. */
  lemma UnknownEscape(p: string, c: char, t: string)
    requires Scan(p).Ok? && EscapedChar(c).None?
    ensures Parse(p + ['\\', c] + t) == Err(InvalidEscape(c))
  {
    assert p + ['\\', c] + t == p + (['\\', c] + t);
    ErrorAt(p, ['\\', c] + t, InvalidEscape(c));
  }

  /**
   * `%` and a digit run followed by something other than `f` (or by
   * nothing): `InvalidPercent` carrying the first digit, not the character
   * that was found instead of `f`.
   */
  lemma DigitsWithoutF(p: string, digits: string, t: string)
    requires Scan(p).Ok? && digits != [] && AllDigits(digits) && DigitsValue(digits) <= U32_MAX
    requires t == [] || (t[0] != 'f' && !IsDigit(t[0]))
    ensures Parse(p + "%" + digits + t) == Err(InvalidPercent(digits[0]))
  {
    var x := "%" + digits + t;
    assert Step(x) == Err(InvalidPercent(digits[0])) by {
      StepDigitsThen(digits, t);
    }
    Regroup(p, "%", digits, t);
    ErrorAt(p, x, InvalidPercent(digits[0]));
  }

  /**
   * `%`, a whole digit run that fits in a `u32`, and what follows it: a
   * `Subseconds` field when that is an `f`, and otherwise `InvalidPercent`
   * carrying the first digit.
   */
  lemma StepDigitsThen(digits: string, t: string)
    requires digits != [] && AllDigits(digits) && DigitsValue(digits) <= U32_MAX
    requires t == [] || !IsDigit(t[0])
    ensures Step("%" + digits + t) ==
      if t != [] && t[0] == 'f' then Ok((Field(Subseconds(DigitsValue(digits))), |digits| + 2))
      else Err(InvalidPercent(digits[0]))
  {
    var x := "%" + digits + t;
    var j := |digits| + 1;
    assert x[1..j] == digits;
    assert j < |x| ==> x[j] == t[0];
    StepPrecision(x, j);
  }

  /** `%` and digits whose value exceeds `u32::MAX`: `PrecisionOverflow`, whatever follows. */
  lemma PrecisionTooLarge(p: string, digits: string, t: string)
    requires Scan(p).Ok? && digits != [] && AllDigits(digits) && DigitsValue(digits) > U32_MAX
    ensures Parse(p + "%" + digits + t) == Err(PrecisionOverflow)
  {
    var x := "%" + digits + t;
    var j := |digits| + 1;
    assert x[1..j] == digits;
    StepOverflow(x, j);
    Regroup(p, "%", digits, t);
    ErrorAt(p, x, PrecisionOverflow);
  }
}
