/**
 * `Format` (src/format.rs): a parsed duration template, holding its pieces
 * and the number of newline characters its literal text contains.
 */
module DurationFormat {
  import opened Wrappers
  import opened Numerals
  import opened Pieces
  import opened Syntax

  class Format {
    var pieces: seq<Piece>
    var newlines: nat

    /**
     * The shape `push_char` and `push` keep: literal text is merged into
     * non-empty, non-adjacent pieces, and `newlines` counts its newlines.
     */
    ghost predicate Valid()
      reads this
    {
      Coalesced(pieces) && newlines == LiteralNewlines(pieces)
    }

    /** `Format::new`. */
    constructor ()
      ensures Valid() && pieces == [] && newlines == 0
    {
      pieces := [];
      newlines := 0;
    }

    /** `Format::default`: "Elapsed: %H:%M:%S". */
    constructor Default()
      ensures Valid() && pieces == DEFAULT_PIECES && newlines == 0
    {
      pieces := DEFAULT_PIECES;
      newlines := 0;
      DefaultShape();
    }

    /** `Format::newlines`: how many lines every rendering of this format spans, less one. */
    function Newlines(): (n: nat)
      reads this
      requires Valid()
      ensures forall d :: multiset(Render(pieces, d))['\n'] == n
    {
      RenderNewlinesEverywhere(pieces);
      newlines
    }

    /** `Format::display`: the renderings of the pieces, in order. */
    method Display(d: Duration) returns (s: string)
      ensures s == Render(pieces, d)
    {
      s := [];
      for i := 0 to |pieces|
        invariant s == Render(pieces[..i], d)
      {
        assert pieces[..i + 1][..i] == pieces[..i];
        s := DisplayPiece(pieces[i], s, d);
      }
      assert pieces[..|pieces|] == pieces;
    }

    /** `Format::push_char`: extend the trailing literal piece, or start one. */
    method PushChar(c: char)
      requires Valid()
      modifies this
      ensures Valid()
      ensures pieces == AppendChar(old(pieces), c)
      ensures newlines == old(newlines) + (if c == '\n' then 1 else 0)
    {
      if |pieces| > 0 && pieces[|pieces| - 1].Str? {
        var last := pieces[|pieces| - 1].text;
        pieces := pieces[..|pieces| - 1] + [Str(last + [c])];
      } else {
        pieces := pieces + [Str([c])];
      }
      if c == '\n' {
        newlines := newlines + 1;
      }
      AppendCharShape(old(pieces), c);
    }

    /** `Format::push`: append a piece as it is (`from_str` pushes only numeric pieces). */
    method Push(p: Piece)
      requires Valid()
      modifies this
      ensures pieces == old(pieces) + [p] && newlines == old(newlines)
      ensures !p.Str? ==> Valid()
    {
      pieces := pieces + [p];
      if !p.Str? {
        PushFieldShape(old(pieces), p);
      }
    }

    /**
     * `Format::from_str`: reads the template one directive at a time,
     * pushing fields and literal characters, and stops at the first error.
     */
    static method FromStr(s: string) returns (r: Result<Format, ParseError>)
      ensures r.Ok? <==> Parse(s).Ok?
      ensures r.Ok? ==> fresh(r.value) && r.value.Valid() && r.value.pieces == Parse(s).value
      ensures r.Err? ==> r.error == Parse(s).error
    {
      var fmt := new Format();
      ghost var items: seq<Item> := [];
      var i := 0;
      assert Scan(s) == Prepend(items, Scan(s[i..])) by {
        assert s[i..] == s;
        match Scan(s)
        case Ok(rest) => assert items + rest == rest;
        case Err(_) =>
      }
      while i < |s|
        invariant 0 <= i <= |s|
        invariant fresh(fmt) && fmt.Valid()
        invariant fmt.pieces == Assemble([], items)
        invariant Scan(s) == Prepend(items, Scan(s[i..]))
        decreases |s| - i
      {
        var next, err, item := fmt.ReadDirective(s, i);
        if err.Some? {
          r := Err(err.value);
          return;
        }
        ScanAdvances(s, i, item, next, items);
        AssembleSnoc([], items, item);
        items := items + [item];
        i := next;
      }
      assert s[i..] == [] && items + [] == items;
      r := Ok(fmt);
    }

    /**
     * One turn of the `from_str` loop: reads the directive at `start` and
     * pushes what it stands for, or reports the error it raises.
     */
    method ReadDirective(s: string, start: nat) returns (next: nat, err: Option<ParseError>, ghost item: Item)
      requires start < |s| && Valid()
      modifies this
      ensures Valid()
      ensures err.None? ==> start < next <= |s| && Step(s[start..]) == Ok((item, next - start))
      ensures err.None? ==> pieces == AddItem(old(pieces), item)
      ensures err.Some? ==> Step(s[start..]) == Err(err.value)
    {
      var c := s[start];
      if c == '%' {
        next, err, item := ReadPercent(s, start);
      } else if c == '\\' {
        next, err, item := ReadEscape(s, start);
      } else {
        StepLiteral(s, start);
        PushChar(c);
        next, err, item := start + 1, None, Lit(c);
      }
    }

    /** A `%` directive: a numeric field, a special character, or an error. */
    method ReadPercent(s: string, start: nat) returns (next: nat, err: Option<ParseError>, ghost item: Item)
      requires start < |s| && s[start] == '%' && Valid()
      modifies this
      ensures Valid()
      ensures err.None? ==> start < next <= |s| && Step(s[start..]) == Ok((item, next - start))
      ensures err.None? ==> pieces == AddItem(old(pieces), item)
      ensures err.Some? ==> Step(s[start..]) == Err(err.value)
    {
      if start + 1 == |s| {
        return start + 1, Some(BrokenPercent), Lit('%');
      }
      var spec := s[start + 1];
      next, err := start + 2, None;
      if PercentItem(spec).Some? {
        StepLetter(s, start);
      }
      if spec == 'H' {
        Push(Hour);
        item := Field(Hour);
      } else if spec == 'M' {
        Push(Minute);
        item := Field(Minute);
      } else if spec == 'S' {
        Push(Second);
        item := Field(Second);
      } else if spec == 's' {
        Push(TotalSeconds);
        item := Field(TotalSeconds);
      } else if spec == 'f' {
        Push(Subseconds(DEFAULT_PRECISION));
        item := Field(Subseconds(DEFAULT_PRECISION));
      } else if spec == 'n' {
        PushChar('\n');
        item := Lit('\n');
      } else if spec == 't' {
        PushChar('\t');
        item := Lit('\t');
      } else if spec == 'e' {
        PushChar(ESC);
        item := Lit(ESC);
      } else if spec == '%' {
        PushChar('%');
        item := Lit('%');
      } else if IsDigit(spec) {
        next, err, item := ReadSubseconds(s, start);
      } else {
        err, item := Some(InvalidPercent(spec)), Lit('%');
      }
    }

    /** `%<digits>f`: a subseconds field with an explicit precision, or an error. */
    method ReadSubseconds(s: string, start: nat) returns (next: nat, err: Option<ParseError>, ghost item: Item)
      requires start + 1 < |s| && s[start] == '%' && IsDigit(s[start + 1]) && Valid()
      modifies this
      ensures Valid()
      ensures err.None? ==> start < next <= |s| && Step(s[start..]) == Ok((item, next - start))
      ensures err.None? ==> pieces == AddItem(old(pieces), item)
      ensures err.Some? ==> Step(s[start..]) == Err(err.value)
    {
      var end, overflow, precision := ReadPrecision(s, start);
      if overflow {
        return end, Some(PrecisionOverflow), Lit('%');
      }
      assert s[start..][1..end - start] == s[start + 1..end];
      StepPrecision(s[start..], end - start);
      if end < |s| && s[end] == 'f' {
        // `usize::try_from(precision)` cannot fail where `usize` has at least 32 bits.
        Push(Subseconds(precision));
        next, err, item := end + 1, None, Field(Subseconds(precision));
      } else {
        next, err, item := end, Some(InvalidPercent(s[start + 1])), Lit('%');
      }
    }

    /** A `\` directive: one of the four escapes, or an error. */
    method ReadEscape(s: string, start: nat) returns (next: nat, err: Option<ParseError>, ghost item: Item)
      requires start < |s| && s[start] == '\\' && Valid()
      modifies this
      ensures Valid()
      ensures err.None? ==> start < next <= |s| && Step(s[start..]) == Ok((item, next - start))
      ensures err.None? ==> pieces == AddItem(old(pieces), item)
      ensures err.Some? ==> Step(s[start..]) == Err(err.value)
    {
      if start + 1 == |s| {
        return start + 1, Some(BrokenEscape), Lit('\\');
      }
      var escaped := s[start + 1];
      next, err := start + 2, None;
      if EscapedChar(escaped).Some? {
        StepEscape(s, start);
      }
      if escaped == 'n' {
        PushChar('\n');
        item := Lit('\n');
      } else if escaped == 't' {
        PushChar('\t');
        item := Lit('\t');
      } else if escaped == 'e' {
        PushChar(ESC);
        item := Lit(ESC);
      } else if escaped == '\\' {
        PushChar('\\');
        item := Lit('\\');
      } else {
        err, item := Some(InvalidEscape(escaped)), Lit('\\');
      }
    }
  }

  /**
   * The explicit precision of `%<digits>f`: accumulates the digits after
   * the `%` in a `u32` with checked arithmetic, stopping at the first
   * non-digit or as soon as the value no longer fits.
   */
  method ReadPrecision(s: string, start: nat) returns (end: nat, overflow: bool, precision: nat)
    requires start + 1 < |s| && s[start] == '%' && IsDigit(s[start + 1])
    ensures overflow ==> Step(s[start..]) == Err(PrecisionOverflow)
    ensures !overflow ==> start + 2 <= end <= |s| && AllDigits(s[start + 1..end])
    ensures !overflow ==> precision == DigitsValue(s[start + 1..end]) <= U32_MAX
    ensures !overflow ==> end == |s| || !IsDigit(s[end])
  {
    precision := DigitValue(s[start + 1]);
    end := start + 2;
    assert s[start + 1..end] == [s[start + 1]];
    while end < |s| && IsDigit(s[end])
      invariant start + 2 <= end <= |s|
      invariant AllDigits(s[start + 1..end])
      invariant precision == DigitsValue(s[start + 1..end]) <= U32_MAX
      decreases |s| - end
    {
      var digit := DigitValue(s[end]);
      DigitsExtend(s, start + 1, end);
      end := end + 1;
      // `checked_mul(10)`, then `checked_add(digit)`: `None` past `u32::MAX`
      if precision * 10 > U32_MAX || precision * 10 + digit > U32_MAX {
        assert s[start..][1..end - start] == s[start + 1..end];
        StepOverflow(s[start..], end - start);
        return end, true, precision;
      }
      precision := precision * 10 + digit;
    }
    overflow := false;
  }

  // ---------------------------------------------------------------------
  // Lemmas the methods above rely on

  lemma DefaultShape()
    ensures Coalesced(DEFAULT_PIECES) && LiteralNewlines(DEFAULT_PIECES) == 0
  {
    NoLiteralNewlines(DEFAULT_PIECES);
  }

  /** Literal text without newlines contributes none. */
  lemma {:induction false} NoLiteralNewlines(ps: seq<Piece>)
    requires forall k :: 0 <= k < |ps| && ps[k].Str? ==> '\n' !in ps[k].text
    ensures LiteralNewlines(ps) == 0
  {
    if ps != [] {
      var last := ps[|ps| - 1];
      NoLiteralNewlines(ps[..|ps| - 1]);
      if last.Str? {
        assert '\n' !in multiset(last.text);
      }
    }
  }

  lemma RenderNewlinesEverywhere(ps: seq<Piece>)
    ensures forall d :: multiset(Render(ps, d))['\n'] == LiteralNewlines(ps)
  {
    forall d: Duration
      ensures multiset(Render(ps, d))['\n'] == LiteralNewlines(ps)
    {
      RenderNewlines(ps, d);
    }
  }

  /** The directive at `start` was read: the rest of the template is scanned from `next`. */
  lemma ScanAdvances(s: string, start: nat, item: Item, next: nat, items: seq<Item>)
    requires start < next <= |s|
    requires Step(s[start..]) == Ok((item, next - start))
    requires Scan(s) == Prepend(items, Scan(s[start..]))
    ensures Scan(s) == Prepend(items + [item], Scan(s[next..]))
  {
    assert s[start..][next - start..] == s[next..];
    match Scan(s[next..])
    case Ok(rest) => assert items + ([item] + rest) == (items + [item]) + rest;
    case Err(_) =>
  }
}
