/**
 * The pieces of a duration format (src/format.rs `FormatPiece`) and how each
 * renders a `Duration`; the piece lists a `Format` holds, how `push_char`
 * extends them, and what rendering a whole list produces.
 */
module Pieces {
  import opened Numerals

  /** Sub-second part of a `std::time::Duration`. */
  type Nanos = n: nat | n < 1_000_000_000

  /** A `std::time::Duration`: whole seconds and the nanoseconds beyond them. */
  datatype Duration = Duration(secs: nat, nanos: Nanos)

  datatype Piece =
    | Str(text: string)
    | Hour
    | Minute
    | Second
    | TotalSeconds
    | Subseconds(precision: nat)

  /** The pieces of `Format::default()`: "Elapsed: %H:%M:%S". */
  const DEFAULT_PIECES: seq<Piece> := [Str("Elapsed: "), Hour, Str(":"), Minute, Str(":"), Second]

  /** Rust's `{:02}` on an unsigned integer. */
  function TwoDigits(n: nat): string {
    ZeroPad(Decimal(n), 2)
  }

  /**
   * The reference rendering of `%<precision>f`: the nanoseconds written with
   * nine digits (leading zeros kept), cut after `precision` digits, or
   * followed by zeros when more than nine are asked for.
   */
  function SubsecondText(nanos: Nanos, precision: nat): string {
    var padded := ZeroPad(Decimal(nanos), 9);
    if precision <= 9 then padded[..precision] else padded + Zeros(precision - 9)
  }

  /** The text `FormatPiece::display` appends for piece `p` at duration `d`. */
  function PieceText(p: Piece, d: Duration): string {
    match p
    case Str(s) => s
    case Hour => TwoDigits(d.secs / 3600)
    case Minute => TwoDigits(d.secs / 60 % 60)
    case Second => TwoDigits(d.secs % 60)
    case TotalSeconds => Decimal(d.secs)
    case Subseconds(precision) => SubsecondText(d.nanos, precision)
  }

  /** The in-order concatenation of the renderings of `ps`. */
  function Render(ps: seq<Piece>, d: Duration): string {
    if ps == [] then [] else Render(ps[..|ps| - 1], d) + PieceText(ps[|ps| - 1], d)
  }

  /** `Format::default().display(d)`: "Elapsed: " and the hours, minutes and seconds of `d`. */
  lemma DefaultRendering(d: Duration)
    ensures Render(DEFAULT_PIECES, d)
      == "Elapsed: " + TwoDigits(d.secs / 3600) + ":" + TwoDigits(d.secs / 60 % 60) + ":" + TwoDigits(d.secs % 60)
  {
    RenderSix(Str("Elapsed: "), Hour, Str(":"), Minute, Str(":"), Second, d);
  }

  /** Rendering six pieces, one after the other. */
  lemma RenderSix(p0: Piece, p1: Piece, p2: Piece, p3: Piece, p4: Piece, p5: Piece, d: Duration)
    ensures Render([p0, p1, p2, p3, p4, p5], d)
      == PieceText(p0, d) + PieceText(p1, d) + PieceText(p2, d) + PieceText(p3, d) + PieceText(p4, d) + PieceText(p5, d)
  {
    var t0, t1, t2, t3, t4, t5 := PieceText(p0, d), PieceText(p1, d), PieceText(p2, d), PieceText(p3, d), PieceText(p4, d), PieceText(p5, d);
    assert Render([p0], d) == t0 by {
      RenderSnoc([], p0, d);
      assert [] + [p0] == [p0];
    }
    assert Render([p0, p1], d) == t0 + t1 by {
      RenderSnoc([p0], p1, d);
      assert [p0] + [p1] == [p0, p1];
    }
    assert Render([p0, p1, p2], d) == t0 + t1 + t2 by {
      RenderSnoc([p0, p1], p2, d);
      assert [p0, p1] + [p2] == [p0, p1, p2];
    }
    assert Render([p0, p1, p2, p3], d) == t0 + t1 + t2 + t3 by {
      RenderSnoc([p0, p1, p2], p3, d);
      assert [p0, p1, p2] + [p3] == [p0, p1, p2, p3];
    }
    assert Render([p0, p1, p2, p3, p4], d) == t0 + t1 + t2 + t3 + t4 by {
      RenderSnoc([p0, p1, p2, p3], p4, d);
      assert [p0, p1, p2, p3] + [p4] == [p0, p1, p2, p3, p4];
    }
    RenderSnoc([p0, p1, p2, p3, p4], p5, d);
    assert [p0, p1, p2, p3, p4] + [p5] == [p0, p1, p2, p3, p4, p5];
  }

  /** Rendering one more piece appends its text. */
  lemma RenderSnoc(ps: seq<Piece>, p: Piece, d: Duration)
    ensures Render(ps + [p], d) == Render(ps, d) + PieceText(p, d)
  {
    assert (ps + [p])[..|ps|] == ps;
  }

  /** `FormatPiece::display`: appends the rendering of `p` to `out`. */
  method DisplayPiece(p: Piece, out: string, d: Duration) returns (res: string)
    ensures res == out + PieceText(p, d)
  {
    match p
    case Str(s) =>
      res := out + s;
    case Hour =>
      res := out + TwoDigits(d.secs / 3600);
    case Minute =>
      res := out + TwoDigits(d.secs / 60 % 60);
    case Second =>
      res := out + TwoDigits(d.secs % 60);
    case TotalSeconds =>
      res := out + Decimal(d.secs);
    case Subseconds(precision) =>
      res := DisplaySubseconds(d.nanos, precision, out);
  }

  /**
   * The `Subseconds` arm of `FormatPiece::display`: peels digits off the
   * nanoseconds from the most significant end with a shrinking divisor,
   * and writes `0` once the divisor has run out.
   */
  method DisplaySubseconds(nanos: Nanos, precision: nat, out: string) returns (res: string)
    ensures res == out + SubsecondText(nanos, precision)
  {
    var frac: nat := nanos;
    var divisor: nat := 1_000_000_000 / 10;
    ghost var emitted: string := [];
    DigitLoopStart(nanos);
    res := out;
    for k := 0 to precision
      invariant DigitLoop(nanos, k, frac, divisor, emitted)
      invariant res == out + emitted
    {
      var digit: nat;
      if divisor > 0 {
        ghost var before := frac;
        digit := frac / divisor;
        frac := frac % divisor;
        DigitStep(nanos, k, before, divisor, emitted, digit, frac);
        divisor := divisor / 10;
      } else {
        digit := 0;
      }
      // `char::from_digit(digit, 10)` succeeds: the digit is below ten.
      res := res + [DigitChar(digit)];
      emitted := emitted + [DigitChar(digit)];
    }
    DigitLoopEnd(nanos, precision, frac, divisor, emitted);
  }

  /**
   * The state of the digit loop after `k` rounds: `emitted` is the first
   * `k` characters of the nine-digit nanoseconds followed by zeros, and
   * `frac` holds the digits not yet written, below `10 * divisor`.
   */
  ghost predicate DigitLoop(nanos: Nanos, k: nat, frac: nat, divisor: nat, emitted: string) {
    var padded := LowDigits(nanos, 9);
    && divisor == (if k <= 8 then Pow10(8 - k) else 0)
    && (k <= 9 ==> frac < Pow10(9 - k) && emitted == padded[..k] && padded[k..] == LowDigits(frac, 9 - k))
    && (k >= 9 ==> emitted == padded + Zeros(k - 9))
  }

  lemma DigitLoopStart(nanos: Nanos)
    ensures DigitLoop(nanos, 0, nanos, 1_000_000_000 / 10, [])
  {
    assert Pow10(8) == 100_000_000 && Pow10(9) == 1_000_000_000;
  }

  /** One round of the loop: the digit `q` and the remainder `r` of `frac` by `divisor`. */
  lemma DigitStep(nanos: Nanos, k: nat, frac: nat, divisor: nat, emitted: string, q: nat, r: nat)
    requires DigitLoop(nanos, k, frac, divisor, emitted) && divisor > 0
    requires q == frac / divisor && r == frac % divisor
    ensures q < 10 && r < divisor
    ensures DigitLoop(nanos, k + 1, r, divisor / 10, emitted + [DigitChar(q)])
  {
    var padded := LowDigits(nanos, 9);
    assert k <= 8 && divisor == Pow10(8 - k);
    assert Pow10(9 - k) == 10 * divisor;
    LowDigitsHead(frac, 8 - k, q, r);
    assert padded[k..] == [DigitChar(q)] + LowDigits(r, 8 - k);
    assert padded[k] == padded[k..][0] == DigitChar(q);
    assert padded[k + 1..] == padded[k..][1..] == LowDigits(r, 8 - k);
    assert padded[..k + 1] == padded[..k] + [padded[k]];
    if k < 8 {
      assert divisor / 10 == Pow10(8 - (k + 1));
    } else {
      assert padded[..k + 1] == padded + Zeros(0);
    }
  }

  lemma DigitLoopEnd(nanos: Nanos, k: nat, frac: nat, divisor: nat, emitted: string)
    requires DigitLoop(nanos, k, frac, divisor, emitted)
    ensures emitted == SubsecondText(nanos, k)
  {
    assert Pow10(9) == 1_000_000_000;
    ZeroPadDecimal(nanos, 9);
  }

  // ---------------------------------------------------------------------
  // What each piece renders

  lemma TwoDigitsRendering(n: nat)
    ensures var r := TwoDigits(n);
      AllDigits(r) && |r| >= 2 && DigitsValue(r) == n && (|r| > 2 ==> r[0] != '0')
    ensures n < 100 ==> |TwoDigits(n)| == 2
  {
    DecimalValue(n);
    ZeroPadValue(Decimal(n), 2);
    DecimalNoLeadingZero(n);
    if n < 100 {
      assert Pow10(2) == 100;
      DecimalFits(n, 2);
    }
  }

  /** `%H`: the whole hours, at least two digits, never cut short. */
  lemma HourRendering(d: Duration)
    ensures var r := PieceText(Hour, d);
      AllDigits(r) && |r| >= 2 && DigitsValue(r) == d.secs / 3600 && (|r| > 2 ==> r[0] != '0')
  {
    TwoDigitsRendering(d.secs / 3600);
  }

  /** `%M`: the minutes within the hour, exactly two digits. */
  lemma MinuteRendering(d: Duration)
    ensures var r := PieceText(Minute, d);
      AllDigits(r) && |r| == 2 && DigitsValue(r) == d.secs / 60 % 60 && DigitsValue(r) < 60
  {
    TwoDigitsRendering(d.secs / 60 % 60);
  }

  /** `%S`: the seconds within the minute, exactly two digits. */
  lemma SecondRendering(d: Duration)
    ensures var r := PieceText(Second, d);
      AllDigits(r) && |r| == 2 && DigitsValue(r) == d.secs % 60 && DigitsValue(r) < 60
  {
    TwoDigitsRendering(d.secs % 60);
  }

  /** `%s`: all the whole seconds, without padding. */
  lemma TotalSecondsRendering(d: Duration)
    ensures var r := PieceText(TotalSeconds, d);
      && AllDigits(r) && |r| >= 1 && DigitsValue(r) == d.secs
      && (|r| > 1 ==> r[0] != '0')
      && (r[0] == '0' <==> d.secs == 0)
  {
    DecimalValue(d.secs);
    DecimalNoLeadingZero(d.secs);
  }

  /**
   * `%<p>f`: exactly `p` digits. Up to nine they are the nanoseconds
   * truncated (never rounded) to `p` decimal places; past nine the value is
   * extended with zeros.
   */
  lemma SubsecondRendering(d: Duration, p: nat)
    ensures var r := PieceText(Subseconds(p), d);
      && AllDigits(r) && |r| == p
      && (p <= 9 ==> DigitsValue(r) == d.nanos / Pow10(9 - p))
      && (p > 9 ==> DigitsValue(r) == d.nanos * Pow10(p - 9))
  {
    var n := d.nanos;
    var padded := ZeroPad(Decimal(n), 9);
    assert padded == LowDigits(n, 9) by {
      assert Pow10(9) == 1_000_000_000;
      ZeroPadDecimal(n, 9);
    }
    if p <= 9 {
      assert PieceText(Subseconds(p), d) == LowDigits(n, 9)[..p];
      TruncatedValue(n, p);
    } else {
      assert PieceText(Subseconds(p), d) == padded + Zeros(p - 9);
      ExtendedValue(n, p);
    }
  }

  lemma ExtendedValue(n: Nanos, p: nat)
    requires p > 9
    ensures DigitsValue(ZeroPad(Decimal(n), 9) + Zeros(p - 9)) == n * Pow10(p - 9)
  {
    TrailingZerosValue(ZeroPad(Decimal(n), 9), p - 9);
    DecimalValue(n);
    ZeroPadValue(Decimal(n), 9);
  }

  lemma TruncatedValue(n: Nanos, p: nat)
    requires p <= 9
    ensures DigitsValue(LowDigits(n, 9)[..p]) == n / Pow10(9 - p)
  {
    var q := Pow10(9 - p);
    DivNonNegative(n, q);
    var hi: nat := n / q;
    assert LowDigits(n, 9)[..p] == LowDigits(hi, p) by {
      LowDigitsSplit(n, p, 9 - p, hi, n % q);
    }
    assert hi < Pow10(p) by {
      Pow10Add(p, 9 - p);
      assert Pow10(9) == 1_000_000_000;
      DivBelow(n, q, Pow10(p));
    }
    assert DigitsValue(LowDigits(hi, p)) == hi by {
      LowDigitsValue(hi, p);
      ModBelow(hi, Pow10(p));
    }
  }

  lemma FieldDigitsOnly(p: Piece, d: Duration)
    requires !p.Str?
    ensures AllDigits(PieceText(p, d))
  {
    if p.Subseconds? {
      SubsecondRendering(d, p.precision);
    }
  }

  // ---------------------------------------------------------------------
  // Rendering piece lists

  lemma {:induction false} RenderConcat(a: seq<Piece>, b: seq<Piece>, d: Duration)
    ensures Render(a + b, d) == Render(a, d) + Render(b, d)
  {
    if b == [] {
      assert a + b == a;
    } else {
      var b', last := b[..|b| - 1], b[|b| - 1];
      calc {
        Render(a + b, d);
        { assert (a + b)[..|a + b| - 1] == a + b' && (a + b)[|a + b| - 1] == last; }
        Render(a + b', d) + PieceText(last, d);
        { RenderConcat(a, b', d); }
        Render(a, d) + Render(b', d) + PieceText(last, d);
        Render(a, d) + Render(b, d);
      }
    }
  }

  /** The newline characters in the literal text of `ps`. */
  function LiteralNewlines(ps: seq<Piece>): nat {
    if ps == [] then 0
    else LiteralNewlines(ps[..|ps| - 1]) + (if ps[|ps| - 1].Str? then multiset(ps[|ps| - 1].text)['\n'] else 0)
  }

  /** Numeric pieces write only digits, so every newline of a rendering is literal text. */
  lemma {:induction false} RenderNewlines(ps: seq<Piece>, d: Duration)
    ensures multiset(Render(ps, d))['\n'] == LiteralNewlines(ps)
  {
    if ps != [] {
      var last := ps[|ps| - 1];
      RenderNewlines(ps[..|ps| - 1], d);
      if !last.Str? {
        FieldDigitsOnly(last, d);
        assert '\n' !in PieceText(last, d);
      }
    }
  }

  // ---------------------------------------------------------------------
  // The shape `push_char` and `push` keep

  /** No two literal pieces are adjacent, and no literal piece is empty. */
  ghost predicate Coalesced(ps: seq<Piece>) {
    && (forall k :: 0 <= k < |ps| && ps[k].Str? ==> ps[k].text != [])
    && (forall k :: 0 < k < |ps| && ps[k].Str? ==> !ps[k - 1].Str?)
  }

  /** `Format::push_char` on the piece list: extend a trailing literal, or start one. */
  function AppendChar(ps: seq<Piece>, c: char): seq<Piece> {
    if ps != [] && ps[|ps| - 1].Str? then ps[..|ps| - 1] + [Str(ps[|ps| - 1].text + [c])]
    else ps + [Str([c])]
  }

  /** Appending a character to the pieces appends it to every rendering. */
  lemma AppendCharRender(ps: seq<Piece>, c: char, d: Duration)
    ensures Render(AppendChar(ps, c), d) == Render(ps, d) + [c]
  {
    var r := AppendChar(ps, c);
    if ps != [] && ps[|ps| - 1].Str? {
      assert r[..|r| - 1] == ps[..|ps| - 1];
    } else {
      assert r[..|r| - 1] == ps;
    }
  }

  lemma AppendCharShape(ps: seq<Piece>, c: char)
    requires Coalesced(ps)
    ensures Coalesced(AppendChar(ps, c))
    ensures LiteralNewlines(AppendChar(ps, c)) == LiteralNewlines(ps) + (if c == '\n' then 1 else 0)
    ensures |AppendChar(ps, c)| == if ps != [] && ps[|ps| - 1].Str? then |ps| else |ps| + 1
  {
    var r := AppendChar(ps, c);
    if ps != [] && ps[|ps| - 1].Str? {
      assert r[..|r| - 1] == ps[..|ps| - 1];
      assert multiset(ps[|ps| - 1].text + [c]) == multiset(ps[|ps| - 1].text) + multiset{c};
    } else {
      assert r[..|r| - 1] == ps;
    }
  }

  lemma PushFieldShape(ps: seq<Piece>, p: Piece)
    requires Coalesced(ps) && !p.Str?
    ensures Coalesced(ps + [p])
    ensures LiteralNewlines(ps + [p]) == LiteralNewlines(ps)
  {
    assert (ps + [p])[..|ps|] == ps;
  }
}
