/**
 * The template language `Format::from_str` accepts (src/format.rs), as a
 * functional reference grammar: a template is read one directive at a time
 * (`Step`); each directive is a literal character or a numeric field
 * (`Scan`); literal characters are then merged into text pieces exactly as
 * `push_char` merges them (`Assemble`). `Parse` is the whole translation.
 */
module Syntax {
  import opened Wrappers
  import opened Numerals
  import opened Pieces

  /** `%f` without an explicit precision writes six digits. */
  const DEFAULT_PRECISION: nat := 6

  /** `u32::MAX`: the precision is accumulated in a `u32` with checked arithmetic. */
  const U32_MAX: nat := 4294967295

  /** The ASCII escape character that `%e` and `\e` stand for. */
  const ESC: char := 27 as char

  datatype ParseError =
    | PrecisionOverflow
    | InvalidPercent(c: char)
    | BrokenPercent
    | InvalidEscape(c: char)
    | BrokenEscape

  /** One directive of a template: a literal character, or a numeric field. */
  datatype Item = Lit(c: char) | Field(p: Piece)

  /** The length of the run of ASCII digits at the start of `t`. */
  function DigitRun(t: string): (k: nat)
    ensures k <= |t|
    ensures AllDigits(t[..k])
    ensures k < |t| ==> !IsDigit(t[k])
  {
    if t == [] || !IsDigit(t[0]) then 0
    else
      var k := 1 + DigitRun(t[1..]);
      assert t[..k] == [t[0]] + t[1..][..k - 1];
      k
  }

  /** The meaning of `%` followed by `c`, for the specifiers that are one letter. */
  function PercentItem(c: char): Option<Item> {
    match c
    case 'H' => Some(Field(Hour))
    case 'M' => Some(Field(Minute))
    case 'S' => Some(Field(Second))
    case 's' => Some(Field(TotalSeconds))
    case 'f' => Some(Field(Subseconds(DEFAULT_PRECISION)))
    case 'n' => Some(Lit('\n'))
    case 't' => Some(Lit('\t'))
    case 'e' => Some(Lit(ESC))
    case '%' => Some(Lit('%'))
    case _ => None
  }

  /** The character `\` followed by `c` stands for, if any. */
  function EscapedChar(c: char): Option<char> {
    match c
    case 'n' => Some('\n')
    case 't' => Some('\t')
    case 'e' => Some(ESC)
    case '\\' => Some('\\')
    case _ => None
  }

  /**
   * The first directive of a non-empty template and how many characters
   * it takes, or the error it raises.
   */
  function Step(t: string): (r: Result<(Item, nat), ParseError>)
    requires t != []
    ensures r.Ok? ==> 1 <= r.value.1 <= |t|
    ensures r.Ok? && r.value.0.Field? ==> !r.value.0.p.Str?
  {
    if t[0] == '%' then
      if |t| == 1 then Err(BrokenPercent)
      else if PercentItem(t[1]).Some? then Ok((PercentItem(t[1]).value, 2))
      else if IsDigit(t[1]) then
        var k := 1 + DigitRun(t[2..]);
        assert t[1..1 + k] == [t[1]] + t[2..][..k - 1];
        var precision := DigitsValue(t[1..1 + k]);
        if precision > U32_MAX then Err(PrecisionOverflow)
        else if 1 + k < |t| && t[1 + k] == 'f' then Ok((Field(Subseconds(precision)), 2 + k))
        else Err(InvalidPercent(t[1]))
      else Err(InvalidPercent(t[1]))
    else if t[0] == '\\' then
      if |t| == 1 then Err(BrokenEscape)
      else if EscapedChar(t[1]).Some? then Ok((Lit(EscapedChar(t[1]).value), 2))
      else Err(InvalidEscape(t[1]))
    else Ok((Lit(t[0]), 1))
  }

  /** `items` in front of a successful result; an error passes through. */
  function Prepend(items: seq<Item>, r: Result<seq<Item>, ParseError>): Result<seq<Item>, ParseError> {
    match r
    case Ok(rest) => Ok(items + rest)
    case Err(e) => Err(e)
  }

  /** The directives of a template, or the first error met reading them. */
  function Scan(t: string): Result<seq<Item>, ParseError>
    decreases |t|
  {
    if t == [] then Ok([])
    else match Step(t)
      case Err(e) => Err(e)
      case Ok((item, k)) => Prepend([item], Scan(t[k..]))
  }

  /** What `from_str` does with one directive: `push_char` a literal, `push` a field. */
  function AddItem(ps: seq<Piece>, item: Item): seq<Piece> {
    match item
    case Lit(c) => AppendChar(ps, c)
    case Field(p) => ps + [p]
  }

  /** The pieces of a format holding `ps` once `items` have been added, in order. */
  function Assemble(ps: seq<Piece>, items: seq<Item>): seq<Piece> {
    if items == [] then ps else AddItem(Assemble(ps, items[..|items| - 1]), items[|items| - 1])
  }

  /** The pieces of the `Format` parsed from `s`, or the parse error. */
  function Parse(s: string): Result<seq<Piece>, ParseError> {
    match Scan(s)
    case Ok(items) => Ok(Assemble([], items))
    case Err(e) => Err(e)
  }

  /** The text a list of directives renders at `d`. */
  function ItemsText(items: seq<Item>, d: Duration): string {
    if items == [] then []
    else
      ItemsText(items[..|items| - 1], d)
      + match items[|items| - 1]
        case Lit(c) => [c]
        case Field(p) => PieceText(p, d)
  }

  // ---------------------------------------------------------------------
  // The digit run after `%`

  lemma {:induction false} DigitRunAtLeast(t: string, j: nat)
    requires j <= |t| && AllDigits(t[..j])
    ensures j <= DigitRun(t)
  {
    if j > 0 {
      assert IsDigit(t[..j][0]);
      assert t[1..][..j - 1] == t[..j][1..];
      DigitRunAtLeast(t[1..], j - 1);
    }
  }

  lemma {:induction false} DigitRunExact(t: string, j: nat)
    requires j <= |t| && AllDigits(t[..j]) && (j == |t| || !IsDigit(t[j]))
    ensures DigitRun(t) == j
  {
    if j > 0 {
      assert IsDigit(t[..j][0]);
      assert t[1..][..j - 1] == t[..j][1..];
      DigitRunExact(t[1..], j - 1);
    }
  }

  // ---------------------------------------------------------------------
  // The first directive of a template

  lemma StepLetter(s: string, start: nat)
    requires start + 1 < |s| && s[start] == '%' && PercentItem(s[start + 1]).Some?
    ensures Step(s[start..]) == Ok((PercentItem(s[start + 1]).value, 2))
  {
  }

  lemma StepEscape(s: string, start: nat)
    requires start + 1 < |s| && s[start] == '\\' && EscapedChar(s[start + 1]).Some?
    ensures Step(s[start..]) == Ok((Lit(EscapedChar(s[start + 1]).value), 2))
  {
  }

  lemma StepLiteral(s: string, start: nat)
    requires start < |s| && s[start] != '%' && s[start] != '\\'
    ensures Step(s[start..]) == Ok((Lit(s[start]), 1))
  {
  }

  lemma AssembleSnoc(ps: seq<Piece>, items: seq<Item>, item: Item)
    ensures Assemble(ps, items + [item]) == AddItem(Assemble(ps, items), item)
  {
    assert (items + [item])[..|items|] == items;
  }

  /**
   * `%` and a digit run whose first `j - 1` digits already exceed
   * `u32::MAX`: the whole run is at least as large, so the directive raises
   * `PrecisionOverflow`, whatever follows.
   */
  lemma StepOverflow(t: string, j: nat)
    requires 2 <= j <= |t| && t[0] == '%'
    requires AllDigits(t[1..j]) && DigitsValue(t[1..j]) > U32_MAX
    ensures Step(t) == Err(PrecisionOverflow)
  {
    assert IsDigit(t[1..j][0]);
    AllDigitsSlice(t[1..j], 1, j - 1);
    assert t[1..j][1..j - 1] == t[2..j] == t[2..][..j - 2];
    DigitRunAtLeast(t[2..], j - 2);
    var k := 1 + DigitRun(t[2..]);
    assert t[1..1 + k][..j - 1] == t[1..j];
    assert t[1..1 + k] == [t[1]] + t[2..][..k - 1];
    DigitsValuePrefix(t[1..1 + k], j - 1);
  }

  /**
   * `%` and a digit run `t[1..j]` that fits in a `u32`: the directive is
   * `Subseconds` if an `f` follows the run, and otherwise an
   * `InvalidPercent` carrying the first digit.
   */
  lemma StepPrecision(t: string, j: nat)
    requires 2 <= j <= |t| && t[0] == '%'
    requires AllDigits(t[1..j]) && DigitsValue(t[1..j]) <= U32_MAX
    requires j == |t| || !IsDigit(t[j])
    ensures Step(t) ==
      if j < |t| && t[j] == 'f' then Ok((Field(Subseconds(DigitsValue(t[1..j]))), j + 1))
      else Err(InvalidPercent(t[1]))
  {
    assert IsDigit(t[1..j][0]);
    AllDigitsSlice(t[1..j], 1, j - 1);
    assert t[1..j][1..j - 1] == t[2..j] == t[2..][..j - 2];
    DigitRunExact(t[2..], j - 2);
  }
}
