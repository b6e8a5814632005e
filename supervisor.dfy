/**
 * The deterministic part of the supervisor in src/main.rs: how the child's
 * exit status becomes the process exit code, the status line that
 * `print_elapsed` writes, and what each arm of the `select!` loop does
 * with the event it receives. The scheduler's choice of event, the ticker,
 * the child process and the streams themselves are not modelled: the loop
 * is driven by a finite sequence of abstract events, and the elapsed time
 * is an input number of seconds.
 */
module Supervisor {
  import opened Wrappers
  import opened Numerals
  import opened Pieces

  // ---------------------------------------------------------------------
  // Exit status

  /** An `i32`, the type of `ExitStatus::code()`. */
  type I32 = x: int | -0x8000_0000 <= x <= 0x7FFF_FFFF

  /** How the child ended: with an exit code, or killed by a signal (no code). */
  datatype ExitStatus = Exited(code: I32) | Signaled

  /** `std::process::ExitCode`: built from a byte, or `ExitCode::FAILURE`. */
  datatype ExitCode = FromByte(byte: nat) | Failure

  /** Bitwise `&` of two non-negative integers, one binary digit at a time. */
  function BitAnd(a: nat, b: nat): nat {
    if a == 0 || b == 0 then 0
    else 2 * BitAnd(a / 2, b / 2) + (if a % 2 == 1 && b % 2 == 1 then 1 else 0)
  }

  function Pow2(k: nat): (p: nat)
    ensures p >= 1
  {
    if k == 0 then 1 else 2 * Pow2(k - 1)
  }

  /** The bit pattern of an `i32`, read as an unsigned 32-bit number. */
  function TwosComplement(x: I32): (u: nat)
    ensures u < Pow2(32)
    ensures x >= 0 ==> u == x
  {
    assert Pow2(32) == 0x1_0000_0000 by {
      assert Pow2(8) == 256;
      assert Pow2(16) == 256 * Pow2(8) by { Pow2Add(8, 8); }
      assert Pow2(32) == Pow2(16) * Pow2(16) by { Pow2Add(16, 16); }
    }
    if x >= 0 then x else x + 0x1_0000_0000
  }

  lemma {:induction false} Pow2Add(a: nat, b: nat)
    ensures Pow2(a + b) == Pow2(a) * Pow2(b)
  {
    if b > 0 {
      Pow2Add(a, b - 1);
      assert Pow2(a + b) == 2 * Pow2(a + b - 1);
    }
  }

  /** `ret & 255` on an `i32`: the low byte of its two's-complement bit pattern. */
  function LowByte(ret: I32): (b: nat)
    ensures b == ret % 256
    ensures b <= 255
  {
    var u := TwosComplement(ret);
    assert Pow2(8) == 256;
    MaskLowBits(u, 8);
    assert u % 256 == ret % 256 by {
      if ret < 0 {
        ShiftedByteMod(u, ret);
      }
    }
    BitAnd(u, 255)
  }

  /** Adding a multiple of 256 leaves the low byte alone. */
  lemma ShiftedByteMod(u: nat, x: int)
    requires u == x + 256 * 0x100_0000
    ensures u % 256 == x % 256
  {
    var q, r := x / 256, x % 256;
    assert u == 256 * (q + 0x100_0000) + r;
  }

  /** Masking with `2^k - 1` keeps the remainder by `2^k`. */
  lemma {:induction false} MaskLowBits(n: nat, k: nat)
    ensures BitAnd(n, Pow2(k) - 1) == n % Pow2(k)
  {
    if k > 0 && n > 0 {
      var p := Pow2(k - 1);
      var m := Pow2(k) - 1;
      assert m == 2 * p - 1;
      OddMask(p);
      assert m / 2 == p - 1 && m % 2 == 1;
      var x := BitAnd(n / 2, p - 1);
      assert BitAnd(n, m) == 2 * x + (if n % 2 == 1 then 1 else 0);
      assert BitAnd(n, m) == 2 * x + n % 2;
      MaskLowBits(n / 2, k - 1);
      assert x == n / 2 % p;
      HalveMod(n, p);
      assert n % Pow2(k) == n % (2 * p);
    } else if k == 0 {
      assert Pow2(k) == 1;
      assert BitAnd(n, 0) == 0;
    } else {
      assert BitAnd(0, Pow2(k) - 1) == 0;
      DivModUnique(0, Pow2(k), 0, 0);
    }
  }

  /** `2p - 1` is odd, and halving it leaves `p - 1`. */
  lemma OddMask(p: nat)
    requires p >= 1
    ensures (2 * p - 1) / 2 == p - 1 && (2 * p - 1) % 2 == 1
  {
    DivModUnique(2 * p - 1, 2, p - 1, 1);
  }

  /** The remainder by `2p`: twice the remainder of the half by `p`, plus the low bit. */
  lemma HalveMod(n: nat, p: nat)
    requires p >= 1
    ensures n % (2 * p) == 2 * (n / 2 % p) + n % 2
  {
    var h, l := n / 2, n % 2;
    var q, r := h / p, h % p;
    assert h == p * q + r;
    assert n == 2 * h + l;
    assert n == (2 * p) * q + (2 * r + l);
    DivModUnique(n, 2 * p, q, 2 * r + l);
  }

  /**
   * The exit code the supervisor returns once the child has exited: the low
   * byte of the child's code (`u8::try_from(ret & 255).unwrap_or(1)`), or
   * `ExitCode::FAILURE` when the child was killed by a signal.
   */
  function ExitFor(status: ExitStatus): (code: ExitCode)
    ensures code.FromByte? <==> status.Exited?
    ensures status.Exited? ==> code.byte == status.code % 256 && code.byte <= 255
  {
    match status
    case Exited(ret) =>
      var b := LowByte(ret);
      FromByte(if b <= 255 then b else 1)
    case Signaled => Failure
  }

  /** The process status an `ExitCode` stands for on Unix (`ExitCode::FAILURE` is 1). */
  function ProcessStatus(code: ExitCode): (n: nat)
    ensures code.Failure? ==> n != 0
  {
    match code
    case FromByte(b) => b
    case Failure => 1
  }

  // ---------------------------------------------------------------------
  // The status line

  /** The text `print_elapsed` writes after `elapsed` whole seconds, with `% 3500` as written. */
  function ElapsedLine(elapsed: nat): string {
    "Elapsed: " + TwoDigits(elapsed / 3600) + ":" + TwoDigits(elapsed % 3500 / 60) + ":" + TwoDigits(elapsed % 3500 % 60)
  }

  /**
   * `print_elapsed`'s arithmetic: the hours are taken first, then `secs`
   * is reduced step by step to the minutes and the seconds.
   */
  method PrintElapsedText(elapsed: nat) returns (line: string)
    ensures line == ElapsedLine(elapsed)
  {
    var secs := elapsed;
    var hours := secs / 3600;
    secs := secs % 3500;
    var minutes := secs / 60;
    secs := secs % 60;
    line := "Elapsed: " + TwoDigits(hours) + ":" + TwoDigits(minutes) + ":" + TwoDigits(secs);
  }

  /** The status line `Format::default()` renders: the reduction is by a whole hour. */
  function CorrectedElapsedLine(elapsed: nat): string {
    "Elapsed: " + TwoDigits(elapsed / 3600) + ":" + TwoDigits(elapsed % 3600 / 60) + ":" + TwoDigits(elapsed % 3600 % 60)
  }

  /** The text of `"Elapsed: "`, hours, and two two-digit fields. */
  function Clock(h: nat, m: nat, s: nat): string {
    "Elapsed: " + TwoDigits(h) + ":" + TwoDigits(m) + ":" + TwoDigits(s)
  }

  /** Two clocks with the same hours and two-digit fields are equal only if the fields are. */
  lemma ClockInjective(h: nat, m1: nat, s1: nat, m2: nat, s2: nat)
    requires m1 < 100 && s1 < 100 && m2 < 100 && s2 < 100
    ensures Clock(h, m1, s1) == Clock(h, m2, s2) <==> m1 == m2 && s1 == s2
  {
    if Clock(h, m1, s1) == Clock(h, m2, s2) {
      var a, b := Clock(h, m1, s1), Clock(h, m2, s2);
      var n := |a|;
      assert |TwoDigits(m1)| == 2 && |TwoDigits(s1)| == 2 && |TwoDigits(m2)| == 2 && |TwoDigits(s2)| == 2 by {
        TwoDigitsRendering(m1);
        TwoDigitsRendering(s1);
        TwoDigitsRendering(m2);
        TwoDigitsRendering(s2);
      }
      assert TwoDigits(m1) == TwoDigits(m2) by {
        assert a[n - 5..n - 3] == TwoDigits(m1);
        assert b[n - 5..n - 3] == TwoDigits(m2);
      }
      assert TwoDigits(s1) == TwoDigits(s2) by {
        assert a[n - 2..] == TwoDigits(s1);
        assert b[n - 2..] == TwoDigits(s2);
      }
      TwoDigitsRendering(m1);
      TwoDigitsRendering(s1);
      TwoDigitsRendering(m2);
      TwoDigitsRendering(s2);
    }
  }

  /** The minutes and seconds `print_elapsed` shows are the remainder by 3500 in base sixty. */
  lemma SixtyBase(r: nat)
    ensures r / 60 * 60 + r % 60 == r
  {
  }

  /**
   * `print_elapsed` writes what `Format::default()` displays exactly when
   * the remainders of the elapsed seconds by 3500 and by 3600 agree: below
   * 3500 seconds, and again for the first 3500 seconds of every 35 hours.
   */
  lemma ElapsedLineMatchesDefault(elapsed: nat, nanos: Nanos)
    ensures ElapsedLine(elapsed) == Render(DEFAULT_PIECES, Duration(elapsed, nanos))
        <==> elapsed % 3500 == elapsed % 3600
  {
    var d := Duration(elapsed, nanos);
    DefaultRendering(d);
    var r1, r2 := elapsed % 3500, elapsed % 3600;
    assert elapsed / 60 % 60 == r2 / 60 && elapsed % 60 == r2 % 60 by {
      var q := elapsed / 3600;
      assert elapsed == 3600 * q + r2;
      assert elapsed == 60 * (60 * q + r2 / 60) + r2 % 60;
      DivModUnique(elapsed, 60, 60 * q + r2 / 60, r2 % 60);
      DivModUnique(60 * q + r2 / 60, 60, q, r2 / 60);
    }
    assert ElapsedLine(elapsed) == Clock(elapsed / 3600, r1 / 60, r1 % 60);
    assert Render(DEFAULT_PIECES, d) == Clock(elapsed / 3600, r2 / 60, r2 % 60);
    ClockInjective(elapsed / 3600, r1 / 60, r1 % 60, r2 / 60, r2 % 60);
    SixtyBase(r1);
    SixtyBase(r2);
  }

  /** For the first 3500 seconds the status line and `Format::default()` agree. */
  lemma ElapsedLineEarly(elapsed: nat, nanos: Nanos)
    requires elapsed < 3500
    ensures ElapsedLine(elapsed) == Render(DEFAULT_PIECES, Duration(elapsed, nanos))
  {
    ModBelow(elapsed, 3500);
    ModBelow(elapsed, 3600);
    ElapsedLineMatchesDefault(elapsed, nanos);
  }

  /**
   * After one hour `print_elapsed` shows 01:01:40 (the clock with one hour,
   * one minute and forty seconds) where `Format::default()` shows 01:00:00.
   */
  lemma ElapsedLineAtOneHour(elapsed: nat, nanos: Nanos)
    requires elapsed == 3600
    ensures ElapsedLine(elapsed) == Clock(1, 1, 40)
    ensures Render(DEFAULT_PIECES, Duration(elapsed, nanos)) == Clock(1, 0, 0)
    ensures ElapsedLine(elapsed) != Render(DEFAULT_PIECES, Duration(elapsed, nanos))
  {
    assert elapsed / 3600 == 1 && elapsed % 3500 / 60 == 1 && elapsed % 3500 % 60 == 40;
    assert elapsed / 60 % 60 == 0 && elapsed % 60 == 0;
    DefaultRendering(Duration(elapsed, nanos));
    ClockInjective(1, 1, 40, 0, 0);
  }

  /** The two clocks of the first hour boundary, as text. */
  lemma OneHourClocks(h: nat, m: nat, s: nat, z: nat)
    requires h == 1 && m == 1 && s == 40 && z == 0
    ensures Clock(h, m, s) == "Elapsed: 01:01:40"
    ensures Clock(h, z, z) == "Elapsed: 01:00:00"
  {
    ClockText(h, m, s, [DigitChar(0), DigitChar(1)], [DigitChar(0), DigitChar(1)], [DigitChar(4), DigitChar(0)]);
    ClockText(h, z, z, [DigitChar(0), DigitChar(1)], [DigitChar(0), DigitChar(0)], [DigitChar(0), DigitChar(0)]);
  }

  /** The clock whose fields render as the two-character strings `hh`, `mm` and `ss`. */
  lemma ClockText(h: nat, m: nat, s: nat, hh: string, mm: string, ss: string)
    requires h < 100 && m < 100 && s < 100
    requires hh == [DigitChar(h / 10), DigitChar(h % 10)]
    requires mm == [DigitChar(m / 10), DigitChar(m % 10)]
    requires ss == [DigitChar(s / 10), DigitChar(s % 10)]
    ensures Clock(h, m, s) == "Elapsed: " + hh + ":" + mm + ":" + ss
  {
    TwoDigitsBelow100(h);
    TwoDigitsBelow100(m);
    TwoDigitsBelow100(s);
  }

  /** `{:02}` of a number below 100: its tens digit and its units digit. */
  lemma TwoDigitsBelow100(n: nat)
    requires n < 100
    ensures TwoDigits(n) == [DigitChar(n / 10), DigitChar(n % 10)]
  {
    if n >= 10 {
      assert Decimal(n) == Decimal(n / 10) + [DigitChar(n % 10)];
    }
  }

  /** The minutes field of `print_elapsed` never reaches 59, although an hour has sixty minutes. */
  lemma ElapsedMinutesBelow59(elapsed: nat)
    ensures var line := ElapsedLine(elapsed); var n := |line|;
      n >= 17 && AllDigits(line[n - 5..n - 3]) && DigitsValue(line[n - 5..n - 3]) == elapsed % 3500 / 60 <= 58
  {
    var line := ElapsedLine(elapsed);
    var n := |line|;
    TwoDigitsRendering(elapsed / 3600);
    TwoDigitsRendering(elapsed % 3500 / 60);
    TwoDigitsRendering(elapsed % 3500 % 60);
    assert line[n - 5..n - 3] == TwoDigits(elapsed % 3500 / 60);
  }

  /** With the reduction by a whole hour, the status line is `Format::default()` at every time. */
  lemma CorrectedElapsedMatchesDefault(elapsed: nat, nanos: Nanos)
    ensures CorrectedElapsedLine(elapsed) == Render(DEFAULT_PIECES, Duration(elapsed, nanos))
  {
    DefaultRendering(Duration(elapsed, nanos));
    var r := elapsed % 3600;
    var q := elapsed / 3600;
    assert elapsed == 3600 * q + r;
    assert elapsed == 60 * (60 * q + r / 60) + r % 60;
    DivModUnique(elapsed, 60, 60 * q + r / 60, r % 60);
    DivModUnique(60 * q + r / 60, 60, q, r / 60);
  }

  // ---------------------------------------------------------------------
  // One turn of the event loop

  /** What a `select!` arm can receive. */
  datatype Event =
    | Tick                      // the one-second ticker fired
    | StdoutLine(line: string)  // `stdout.next_line()` gave `Ok(Some(line))`
    | StderrLine(line: string)  // `stderr.next_line()` gave `Ok(Some(line))`
    | StdoutEof                 // `stdout.next_line()` gave `Ok(None)`
    | StderrEof                 // `stderr.next_line()` gave `Ok(None)`
    | ChildExit(status: ExitStatus)  // `p.wait()` gave `Ok(status)`

  /** What the supervisor does in response, in order. */
  datatype Action =
    | Clear                     // `clear_elapsed_line()`
    | PrintElapsed              // `print_elapsed(start)`
    | WriteOut(line: string)    // `println!("{line}")`
    | WriteErr(line: string)    // `eprintln!("{line}")`
    | Return(code: ExitCode)    // `return Ok(code)` from `main`

  /** The two output streams a line is forwarded to. */
  datatype Stream = ToStdout | ToStderr

  /** The line an event brings for `stream`, if any. */
  function LineFor(e: Event, stream: Stream): Option<string> {
    match e
    case StdoutLine(l) => if stream == ToStdout then Some(l) else None
    case StderrLine(l) => if stream == ToStderr then Some(l) else None
    case _ => None
  }

  /** The line an action writes to `stream`, if any. */
  function WriteTo(a: Action, stream: Stream): Option<string> {
    match a
    case WriteOut(l) => if stream == ToStdout then Some(l) else None
    case WriteErr(l) => if stream == ToStderr then Some(l) else None
    case _ => None
  }

  predicate IsWrite(a: Action) {
    a.WriteOut? || a.WriteErr?
  }

  /** Every write has a clear right before it and a redraw of the status line right after it. */
  predicate Bracketed(acts: seq<Action>) {
    forall i :: 0 <= i < |acts| && IsWrite(acts[i]) ==>
      0 < i < |acts| - 1 && acts[i - 1] == Clear && acts[i + 1] == PrintElapsed
  }

  /** There is a `Return` among the actions. */
  predicate Returns(acts: seq<Action>) {
    exists i :: 0 <= i < |acts| && acts[i].Return?
  }

  /**
   * The actions of the `select!` arm that receives `e`: a tick redraws the
   * status line; a line is written between a clear and a redraw; the end of
   * a stream does nothing; the child's exit clears the line and returns.
   */
  function Handle(e: Event): (acts: seq<Action>)
    ensures Bracketed(acts)
    ensures Returns(acts) <==> e.ChildExit?
    ensures acts != [] ==> acts[0] == Clear
    ensures acts == [] <==> e.StdoutEof? || e.StderrEof?
    ensures !e.ChildExit? && acts != [] ==> acts[|acts| - 1] == PrintElapsed
    ensures e.ChildExit? ==> acts[|acts| - 1] == Return(ExitFor(e.status))
  {
    match e
    case Tick => [Clear, PrintElapsed]
    case StdoutLine(l) => [Clear, WriteOut(l), PrintElapsed]
    case StderrLine(l) => [Clear, WriteErr(l), PrintElapsed]
    case StdoutEof => []
    case StderrEof => []
    case ChildExit(status) =>
      var acts := [Clear, Return(ExitFor(status))];
      assert acts[1].Return?;
      acts
  }

  // ---------------------------------------------------------------------
  // The loop

  /** The actions of handling `events` in order. */
  function Actions(events: seq<Event>): seq<Action> {
    if events == [] then [] else Actions(events[..|events| - 1]) + Handle(events[|events| - 1])
  }

  /** The lines `events` bring for `stream`, in order. */
  function LinesFor(events: seq<Event>, stream: Stream): seq<string> {
    if events == [] then []
    else
      LinesFor(events[..|events| - 1], stream)
      + match LineFor(events[|events| - 1], stream) case Some(l) => [l] case None => []
  }

  /** The lines `acts` write to `stream`, in order. */
  function Written(acts: seq<Action>, stream: Stream): seq<string> {
    if acts == [] then []
    else
      Written(acts[..|acts| - 1], stream)
      + match WriteTo(acts[|acts| - 1], stream) case Some(l) => [l] case None => []
  }

  /** The number of events the loop consumes before the child's exit, or all of them. */
  function ExitIndex(events: seq<Event>): (k: nat)
    ensures k <= |events|
    ensures forall j :: 0 <= j < k ==> !events[j].ChildExit?
    ensures k < |events| ==> events[k].ChildExit?
  {
    if events == [] then 0
    else if events[0].ChildExit? then 0
    else 1 + ExitIndex(events[1..])
  }

  /**
   * `main`'s `loop { select! { … } }`, with the scheduler's choices given
   * as `events`: each event is handled by its arm, and the loop ends when
   * the child exits. `exit` is the code `main` returns, if it returned.
   */
  method Supervise(events: seq<Event>) returns (acts: seq<Action>, exit: Option<ExitCode>)
    ensures exit.None? <==> ExitIndex(events) == |events|
    ensures exit.None? ==> acts == Actions(events)
    ensures exit.Some? ==> var k := ExitIndex(events);
      exit.value == ExitFor(events[k].status) && acts == Actions(events[..k + 1])
  {
    acts, exit := [], None;
    var i := 0;
    while i < |events|
      invariant 0 <= i <= |events|
      invariant forall j :: 0 <= j < i ==> !events[j].ChildExit?
      invariant acts == Actions(events[..i]) && exit.None?
    {
      var step: seq<Action>;
      match events[i] {
        case Tick =>
          step := [Clear, PrintElapsed];
        case StdoutLine(line) =>
          step := [Clear, WriteOut(line), PrintElapsed];
        case StderrLine(line) =>
          step := [Clear, WriteErr(line), PrintElapsed];
        case StdoutEof =>
          step := [];
        case StderrEof =>
          step := [];
        case ChildExit(status) =>
          var code := ExitFor(status);
          step := [Clear, Return(code)];
          exit := Some(code);
      }
      assert step == Handle(events[i]);
      NextActions(events, i);
      acts := acts + step;
      if exit.Some? {
        ExitIndexIs(events, i);
        return;
      }
      assert !events[i].ChildExit?;
      i := i + 1;
    }
    ExitIndexIs(events, i);
    assert events[..i] == events;
  }

  lemma NextActions(events: seq<Event>, i: nat)
    requires i < |events|
    ensures Actions(events[..i + 1]) == Actions(events[..i]) + Handle(events[i])
  {
    assert events[..i + 1][..i] == events[..i];
  }

  lemma {:induction false} ExitIndexIs(events: seq<Event>, k: nat)
    requires k <= |events| && (forall j :: 0 <= j < k ==> !events[j].ChildExit?)
    requires k < |events| ==> events[k].ChildExit?
    ensures ExitIndex(events) == k
  {
    if k > 0 {
      ExitIndexIs(events[1..], k - 1);
    }
  }

  // ---------------------------------------------------------------------
  // What the loop guarantees

  lemma BracketedConcat(a: seq<Action>, b: seq<Action>)
    requires Bracketed(a) && Bracketed(b)
    ensures Bracketed(a + b)
  {
    var c := a + b;
    forall i | 0 <= i < |c| && IsWrite(c[i])
      ensures 0 < i < |c| - 1 && c[i - 1] == Clear && c[i + 1] == PrintElapsed
    {
      if i < |a| {
        assert IsWrite(a[i]);
      } else {
        assert IsWrite(b[i - |a|]);
      }
    }
  }

  /** Every line the supervisor forwards is preceded by a clear and followed by a redraw. */
  lemma {:induction false} ActionsBracketed(events: seq<Event>)
    ensures Bracketed(Actions(events))
  {
    if events != [] {
      ActionsBracketed(events[..|events| - 1]);
      BracketedConcat(Actions(events[..|events| - 1]), Handle(events[|events| - 1]));
    }
  }

  lemma {:induction false} WrittenConcat(a: seq<Action>, b: seq<Action>, stream: Stream)
    ensures Written(a + b, stream) == Written(a, stream) + Written(b, stream)
    decreases |b|
  {
    if b == [] {
      assert a + b == a;
    } else {
      var init := b[..|b| - 1];
      assert (a + b)[..|a + b| - 1] == a + init;
      assert (a + b)[|a + b| - 1] == b[|b| - 1];
      WrittenConcat(a, init, stream);
    }
  }

  lemma HandleWrites(e: Event, stream: Stream)
    ensures Written(Handle(e), stream) == match LineFor(e, stream) case Some(l) => [l] case None => []
  {
    var acts := Handle(e);
    if |acts| == 3 {
      assert acts[..2][..1] == [Clear];
      assert acts[..2][..1][..0] == [];
      assert Written(acts[..2][..1], stream) == [];
      assert WriteTo(acts[2], stream) == None;
    } else if |acts| == 2 {
      assert acts[..1] == [Clear];
      assert acts[..1][..0] == [];
      assert Written(acts[..1], stream) == [];
      assert WriteTo(acts[1], stream) == None;
    }
  }

  /**
   * Every line read from the child's stdout is written to stdout, and every
   * line read from its stderr to stderr, each exactly once and in the
   * order it was read; nothing else is written.
   */
  lemma {:induction false} ForwardsInOrder(events: seq<Event>, stream: Stream)
    ensures Written(Actions(events), stream) == LinesFor(events, stream)
  {
    if events != [] {
      var init, last := events[..|events| - 1], events[|events| - 1];
      ForwardsInOrder(init, stream);
      WrittenConcat(Actions(init), Handle(last), stream);
      HandleWrites(last, stream);
    }
  }

  lemma NoReturnConcat(a: seq<Action>, b: seq<Action>)
    requires !Returns(a) && !Returns(b)
    ensures !Returns(a + b)
  {
    forall i | 0 <= i < |a + b|
      ensures !(a + b)[i].Return?
    {
      if i < |a| {
        assert (a + b)[i] == a[i];
      } else {
        assert (a + b)[i] == b[i - |a|];
      }
    }
  }

  /**
   * Until the child exits, nothing returns, and once anything has been
   * drawn the status line is the last thing drawn.
   */
  lemma {:induction false} RunningEndsWithStatusLine(events: seq<Event>)
    requires forall j :: 0 <= j < |events| ==> !events[j].ChildExit?
    ensures !Returns(Actions(events))
    ensures Actions(events) != [] ==> Actions(events)[|Actions(events)| - 1] == PrintElapsed
  {
    if events != [] {
      var init, last := events[..|events| - 1], events[|events| - 1];
      RunningEndsWithStatusLine(init);
      NoReturnConcat(Actions(init), Handle(last));
    }
  }

  /** The end of either stream adds no action and does not end the loop. */
  lemma EndOfStreamIsSilent(events: seq<Event>, e: Event)
    requires e.StdoutEof? || e.StderrEof?
    ensures Actions(events + [e]) == Actions(events)
    ensures ExitIndex(events + [e]) == |events + [e]| <==> ExitIndex(events) == |events|
  {
    var more := events + [e];
    assert more[..|events|] == events;
    assert Handle(e) == [];
    var k := ExitIndex(events);
    assert forall j :: 0 <= j < k ==> more[j] == events[j];
    if k == |events| {
      ExitIndexIs(more, |more|);
    } else {
      ExitIndexIs(more, k);
    }
  }

  /**
   * A run that ended: exactly one `Return`, the very last action, carrying
   * the exit code, with a clear right before it.
   */
  lemma ReturnsOnceAtEnd(pre: seq<Event>, status: ExitStatus)
    requires forall j :: 0 <= j < |pre| ==> !pre[j].ChildExit?
    ensures var acts := Actions(pre + [ChildExit(status)]);
      && |acts| >= 2
      && acts[|acts| - 2] == Clear
      && acts[|acts| - 1] == Return(ExitFor(status))
      && forall i :: 0 <= i < |acts| - 1 ==> !acts[i].Return?
  {
    var events := pre + [ChildExit(status)];
    assert events[..|pre|] == pre;
    RunningEndsWithStatusLine(pre);
    var a, b := Actions(pre), Handle(ChildExit(status));
    assert Actions(events) == a + b;
    assert b == [Clear, Return(ExitFor(status))];
    forall i | 0 <= i < |a|
      ensures !a[i].Return?
    {
      if a[i].Return? {
        assert Returns(a);
      }
    }
  }
}
