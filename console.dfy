/**
 * The console crate: the byte-at-a-time `Console` output, the log-level
 * parser `set_log_level`, the colour-code formatter `format_color`, and the
 * framing `Logger::log` wraps around each message.
 *
 * Text is bytes (`seq<u8>`); the formatted message of a log record arrives
 * as bytes already, the `fmt` machinery that produced it being foreign.
 */
module Console {
  import opened Words
  import opened Wrappers

  const ESC: u8 := 0x1b
  const NUL: u8 := 0
  const DIGIT_ZERO: u8 := '0' as u8

  // ---------------------------------------------------------------------
  // Console::put_str
  // ---------------------------------------------------------------------

  /** A console: what has been written to it so far. */
  class ConsoleOut {
    var out: seq<u8>

    constructor ()
      ensures out == []
    {
      out := [];
    }

    /** `put_char(c)`. */
    method PutChar(c: u8)
      modifies this
      ensures out == old(out) + [c]
    {
      out := out + [c];
    }

    /** The default `put_str(s)`: one `put_char` per byte, in order. */
    method PutStr(s: seq<u8>)
      modifies this
      ensures out == old(out) + s
    {
      var i := 0;
      while i < |s|
        invariant 0 <= i <= |s|
        invariant out == old(out) + s[..i]
      {
        PutChar(s[i]);
        i := i + 1;
        assert s[..i] == s[..i - 1] + [s[i - 1]];
      }
      assert s[..i] == s;
    }
  }

  // ---------------------------------------------------------------------
  // set_log_level
  // ---------------------------------------------------------------------

  /** `log::LevelFilter`. */
  datatype LevelFilter = Off | Error | Warn | Info | Debug | Trace

  /** Only the first 15 bytes of the setting are looked at. */
  const LEVEL_PREFIX: nat := 15

  // The five level names.
  const NAME_ERROR: seq<u8> := ['e' as u8, 'r' as u8, 'r' as u8, 'o' as u8, 'r' as u8]
  const NAME_WARN: seq<u8> := ['w' as u8, 'a' as u8, 'r' as u8, 'n' as u8]
  const NAME_INFO: seq<u8> := ['i' as u8, 'n' as u8, 'f' as u8, 'o' as u8]
  const NAME_DEBUG: seq<u8> := ['d' as u8, 'e' as u8, 'b' as u8, 'u' as u8, 'g' as u8]
  const NAME_TRACE: seq<u8> := ['t' as u8, 'r' as u8, 'a' as u8, 'c' as u8, 'e' as u8]

  /** ASCII lowercasing of one byte: 'A'..'Z' move up by 32. */
  function LowerByte(b: u8): (r: u8)
    ensures 'A' as int <= b <= 'Z' as int ==> r == b + 32
    ensures !('A' as int <= b <= 'Z' as int) ==> r == b
  {
    if 'A' as int <= b <= 'Z' as int then b + 32 else b
  }

  /** Lowercasing a byte string. */
  function Lower(s: seq<u8>): (r: seq<u8>)
    ensures |r| == |s| && forall i :: 0 <= i < |s| ==> r[i] == LowerByte(s[i])
  {
    seq(|s|, i requires 0 <= i < |s| => LowerByte(s[i]))
  }

  /** The match on the lowercased prefix. */
  function LevelOfName(l: seq<u8>): LevelFilter {
    if l == NAME_ERROR then Error
    else if l == NAME_WARN then Warn
    else if l == NAME_INFO then Info
    else if l == NAME_DEBUG then Debug
    else Trace
  }

  /**
   * The level `set_log_level(env)` installs: Trace without a setting, else
   * the level named by the lowercased first 15 bytes, else Trace. (The
   * `from_utf8(..).unwrap_or("")` on the way maps a prefix cut inside a
   * multi-byte character to "", which names no level either.)
   */
  function ParseLevel(env: Option<seq<u8>>): LevelFilter {
    match env
    case None => Trace
    case Some(s) => LevelOfName(Lower(s[..Min(|s|, LEVEL_PREFIX)]))
  }

  /** `set_log_level(env)`, returning the level it installs. */
  method SetLogLevel(env: Option<seq<u8>>) returns (level: LevelFilter)
    ensures level == ParseLevel(env)
  {
    if env.None? {
      return Trace;
    }
    var s := env.value;
    var lower := new u8[16](_ => 0);
    var i := 0;
    while i < |s| && i < LEVEL_PREFIX
      invariant 0 <= i <= LEVEL_PREFIX && i <= |s|
      invariant forall k :: 0 <= k < i ==> lower[k] == LowerByte(s[k])
    {
      lower[i] := LowerByte(s[i]);
      i := i + 1;
    }
    assert lower[..i] == Lower(s[..Min(|s|, LEVEL_PREFIX)]);
    level := LevelOfName(lower[..i]);
  }

  /** Each name selects its level, and so does its upper-case spelling. */
  lemma LevelNames()
    ensures ParseLevel(Some(NAME_ERROR)) == Error && ParseLevel(Some(NAME_WARN)) == Warn
    ensures ParseLevel(Some(NAME_INFO)) == Info && ParseLevel(Some(NAME_DEBUG)) == Debug
    ensures ParseLevel(Some(NAME_TRACE)) == Trace
    ensures ParseLevel(Some(['E' as u8, 'R' as u8, 'R' as u8, 'O' as u8, 'R' as u8])) == Error
    ensures ParseLevel(Some(['I' as u8, 'n' as u8, 'F' as u8, 'o' as u8])) == Info
  {
    assert NAME_ERROR[..5] == NAME_ERROR;
    assert NAME_WARN[..4] == NAME_WARN;
    assert NAME_INFO[..4] == NAME_INFO;
    assert NAME_DEBUG[..5] == NAME_DEBUG;
    assert NAME_TRACE[..5] == NAME_TRACE;
    assert Lower(NAME_ERROR) == NAME_ERROR;
    assert Lower(NAME_WARN) == NAME_WARN;
    assert Lower(NAME_INFO) == NAME_INFO;
    assert Lower(NAME_DEBUG) == NAME_DEBUG;
    assert Lower(NAME_TRACE) == NAME_TRACE;
    var upper := ['E' as u8, 'R' as u8, 'R' as u8, 'O' as u8, 'R' as u8];
    assert upper[..5] == upper && Lower(upper) == NAME_ERROR;
    var mixed := ['I' as u8, 'n' as u8, 'F' as u8, 'o' as u8];
    assert mixed[..4] == mixed && Lower(mixed) == NAME_INFO;
  }

  /** Whatever the setting, the level is never Off. */
  lemma NeverOff(env: Option<seq<u8>>)
    ensures ParseLevel(env) != Off
  {
  }

  /** Lowercasing the setting first changes nothing. */
  lemma {:induction false} LevelIgnoresCase(s: seq<u8>)
    ensures ParseLevel(Some(Lower(s))) == ParseLevel(Some(s))
  {
    var n := Min(|s|, LEVEL_PREFIX);
    assert Lower(Lower(s)[..n]) == Lower(s[..n]);
  }

  /** A setting longer than 15 bytes is cut to 15, which names no level: Trace. */
  lemma LongSettingIsTrace(s: seq<u8>)
    requires |s| > LEVEL_PREFIX
    ensures ParseLevel(Some(s)) == Trace
  {
  }

  // ---------------------------------------------------------------------
  // format_color
  // ---------------------------------------------------------------------

  /** The digits of n in front of `acc`, most significant first; `acc` alone when n is 0. */
  function DigitsFrom(n: nat, acc: seq<u8>): (r: seq<u8>)
    decreases n
  {
    if n == 0 then acc else DigitsFrom(n / 10, [DIGIT_ZERO + n % 10] + acc)
  }

  /** The decimal rendering of n: no leading zeros, "0" for zero. */
  function Decimal(n: nat): (r: seq<u8>)
    ensures n == 0 ==> r == [DIGIT_ZERO]
    ensures n > 0 ==> r == DigitsFrom(n, [])
  {
    if n == 0 then [DIGIT_ZERO] else DigitsFrom(n, [])
  }

  function Pow10(k: nat): (p: nat)
    ensures p >= 1
  {
    if k == 0 then 1 else 10 * Pow10(k - 1)
  }

  /** The value of a string of decimal digits, most significant first. */
  function DigitsValue(d: seq<u8>): nat
    decreases |d|
  {
    if d == [] then 0
    else (if d[0] >= DIGIT_ZERO then d[0] - DIGIT_ZERO else 0) * Pow10(|d| - 1) + DigitsValue(d[1..])
  }

  /** Each byte is a decimal digit character. */
  predicate AllDigits(d: seq<u8>) {
    forall i :: 0 <= i < |d| ==> DIGIT_ZERO <= d[i] <= '9' as u8
  }

  /** The place-value step: q tens and r units of p. */
  lemma PlaceValue(q: nat, r: nat, p: nat)
    ensures q * (10 * p) + r * p == (10 * q + r) * p
  {
  }

  /** Prepending the digits of n adds n times the place value of `acc`. */
  lemma {:induction false} DigitsFromValue(n: nat, acc: seq<u8>)
    requires AllDigits(acc)
    ensures AllDigits(DigitsFrom(n, acc))
    ensures DigitsValue(DigitsFrom(n, acc)) == n * Pow10(|acc|) + DigitsValue(acc)
    ensures n > 0 ==> |DigitsFrom(n, acc)| > |acc| && DigitsFrom(n, acc)[0] != DIGIT_ZERO
    decreases n
  {
    if n > 0 {
      var q, r := n / 10, n % 10;
      var d: u8 := DIGIT_ZERO + r;
      var acc' := [d] + acc;
      assert DigitsFrom(n, acc) == DigitsFrom(q, acc');
      assert acc'[1..] == acc;
      var p := Pow10(|acc|);
      assert DigitsValue(acc') == r * p + DigitsValue(acc);
      assert AllDigits(acc');
      DigitsFromValue(q, acc');
      assert Pow10(|acc'|) == 10 * p;
      PlaceValue(q, r, p);
      if q == 0 {
        assert DigitsFrom(q, acc') == acc';
      }
    }
  }

  /**
   * `Decimal` is a rendering n can be read back from: only digits, no
   * leading zero except for 0 itself, and their value is n.
   */
  lemma DecimalRoundTrip(n: nat)
    ensures AllDigits(Decimal(n))
    ensures DigitsValue(Decimal(n)) == n
    ensures Decimal(n)[0] == DIGIT_ZERO <==> n == 0
  {
    if n > 0 {
      DigitsFromValue(n, []);
    }
  }

  /** An upper bound on a u8 after i divisions by ten. */
  function Bound(i: nat): nat {
    if i == 0 then 256 else if i == 1 then 26 else if i == 2 then 3 else 1
  }

  lemma BoundStep(n: nat, i: nat)
    requires n < Bound(i) && n > 0
    ensures n / 10 < Bound(i + 1) && i < 3
  {
  }

  /**
   * The digit loop of `format_color`: writes the digits of a non-zero n
   * right-aligned in `buf[..3]` and returns how many there are. `buf[3]` is
   * never written.
   */
  method FillDigits(n0: u8, buf: array<u8>) returns (i: nat)
    requires buf.Length == 4 && n0 > 0
    modifies buf
    ensures i <= 3 && buf[3 - i..3] == Decimal(n0)
    ensures buf[3] == old(buf[3])
  {
    var n: nat := n0;
    i := 0;
    ghost var written: seq<u8> := [];
    while n > 0 && i < 3
      invariant 0 <= i <= 3 && |written| == i
      invariant n < Bound(i)
      invariant buf[3 - i..3] == written
      invariant DigitsFrom(n0, []) == DigitsFrom(n, written)
      invariant buf[3] == old(buf[3])
      decreases n
    {
      var d: u8 := DIGIT_ZERO + n % 10;
      buf[2 - i] := d;
      assert buf[3 - (i + 1)..3] == [d] + buf[3 - i..3];
      written := [d] + written;
      BoundStep(n, i);
      n := n / 10;
      i := i + 1;
    }
  }

  /**
   * `format_color(n, buf)` as written: for n > 0 it returns `buf[3 - i..]`,
   * one byte too many, so the never-written `buf[3]` trails the digits.
   */
  method FormatColorAsWritten(n: u8, buf: array<u8>) returns (s: seq<u8>)
    requires buf.Length == 4
    modifies buf
    ensures n == 0 ==> s == Decimal(0)
    ensures n > 0 ==> s == Decimal(n) + [old(buf[3])]
  {
    if n == 0 {
      buf[0] := DIGIT_ZERO;
      return buf[..1];
    }
    var i := FillDigits(n, buf);
    s := buf[3 - i..];
    assert s == buf[3 - i..3] + [buf[3]];
  }

  /** What the as-written `format_color` returns from the zeroed buffer `log` passes. */
  function ColorTextAsWritten(n: u8): (s: seq<u8>)
    ensures n > 0 ==> s == Decimal(n) + [NUL]
  {
    if n == 0 then Decimal(0) else Decimal(n) + [NUL]
  }

  /**
   * Every non-zero colour code comes out with a NUL after its digits, so the
   * Error colour is sent as "31" followed by a zero byte.
   */
  lemma ColorTextHasNul(n: u8)
    requires n > 0
    ensures ColorTextAsWritten(n) != Decimal(n)
    ensures ColorTextAsWritten(n)[|ColorTextAsWritten(n)| - 1] == NUL
    ensures ColorTextAsWritten(31) == ['3' as u8, '1' as u8, NUL]
  {
    assert Decimal(31) == ['3' as u8, '1' as u8];
  }

  /** `format_color(n, buf)` returning `buf[3 - i..3]`: exactly the digits. */
  method FormatColor(n: u8, buf: array<u8>) returns (s: seq<u8>)
    requires buf.Length == 4
    modifies buf
    ensures s == Decimal(n)
  {
    if n == 0 {
      buf[0] := DIGIT_ZERO;
      return buf[..1];
    }
    var i := FillDigits(n, buf);
    s := buf[3 - i..3];
  }

  // ---------------------------------------------------------------------
  // Logger::log
  // ---------------------------------------------------------------------

  /** `log::Level`. */
  datatype Level = LError | LWarn | LInfo | LDebug | LTrace

  /** The ANSI colour of each level. */
  function Colour(l: Level): u8 {
    match l
    case LError => 31
    case LWarn => 93
    case LInfo => 34
    case LDebug => 32
    case LTrace => 90
  }

  /** The label of each level, right-aligned to five columns. */
  function Label(l: Level): seq<u8> {
    match l
    case LError => ['E' as u8, 'R' as u8, 'R' as u8, 'O' as u8, 'R' as u8]
    case LWarn => [' ' as u8, 'W' as u8, 'A' as u8, 'R' as u8, 'N' as u8]
    case LInfo => [' ' as u8, 'I' as u8, 'N' as u8, 'F' as u8, 'O' as u8]
    case LDebug => ['D' as u8, 'E' as u8, 'B' as u8, 'U' as u8, 'G' as u8]
    case LTrace => ['T' as u8, 'R' as u8, 'A' as u8, 'C' as u8, 'E' as u8]
  }

  /** A number from 10 to 99 renders as its tens digit and its units digit. */
  lemma TwoDigits(c: nat)
    requires 10 <= c < 100
    ensures Decimal(c) == [DIGIT_ZERO + c / 10, DIGIT_ZERO + c % 10]
  {
    var units: u8 := DIGIT_ZERO + c % 10;
    var tens: u8 := DIGIT_ZERO + (c / 10) % 10;
    assert [units] + [] == [units];
    assert DigitsFrom(c, []) == DigitsFrom(c / 10, [units]);
    assert DigitsFrom(c / 10, [units]) == DigitsFrom(c / 10 / 10, [tens] + [units]);
    assert c / 10 / 10 == 0 && (c / 10) % 10 == c / 10;
  }

  /** Colours and labels tell levels apart; every label is five bytes, every colour two digits. */
  lemma StylesDistinct(a: Level, b: Level)
    ensures |Label(a)| == 5 && |Decimal(Colour(a))| == 2
    ensures Colour(a) == Colour(b) <==> a == b
    ensures Label(a) == Label(b) <==> a == b
  {
    TwoDigits(Colour(a));
    if a != b {
      assert Label(a)[0] != Label(b)[0] || Label(a)[1] != Label(b)[1];
    }
  }

  // The fixed pieces of a log line.
  const CSI: seq<u8> := [ESC, '[' as u8]
  const COLOUR_END: seq<u8> := ['m' as u8, '[' as u8]
  const LABEL_END: seq<u8> := [']' as u8, ' ' as u8]
  const RESET_NEWLINE: seq<u8> := [ESC, '[' as u8, '0' as u8, 'm' as u8, '\n' as u8]

  /** The frame around a message, for a given colour text and level label. */
  function Frame(colour: seq<u8>, tag: seq<u8>, msg: seq<u8>): seq<u8> {
    CSI + colour + Tail(tag, msg)
  }

  /** What follows the colour text: "m[" label "] " message ESC "[0m" newline. */
  function Tail(tag: seq<u8>, msg: seq<u8>): seq<u8> {
    COLOUR_END + tag + LABEL_END + msg + RESET_NEWLINE
  }

  /**
   * One log line as `log` writes it: ESC "[" colour "m[" label "] " message
   * ESC "[0m" newline, where the colour text is the as-written
   * `format_color`'s, its digits followed by a NUL.
   */
  function LogLine(l: Level, msg: seq<u8>): seq<u8> {
    Frame(ColorTextAsWritten(Colour(l)), Label(l), msg)
  }

  /** The log line with the corrected `format_color`: the colour's digits alone. */
  function LogLineIntended(l: Level, msg: seq<u8>): seq<u8> {
    Frame(Decimal(Colour(l)), Label(l), msg)
  }

  /**
   * The line as written: the colour's two digits and a NUL after ESC "[",
   * the message at byte 14, and the colour reset and newline at the end.
   */
  lemma LogLineFrame(l: Level, msg: seq<u8>)
    ensures |LogLine(l, msg)| == |msg| + 19
    ensures LogLine(l, msg)[..2] == CSI && LogLine(l, msg)[2..5] == Decimal(Colour(l)) + [NUL]
    ensures LogLine(l, msg)[14..14 + |msg|] == msg
    ensures LogLine(l, msg)[|msg| + 14..] == RESET_NEWLINE
  {
    StylesDistinct(l, l);
    TailFrame(Label(l), msg);
  }

  /** The tail after a five-byte label: the message at byte 9, the reset after it. */
  lemma TailFrame(tag: seq<u8>, msg: seq<u8>)
    requires |tag| == 5
    ensures |Tail(tag, msg)| == |msg| + 14
    ensures Tail(tag, msg)[9..9 + |msg|] == msg
    ensures Tail(tag, msg)[|msg| + 9..] == RESET_NEWLINE
  {
    assert Tail(tag, msg) == (COLOUR_END + tag + LABEL_END) + msg + RESET_NEWLINE;
  }

  /**
   * The corrected line: the message at byte 13; the line as written is it
   * with a NUL put in at byte 4.
   */
  lemma LogLineIntendedFrame(l: Level, msg: seq<u8>)
    ensures |LogLineIntended(l, msg)| == |msg| + 18
    ensures LogLineIntended(l, msg)[13..13 + |msg|] == msg
    ensures LogLineIntended(l, msg)[|msg| + 13..] == RESET_NEWLINE
    ensures LogLine(l, msg) == LogLineIntended(l, msg)[..4] + [NUL] + LogLineIntended(l, msg)[4..]
  {
    StylesDistinct(l, l);
    TailFrame(Label(l), msg);
    var head, tail := CSI + Decimal(Colour(l)), Tail(Label(l), msg);
    assert LogLineIntended(l, msg) == head + tail;
    assert LogLine(l, msg) == head + [NUL] + tail;
  }

  /**
   * `Logger::log(record)`: the frame written with `put_str`, the colour
   * formatted by the as-written `format_color` into a zeroed buffer.
   */
  method Log(console: ConsoleOut, l: Level, msg: seq<u8>)
    modifies console
    ensures console.out == old(console.out) + LogLine(l, msg)
  {
    var colour := ColourText(Colour(l));
    WriteFrame(console, colour, Label(l), msg);
  }

  /** The `put_str` calls of `log`, piece by piece: the frame around the message. */
  method WriteFrame(console: ConsoleOut, colour: seq<u8>, tag: seq<u8>, msg: seq<u8>)
    modifies console
    ensures console.out == old(console.out) + Frame(colour, tag, msg)
  {
    console.PutStr(CSI);
    console.PutStr(colour);
    ghost var head := console.out;
    Associative(old(console.out), CSI, colour);
    ghost var rest: seq<u8> := [];
    console.PutStr(COLOUR_END);
    rest := rest + COLOUR_END;
    console.PutStr(tag);
    rest := rest + tag;
    assert console.out == head + rest;
    console.PutStr(LABEL_END);
    rest := rest + LABEL_END;
    console.PutStr(msg);
    rest := rest + msg;
    assert console.out == head + rest;
    console.PutStr(RESET_NEWLINE);
    rest := rest + RESET_NEWLINE;
    assert rest == Tail(tag, msg);
    Associative(old(console.out), CSI + colour, rest);
  }

  /** The colour text `log` writes: `format_color` as written, on a fresh zeroed buffer. */
  method ColourText(n: u8) returns (colour: seq<u8>)
    ensures colour == ColorTextAsWritten(n)
  {
    var buf := new u8[4](_ => 0);
    colour := FormatColorAsWritten(n, buf);
  }

  /** Concatenation is associative. */
  lemma Associative(a: seq<u8>, b: seq<u8>, c: seq<u8>)
    ensures a + (b + c) == a + b + c
  {
  }
}
