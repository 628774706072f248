/** Number formatting in kernel/src/lib/printk.c. */
module Printk {
  import opened Machine
  import opened Bits

  const BUFFER_SIZE: nat := 64  // sizeof(uint64_t) * 8

  newtype int64 = x: int | -0x8000_0000_0000_0000 <= x < 0x8000_0000_0000_0000
  newtype uint64 = x: int | 0 <= x < 0x1_0000_0000_0000_0000

  predicate ValidBase(base: nat) {
    2 <= base <= 16
  }

  // digits[value % base]
  function DigitChar(d: nat, uppercase: bool): char
    requires d < 16
  {
    if uppercase then "0123456789ABCDEF"[d] else "0123456789abcdef"[d]
  }

  function DigitValue(c: char): int {
    if '0' <= c <= '9' then c as int - '0' as int
    else if 'a' <= c <= 'f' then c as int - 'a' as int + 10
    else if 'A' <= c <= 'F' then c as int - 'A' as int + 10
    else -1
  }

  // The numeral of a value, most significant digit first.
  function Numeral(value: nat, base: nat, uppercase: bool): string
    requires ValidBase(base)
  {
    var last := [DigitChar(value % base, uppercase)];
    if value < base then last else Numeral(value / base, base, uppercase) + last
  }

  predicate IsNumeral(s: string, base: nat) {
    forall i :: 0 <= i < |s| ==> 0 <= DigitValue(s[i]) < base
  }

  // The value a reader gives to a string of digits.
  function Parse(s: string, base: nat): nat
    requires IsNumeral(s, base)
  {
    if s == [] then 0 else Parse(s[..|s| - 1], base) * base + DigitValue(s[|s| - 1])
  }

  lemma {:induction false} DigitRoundTrip(d: nat, uppercase: bool)
    requires d < 16
    ensures DigitValue(DigitChar(d, uppercase)) == d
  {
  }

  // Letters among the digits are of the case asked for.
  lemma {:induction false} NumeralCase(value: nat, base: nat, uppercase: bool)
    requires ValidBase(base)
    ensures forall c :: c in Numeral(value, base, uppercase) ==>
              '0' <= c <= '9' || (if uppercase then 'A' <= c <= 'F' else 'a' <= c <= 'f')
  {
    DigitCase(value % base, uppercase);
    if value >= base {
      Quotient(value, base);
      NumeralCase(value / base, base, uppercase);
    }
  }

  lemma {:induction false} DigitCase(d: nat, uppercase: bool)
    requires d < 16
    ensures var c := DigitChar(d, uppercase);
            '0' <= c <= '9' || (if uppercase then 'A' <= c <= 'F' else 'a' <= c <= 'f')
  {
  }

  // The digits parse back to the value.
  lemma {:induction false} NumeralRoundTrip(value: nat, base: nat, uppercase: bool)
    requires ValidBase(base)
    ensures var s := Numeral(value, base, uppercase);
            && s != [] && IsNumeral(s, base) && Parse(s, base) == value
  {
    DigitRoundTrip(value % base, uppercase);
    if value >= base {
      Quotient(value, base);
      NumeralRoundTrip(value / base, base, uppercase);
      ParseSnoc(Numeral(value / base, base, uppercase), DigitChar(value % base, uppercase), base);
      Recompose(value, base);
    } else {
      Remainder(value, base);
      assert Numeral(value, base, uppercase)[..0] == [];
    }
  }

  lemma {:induction false} ParseSnoc(s: string, c: char, base: nat)
    requires IsNumeral(s, base) && 0 <= DigitValue(c) < base
    ensures IsNumeral(s + [c], base) && Parse(s + [c], base) == Parse(s, base) * base + DigitValue(c)
  {
    assert (s + [c])[..|s|] == s;
  }

  lemma {:induction false} Quotient(value: nat, base: nat)
    requires base >= 2 && value >= base
    ensures 0 < value / base < value
  {
  }

  lemma {:induction false} Remainder(value: nat, base: nat)
    requires value < base
    ensures value % base == value
  {
  }

  // No leading zero, except in the numeral of zero itself.
  lemma {:induction false} NoLeadingZero(value: nat, base: nat, uppercase: bool)
    requires ValidBase(base) && value > 0
    ensures Numeral(value, base, uppercase) != [] && DigitValue(Numeral(value, base, uppercase)[0]) != 0
  {
    DigitRoundTrip(value % base, uppercase);
    if value >= base {
      Quotient(value, base);
      NoLeadingZero(value / base, base, uppercase);
    } else {
      Remainder(value, base);
    }
  }

  function Pow(base: nat, n: nat): nat {
    if n == 0 then 1 else base * Pow(base, n - 1)
  }

  // A value below base^n has at most n digits.
  lemma {:induction false} NumeralLength(value: nat, base: nat, uppercase: bool, n: nat)
    requires ValidBase(base) && n > 0 && value < Pow(base, n)
    ensures |Numeral(value, base, uppercase)| <= n
    decreases n
  {
    if value >= base {
      assert Pow(base, 1) == base;
      if n > 1 {
        Below(value, base, Pow(base, n - 1));
        NumeralLength(value / base, base, uppercase, n - 1);
      }
    }
  }

  lemma {:induction false} Below(value: nat, base: nat, m: nat)
    requires base > 0 && value < base * m
    ensures value / base < m
  {
  }

  lemma {:induction false} PowMono(a: nat, b: nat, n: nat)
    requires 0 < a <= b
    ensures 0 < Pow(a, n) <= Pow(b, n)
  {
    if n > 0 {
      PowMono(a, b, n - 1);
      MulMono(a, b, Pow(a, n - 1), Pow(b, n - 1));
    }
  }

  lemma {:induction false} MulMono(a: nat, b: nat, x: nat, y: nat)
    requires 0 < a <= b && 0 < x <= y
    ensures 0 < a * x <= b * y
  {
    assert a * x <= b * x;
    assert b * x <= b * y;
  }

  // Every 64-bit value fits the buffer, in every base.
  lemma {:induction false} NumeralFits(value: nat, base: nat, uppercase: bool)
    requires ValidBase(base) && value < WORD
    ensures |Numeral(value, base, uppercase)| <= BUFFER_SIZE
  {
    PowMono(2, base, 64);
    PowTwo();
    NumeralLength(value, base, uppercase, 64);
  }

  lemma {:induction false} PowIsPow2(n: nat)
    ensures Pow(2, n) == Pow2(n)
  {
    if n > 0 {
      PowIsPow2(n - 1);
    }
  }

  lemma {:induction false} PowTwo()
    ensures Pow(2, 64) == WORD
  {
    PowIsPow2(64);
    EightBytes(8);
  }

  lemma {:induction false} EightBytes(n: nat)
    requires n == 8
    ensures Pow2(8 * n) == WORD
  {
    assert Pow2(n) == 256;
    Pow2Add(n, n);
    Pow2Add(2 * n, 2 * n);
    Pow2Add(4 * n, 4 * n);
  }

  // ---- Output ----

  // The printer's state and everything it has put out.
  datatype Out = Out(prefixEnabled: bool, atLineStart: bool, written: int, text: string)

  // emit_raw_char: a newline goes out as two characters.
  function RawChar(o: Out, c: char): Out {
    if c == '\n' then Out(o.prefixEnabled, true, o.written + 2, o.text + "\r\n")
    else o.(written := o.written + 1, text := o.text + [c])
  }

  function RawString(o: Out, s: string): Out
    decreases |s|
  {
    if s == [] then o else RawString(RawChar(o, s[0]), s[1..])
  }

  // The time stamp of emit_log_prefix, from the uptime in milliseconds.
  function Stamp(uptime: nat): string {
    var m := uptime % 1000;
    "[" + Numeral(uptime / 1000, 10, false) + "."
    + [DigitChar(m / 100 % 10, false), DigitChar(m / 10 % 10, false), DigitChar(m % 10, false)] + "] "
  }

  function Prefixed(o: Out, uptime: nat): Out {
    if !o.prefixEnabled || !o.atLineStart then o
    else RawString(o, Stamp(uptime)).(atLineStart := false)
  }

  // emit_char
  function CharOut(o: Out, uptime: nat, c: char): Out {
    var r := RawChar(Prefixed(o, uptime), c);
    if c != '\n' then r.(atLineStart := false) else r
  }

  function StringOut(o: Out, uptime: nat, s: string): Out {
    if s == [] then o else CharOut(StringOut(o, uptime, s[..|s| - 1]), uptime, s[|s| - 1])
  }

  function Padding(width: nat, len: nat, pad: char): (r: string)
    ensures |r| == if len < width then width - len else 0
  {
    if len < width then seq(width - len, _ => pad) else []
  }

  // A numeral padded on the left to at least width characters.
  function Padded(value: nat, base: nat, uppercase: bool, width: nat, pad: char): (r: string)
    requires ValidBase(base)
  {
    var s := Numeral(value, base, uppercase);
    Padding(width, |s|, pad) + s
  }

  lemma {:induction false} OutAppend(o: Out, uptime: nat, s: string, t: string)
    ensures StringOut(o, uptime, s + t) == StringOut(StringOut(o, uptime, s), uptime, t)
    decreases |t|
  {
    if t == [] {
      assert s + t == s;
    } else {
      var u := t[..|t| - 1];
      OutAppend(o, uptime, s, u);
      assert (s + t)[..|s + t| - 1] == s + u;
    }
  }

  // A step of the digit loop shortens the numeral by one digit.
  lemma {:induction false} Shorter(value: nat, base: nat, uppercase: bool)
    requires ValidBase(base)
    ensures 0 <= value / base && (value / base == 0 <==> value < base) && (value > 0 ==> value / base < value)
    ensures var s := Numeral(value, base, uppercase);
            && |s| >= 1 && s[|s| - 1] == DigitChar(value % base, uppercase)
            && s[..|s| - 1] == if value < base then "" else Numeral(value / base, base, uppercase)
  {
    if value >= base {
      Quotient(value, base);
    }
  }

  // After len digits the rest of the numeral s is that of the remaining value.
  ghost predicate Remaining(s: string, len: nat, value: nat, base: nat, uppercase: bool) {
    ValidBase(base) && len <= |s| && s[..|s| - len] == if value == 0 then "" else Numeral(value, base, uppercase)
  }

  lemma {:induction false} FirstDigit(value: nat, base: nat, uppercase: bool)
    requires ValidBase(base)
    ensures var s := Numeral(value, base, uppercase);
            && |s| > 0 && s[|s| - 1] == DigitChar(value % base, uppercase)
            && 0 <= value / base && Remaining(s, 1, value / base, base, uppercase)
  {
    Shorter(value, base, uppercase);
  }

  lemma {:induction false} NextDigit(s: string, len: nat, value: nat, base: nat, uppercase: bool)
    requires Remaining(s, len, value, base, uppercase) && value > 0
    ensures len < |s| && s[|s| - 1 - len] == DigitChar(value % base, uppercase)
    ensures 0 <= value / base < value && Remaining(s, len + 1, value / base, base, uppercase)
  {
    Shorter(value, base, uppercase);
    var t := s[..|s| - len];
    assert s[|s| - 1 - len] == t[|t| - 1];
    assert s[..|s| - len - 1] == t[..|t| - 1];
  }

  // The stamp goes out piece by piece.
  lemma {:induction false} RawAppend(o: Out, s: string, t: string)
    ensures RawString(o, s + t) == RawString(RawString(o, s), t)
    decreases |s|
  {
    if s == [] {
      assert s + t == t;
    } else {
      assert (s + t)[1..] == s[1..] + t;
      RawAppend(RawChar(o, s[0]), s[1..], t);
    }
  }

  lemma {:induction false} StampRaw(o: Out, uptime: nat, s: string)
    requires s == Numeral(uptime / 1000, 10, false)
    ensures var m := uptime % 1000;
            RawString(o, Stamp(uptime)) ==
            RawChar(RawChar(RawChar(RawChar(RawChar(RawChar(RawString(RawChar(o, '['), s), '.'),
              DigitChar(m / 100 % 10, false)), DigitChar(m / 10 % 10, false)), DigitChar(m % 10, false)), ']'), ' ')
  {
    var m := uptime % 1000;
    var c3, c2, c1 := DigitChar(m / 100 % 10, false), DigitChar(m / 10 % 10, false), DigitChar(m % 10, false);
    var rest := ['.', c3, c2, c1, ']', ' '];
    assert Stamp(uptime) == "[" + s + rest;
    RawAppend(o, "[" + s, rest);
    RawAppend(o, "[", s);
    RawOne(o, '[');
    var o1 := RawString(RawChar(o, '['), s);
    RawSix(o1, '.', c3, c2, c1, ']', ' ');
  }

  lemma {:induction false} RawSix(o: Out, a: char, b: char, c: char, d: char, e: char, f: char)
    ensures RawString(o, [a, b, c, d, e, f])
         == RawChar(RawChar(RawChar(RawChar(RawChar(RawChar(o, a), b), c), d), e), f)
  {
    var o1 := RawChar(o, a);
    var o2 := RawChar(o1, b);
    var o3 := RawChar(o2, c);
    RawThree(o, a, b, c);
    RawThree(o3, d, e, f);
    RawAppend(o, [a, b, c], [d, e, f]);
    assert [a, b, c] + [d, e, f] == [a, b, c, d, e, f];
  }

  lemma {:induction false} RawThree(o: Out, a: char, b: char, c: char)
    ensures RawString(o, [a, b, c]) == RawChar(RawChar(RawChar(o, a), b), c)
  {
    assert [a, b, c][1..] == [b, c];
    assert [b, c][1..] == [c];
    RawOne(RawChar(RawChar(o, a), b), c);
  }

  lemma {:induction false} RawOne(o: Out, c: char)
    ensures RawString(o, [c]) == RawChar(o, c)
  {
    assert [c][1..] == [];
  }

  // ---- What is put out ----

  // A character with no line break in it adds itself.
  predicate Plain(s: string) {
    forall i :: 0 <= i < |s| ==> s[i] != '\n'
  }

  lemma {:induction false} RawPlain(o: Out, s: string)
    requires Plain(s)
    ensures RawString(o, s) == o.(written := o.written + |s|, text := o.text + s)
    decreases |s|
  {
    if s != [] {
      RawPlain(RawChar(o, s[0]), s[1..]);
      assert o.text + s == o.text + [s[0]] + s[1..];
    } else {
      assert o.text + s == o.text;
    }
  }

  lemma {:induction false} NumeralPlain(value: nat, base: nat, uppercase: bool)
    requires ValidBase(base)
    ensures Plain(Numeral(value, base, uppercase))
  {
    NumeralRoundTrip(value, base, uppercase);
  }

  // With no stamp due, a string with no line break adds exactly itself.
  lemma {:induction false} OutPlain(o: Out, uptime: nat, s: string)
    requires Plain(s) && !(o.prefixEnabled && o.atLineStart)
    ensures var r := StringOut(o, uptime, s);
            && r.text == o.text + s && r.written == o.written + |s|
            && r.prefixEnabled == o.prefixEnabled && !(r.prefixEnabled && r.atLineStart)
    decreases |s|
  {
    if s == [] {
      assert o.text + s == o.text;
    } else {
      OutPlain(o, uptime, s[..|s| - 1]);
      assert o.text + s == o.text + s[..|s| - 1] + [s[|s| - 1]];
    }
  }

  // With a stamp due, the stamp goes out once, before the string.
  lemma {:induction false} OutStamped(o: Out, uptime: nat, s: string)
    requires Plain(s) && s != [] && o.prefixEnabled && o.atLineStart
    ensures var r := StringOut(o, uptime, s);
            && r.text == o.text + (Stamp(uptime) + s) && r.written == o.written + |Stamp(uptime) + s|
  {
    NumeralPlain(uptime / 1000, 10, false);
    RawPlain(o, Stamp(uptime));
    var c, t := s[..1], s[1..];
    assert s == c + t;
    OutAppend(o, uptime, c, t);
    var o1 := StringOut(o, uptime, c);
    OutOne(o, uptime, s[0]);
    assert c == [s[0]];
    assert o1.text == o.text + Stamp(uptime) + c && o1.written == o.written + |Stamp(uptime)| + 1;
    OutPlain(o1, uptime, t);
    TextJoin(o.text, Stamp(uptime), c, t);
  }

  lemma {:induction false} TextJoin(a: string, b: string, c: string, d: string)
    ensures a + b + c + d == a + (b + (c + d))
  {
  }

  lemma {:induction false} OutOne(o: Out, uptime: nat, c: char)
    ensures StringOut(o, uptime, [c]) == CharOut(o, uptime, c)
  {
    assert [c][..0] == [];
    assert StringOut(o, uptime, []) == o;
  }

  lemma {:induction false} OutNext(o: Out, uptime: nat, s: string, n: nat)
    requires n < |s|
    ensures StringOut(o, uptime, s[..n + 1]) == CharOut(StringOut(o, uptime, s[..n]), uptime, s[n])
  {
    assert s[..n + 1] == s[..n] + [s[n]];
    OutAppend(o, uptime, s[..n], [s[n]]);
    OutOne(StringOut(o, uptime, s[..n]), uptime, s[n]);
  }

  lemma {:induction false} RawNext(o: Out, s: string, n: nat)
    requires n < |s|
    ensures RawString(o, s[n..]) == RawString(RawChar(o, s[n]), s[n + 1..])
  {
    assert s[n..][1..] == s[n + 1..];
  }

  // ---- Line breaks ----

  // Lines with a line break between any two.
  function Joined(lines: seq<string>): string
    requires lines != []
  {
    if |lines| == 1 then lines[0] else lines[0] + "\n" + Joined(lines[1..])
  }

  // What a reader sees: each line behind its stamp, with both characters of a line break.
  // There is no stamp for a last line that has not begun.
  function Page(stamp: string, lines: seq<string>): string
    requires lines != []
  {
    if lines == [""] then ""
    else if |lines| == 1 then stamp + lines[0]
    else stamp + lines[0] + "\r\n" + Page(stamp, lines[1..])
  }

  lemma {:induction false} LinesOut(o: Out, uptime: nat, lines: seq<string>)
    requires lines != [] && (forall i :: 0 <= i < |lines| ==> Plain(lines[i]))
    requires o.prefixEnabled ==> o.atLineStart
    ensures StringOut(o, uptime, Joined(lines)).text == o.text + Page(if o.prefixEnabled then Stamp(uptime) else "", lines)
    decreases |lines|
  {
    var stamp := if o.prefixEnabled then Stamp(uptime) else "";
    if |lines| == 1 {
      LastLineOut(o, uptime, lines[0]);
    } else {
      var s, rest := lines[0] + "\n", lines[1..];
      LineOut(o, uptime, lines[0]);
      OutAppend(o, uptime, s, Joined(rest));
      var o1 := StringOut(o, uptime, s);
      LinesOut(o1, uptime, rest);
      Regrouped(o.text, stamp + lines[0] + "\r\n", Page(stamp, rest));
    }
  }

  lemma {:induction false} Regrouped(a: string, b: string, c: string)
    ensures a + b + c == a + (b + c)
  {
  }

  lemma {:induction false} LastLineOut(o: Out, uptime: nat, s: string)
    requires Plain(s) && (o.prefixEnabled ==> o.atLineStart)
    ensures StringOut(o, uptime, s).text == o.text + Page(if o.prefixEnabled then Stamp(uptime) else "", [s])
  {
    if s == "" {
    } else if o.prefixEnabled {
      OutStamped(o, uptime, s);
    } else {
      OutPlain(o, uptime, s);
    }
  }

  // A line and its break: stamped if stamps are on, even if the line is empty.
  lemma {:induction false} LineOut(o: Out, uptime: nat, s: string)
    requires Plain(s) && (o.prefixEnabled ==> o.atLineStart)
    ensures var r := StringOut(o, uptime, s + "\n");
            && r.text == o.text + ((if o.prefixEnabled then Stamp(uptime) else "") + s + "\r\n")
            && r.prefixEnabled == o.prefixEnabled && r.atLineStart
  {
    var q := StringOut(o, uptime, s);
    OutAppend(o, uptime, s, "\n");
    OutOne(q, uptime, '\n');
    if s == "" {
      BreakAtStart(o, uptime);
    } else if o.prefixEnabled {
      StampedOnce(o, uptime, s);
      Regrouped(o.text, Stamp(uptime) + s, "\r\n");
    } else {
      OutPlain(o, uptime, s);
      Regrouped(o.text, s, "\r\n");
    }
  }

  lemma {:induction false} BreakAtStart(o: Out, uptime: nat)
    requires o.prefixEnabled ==> o.atLineStart
    ensures var r := CharOut(o, uptime, '\n');
            && r.text == o.text + ((if o.prefixEnabled then Stamp(uptime) else "") + "\r\n")
            && r.prefixEnabled == o.prefixEnabled && r.atLineStart
  {
    NumeralPlain(uptime / 1000, 10, false);
    RawPlain(o, Stamp(uptime));
    Regrouped(o.text, Stamp(uptime), "\r\n");
  }

  lemma {:induction false} StampedOnce(o: Out, uptime: nat, s: string)
    requires Plain(s) && s != "" && o.prefixEnabled && o.atLineStart
    ensures var r := StringOut(o, uptime, s);
            r.text == o.text + (Stamp(uptime) + s) && r.prefixEnabled && !r.atLineStart
  {
    var t := s[..|s| - 1];
    OutStamped(o, uptime, s);
    KeepsPrefix(o, uptime, t);
    NumeralPlain(uptime / 1000, 10, false);
    RawPlain(StringOut(o, uptime, t), Stamp(uptime));
  }

  lemma {:induction false} KeepsPrefix(o: Out, uptime: nat, s: string)
    ensures StringOut(o, uptime, s).prefixEnabled == o.prefixEnabled
    decreases |s|
  {
    if s != [] {
      KeepsPrefix(o, uptime, s[..|s| - 1]);
      RawKeepsPrefix(StringOut(o, uptime, s[..|s| - 1]), Stamp(uptime));
    }
  }

  lemma {:induction false} RawKeepsPrefix(o: Out, s: string)
    ensures RawString(o, s).prefixEnabled == o.prefixEnabled
    decreases |s|
  {
    if s != [] {
      RawKeepsPrefix(RawChar(o, s[0]), s[1..]);
    }
  }

  // The stamp shows the uptime in seconds with three decimals.
  lemma {:induction false} StampReads(uptime: nat)
    ensures var s := Stamp(uptime);
            && |s| >= 8 && s[0] == '[' && s[|s| - 6] == '.' && s[|s| - 2..] == "] "
            && IsNumeral(s[1..|s| - 6], 10) && IsNumeral(s[|s| - 5..|s| - 2], 10)
            && Parse(s[1..|s| - 6], 10) * 1000 + Parse(s[|s| - 5..|s| - 2], 10) == uptime
            && Parse(s[|s| - 5..|s| - 2], 10) < 1000
  {
    var s, m, n := Stamp(uptime), uptime % 1000, Numeral(uptime / 1000, 10, false);
    NumeralRoundTrip(uptime / 1000, 10, false);
    var t := [DigitChar(m / 100 % 10, false), DigitChar(m / 10 % 10, false), DigitChar(m % 10, false)];
    ThreeDigits(m, t);
    assert s == "[" + n + "." + t + "] ";
    assert s[1..|s| - 6] == n && s[|s| - 5..|s| - 2] == t;
  }

  lemma {:induction false} ThreeDigits(m: nat, t: string)
    requires m < 1000
    requires t == [DigitChar(m / 100 % 10, false), DigitChar(m / 10 % 10, false), DigitChar(m % 10, false)]
    ensures IsNumeral(t, 10) && Parse(t, 10) == m
  {
    var a, b, c := m / 100 % 10, m / 10 % 10, m % 10;
    Decimals(m, a, b, c);
    DigitRoundTrip(a, false);
    DigitRoundTrip(b, false);
    DigitRoundTrip(c, false);
    ParseThree(t, a, b, c);
  }

  lemma {:induction false} Decimals(m: nat, a: nat, b: nat, c: nat)
    requires m < 1000 && a == m / 100 % 10 && b == m / 10 % 10 && c == m % 10
    ensures a * 100 + b * 10 + c == m
  {
    var q := m / 10;
    assert m / 100 == q / 10 && q < 100;
  }

  lemma {:induction false} ParseThree(t: string, a: nat, b: nat, c: nat)
    requires |t| == 3 && a < 10 && b < 10 && c < 10
    requires DigitValue(t[0]) == a && DigitValue(t[1]) == b && DigitValue(t[2]) == c
    ensures IsNumeral(t, 10) && Parse(t, 10) == a * 100 + b * 10 + c
  {
    assert IsNumeral([], 10) && Parse([], 10) == 0;
    assert [] + [t[0]] == [t[0]] && [t[0]] + [t[1]] == [t[0], t[1]];
    assert t == [t[0], t[1]] + [t[2]];
    ParseSnoc([], t[0], 10);
    ParseSnoc([t[0]], t[1], 10);
    ParseSnoc([t[0], t[1]], t[2], 10);
  }

  // The returned count is the number of characters put out, whatever is printed.
  lemma {:induction false} WrittenIsOutput(o: Out, uptime: nat, s: string)
    ensures var r := StringOut(o, uptime, s);
            r.written - o.written == |r.text| - |o.text|
    decreases |s|
  {
    if s != [] {
      var q := StringOut(o, uptime, s[..|s| - 1]);
      WrittenIsOutput(o, uptime, s[..|s| - 1]);
      RawWritten(q, Stamp(uptime));
    }
  }

  lemma {:induction false} RawWritten(o: Out, s: string)
    ensures RawString(o, s).written - o.written == |RawString(o, s).text| - |o.text|
    decreases |s|
  {
    if s != [] {
      RawWritten(RawChar(o, s[0]), s[1..]);
    }
  }

  // ---- Padding and sign ----

  // Zero padding does not change what the digits say, and the field is as
  // wide as asked or as the number needs.
  lemma {:induction false} PaddedRoundTrip(value: nat, base: nat, uppercase: bool, width: nat)
    requires ValidBase(base)
    ensures var s := Padded(value, base, uppercase, width, '0');
            && IsNumeral(s, base) && Parse(s, base) == value
            && |s| == if |Numeral(value, base, uppercase)| < width then width else |Numeral(value, base, uppercase)|
  {
    var s := Numeral(value, base, uppercase);
    NumeralRoundTrip(value, base, uppercase);
    var n := |Padding(width, |s|, '0')|;
    assert Padding(width, |s|, '0') == seq(n, _ => '0');
    ZerosFirst(n, s, base);
  }

  // With any padding, the field is its numeral behind padding characters only.
  lemma {:induction false} PaddedShape(value: nat, base: nat, uppercase: bool, width: nat, pad: char)
    requires ValidBase(base)
    ensures Field(Padded(value, base, uppercase, width, pad), Numeral(value, base, uppercase), width, pad)
  {
  }

  // s stands at the right of a field of at least width characters, with nothing but padding
  // in front.
  predicate Field(t: string, s: string, width: nat, pad: char) {
    && |t| == (if |s| < width then width else |s|)
    && t[|t| - |s|..] == s
    && forall i :: 0 <= i < |t| - |s| ==> t[i] == pad
  }

  lemma {:induction false} ZerosFirst(n: nat, s: string, base: nat)
    requires ValidBase(base) && IsNumeral(s, base)
    ensures var t := seq(n, _ => '0') + s; IsNumeral(t, base) && Parse(t, base) == Parse(s, base)
    decreases n + |s|
  {
    var t := seq(n, _ => '0') + s;
    if |s| > 0 {
      var s' := s[..|s| - 1];
      ZerosFirst(n, s', base);
      assert t[..|t| - 1] == seq(n, _ => '0') + s';
    } else if n > 0 {
      ZerosFirst(n - 1, s, base);
      assert t[..|t| - 1] == seq(n - 1, _ => '0') + s;
      assert t[|t| - 1] == '0';
    }
  }

  // The text of the %d conversion: the sign stands before the padding.
  function Signed(value: int, width: nat, pad: char): string {
    if value < 0 then "-" + Padded(-value, 10, false, width, pad) else Padded(value, 10, false, width, pad)
  }

  lemma {:induction false} MinusFirst(o: Out, uptime: nat, value: int, width: nat, pad: char)
    requires value < 0
    ensures StringOut(o, uptime, Signed(value, width, pad))
         == StringOut(CharOut(o, uptime, '-'), uptime, Padded(-value, 10, false, width, pad))
  {
    var p := Padded(-value, 10, false, width, pad);
    OutOne(o, uptime, '-');
    OutAppend(o, uptime, ['-'], p);
    assert Signed(value, width, pad) == ['-'] + p;
  }

  // The sign stands in front of the padding and does not count for the width.
  lemma {:induction false} SignedShape(value: int, width: nat, pad: char)
    ensures var t := Signed(value, width, pad);
            if value < 0 then t != "" && t[0] == '-' && Field(t[1..], Numeral(-value, 10, false), width, pad)
            else Field(t, Numeral(value, 10, false), width, pad)
  {
    if value < 0 {
      PaddedShape(-value, 10, false, width, pad);
      assert Signed(value, width, pad)[1..] == Padded(-value, 10, false, width, pad);
    } else {
      PaddedShape(value, 10, false, width, pad);
    }
  }

  predicate IsSigned(s: string) {
    IsNumeral(if s != [] && s[0] == '-' then s[1..] else s, 10)
  }

  function ParseSigned(s: string): int
    requires IsSigned(s)
  {
    if s != [] && s[0] == '-' then 0 - Parse(s[1..], 10) else Parse(s, 10)
  }

  lemma {:induction false} SignedRoundTrip(value: int, width: nat)
    ensures var s := Signed(value, width, '0'); IsSigned(s) && ParseSigned(s) == value
  {
    var m := if value < 0 then -value else value;
    PaddedRoundTrip(m, 10, false, width);
    var p := Padded(m, 10, false, width, '0');
    if value < 0 {
      assert ("-" + p)[1..] == p;
    } else {
      assert p == [] || DigitValue(p[0]) >= 0;
    }
  }

  class Printer {
    var prefixEnabled: bool
    var atLineStart: bool
    var written: int
    var text: string     // what printk_putc has been given
    const uptime: nat    // ktime_get_ms() while printing

    constructor (prefix: bool, clock: nat)
      ensures State() == Out(prefix, true, 0, "") && uptime == clock
    {
      prefixEnabled, atLineStart, written, text, uptime := prefix, true, 0, "", clock;
    }

    function State(): Out
      reads this
    {
      Out(prefixEnabled, atLineStart, written, text)
    }

    method EmitRawChar(c: char)
      modifies this
      ensures State() == RawChar(old(State()), c)
    {
      if c == '\n' {
        text := text + ['\r'];
        text := text + ['\n'];
        written := written + 2;
        atLineStart := true;
        return;
      }
      text := text + [c];
      written := written + 1;
    }

    method EmitRawUnsigned(value: nat, base: nat, uppercase: bool)
      requires value < WORD
      modifies this
      ensures State() == if ValidBase(base) then RawString(old(State()), Numeral(value, base, uppercase)) else old(State())
    {
      if base < 2 || base > 16 {
        return;
      }
      var buffer, len: nat := FillDigits(value, base, uppercase);
      EmitRawDigits(buffer, len, Numeral(value, base, uppercase));
    }

    // The reversing loop of emit_raw_unsigned.
    method EmitRawDigits(buffer: array<char>, len0: nat, ghost s: string)
      requires len0 == |s| <= buffer.Length
      requires forall i :: 0 <= i < len0 ==> buffer[i] == s[|s| - 1 - i]
      modifies this
      ensures State() == RawString(old(State()), s)
    {
      var len: nat := len0;
      while len > 0
        invariant len <= |s|
        invariant RawString(State(), s[|s| - len..]) == RawString(old(State()), s)
      {
        len := len - 1;
        RawNext(State(), s, |s| - len - 1);
        EmitRawChar(buffer[len]);
      }
      assert s[|s|..] == [];
    }

    method EmitLogPrefix()
      requires uptime < WORD
      modifies this
      ensures State() == Prefixed(old(State()), uptime)
    {
      if !prefixEnabled || !atLineStart {
        return;
      }
      var seconds, millis := uptime / 1000, uptime % 1000;
      ghost var o := State();
      EmitRawChar('[');
      EmitRawUnsigned(seconds, 10, false);
      EmitRawChar('.');
      EmitRawChar(DigitChar(millis / 100 % 10, false));
      EmitRawChar(DigitChar(millis / 10 % 10, false));
      EmitRawChar(DigitChar(millis % 10, false));
      EmitRawChar(']');
      EmitRawChar(' ');
      StampRaw(o, uptime, Numeral(seconds, 10, false));
      atLineStart := false;
    }

    method EmitChar(c: char)
      requires uptime < WORD
      modifies this
      ensures State() == CharOut(old(State()), uptime, c)
    {
      EmitLogPrefix();
      EmitRawChar(c);
      if c != '\n' {
        atLineStart := false;
      }
    }

    // emit_string
    method EmitString(s: string)
      requires uptime < WORD
      modifies this
      ensures State() == StringOut(old(State()), uptime, s)
    {
      var i := 0;
      while i < |s|
        invariant i <= |s| && State() == StringOut(old(State()), uptime, s[..i])
      {
        EmitChar(s[i]);
        OutNext(old(State()), uptime, s, i);
        i := i + 1;
      }
      assert s[..i] == s;
    }

    // emit_padded_string
    method EmitPaddedString(s: string, width: nat, pad: char)
      requires uptime < WORD
      modifies this
      ensures State() == StringOut(old(State()), uptime, Padding(width, |s|, pad) + s)
    {
      EmitPadding(width, |s|, pad);
      EmitString(s);
      OutAppend(old(State()), uptime, Padding(width, |s|, pad), s);
    }

    // The padding loop of emit_unsigned.
    method EmitPadding(width0: nat, len: nat, pad: char)
      requires uptime < WORD
      modifies this
      ensures State() == StringOut(old(State()), uptime, Padding(width0, len, pad))
    {
      var width := width0;
      ghost var out := "";
      while len < width
        invariant width <= width0 && (len <= width || width == width0)
        invariant out == seq(width0 - width, _ => pad)
        invariant State() == StringOut(old(State()), uptime, out)
      {
        EmitChar(pad);
        width := width - 1;
        ghost var more := out + [pad];
        assert more[..|more| - 1] == out;
        out := more;
      }
      assert out == Padding(width0, len, pad);
    }

    method EmitUnsigned(value: nat, base: nat, uppercase: bool, width: nat, pad: char)
      requires value < WORD && uptime < WORD
      modifies this
      ensures State() == if ValidBase(base)
                         then StringOut(old(State()), uptime, Padded(value, base, uppercase, width, pad))
                         else old(State())
    {
      if base < 2 || base > 16 {
        return;
      }
      var buffer, len: nat := FillDigits(value, base, uppercase);
      ghost var s := Numeral(value, base, uppercase);
      EmitPadding(width, len, pad);
      EmitDigits(buffer, len, s);
      OutAppend(old(State()), uptime, Padding(width, len, pad), s);
    }

    // The reversing loop of emit_unsigned.
    method EmitDigits(buffer: array<char>, len0: nat, ghost s: string)
      requires uptime < WORD && len0 == |s| <= buffer.Length
      requires forall i :: 0 <= i < len0 ==> buffer[i] == s[|s| - 1 - i]
      modifies this
      ensures State() == StringOut(old(State()), uptime, s)
    {
      var len: nat := len0;
      while len > 0
        invariant len <= |s|
        invariant State() == StringOut(old(State()), uptime, s[..|s| - len])
      {
        len := len - 1;
        EmitChar(buffer[len]);
        OutNext(old(State()), uptime, s, |s| - len - 1);
      }
      assert s[..|s|] == s;
    }

    // The %d conversion. The magnitude is computed in 64 bits, without overflow.
    method EmitSigned(value: int64, width: nat, pad: char)
      requires uptime < WORD
      modifies this
      ensures State() == StringOut(old(State()), uptime, Signed(value as int, width, pad))
    {
      if value < 0 {
        var magnitude: uint64 := (-(value + 1)) as uint64 + 1;
        EmitNegative(magnitude as nat, width, pad);
      } else {
        EmitUnsigned(value as nat, 10, false, width, pad);
      }
    }

    method EmitNegative(magnitude: nat, width: nat, pad: char)
      requires 0 < magnitude < WORD && uptime < WORD
      modifies this
      ensures State() == StringOut(old(State()), uptime, Signed(0 - magnitude, width, pad))
    {
      ghost var o := State();
      EmitChar('-');
      EmitUnsigned(magnitude, 10, false, width, pad);
      MinusFirst(o, uptime, 0 - magnitude, width, pad);
    }
  }

  // The digit loop, into the 64-byte buffer, least significant digit first.
  method FillDigits(value0: nat, base: nat, uppercase: bool) returns (buffer: array<char>, len: nat)
    requires ValidBase(base) && value0 < WORD
    ensures fresh(buffer) && buffer.Length == BUFFER_SIZE && len <= BUFFER_SIZE
    ensures var s := Numeral(value0, base, uppercase);
            len == |s| && forall i :: 0 <= i < len ==> buffer[i] == s[len - 1 - i]
  {
    NumeralFits(value0, base, uppercase);
    buffer := new char[BUFFER_SIZE];
    len := StoreDigits(buffer, value0, base, uppercase, Numeral(value0, base, uppercase));
  }

  method StoreDigits(buffer: array<char>, value0: nat, base: nat, uppercase: bool, ghost s: string) returns (len: nat)
    requires ValidBase(base) && s == Numeral(value0, base, uppercase) && |s| <= buffer.Length
    modifies buffer
    ensures len == |s| && forall i :: 0 <= i < len ==> buffer[i] == s[len - 1 - i]
  {
    len := 0;
    var digit, value := TakeDigit(value0, base, uppercase, s, 0);
    buffer[len] := digit;
    len := len + 1;
    while value != 0
      invariant 0 < len <= |s| && Remaining(s, len, value, base, uppercase)
      invariant Backwards(buffer[..], len, s)
      decreases value
    {
      digit, value := TakeDigit(value, base, uppercase, s, len);
      ghost var before := buffer[..];
      buffer[len] := digit;
      BackwardsNext(before, len, s, digit);
      len := len + 1;
    }
  }

  // The last len characters of s, from its end.
  ghost predicate Backwards(b: seq<char>, len: nat, s: string) {
    len <= |b| && len <= |s| && forall i :: 0 <= i < len ==> b[i] == s[|s| - 1 - i]
  }

  lemma {:induction false} BackwardsNext(b: seq<char>, len: nat, s: string, c: char)
    requires Backwards(b, len, s) && len < |b| && len < |s| && c == s[|s| - 1 - len]
    ensures Backwards(b[len := c], len + 1, s)
  {
  }

  // The next digit of the numeral s, len digits of which are out.
  method TakeDigit(value: nat, base: nat, uppercase: bool, ghost s: string, ghost len: nat) returns (digit: char, rest: nat)
    requires ValidBase(base)
    requires if len == 0 then s == Numeral(value, base, uppercase) else value > 0 && Remaining(s, len, value, base, uppercase)
    ensures len < |s| && digit == s[|s| - 1 - len] && Remaining(s, len + 1, rest, base, uppercase)
    ensures value > 0 ==> rest < value
  {
    if len == 0 {
      FirstDigit(value, base, uppercase);
    } else {
      NextDigit(s, len, value, base, uppercase);
    }
    Shorter(value, base, uppercase);
    digit, rest := DigitChar(value % base, uppercase), value / base;
  }
}
