/**
 Numbers as sysfs shows and parses them: `%u` and `0x%x` as snprintf writes them, and kstrtou32 with base 0, which
 takes the base from the prefix, an optional leading plus and one optional trailing newline.
 */
module SysfsText {
  import opened Bits
  import opened Options

  function DigitChar(d: nat): char
    requires d < 16
  {
    "0123456789abcdef"[d]
  }

  /** The value of a digit, or 16. */
  function DigitOf(c: char): (d: nat)
    ensures d <= 16
  {
    if '0' <= c <= '9' then c as int - '0' as int
    else if 'a' <= c <= 'f' then c as int - 'a' as int + 10
    else if 'A' <= c <= 'F' then c as int - 'A' as int + 10
    else 16
  }

  lemma DigitIs(d: nat)
    requires d < 16
    ensures DigitOf(DigitChar(d)) == d && (d >= 10 ==> DigitOf("ABCDEF"[d - 10]) == d)
  {
  }

  // ---------------------------------------------------------------- printing

  /** `v` in base 10 or 16 */
  function Number(v: nat, base: nat): (s: string)
    requires base in {10, 16}
    ensures |s| > 0
    decreases v
  {
    if v < base then [DigitChar(v)] else Number(v / base, base) + [DigitChar(v % base)]
  }

  /** `%u` or `0x%x` */
  function Shown(v: nat, dec: bool): string {
    if dec then Number(v, 10) else "0x" + Number(v, 16)
  }

  // ---------------------------------------------------------------- parsing

  /** The longest prefix that is digits of the base. */
  function Digits(s: string, base: nat): (d: string)
    ensures |d| <= |s| && d == s[..|d|]
  {
    if s == "" || DigitOf(s[0]) >= base then "" else [s[0]] + Digits(s[1..], base)
  }

  /** Digits accumulated from the left. */
  function Value(d: string, base: nat): nat {
    if d == "" then 0 else Value(d[..|d| - 1], base) * base + DigitOf(d[|d| - 1])
  }

  /** The base a prefix announces, and the text after the prefix. */
  function Radix(s: string): (nat, string) {
    if s == "" || s[0] != '0' then (10, s)
    else if |s| > 2 && (s[1] == 'x' || s[1] == 'X') && DigitOf(s[2]) < 16 then (16, s[2..])
    else (8, s)
  }

  /** kstrtou32 with base 0 */
  function ParseU32(text: string): Option<nat> {
    var s := if text != "" && text[0] == '+' then text[1..] else text;
    var (base, body) := Radix(s);
    var d := Digits(body, base);
    var rest := body[|d|..];
    if d == "" || Value(d, base) >= 0x1_0000_0000 then None
    else if rest == "" || rest == "\n" then Some(Value(d, base))
    else None
  }

  // ---------------------------------------------------------------- round trip

  ghost predicate AllDigits(s: string, base: nat) {
    forall i :: 0 <= i < |s| ==> DigitOf(s[i]) < base
  }

  lemma {:induction false} NumberIs(v: nat, base: nat)
    requires base in {10, 16}
    ensures AllDigits(Number(v, base), base) && Value(Number(v, base), base) == v
    ensures v > 0 ==> Number(v, base)[0] != '0'
    ensures Number(v, base)[0] != '+'
    ensures v == 0 ==> Number(v, base) == "0"
    decreases v
  {
    if v < base {
      DigitIs(v);
      assert Number(v, base)[..0] == "";
    } else {
      NumberIs(v / base, base);
      DigitIs(v % base);
      var s, t := Number(v, base), Number(v / base, base);
      assert s[..|s| - 1] == t;
    }
  }

  /** Digits are the ten figures, and above nine lower-case letters. */
  predicate Figure(c: char, base: nat) {
    '0' <= c <= '9' || (base == 16 && 'a' <= c <= 'f')
  }

  lemma {:induction false} NumberFigures(v: nat, base: nat)
    requires base in {10, 16}
    ensures forall i :: 0 <= i < |Number(v, base)| ==> Figure(Number(v, base)[i], base)
    decreases v
  {
    if v >= base {
      NumberFigures(v / base, base);
    }
  }

  /** A number is shown as decimal figures, or as 0x and lower-case hexadecimal ones, without leading zeros. */
  lemma ShownIs(v: nat, dec: bool)
    ensures var s := Shown(v, dec);
            if dec then |s| > 0 && (forall i :: 0 <= i < |s| ==> '0' <= s[i] <= '9') && (v > 0 ==> s[0] != '0')
            else && |s| > 2 && s[..2] == "0x" && (v > 0 ==> s[2] != '0')
                 && forall i :: 2 <= i < |s| ==> '0' <= s[i] <= '9' || 'a' <= s[i] <= 'f'
  {
    hide Number;
    NumberFigures(v, if dec then 10 else 16);
    NumberIs(v, if dec then 10 else 16);
    assert forall i :: 0 <= i < |Number(v, 10)| ==> Figure(Number(v, 10)[i], 10) || !dec;
  }

  /** A prefix, and the base it announces. */
  predicate Announces(prefix: string, base: nat) {
    (prefix, base) in {("", 10), ("0", 8), ("0x", 16), ("0X", 16)}
  }

  /**
   Any text of one of the three bases is accepted if its number fits 32 bits: with a plus or without, digits of either
   case, and one newline at the end or none.
   */
  lemma ParseAccepts(plus: bool, prefix: string, base: nat, d: string, newline: bool)
    requires Announces(prefix, base) && d != "" && AllDigits(d, base) && (prefix == "" ==> d[0] != '0')
    ensures var text := prefix + d + if newline then "\n" else "";
            ParseU32(if plus then "+" + text else text) ==
            if Value(d, base) < 0x1_0000_0000 then Some(Value(d, base)) else None
  {
    hide Digits, Value, Radix, ParseU32, AllDigits, Announces;
    var tail := if newline then "\n" else "";
    var text := prefix + d + tail;
    var body := if base == 8 then "0" + d else d;
    Announced(prefix, base, d, tail);
    ParseBody(text, base, body, tail);
    PlusSkipped(text);
  }

  lemma PlusSkipped(text: string)
    requires text != "" && text[0] != '+'
    ensures ParseU32("+" + text) == ParseU32(text)
  {
    hide Digits, Value, Radix;
    assert ("+" + text)[1..] == text;
  }

  lemma OctalRadix(d: string, tail: string)
    requires d != "" && AllDigits(d, 8)
    ensures Radix("0" + d + tail) == (8, "0" + d + tail)
  {
    assert ("0" + d + tail)[1] == d[0];
  }

  lemma Announced(prefix: string, base: nat, d: string, tail: string)
    requires Announces(prefix, base) && d != "" && AllDigits(d, base) && (prefix == "" ==> d[0] != '0')
    requires tail == "" || tail == "\n"
    ensures var text, body := prefix + d + tail, if base == 8 then "0" + d else d;
            && text != "" && text[0] != '+' && Radix(text) == (base, body + tail)
            && Digits(body + tail, base) == body && Value(body, base) == Value(d, base)
  {
    hide Digits, Value, Radix;
    if base == 8 {
      DigitsStop("0" + d, tail, 8);
      ZeroBefore(d, 8);
      OctalRadix(d, tail);
      assert prefix + d + tail == "0" + d + tail;
    } else {
      DigitsStop(d, tail, base);
      OtherRadix(prefix, base, d, tail);
    }
  }

  lemma OtherRadix(prefix: string, base: nat, d: string, tail: string)
    requires Announces(prefix, base) && base != 8 && d != "" && AllDigits(d, base) && (prefix == "" ==> d[0] != '0')
    ensures var text := prefix + d + tail; text != "" && text[0] != '+' && Radix(text) == (base, d + tail)
  {
    var text := prefix + d + tail;
    if base == 16 {
      assert text[2..] == d + tail && text[2] == d[0];
    } else {
      assert text == d + tail && text[0] == d[0];
    }
  }

  /** A leading zero adds nothing. */
  lemma {:induction false} ZeroBefore(d: string, base: nat)
    ensures Value("0" + d, base) == Value(d, base)
  {
    if d == "" {
      assert "0" + d == "0" && "0"[..0] == "";
    } else {
      var n := |d| - 1;
      ZeroBefore(d[..n], base);
      assert ("0" + d)[..n + 1] == "0" + d[..n];
    }
  }

  lemma {:induction false} DigitsStop(d: string, rest: string, base: nat)
    requires AllDigits(d, base) && (rest == "" || DigitOf(rest[0]) >= base)
    ensures Digits(d + rest, base) == d
  {
    if d == "" {
      assert d + rest == rest;
    } else {
      assert (d + rest)[1..] == d[1..] + rest;
      DigitsStop(d[1..], rest, base);
    }
  }

  lemma ParseBody(text: string, base: nat, n: string, tail: string)
    requires text != "" && text[0] != '+' && Radix(text) == (base, n + tail)
    requires n != "" && Digits(n + tail, base) == n
    ensures ParseU32(text) ==
            if Value(n, base) < 0x1_0000_0000 && (tail == "" || tail == "\n") then Some(Value(n, base)) else None
  {
    hide Digits, Value, Radix;
    assert (n + tail)[|n|..] == tail;
  }

  lemma ShownHex(v: nat, tail: string)
    requires tail != "" && tail[0] == '\n'
    ensures var text, n := Shown(v, false) + tail, Number(v, 16);
            text[0] != '+' && Radix(text) == (16, n + tail) && Digits(n + tail, 16) == n
  {
    hide Digits, Number;
    var text, n := Shown(v, false) + tail, Number(v, 16);
    NumberIs(v, 16);
    DigitsStop(n, tail, 16);
    assert text[2..] == n + tail && text[2] == n[0];
  }

  lemma ShownDecimal(v: nat, tail: string)
    requires v > 0 && tail != "" && tail[0] == '\n'
    ensures var text, n := Shown(v, true) + tail, Number(v, 10);
            text[0] != '+' && Radix(text) == (10, n + tail) && Digits(n + tail, 10) == n
  {
    hide Digits, Number;
    NumberIs(v, 10);
    DigitsStop(Number(v, 10), tail, 10);
  }

  lemma ShownZero(tail: string)
    requires tail != "" && tail[0] == '\n'
    ensures Shown(0, true) == "0" && Radix("0" + tail) == (8, "0" + tail)
    ensures Digits("0" + tail, 8) == "0" && Value("0", 8) == 0
  {
    hide Digits, Number;
    NumberIs(0, 10);
    DigitsStop("0", tail, 8);
    assert ("0" + tail)[1] == '\n' && Value("0", 8) == Value("", 8) * 8 + 0;
  }

  /** A shown number, whatever follows its line, parses as itself alone and as nothing otherwise. */
  lemma ParseShown(v: nat, dec: bool, more: string)
    requires v < 0x1_0000_0000
    ensures ParseU32(Shown(v, dec) + "\n" + more) == if more == "" then Some(v) else None
  {
    hide ParseU32, Digits, Number, Radix, Value, Shown;
    var n, tail := Number(v, if dec then 10 else 16), "\n" + more;
    assert Shown(v, dec) + "\n" + more == Shown(v, dec) + tail && (tail == "\n" <==> more == "");
    NumberIs(v, if dec then 10 else 16);
    if !dec {
      ShownHex(v, tail);
      ParseBody(Shown(v, dec) + tail, 16, n, tail);
    } else if v > 0 {
      ShownDecimal(v, tail);
      ParseBody(Shown(v, dec) + tail, 10, n, tail);
    } else {
      ShownZero(tail);
      ParseBody(Shown(v, dec) + tail, 8, n, tail);
    }
  }
}
