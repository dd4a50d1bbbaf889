/**
 * The pieces of Rust's `format!` that the core uses: lower-case hexadecimal
 * without leading zeros, decimal for unsigned integers, two-digit hex for a
 * byte, and `join` of string pieces.
 */
module Text {

  predicate IsHexChar(c: char) {
    '0' <= c <= '9' || 'a' <= c <= 'f'
  }

  predicate IsDecChar(c: char) {
    '0' <= c <= '9'
  }

  function HexDigit(d: nat): (c: char)
    requires d < 16
    ensures IsHexChar(c)
    ensures (c == '0') <==> d == 0
    ensures HexDigitValue(c) == d
  {
    if d < 10 then (48 + d) as char else (87 + d) as char
  }

  /** The numeric value of one hexadecimal digit (inverse of HexDigit). */
  function HexDigitValue(c: char): (d: nat)
    ensures d < 16
  {
    if '0' <= c <= '9' then c as int - 48
    else if 'a' <= c <= 'f' then c as int - 87
    else 0
  }

  /** Lower-case hexadecimal without leading zeros, as Rust's hex format prints it. */
  function Hex(n: nat): (s: string)
    decreases n
  {
    if n < 16 then [HexDigit(n)] else Hex(n / 16) + [HexDigit(n % 16)]
  }

  /** `format!("{}", n)` for an unsigned n */
  function Dec(n: nat): (s: string)
    decreases n
  {
    if n < 10 then [(48 + n) as char] else Dec(n / 10) + [(48 + n % 10) as char]
  }

  /** Reads a string of hexadecimal digits back as a number, most significant first. */
  function HexValue(s: string): nat {
    if s == [] then 0 else 16 * HexValue(s[..|s| - 1]) + HexDigitValue(s[|s| - 1])
  }

  /** Reads a string of decimal digits back as a number. */
  function DecValue(s: string): nat {
    if s == [] then 0 else 10 * DecValue(s[..|s| - 1]) + (s[|s| - 1] as int - 48) % 10
  }

  /** Hex formatting prints digits only, at least one, and no leading zero unless n == 0. */
  lemma {:induction false} HexShape(n: nat)
    ensures |Hex(n)| >= 1
    ensures forall i :: 0 <= i < |Hex(n)| ==> IsHexChar(Hex(n)[i])
    ensures Hex(n)[0] == '0' <==> n == 0
    decreases n
  {
    if n >= 16 {
      HexShape(n / 16);
    }
  }

  /** Parsing the printed digits gives the number back. */
  lemma {:induction false} HexRoundTrip(n: nat)
    ensures HexValue(Hex(n)) == n
    decreases n
  {
    if n >= 16 {
      var s := Hex(n);
      assert s[..|s| - 1] == Hex(n / 16);
      HexRoundTrip(n / 16);
    }
  }

  lemma {:induction false} DecShape(n: nat)
    ensures |Dec(n)| >= 1
    ensures forall i :: 0 <= i < |Dec(n)| ==> IsDecChar(Dec(n)[i])
    ensures Dec(n)[0] == '0' <==> n == 0
    decreases n
  {
    if n >= 10 {
      DecShape(n / 10);
    }
  }

  lemma {:induction false} DecRoundTrip(n: nat)
    ensures DecValue(Dec(n)) == n
    decreases n
  {
    if n >= 10 {
      var s := Dec(n);
      assert s[..|s| - 1] == Dec(n / 10);
      DecRoundTrip(n / 10);
    }
  }

  /** A byte in two-digit lower-case hex: always two digits. */
  function Hex2(b: nat): (s: string)
    requires b < 256
    ensures |s| == 2 && IsHexChar(s[0]) && IsHexChar(s[1])
    ensures HexValue(s) == b
  {
    var s := [HexDigit(b / 16), HexDigit(b % 16)];
    assert s[..1][..0] == [] && s[..1] == [HexDigit(b / 16)];
    assert HexValue(s[..1]) == b / 16;
    assert HexValue(s) == 16 * (b / 16) + b % 16;
    s
  }

  /** `parts.join(sep)` */
  function Join(parts: seq<string>, sep: string): string {
    if |parts| == 0 then ""
    else if |parts| == 1 then parts[0]
    else parts[0] + sep + Join(parts[1..], sep)
  }

  /** Appending a piece appends the separator and the piece. */
  lemma {:induction false} JoinAppend(parts: seq<string>, p: string, sep: string)
    requires |parts| >= 1
    ensures Join(parts + [p], sep) == Join(parts, sep) + sep + p
  {
    if |parts| == 1 {
      assert (parts + [p])[1..] == [p];
    } else {
      assert (parts + [p])[1..] == parts[1..] + [p];
      JoinAppend(parts[1..], p, sep);
    }
  }

  /** Each string followed by a line feed: the text of a sequence of lines. */
  function Lines(ls: seq<string>): string {
    if ls == [] then "" else Lines(ls[..|ls| - 1]) + ls[|ls| - 1] + "\n"
  }

  function CountChar(s: string, c: char): nat {
    if s == [] then 0 else CountChar(s[..|s| - 1], c) + (if s[|s| - 1] == c then 1 else 0)
  }

  lemma {:induction false} CountCharAppend(a: string, b: string, c: char)
    ensures CountChar(a + b, c) == CountChar(a, c) + CountChar(b, c)
    decreases |b|
  {
    if b != [] {
      assert (a + b)[..|a + b| - 1] == a + b[..|b| - 1];
      CountCharAppend(a, b[..|b| - 1], c);
    } else {
      assert a + b == a;
    }
  }

  lemma {:induction false} CountCharAbsent(s: string, c: char)
    requires forall i :: 0 <= i < |s| ==> s[i] != c
    ensures CountChar(s, c) == 0
  {
    if s != [] {
      CountCharAbsent(s[..|s| - 1], c);
    }
  }

  /** A text built by Lines from line-feed-free lines has exactly one line feed per line. */
  lemma {:induction false} LinesCount(ls: seq<string>)
    requires forall k, i :: 0 <= k < |ls| && 0 <= i < |ls[k]| ==> ls[k][i] != '\n'
    ensures CountChar(Lines(ls), '\n') == |ls|
    ensures |Lines(ls)| > 0 ==> Lines(ls)[|Lines(ls)| - 1] == '\n'
  {
    if ls != [] {
      var init := ls[..|ls| - 1];
      LinesCount(init);
      CountCharAbsent(ls[|ls| - 1], '\n');
      CountCharAppend(Lines(init), ls[|ls| - 1], '\n');
      CountCharAppend(Lines(init) + ls[|ls| - 1], "\n", '\n');
      assert CountChar("\n", '\n') == 1 by {
        assert "\n"[..0] == "";
      }
    }
  }
}
