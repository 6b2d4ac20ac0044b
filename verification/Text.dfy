/** The pieces of Python string handling the bot relies on: `sep.join`,
    `str.rstrip()`, `str.replace` of one character by another, and
    `'{}'.format` of a non-negative integer. `Split` on one character is not
    used by the bot; it only serves to state the line structure of the texts
    the bot builds. */
module Text {

  /** `sep.join(items)`. */
  function Join(sep: string, items: seq<string>): string
  {
    if |items| == 0 then ""
    else if |items| == 1 then items[0]
    else items[0] + sep + Join(sep, items[1..])
  }

  /** `s.split(c)` for a one-character separator: always at least one piece. */
  function Split(c: char, s: string): (pieces: seq<string>)
    ensures |pieces| >= 1
    ensures forall i :: 0 <= i < |pieces| ==> c !in pieces[i]
  {
    if s == [] then [""]
    else if s[0] == c then [""] + Split(c, s[1..])
    else
      var rest := Split(c, s[1..]);
      [[s[0]] + rest[0]] + rest[1..]
  }

  lemma {:induction false} SplitNoSeparator(c: char, a: string)
    requires c !in a
    ensures Split(c, a) == [a]
  {
    if a != [] {
      SplitNoSeparator(c, a[1..]);
      assert [a[0]] + a[1..] == a;
    }
  }

  lemma {:induction false} SplitAfterPiece(c: char, a: string, b: string)
    requires c !in a
    ensures Split(c, a + [c] + b) == [a] + Split(c, b)
  {
    if a == [] {
      assert a + [c] + b == [c] + b;
      assert ([c] + b)[1..] == b;
    } else {
      SplitAfterPiece(c, a[1..], b);
      assert (a + [c] + b)[1..] == a[1..] + [c] + b;
      assert [a[0]] + a[1..] == a;
    }
  }

  /** Joining pieces that do not contain the separator and splitting the
      result again gives back exactly those pieces. */
  lemma {:induction false} SplitJoin(c: char, lines: seq<string>)
    requires |lines| >= 1
    requires forall i :: 0 <= i < |lines| ==> c !in lines[i]
    ensures Split(c, Join([c], lines)) == lines
  {
    if |lines| == 1 {
      SplitNoSeparator(c, lines[0]);
    } else {
      SplitJoin(c, lines[1..]);
      SplitAfterPiece(c, lines[0], Join([c], lines[1..]));
      assert [lines[0]] + lines[1..] == lines;
    }
  }

  /** The characters `str.isspace()` accepts. */
  predicate IsSpace(c: char)
  {
    var k := c as int;
    k == 0x20 || (0x09 <= k <= 0x0d) || (0x1c <= k <= 0x1f) || k == 0x85 || k == 0xa0
    || k == 0x1680 || (0x2000 <= k <= 0x200a) || k == 0x2028 || k == 0x2029
    || k == 0x202f || k == 0x205f || k == 0x3000
  }

  /** `s.rstrip()`: the longest prefix of `s` that does not end in whitespace. */
  function RStrip(s: string): (r: string)
    ensures |r| <= |s| && r == s[..|r|]
    ensures r == [] || !IsSpace(r[|r| - 1])
    ensures forall i :: |r| <= i < |s| ==> IsSpace(s[i])
  {
    if s != [] && IsSpace(s[|s| - 1]) then RStrip(s[..|s| - 1]) else s
  }

  /** `s.replace(a, b)` for single characters `a` and `b`. */
  function ReplaceChar(s: string, a: char, b: char): (r: string)
    ensures |r| == |s|
    ensures forall i :: 0 <= i < |s| ==> r[i] == (if s[i] == a then b else s[i])
    ensures a != b ==> a !in r
  {
    if s == [] then [] else [if s[0] == a then b else s[0]] + ReplaceChar(s[1..], a, b)
  }

  predicate IsDigit(c: char)
  {
    '0' <= c <= '9'
  }

  function DigitChar(d: nat): char
    requires d < 10
  {
    ('0' as int + d) as char
  }

  /** The decimal rendering `'{}'.format(n)` produces for a non-negative `n`. */
  function Decimal(n: nat): (s: string)
    ensures |s| >= 1
    ensures forall i :: 0 <= i < |s| ==> IsDigit(s[i])
    ensures s[0] == '0' ==> n == 0
  {
    if n < 10 then [DigitChar(n)] else Decimal(n / 10) + [DigitChar(n % 10)]
  }

  /** Reads a string of decimal digits back as a number (reference definition). */
  function ParseDecimal(s: string): nat
    requires forall i :: 0 <= i < |s| ==> IsDigit(s[i])
  {
    if s == [] then 0
    else
      assert IsDigit(s[|s| - 1]);
      10 * ParseDecimal(s[..|s| - 1]) + (s[|s| - 1] as int - '0' as int)
  }

  /** The count written into the digest reads back as the count. */
  lemma {:induction false} DecimalRoundTrip(n: nat)
    ensures ParseDecimal(Decimal(n)) == n
  {
    var s := Decimal(n);
    if n >= 10 {
      DecimalRoundTrip(n / 10);
      assert s[..|s| - 1] == Decimal(n / 10);
    }
  }
}
