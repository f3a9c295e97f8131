/** Strings as Python builds them in the source: `''.join`, `sep.join`, `str(int)`, and
    iteration over an in-memory text file, which yields one line at a time. */
module Text {

  /** `''.join(parts)`: the parts one after the other. */
  function Concat(parts: seq<string>): string
  {
    if parts == [] then "" else parts[0] + Concat(parts[1..])
  }

  lemma {:induction false} ConcatAppend(parts: seq<string>, last: string)
    ensures Concat(parts + [last]) == Concat(parts) + last
    decreases |parts|
  {
    if parts == [] {
      assert parts + [last] == [last];
    } else {
      assert (parts + [last])[1..] == parts[1..] + [last];
      ConcatAppend(parts[1..], last);
    }
  }

  lemma ConcatFrom(parts: seq<string>, i: nat)
    requires i < |parts|
    ensures Concat(parts[i..]) == parts[i] + Concat(parts[i + 1..])
  {
    assert parts[i..][1..] == parts[i + 1..];
  }

  /** `sep.join(parts)`. */
  function Join(parts: seq<string>, sep: char): (r: string)
    ensures |parts| >= 1 ==> |r| == |Concat(parts)| + |parts| - 1
  {
    if |parts| == 0 then ""
    else if |parts| == 1 then parts[0]
    else parts[0] + [sep] + Join(parts[1..], sep)
  }

  /** A character that is neither the separator nor in any part is not in their join. */
  lemma {:induction false} JoinWithout(parts: seq<string>, sep: char, c: char)
    requires c != sep
    requires forall i :: 0 <= i < |parts| ==> c !in parts[i]
    ensures c !in Join(parts, sep)
    decreases |parts|
  {
    if |parts| > 1 {
      JoinWithout(parts[1..], sep, c);
    }
  }

  /** `s.split(sep)`: the pieces between separators, always at least one. */
  function Split(s: string, sep: char): (pieces: seq<string>)
    ensures |pieces| >= 1
    decreases |s|
  {
    if s == "" then [""]
    else
      var rest := Split(s[1..], sep);
      if s[0] == sep then [""] + rest else [[s[0]] + rest[0]] + rest[1..]
  }

  /** A prefix free of separators is glued onto the first piece. */
  lemma {:induction false} SplitPrefix(a: string, b: string, sep: char)
    requires sep !in a
    ensures Split(a + b, sep) == [a + Split(b, sep)[0]] + Split(b, sep)[1..]
    decreases |a|
  {
    if a == "" {
      var r := Split(b, sep);
      assert a + b == b && a + r[0] == r[0];
      assert r == [r[0]] + r[1..];
    } else {
      assert (a + b)[1..] == a[1..] + b;
      SplitPrefix(a[1..], b, sep);
      assert [a[0]] + (a[1..] + Split(b, sep)[0]) == a + Split(b, sep)[0];
    }
  }

  /** Joining fields that do not contain the separator can be undone by splitting. */
  lemma {:induction false} SplitJoin(parts: seq<string>, sep: char)
    requires |parts| >= 1
    requires forall i :: 0 <= i < |parts| ==> sep !in parts[i]
    ensures Split(Join(parts, sep), sep) == parts
    decreases |parts|
  {
    if |parts| == 1 {
      SplitPrefix(parts[0], "", sep);
      assert parts[0] + "" == parts[0];
    } else {
      var tail := Join(parts[1..], sep);
      assert Join(parts, sep) == parts[0] + ([sep] + tail);
      SplitPrefix(parts[0], [sep] + tail, sep);
      assert ([sep] + tail)[1..] == tail;
      assert Split([sep] + tail, sep) == [""] + Split(tail, sep);
      SplitJoin(parts[1..], sep);
      assert parts[0] + "" == parts[0];
      assert parts == [parts[0]] + parts[1..];
    }
  }

  /** The character of decimal digit `d`. */
  function DigitChar(d: nat): (c: char)
    requires d < 10
    ensures '0' <= c <= '9' && (c as int) - ('0' as int) == d
  {
    (d + '0' as int) as char
  }

  /** `str(n)` for a non-negative integer: its decimal digits, without leading zeros. */
  function NaturalDigits(n: nat): (r: string)
    ensures |r| >= 1
    ensures forall i :: 0 <= i < |r| ==> '0' <= r[i] <= '9'
    ensures |r| > 1 ==> r[0] != '0'
    decreases n
  {
    if n < 10 then [DigitChar(n)] else NaturalDigits(n / 10) + [DigitChar(n % 10)]
  }

  /** The number a string of decimal digits denotes. */
  function DigitsValue(s: string): nat
    requires forall i :: 0 <= i < |s| ==> '0' <= s[i] <= '9'
    decreases |s|
  {
    if s == "" then 0
    else 10 * DigitsValue(s[..|s| - 1]) + ((s[|s| - 1] as int) - ('0' as int))
  }

  /** Reading back the digits of `n` gives `n`: the rendering loses nothing. */
  lemma {:induction false} DigitsRoundTrip(n: nat)
    ensures DigitsValue(NaturalDigits(n)) == n
    decreases n
  {
    if n >= 10 {
      var r := NaturalDigits(n);
      assert r[..|r| - 1] == NaturalDigits(n / 10);
      DigitsRoundTrip(n / 10);
    }
  }

  /** `str(n)` for any integer. */
  function Decimal(n: int): (r: string)
    ensures forall c :: c in r ==> c == '-' || '0' <= c <= '9'
    ensures n >= 0 ==> r == NaturalDigits(n)
    ensures n < 0 ==> r == "-" + NaturalDigits(-n)
  {
    if n >= 0 then NaturalDigits(n) else "-" + NaturalDigits(-n)
  }

  /** The length of the first line of `s`, counting its terminating newline if it has one. */
  function LineEnd(s: string): (k: nat)
    ensures k <= |s|
    ensures s != "" ==> k >= 1
    ensures forall i :: 0 <= i < k - 1 ==> s[i] != '\n'
    ensures k < |s| ==> k >= 1 && s[k - 1] == '\n'
    decreases |s|
  {
    if s == "" then 0 else if s[0] == '\n' then 1 else 1 + LineEnd(s[1..])
  }

  /** The chunks that iterating over an in-memory text file yields: its lines, each with its
      newline. */
  function SplitLines(s: string): (lines: seq<string>)
    ensures Concat(lines) == s
    decreases |s|
  {
    if s == "" then []
    else
      var k := LineEnd(s);
      assert s[..k] + s[k..] == s;
      [s[..k]] + SplitLines(s[k..])
  }

  /** One complete line: it ends in a newline and has no other. */
  predicate IsLine(l: string)
  {
    |l| >= 1 && l[|l| - 1] == '\n' && '\n' !in l[..|l| - 1]
  }

  lemma {:induction false} LineEndOfLine(l: string, rest: string)
    requires IsLine(l)
    ensures LineEnd(l + rest) == |l|
    decreases |l|
  {
    if |l| > 1 {
      assert l[0] in l[..|l| - 1];
      assert (l + rest)[1..] == l[1..] + rest;
      assert l[1..][..|l[1..]| - 1] == l[..|l| - 1][1..];
      LineEndOfLine(l[1..], rest);
    }
  }

  /** Concatenating complete lines and iterating over the result gives the same lines back. */
  lemma {:induction false} SplitLinesConcat(lines: seq<string>)
    requires forall i :: 0 <= i < |lines| ==> IsLine(lines[i])
    ensures SplitLines(Concat(lines)) == lines
    decreases |lines|
  {
    if lines != [] {
      var s := Concat(lines);
      LineEndOfLine(lines[0], Concat(lines[1..]));
      assert s[..|lines[0]|] == lines[0];
      assert s[|lines[0]|..] == Concat(lines[1..]);
      SplitLinesConcat(lines[1..]);
    }
  }
}
