/** The string operations of Python that the monitor relies on: `str()` of an
    integer, the `in` substring test, `str.replace`, and the text that a run
    of `print` calls leaves on standard output. */
module Strings {
  import opened Maybe

  predicate IsDigit(c: char) {
    '0' <= c <= '9'
  }

  predicate IsDigits(s: string) {
    forall i :: 0 <= i < |s| ==> IsDigit(s[i])
  }

  function DigitChar(d: nat): (c: char)
    requires d < 10
    ensures IsDigit(c) && c as int - '0' as int == d
  {
    ('0' as int + d) as char
  }

  /** Python's `str(n)` for a non-negative integer: decimal digits, most
      significant first, no leading zero. */
  function NatToString(n: nat): (s: string)
    ensures |s| > 0 && IsDigits(s)
    ensures n >= 10 ==> s[0] != '0'
    decreases n
  {
    if n < 10 then [DigitChar(n)] else NatToString(n / 10) + [DigitChar(n % 10)]
  }

  /** Python's `str(i)` for any integer. */
  function IntToString(i: int): string {
    if i < 0 then "-" + NatToString(-i) else NatToString(i)
  }

  /** Reads a string of decimal digits back as a number (Python's `int(s)`
      on a digit string). */
  function ParseNat(s: string): nat
    requires IsDigits(s)
  {
    if s == [] then 0 else 10 * ParseNat(s[..|s| - 1]) + (s[|s| - 1] as int - '0' as int)
  }

  /** `int(str(n)) == n`: the decimal rendering loses nothing. */
  lemma {:induction false} ParseNatToString(n: nat)
    ensures ParseNat(NatToString(n)) == n
    decreases n
  {
    if n >= 10 {
      var s := NatToString(n);
      assert s[..|s| - 1] == NatToString(n / 10);
      ParseNatToString(n / 10);
    }
  }

  /** The longest prefix of `s` made of decimal digits. */
  function DigitPrefix(s: string): (r: string)
    ensures IsDigits(r) && |r| <= |s| && r == s[..|r|]
    ensures |r| < |s| ==> !IsDigit(s[|r|])
  {
    if s == [] || !IsDigit(s[0]) then [] else [s[0]] + DigitPrefix(s[1..])
  }

  /** A digit string followed by a non-digit is exactly what DigitPrefix
      takes back. */
  lemma {:induction false} DigitPrefixOf(digits: string, rest: string)
    requires IsDigits(digits)
    requires rest != [] && !IsDigit(rest[0])
    ensures DigitPrefix(digits + rest) == digits
  {
    if digits != [] {
      assert (digits + rest)[1..] == digits[1..] + rest;
      DigitPrefixOf(digits[1..], rest);
    }
  }

  /** Python's `int()` on the number at the start of `s`: an optional `-`,
      then the longest run of digits (at least one); the rest of `s` comes
      back with it. */
  function ReadInt(s: string): Option<(int, string)> {
    var negative := s != [] && s[0] == '-';
    var body := if negative then s[1..] else s;
    var digits := DigitPrefix(body);
    var value: int := if negative then -(ParseNat(digits) as int) else ParseNat(digits);
    if digits == [] then None else Some((value, body[|digits|..]))
  }

  /** `ReadInt` takes back what `str()` of an integer wrote, when the text
      after it does not start with a digit. */
  lemma ReadIntOf(i: int, rest: string)
    requires rest != [] && !IsDigit(rest[0])
    ensures ReadInt(IntToString(i) + rest) == Some((i, rest))
  {
    var s := IntToString(i) + rest;
    if i < 0 {
      var body := NatToString(-i) + rest;
      assert s == "-" + body;
      assert s[0] == '-' && s[1..] == body;
      ReadDigitsOf(-i, rest);
    } else {
      assert s == NatToString(i) + rest;
      ReadDigitsOf(i, rest);
    }
  }

  /** The digits of `str(n)` are read back as `n`, leaving `rest`. */
  lemma ReadDigitsOf(n: nat, rest: string)
    requires rest != [] && !IsDigit(rest[0])
    ensures var body := NatToString(n) + rest;
            body[0] != '-' && DigitPrefix(body) == NatToString(n) &&
            ParseNat(DigitPrefix(body)) == n && body[|NatToString(n)|..] == rest
  {
    var digits := NatToString(n);
    DigitPrefixOf(digits, rest);
    ParseNatToString(n);
    assert (digits + rest)[0] == digits[0];
  }

  /** Python's `t in s` for strings: `t` occurs as a contiguous substring. */
  function Contains(s: string, t: string): bool
    decreases |s|
  {
    if |t| > |s| then false else s[..|t|] == t || Contains(s[1..], t)
  }

  ghost predicate OccursAt(s: string, t: string, i: int) {
    0 <= i && i + |t| <= |s| && s[i..i + |t|] == t
  }

  lemma OccursAtStart(s: string, t: string)
    requires OccursAt(s, t, 0)
    ensures s[..|t|] == t
  {
    assert s[..|t|] == s[0..|t|];
  }

  lemma OccursAtShift(s: string, t: string, i: int)
    requires OccursAt(s, t, i) && i > 0
    ensures OccursAt(s[1..], t, i - 1)
  {
    assert s[1..][i - 1..i - 1 + |t|] == s[i..i + |t|];
  }

  /** Contains agrees with the definition of substring occurrence, in both
      directions. */
  lemma {:induction false} ContainsIff(s: string, t: string)
    ensures Contains(s, t) <==> exists i :: OccursAt(s, t, i)
    decreases |s|
  {
    if |t| <= |s| {
      if s[..|t|] == t {
        assert OccursAt(s, t, 0);
      } else {
        ContainsIff(s[1..], t);
        if Contains(s[1..], t) {
          var i :| OccursAt(s[1..], t, i);
          assert s[i + 1..i + 1 + |t|] == s[1..][i..i + |t|];
          assert OccursAt(s, t, i + 1);
        } else {
          forall i | OccursAt(s, t, i) ensures false {
            if i == 0 {
              OccursAtStart(s, t);
            } else {
              OccursAtShift(s, t, i);
            }
          }
        }
      }
    } else {
      forall i | OccursAt(s, t, i) ensures false { }
    }
  }

  /** Python's `s.replace(from, to)` for one-character `from` and `to`:
      every `from` becomes `to`, every other character stays. */
  function ReplaceChar(s: string, from: char, to: char): (r: string)
    ensures |r| == |s|
    ensures forall i :: 0 <= i < |s| && s[i] == from ==> r[i] == to
    ensures forall i :: 0 <= i < |s| && s[i] != from ==> r[i] == s[i]
    ensures from != to ==> from !in r
  {
    if s == [] then [] else [if s[0] == from then to else s[0]] + ReplaceChar(s[1..], from, to)
  }

  /** The strings of `ss` one after another (`''.join(ss)`). */
  function Concat(ss: seq<string>): string {
    if ss == [] then "" else Concat(ss[..|ss| - 1]) + ss[|ss| - 1]
  }

  /** The text `f` renders for each element of `xs`, in order. */
  function Rendered<T>(xs: seq<T>, f: T -> string): (r: seq<string>)
    ensures |r| == |xs|
    ensures forall i :: 0 <= i < |xs| ==> r[i] == f(xs[i])
  {
    seq(|xs|, i requires 0 <= i < |xs| => f(xs[i]))
  }

  /** Rendering one more element appends its text. */
  lemma RenderedSnoc<T>(xs: seq<T>, f: T -> string, i: nat)
    requires i < |xs|
    ensures Rendered(xs[..i + 1], f) == Rendered(xs[..i], f) + [f(xs[i])]
    ensures Concat(Rendered(xs[..i + 1], f)) == Concat(Rendered(xs[..i], f)) + f(xs[i])
  {
    var r := Rendered(xs[..i + 1], f);
    assert r[..i] == Rendered(xs[..i], f);
  }

  lemma SeqAssoc<T>(a: seq<T>, b: seq<T>, c: seq<T>)
    ensures (a + b) + c == a + (b + c)
  {
  }

  /** Putting a head before a body: the body's count of `c` is kept when the
      head holds no `c`, a character in neither is in neither, and the head
      is what the text starts with. */
  lemma HeadBody(head: string, body: string, c: char, d: char)
    requires c !in head && d !in head && d !in body
    ensures Count(head + body, c) == Count(body, c)
    ensures d !in head + body
    ensures (head + body)[..|head|] == head
  {
    CountAppend(head, body, c);
    CountAbsent(head, c);
    assert forall x :: x in head + body ==> x in head || x in body;
  }

  /** A text without newlines, printed, reads back as exactly that one line
      and puts exactly one newline on the output. */
  lemma SingleLine(line: string)
    requires '\n' !in line
    ensures SplitLines(Unlines([line])) == [line]
    ensures Count(Unlines([line]), '\n') == 1
  {
    SplitUnlines([line]);
    UnlinesNewlines([line]);
  }

  /** The text that `print(l)` for each `l` in `lines` leaves on standard output. */
  function Unlines(lines: seq<string>): string {
    if lines == [] then "" else Unlines(lines[..|lines| - 1]) + lines[|lines| - 1] + "\n"
  }

  /** How many times `c` occurs in `s`. */
  function Count(s: string, c: char): nat {
    if s == [] then 0 else Count(s[..|s| - 1], c) + (if s[|s| - 1] == c then 1 else 0)
  }

  lemma {:induction false} CountAppend(a: string, b: string, c: char)
    ensures Count(a + b, c) == Count(a, c) + Count(b, c)
    decreases |b|
  {
    if b != [] {
      assert (a + b)[..|a + b| - 1] == a + b[..|b| - 1];
      CountAppend(a, b[..|b| - 1], c);
    } else {
      assert a + b == a;
    }
  }

  lemma {:induction false} CountAbsent(s: string, c: char)
    requires c !in s
    ensures Count(s, c) == 0
    decreases |s|
  {
    if s != [] {
      CountAbsent(s[..|s| - 1], c);
    }
  }

  /** When no line holds a newline itself, the printed text has exactly one
      newline per line and ends with one. */
  lemma {:induction false} UnlinesNewlines(lines: seq<string>)
    requires forall i :: 0 <= i < |lines| ==> '\n' !in lines[i]
    ensures Count(Unlines(lines), '\n') == |lines|
    ensures lines != [] ==> Unlines(lines)[|Unlines(lines)| - 1] == '\n'
    decreases |lines|
  {
    if lines != [] {
      var init, last := lines[..|lines| - 1], lines[|lines| - 1];
      UnlinesNewlines(init);
      CountAppend(Unlines(init), last, '\n');
      CountAppend(Unlines(init) + last, "\n", '\n');
      CountAbsent(last, '\n');
      assert Count("\n", '\n') == 1 by {
        assert "\n"[..0] == "";
      }
    }
  }

  /** Joining strings that do not hold `c` gives a string without `c`. */
  lemma {:induction false} ConcatAvoids(ss: seq<string>, c: char)
    requires forall i :: 0 <= i < |ss| ==> c !in ss[i]
    ensures c !in Concat(ss)
    decreases |ss|
  {
    if ss != [] {
      ConcatAvoids(ss[..|ss| - 1], c);
    }
  }

  /** Where the first line of `s` ends: the first newline, or the end of
      the text when it has none. */
  function LineEnd(s: string): (e: nat)
    ensures e <= |s|
    ensures forall j :: 0 <= j < e ==> s[j] != '\n'
    ensures e < |s| ==> s[e] == '\n'
  {
    if s == [] || s[0] == '\n' then 0 else 1 + LineEnd(s[1..])
  }

  /** The lines a reader of the text sees: the pieces between newlines, a
      final newline ending the last line rather than starting an empty one
      (Python's `s.splitlines()` for `\n` line ends). */
  function SplitLines(s: string): seq<string>
    decreases |s|
  {
    if s == [] then []
    else
      var e := LineEnd(s);
      if e == |s| then [s] else [s[..e]] + SplitLines(s[e + 1..])
  }

  /** Peels the first printed line off the front. */
  lemma AppendAssoc(h: string, a: string, b: string, c: string)
    ensures ((h + a) + b) + c == h + ((a + b) + c)
  {
  }

  lemma {:induction false} UnlinesCons(lines: seq<string>)
    requires lines != []
    ensures Unlines(lines) == lines[0] + "\n" + Unlines(lines[1..])
    decreases |lines|
  {
    if |lines| > 1 {
      var init, last, tail := lines[..|lines| - 1], lines[|lines| - 1], lines[1..];
      UnlinesCons(init);
      assert tail[..|tail| - 1] == init[1..] && tail[|tail| - 1] == last;
      var head, rest := init[0] + "\n", Unlines(init[1..]);
      assert Unlines(lines) == ((head + rest) + last) + "\n";
      AppendAssoc(head, rest, last, "\n");
    } else {
      assert lines[1..] == [];
    }
  }

  lemma {:induction false} LineEndOf(line: string, rest: string)
    requires '\n' !in line
    ensures LineEnd(line + "\n" + rest) == |line|
    decreases |line|
  {
    if line != [] {
      assert (line + "\n" + rest)[1..] == line[1..] + "\n" + rest;
      LineEndOf(line[1..], rest);
    }
  }

  /** Printing lines that hold no newline and reading the text back gives
      exactly those lines: one printed line per element, in order. */
  lemma {:induction false} SplitUnlines(lines: seq<string>)
    requires forall i :: 0 <= i < |lines| ==> '\n' !in lines[i]
    ensures SplitLines(Unlines(lines)) == lines
    decreases |lines|
  {
    if lines != [] {
      var text, rest := Unlines(lines), Unlines(lines[1..]);
      UnlinesCons(lines);
      LineEndOf(lines[0], rest);
      assert text[..|lines[0]|] == lines[0];
      assert text[|lines[0]| + 1..] == rest;
      SplitUnlines(lines[1..]);
    }
  }

  /** When each piece holds `c` exactly once, the joined text holds it once
      per piece. */
  lemma {:induction false} ConcatCountEach(ss: seq<string>, c: char)
    requires forall i :: 0 <= i < |ss| ==> Count(ss[i], c) == 1
    ensures Count(Concat(ss), c) == |ss|
    decreases |ss|
  {
    if ss != [] {
      ConcatCountEach(ss[..|ss| - 1], c);
      CountAppend(Concat(ss[..|ss| - 1]), ss[|ss| - 1], c);
    }
  }

  /** A text with `c` absent, then `c`, then text with `c` absent, holds `c`
      exactly once. */
  lemma CountOnce(a: string, c: char, b: string)
    requires c !in a && c !in b
    ensures Count(a + [c] + b, c) == 1
  {
    CountAppend(a + [c], b, c);
    CountAppend(a, [c], c);
    CountAbsent(a, c);
    CountAbsent(b, c);
    assert [c][..0] == [];
  }
}
