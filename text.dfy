/**
 * Character-level string helpers used by the screens: lower-casing, substring search,
 * the blank test behind `trim()`, joining and the decimal rendering of numbers.
 * Only ASCII letters are case-folded and only ASCII white space is trimmed.
 */
module Text {

  function LowerChar(c: char): char
  {
    if 'A' <= c <= 'Z' then (c as int + 32) as char else c
  }

  /** `toLowerCase()` on ASCII text. */
  function Lower(s: string): (r: string)
    ensures |r| == |s|
    ensures forall i :: 0 <= i < |s| ==> r[i] == LowerChar(s[i])
    ensures forall i :: 0 <= i < |r| ==> !('A' <= r[i] <= 'Z')
  {
    if s == [] then [] else [LowerChar(s[0])] + Lower(s[1..])
  }

  /** Text without upper-case letters is its own lower-case form. */
  lemma LowerKeepsLower(s: string)
    requires forall c :: c in s ==> !('A' <= c <= 'Z')
    ensures Lower(s) == s
  {
    forall i | 0 <= i < |s|
      ensures Lower(s)[i] == s[i]
    {
      assert s[i] in s;
    }
  }

  /** Lower-casing works piecewise over a concatenation. */
  lemma {:induction false} LowerAppend(a: string, b: string)
    ensures Lower(a + b) == Lower(a) + Lower(b)
  {
    if a == [] {
      assert a + b == b;
    } else {
      assert (a + b)[1..] == a[1..] + b;
      LowerAppend(a[1..], b);
    }
  }

  predicate StartsWith(s: string, prefix: string)
  {
    |prefix| <= |s| && s[..|prefix|] == prefix
  }

  /** `s.includes(sub)`. */
  predicate Contains(s: string, sub: string)
  {
    StartsWith(s, sub) || (s != [] && Contains(s[1..], sub))
  }

  /** `sub` occurs in `s` starting at position `k`. */
  predicate OccursAt(s: string, sub: string, k: int)
  {
    0 <= k <= |s| - |sub| && s[k..k + |sub|] == sub
  }

  /** `includes` finds `sub` exactly when it occurs at some position of `s`. */
  lemma {:induction false} ContainsAt(s: string, sub: string)
    ensures Contains(s, sub) <==> exists k :: OccursAt(s, sub, k)
  {
    if StartsWith(s, sub) {
      assert OccursAt(s, sub, 0);
    }
    if s != [] {
      ContainsAt(s[1..], sub);
      if Contains(s[1..], sub) {
        var k :| OccursAt(s[1..], sub, k);
        assert OccursAt(s, sub, k + 1);
      }
      if exists k :: OccursAt(s, sub, k) {
        var k :| OccursAt(s, sub, k);
        if k > 0 {
          assert OccursAt(s[1..], sub, k - 1);
        }
      }
    }
  }

  /** The white space `String.prototype.trim` strips (ASCII part). */
  predicate IsSpace(c: char)
  {
    c == ' ' || c == '\t' || c == '\n' || c == '\r' || c == '\U{C}' || c == '\U{B}'
  }

  /** `!s.trim()`: the string is empty once surrounding white space is removed. */
  predicate IsBlank(s: string)
  {
    forall i :: 0 <= i < |s| ==> IsSpace(s[i])
  }

  /** The characters PHP's `trim` strips by default: space, tab, line feed, carriage return, NUL and vertical tab. */
  predicate IsPhpSpace(c: char)
  {
    c == ' ' || c == '\t' || c == '\n' || c == '\r' || c == '\0' || c == '\U{B}'
  }

  /** `trim($s) === ''`: what Laravel's `required` rule rejects in a string. */
  predicate IsPhpBlank(s: string)
  {
    forall i :: 0 <= i < |s| ==> IsPhpSpace(s[i])
  }

  /** `parts.join(sep)`. */
  function Join(parts: seq<string>, sep: string): string
  {
    if parts == [] then ""
    else if |parts| == 1 then parts[0]
    else parts[0] + sep + Join(parts[1..], sep)
  }

  /** Occurrences of `c` in `s`. */
  function CountChar(s: string, c: char): nat
  {
    if s == [] then 0 else (if s[0] == c then 1 else 0) + CountChar(s[1..], c)
  }

  lemma {:induction false} CountCharAppend(a: string, b: string, c: char)
    ensures CountChar(a + b, c) == CountChar(a, c) + CountChar(b, c)
  {
    if a == [] {
      assert a + b == b;
    } else {
      assert (a + b)[1..] == a[1..] + b;
      CountCharAppend(a[1..], b, c);
    }
  }

  /** Joining lines free of `'\n'` with `"\n"` yields one line break fewer than lines. */
  lemma {:induction false} JoinLineBreaks(lines: seq<string>)
    requires |lines| > 0
    requires forall i :: 0 <= i < |lines| ==> CountChar(lines[i], '\n') == 0
    ensures CountChar(Join(lines, "\n"), '\n') == |lines| - 1
  {
    if |lines| > 1 {
      JoinLineBreaks(lines[1..]);
      CountCharAppend(lines[0] + "\n", Join(lines[1..], "\n"), '\n');
      CountCharAppend(lines[0], "\n", '\n');
      assert CountChar("\n", '\n') == 1;
    }
  }

  /** A string without `c` counts no `c`. */
  lemma {:induction false} CountCharZero(s: string, c: char)
    requires c !in s
    ensures CountChar(s, c) == 0
  {
    if s != [] {
      assert s[1..] <= s[1..] && forall x :: x in s[1..] ==> x in s;
      CountCharZero(s[1..], c);
    }
  }

  /** Joining pieces that lack a character, with a separator that lacks it, never introduces it. */
  lemma {:induction false} JoinWithout(parts: seq<string>, sep: string, c: char)
    requires CountChar(sep, c) == 0
    requires forall i :: 0 <= i < |parts| ==> CountChar(parts[i], c) == 0
    ensures CountChar(Join(parts, sep), c) == 0
  {
    if |parts| > 1 {
      JoinWithout(parts[1..], sep, c);
      CountCharAppend(parts[0] + sep, Join(parts[1..], sep), c);
      CountCharAppend(parts[0], sep, c);
    }
  }

  function DigitChar(d: nat): char
    requires d < 10
  {
    "0123456789"[d]
  }

  /** Decimal rendering of a natural number without leading zeros. */
  function NatToString(n: nat): (r: string)
    ensures |r| > 0
    ensures forall i :: 0 <= i < |r| ==> '0' <= r[i] <= '9'
    ensures CountChar(r, '\n') == 0
  {
    var last := DigitChar(n % 10);
    var r := if n < 10 then [last] else NatToString(n / 10) + [last];
    NoBreakInDigits(r);
    r
  }

  lemma {:induction false} NoBreakInDigits(s: string)
    requires forall i :: 0 <= i < |s| ==> '0' <= s[i] <= '9'
    ensures CountChar(s, '\n') == 0
  {
    if s != [] {
      NoBreakInDigits(s[1..]);
    }
  }

  /** `String(n)` for an integer. */
  function IntToString(n: int): (r: string)
    ensures CountChar(r, '\n') == 0
  {
    if n < 0 then
      CountCharAppend("-", NatToString(-n), '\n');
      "-" + NatToString(-n)
    else NatToString(n)
  }
}
