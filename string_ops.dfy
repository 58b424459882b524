/**
 * The few Python string builtins the core relies on, written out:
 *  - `str(n)` for a non-negative int (decimal digits, no sign, no leading zeros),
 *    with `int(s)` on digit strings as its inverse;
 *  - `s.split(sep)` for a one-character separator, with `sep.join(parts)` as its inverse;
 *  - Python 2 `str.lower()` on byte strings, which only maps the ASCII letters A-Z.
 */
module StringOps {

  predicate IsDigit(c: char) {
    '0' <= c <= '9'
  }

  predicate AllDigits(s: string) {
    forall i :: 0 <= i < |s| ==> IsDigit(s[i])
  }

  function DigitChar(d: nat): (c: char)
    requires d < 10
    ensures IsDigit(c)
    ensures c as int - '0' as int == d
  {
    ('0' as int + d) as char
  }

  /** Python's `str(n)` for n >= 0. */
  function NatToString(n: nat): (s: string)
    ensures |s| >= 1 && AllDigits(s)
    ensures |s| == 1 <==> n < 10
    ensures s[0] == '0' <==> n == 0
  {
    if n < 10 then [DigitChar(n)] else NatToString(n / 10) + [DigitChar(n % 10)]
  }

  /** Python's `int(s)` on a string of decimal digits. */
  function DigitsValue(s: string): nat
    requires AllDigits(s)
  {
    if s == [] then 0 else DigitsValue(s[..|s| - 1]) * 10 + (s[|s| - 1] as int - '0' as int)
  }

  /** `int(str(n)) == n`. */
  lemma {:induction false} DigitsValueOfNatToString(n: nat)
    ensures DigitsValue(NatToString(n)) == n
  {
    var s := NatToString(n);
    if n >= 10 {
      assert s[..|s| - 1] == NatToString(n / 10);
      DigitsValueOfNatToString(n / 10);
    }
  }

  /** Distinct numbers print differently. */
  lemma NatToStringInjective(a: nat, b: nat)
    ensures NatToString(a) == NatToString(b) ==> a == b
  {
    DigitsValueOfNatToString(a);
    DigitsValueOfNatToString(b);
  }

  /** `prefix + str(a) == prefix + str(b)` only when a == b. */
  lemma SuffixedInjective(prefix: string, a: nat, b: nat)
    ensures prefix + NatToString(a) == prefix + NatToString(b) ==> a == b
  {
    if prefix + NatToString(a) == prefix + NatToString(b) {
      assert NatToString(a) == (prefix + NatToString(a))[|prefix|..];
      assert NatToString(b) == (prefix + NatToString(b))[|prefix|..];
      NatToStringInjective(a, b);
    }
  }

  /** The `n` consecutive characters starting at `lo`. */
  function CharRange(lo: char, n: nat): (r: string)
    requires lo as int + n <= 0xD800
    ensures |r| == n
    ensures forall i :: 0 <= i < n ==> r[i] as int == lo as int + i
  {
    seq(n, i requires 0 <= i < n => (lo as int + i) as char)
  }

  lemma InCharRange(lo: char, n: nat, c: char)
    requires lo as int + n <= 0xD800
    ensures c in CharRange(lo, n) <==> lo <= c && (c as int) < lo as int + n
  {
    var r := CharRange(lo, n);
    if lo <= c && (c as int) < lo as int + n {
      assert r[c as int - lo as int] == c;
    }
  }

  /** Python 2 `str.lower()` on one byte: only 'A'..'Z' change. */
  function LowerChar(c: char): (r: char)
    ensures 'A' <= c <= 'Z' ==> 'a' <= r <= 'z' && r as int - 'a' as int == c as int - 'A' as int
    ensures !('A' <= c <= 'Z') ==> r == c
  {
    if 'A' <= c <= 'Z' then (c as int - 'A' as int + 'a' as int) as char else c
  }

  function Lower(s: string): (r: string)
    ensures |r| == |s|
    ensures forall i :: 0 <= i < |s| ==> r[i] == LowerChar(s[i])
  {
    seq(|s|, i requires 0 <= i < |s| => LowerChar(s[i]))
  }

  /** Python's `s.split(sep)`: the maximal runs between occurrences of `sep`. */
  function Split(s: string, sep: char): (parts: seq<string>)
    ensures |parts| >= 1
    ensures forall i :: 0 <= i < |parts| ==> sep !in parts[i]
  {
    if s == [] then [""]
    else
      var rest := Split(s[1..], sep);
      if s[0] == sep then [""] + rest else [[s[0]] + rest[0]] + rest[1..]
  }

  /** Python's `sep.join(parts)`. */
  function Join(parts: seq<string>, sep: char): string
  {
    if parts == [] then ""
    else if |parts| == 1 then parts[0]
    else parts[0] + [sep] + Join(parts[1..], sep)
  }

  /** Splitting and joining back gives the original string. */
  lemma {:induction false} JoinSplit(s: string, sep: char)
    ensures Join(Split(s, sep), sep) == s
  {
    if s != [] {
      var rest := Split(s[1..], sep);
      JoinSplit(s[1..], sep);
      if s[0] == sep {
        assert Split(s, sep) == [""] + rest;
        assert Join([""] + rest, sep) == "" + [sep] + Join(rest, sep);
      } else {
        var parts := [[s[0]] + rest[0]] + rest[1..];
        if |rest| == 1 {
          assert parts == [[s[0]] + rest[0]];
        } else {
          assert parts[1..] == rest[1..];
          assert Join(rest, sep) == rest[0] + [sep] + Join(rest[1..], sep);
        }
      }
    }
  }

  /** Joining puts the last part at the very end, right after a separator when there are several. */
  lemma {:induction false} JoinEndsWithLast(parts: seq<string>, sep: char)
    requires |parts| >= 1
    ensures var j, t := Join(parts, sep), parts[|parts| - 1];
      |t| <= |j| && j[|j| - |t|..] == t &&
      (|parts| >= 2 ==> |t| < |j| && j[|j| - |t| - 1] == sep)
  {
    if |parts| >= 2 {
      var j, t := Join(parts, sep), parts[|parts| - 1];
      var tail := Join(parts[1..], sep);
      JoinEndsWithLast(parts[1..], sep);
      assert parts[1..][|parts[1..]| - 1] == t;
      assert j == (parts[0] + [sep]) + tail;
      assert j[|j| - |tail|..] == tail;
      if |parts| == 2 {
        assert tail == t;
      }
    }
  }

  /**
   * Python's `s.split(".")[-1]`. What it means: a dot-free suffix of `s` that is either all
   * of `s` (when `s` has no dot) or preceded by a dot.
   */
  function LastSegment(s: string): (t: string)
    ensures '.' !in t && |t| <= |s| && s[|s| - |t|..] == t
    ensures '.' in s ==> |t| < |s| && s[|s| - |t| - 1] == '.'
    ensures '.' !in s ==> t == s
  {
    var parts := Split(s, '.');
    JoinSplit(s, '.');
    JoinEndsWithLast(parts, '.');
    assert |parts| == 1 ==> Join(parts, '.') == parts[0];
    parts[|parts| - 1]
  }

  /** When `a` has no dot and `b` has none either, `(a + "." + b).split(".") == [a, b]`. */
  lemma {:induction false} SplitOfDotted(a: string, b: string)
    requires '.' !in a && '.' !in b
    ensures Split(a + "." + b, '.') == [a, b]
  {
    if a == [] {
      assert a + "." + b == ['.'] + b;
      assert (a + "." + b)[1..] == b;
      SplitOfDotFree(b);
    } else {
      assert (a + "." + b)[1..] == a[1..] + "." + b;
      SplitOfDotted(a[1..], b);
      assert [a[0]] + a[1..] == a;
    }
  }

  /** A string without the separator splits into itself. */
  lemma {:induction false} SplitOfDotFree(s: string)
    requires '.' !in s
    ensures Split(s, '.') == [s]
  {
    if s != [] {
      assert '.' !in s[1..];
      SplitOfDotFree(s[1..]);
      assert [s[0]] + s[1..] == s;
    }
  }
}
