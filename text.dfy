/**
 * The handful of Python `str` operations the runner relies on, over strings
 * of Unicode code points: `strip()`, `split(sep)`, `sep.join(parts)`,
 * `split(sep, 1)`, `startswith(prefix)` and `str(n)` for an integer.
 */
module Text {

  /** Python's `str.isspace()` for a single code point: the characters `strip()` removes. */
  predicate IsSpace(c: char)
  {
    || ('\t' <= c <= '\r')               // TAB, LF, VT, FF, CR
    || ('\U{1C}' <= c <= '\U{1F}')        // the four information separators
    || c == ' '
    || c == '\U{85}' || c == '\U{A0}' || c == '\U{1680}'
    || ('\U{2000}' <= c <= '\U{200A}')
    || c == '\U{2028}' || c == '\U{2029}' || c == '\U{202F}' || c == '\U{205F}'
    || c == '\U{3000}'
  }

  /** Every character of `s` is whitespace (the empty string included). */
  predicate IsBlank(s: string)
  {
    forall i :: 0 <= i < |s| ==> IsSpace(s[i])
  }

  /** `s.strip()`: whitespace removed from both ends. */
  function Strip(s: string): (r: string)
    ensures |r| <= |s|
    decreases |s|
  {
    if s != [] && IsSpace(s[0]) then Strip(s[1..])
    else if s != [] && IsSpace(s[|s| - 1]) then Strip(s[..|s| - 1])
    else s
  }

  /**
   * What `strip()` leaves: nothing exactly when the text is blank, and
   * otherwise a string that neither starts nor ends with whitespace.
   */
  lemma {:induction false} StripShape(s: string)
    ensures Strip(s) == [] <==> IsBlank(s)
    ensures Strip(s) == [] || (!IsSpace(Strip(s)[0]) && !IsSpace(Strip(s)[|Strip(s)| - 1]))
    decreases |s|
  {
    if s != [] && IsSpace(s[0]) {
      StripShape(s[1..]);
      assert IsBlank(s) <==> IsBlank(s[1..]) by {
        if IsBlank(s[1..]) {
          forall i | 0 < i < |s| ensures IsSpace(s[i]) { assert s[i] == s[1..][i - 1]; }
        }
      }
    } else if s != [] && IsSpace(s[|s| - 1]) {
      StripShape(s[..|s| - 1]);
      // here s[0] is not whitespace, so neither s nor s without its last character is blank
      assert s[..|s| - 1][0] == s[0];
    }
  }

  /** Leading whitespace makes no difference to `strip()`. */
  lemma {:induction false} StripBlankFront(a: string, t: string)
    requires IsBlank(a)
    ensures Strip(a + t) == Strip(t)
    decreases |a|
  {
    if a != [] {
      var s := a + t;
      assert s[0] == a[0];
      assert s[1..] == a[1..] + t;
      StripBlankFront(a[1..], t);
    } else {
      assert a + t == t;
    }
  }

  /** Trailing whitespace after a string that starts with a non-space makes no difference to `strip()`. */
  lemma {:induction false} StripBlankBack(r: string, b: string)
    requires r != [] && !IsSpace(r[0])
    requires IsBlank(b)
    ensures Strip(r + b) == Strip(r)
    decreases |b|
  {
    if b != [] {
      var s := r + b;
      assert s[0] == r[0] && s[|s| - 1] == b[|b| - 1];
      assert s[..|s| - 1] == r + b[..|b| - 1];
      StripBlankBack(r, b[..|b| - 1]);
    } else {
      assert r + b == r;
    }
  }

  /**
   * `strip()` removes exactly the surrounding whitespace: a string with
   * non-blank ends, padded on both sides with whitespace, strips back to itself.
   */
  lemma StripAround(a: string, r: string, b: string)
    requires IsBlank(a) && IsBlank(b)
    requires r == [] || (!IsSpace(r[0]) && !IsSpace(r[|r| - 1]))
    ensures Strip(a + r + b) == r
  {
    assert a + r + b == a + (r + b);
    StripBlankFront(a, r + b);
    if r == [] {
      assert r + b == b;
      StripShape(b);
    } else {
      StripBlankBack(r, b);
    }
  }

  /** `strip()` is idempotent. */
  lemma StripIdempotent(s: string)
    ensures Strip(Strip(s)) == Strip(s)
  {
    var r := Strip(s);
    StripShape(s);
    assert r == [] + r + [];
    StripAround([], r, []);
  }

  /** `strip()` only removes characters. */
  lemma {:induction false} StripSubset(s: string)
    ensures forall c :: c in Strip(s) ==> c in s
    decreases |s|
  {
    if s != [] && IsSpace(s[0]) {
      StripSubset(s[1..]);
    } else if s != [] && IsSpace(s[|s| - 1]) {
      StripSubset(s[..|s| - 1]);
    }
  }

  /** `s.startswith(p)`. */
  predicate StartsWith(s: string, p: string)
  {
    |p| <= |s| && s[..|p|] == p
  }

  /** The position of the first `c` in `s`. */
  function IndexOf(s: string, c: char): (i: nat)
    requires c in s
    ensures i < |s| && s[i] == c
    ensures c !in s[..i]
  {
    if s[0] == c then 0 else
      var j := IndexOf(s[1..], c);
      assert s[..j + 1] == [s[0]] + s[1..][..j];
      j + 1
  }

  /** `s.split(c, 1)` on a string that contains `c`: the text before and after its first `c`. */
  function Partition(s: string, c: char): (p: (string, string))
    requires c in s
    ensures s == p.0 + [c] + p.1
    ensures c !in p.0
  {
    var i := IndexOf(s, c);
    assert s == s[..i] + [c] + s[i + 1..];
    (s[..i], s[i + 1..])
  }

  /** The text before the first `c` is determined: any split around a `c` with no `c` before it is that one. */
  lemma {:induction false} PartitionUnique(a: string, b: string, c: char)
    requires c !in a
    ensures c in a + [c] + b
    ensures Partition(a + [c] + b, c) == (a, b)
  {
    var s := a + [c] + b;
    assert s[|a|] == c;
    var p := Partition(s, c);
    PrefixesAgree(a, b, p.0, p.1, c);
  }

  lemma {:induction false} PrefixesAgree(a: string, b: string, a': string, b': string, c: char)
    requires c !in a && c !in a'
    requires a + [c] + b == a' + [c] + b'
    ensures a == a' && b == b'
    decreases |a|
  {
    var s := a + [c] + b;
    assert s[0] == if a == [] then c else a[0];
    assert s[0] == if a' == [] then c else a'[0];
    if a == [] && a' == [] {
      assert b == s[1..] == b';
    } else if a != [] && a' != [] {
      assert s[0] == a[0] == a'[0];
      assert a[1..] + [c] + b == s[1..] == a'[1..] + [c] + b';
      PrefixesAgree(a[1..], b, a'[1..], b', c);
      assert a == [a[0]] + a[1..];
      assert a' == [a'[0]] + a'[1..];
    }
  }

  /** `s.split(sep)` for a one-character separator: never an empty list. */
  function Split(s: string, sep: char): (parts: seq<string>)
    ensures |parts| >= 1
    decreases |s|
  {
    if s == [] then [""]
    else
      var rest := Split(s[1..], sep);
      if s[0] == sep then [""] + rest
      else [[s[0]] + rest[0]] + rest[1..]
  }

  /** No part of `s.split(sep)` contains `sep`. */
  lemma {:induction false} SplitSeparatorFree(s: string, sep: char)
    ensures forall i :: 0 <= i < |Split(s, sep)| ==> sep !in Split(s, sep)[i]
    decreases |s|
  {
    if s != [] {
      SplitSeparatorFree(s[1..], sep);
    }
  }

  /** The parts of `s.split(sep)` hold only characters of `s`. */
  lemma {:induction false} SplitChars(s: string, sep: char)
    ensures forall i, x :: 0 <= i < |Split(s, sep)| && x in Split(s, sep)[i] ==> x in s
    decreases |s|
  {
    if s != [] {
      SplitChars(s[1..], sep);
      var rest := Split(s[1..], sep);
      forall i, x | 0 <= i < |Split(s, sep)| && x in Split(s, sep)[i] ensures x in s {
        assert s == [s[0]] + s[1..];
        if s[0] != sep && i == 0 {
          assert Split(s, sep)[0] == [s[0]] + rest[0];
          assert x == s[0] || x in rest[0];
        } else if s[0] != sep {
          assert Split(s, sep)[i] == rest[i];
        } else {
          assert Split(s, sep)[i] == ([""] + rest)[i];
          assert i > 0;
          assert Split(s, sep)[i] == rest[i - 1];
        }
      }
    }
  }

  /** `sep.join(parts)`. */
  function Join(parts: seq<string>, sep: char): string
    decreases |parts|
  {
    if |parts| == 0 then ""
    else if |parts| == 1 then parts[0]
    else parts[0] + [sep] + Join(parts[1..], sep)
  }

  /** Splitting at every separator and joining with it again gives back the text. */
  lemma {:induction false} JoinSplit(s: string, sep: char)
    ensures Join(Split(s, sep), sep) == s
    decreases |s|
  {
    if s != [] {
      var rest := Split(s[1..], sep);
      JoinSplit(s[1..], sep);
      if s[0] == sep {
        assert Split(s, sep)[1..] == rest;
      } else {
        var parts := Split(s, sep);
        if |rest| == 1 {
          assert parts == [[s[0]] + rest[0]];
        } else {
          assert parts[1..] == rest[1..];
          assert Join(rest, sep) == rest[0] + [sep] + Join(rest[1..], sep);
        }
      }
    }
  }

  /** Text joined from separator-free parts splits back into exactly those parts. */
  lemma {:induction false} SplitJoin(parts: seq<string>, sep: char)
    requires |parts| >= 1
    requires forall i :: 0 <= i < |parts| ==> sep !in parts[i]
    ensures Split(Join(parts, sep), sep) == parts
    decreases |parts|
  {
    if |parts| == 1 {
      SplitPlain(parts[0], sep);
    } else {
      SplitJoin(parts[1..], sep);
      SplitPlain(parts[0], sep);
      SplitConcat(parts[0], Join(parts[1..], sep), sep);
      assert [parts[0]] + parts[1..] == parts;
    }
  }

  /** A separator-free string splits into itself alone. */
  lemma {:induction false} SplitPlain(s: string, sep: char)
    requires sep !in s
    ensures Split(s, sep) == [s]
    decreases |s|
  {
    if s != [] {
      SplitPlain(s[1..], sep);
      assert [s[0]] + s[1..] == s;
    }
  }

  /** Splitting text that has a separator between `a` and `b` splits each side. */
  lemma {:induction false} SplitConcat(a: string, b: string, sep: char)
    ensures Split(a + [sep] + b, sep) == Split(a, sep) + Split(b, sep)
    decreases |a|
  {
    var s := a + [sep] + b;
    if a == [] {
      assert s[0] == sep && s[1..] == b;
    } else {
      assert s[0] == a[0] && s[1..] == a[1..] + [sep] + b;
      SplitConcat(a[1..], b, sep);
    }
  }

  /** The decimal digit for `d`. */
  function Digit(d: nat): (c: char)
    requires d < 10
    ensures '0' <= c <= '9'
  {
    (48 + d) as char
  }

  /** The number a run of decimal digits spells, most significant digit first. */
  function DigitsValue(s: string): int
    decreases |s|
  {
    if s == [] then 0 else DigitsValue(s[..|s| - 1]) * 10 + (s[|s| - 1] as int - 48)
  }

  /**
   * `str(n)` for a natural number: the decimal digits that spell `n`, most
   * significant first, with no leading zero except for `0` itself.
   */
  function NatToString(n: nat): (r: string)
    ensures |r| >= 1
    ensures forall i :: 0 <= i < |r| ==> '0' <= r[i] <= '9'
    ensures DigitsValue(r) == n
    ensures r[0] == '0' ==> n == 0 && |r| == 1
  {
    if n < 10 then
      assert [Digit(n)][..0] == [];
      [Digit(n)]
    else
      var prefix := NatToString(n / 10);
      var r := prefix + [Digit(n % 10)];
      assert r[..|r| - 1] == prefix;
      r
  }

  /** `str(n)` for an integer. */
  function IntToString(n: int): string
  {
    if n < 0 then "-" + NatToString(-n) else NatToString(n)
  }

  /** `str(n)` has a minus sign exactly for negative `n`, followed by the digits that spell its magnitude. */
  lemma IntToStringValue(n: int)
    ensures var r := IntToString(n);
      && |r| >= 1
      && (r[0] == '-' <==> n < 0)
      && (n < 0 ==> r[1..] == NatToString(-n) && DigitsValue(r[1..]) == -n)
      && (n >= 0 ==> DigitsValue(r) == n)
  {
    if n < 0 {
      assert ("-" + NatToString(-n))[1..] == NatToString(-n);
    }
  }
}
