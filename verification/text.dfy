/** String helpers with JavaScript meaning: `split` on one character,
    `join`, decimal rendering of integers, ASCII upper-casing, and the
    single-pass `{key}` placeholder substitution used for messages. */
module Text {

  /** `s.split(sep)` for a one-character separator. */
  function Split(s: string, sep: char): (parts: seq<string>)
    ensures |parts| >= 1
    ensures forall i :: 0 <= i < |parts| ==> sep !in parts[i]
    decreases |s|
  {
    if |s| == 0 then [""]
    else if s[0] == sep then [""] + Split(s[1..], sep)
    else
      var rest := Split(s[1..], sep);
      [[s[0]] + rest[0]] + rest[1..]
  }

  /** `parts.join(sep)`. */
  function Join(parts: seq<string>, sep: string): string
  {
    if |parts| == 0 then ""
    else if |parts| == 1 then parts[0]
    else parts[0] + sep + Join(parts[1..], sep)
  }

  lemma {:induction false} JoinSplit(s: string, sep: char)
    ensures Join(Split(s, sep), [sep]) == s
    decreases |s|
  {
    if |s| == 0 {
    } else if s[0] == sep {
      JoinSplit(s[1..], sep);
      var rest := Split(s[1..], sep);
      assert Split(s, sep) == [""] + rest;
      assert Join([""] + rest, [sep]) == "" + [sep] + Join(rest, [sep]);
      assert s == [s[0]] + s[1..];
    } else {
      JoinSplit(s[1..], sep);
      var rest := Split(s[1..], sep);
      assert Split(s, sep) == [[s[0]] + rest[0]] + rest[1..];
      if |rest| == 1 {
        assert Join(rest, [sep]) == rest[0];
      } else {
        assert Join(rest, [sep]) == rest[0] + [sep] + Join(rest[1..], [sep]);
        assert ([[s[0]] + rest[0]] + rest[1..])[1..] == rest[1..];
      }
      assert s == [s[0]] + s[1..];
    }
  }

  lemma SplitWithoutSeparator(s: string, sep: char)
    requires sep !in s
    ensures Split(s, sep) == [s]
    decreases |s|
  {
    if |s| > 0 {
      assert s[0] != sep;
      assert sep !in s[1..];
      SplitWithoutSeparator(s[1..], sep);
      assert [s[0]] + s[1..] == s;
    }
  }

  /** The last element of `s.split(sep)`, i.e. `s.split(sep).pop()`. */
  function LastPart(s: string, sep: char): string
  {
    var parts := Split(s, sep);
    parts[|parts| - 1]
  }

  /** What follows the last separator is the last part. */
  lemma {:induction false} LastPartAfter(a: string, b: string, sep: char)
    requires sep !in b
    ensures |Split(a + [sep] + b, sep)| >= 2
    ensures LastPart(a + [sep] + b, sep) == b
    decreases |a|
  {
    var s := a + [sep] + b;
    if |a| == 0 {
      SplitWithoutSeparator(b, sep);
      assert s[1..] == b;
    } else {
      LastPartAfter(a[1..], b, sep);
      assert s[1..] == a[1..] + [sep] + b;
    }
  }

  /** A string without the separator is its own last part. */
  lemma LastPartWhole(s: string, sep: char)
    requires sep !in s
    ensures LastPart(s, sep) == s
  {
    SplitWithoutSeparator(s, sep);
  }

  function DigitChar(d: nat): char
    requires d < 10
  {
    "0123456789"[d]
  }

  /** Decimal rendering of a natural number (as `String(n)` does). */
  function NatText(n: nat): (t: string)
    ensures |t| >= 1
    ensures forall i :: 0 <= i < |t| ==> '0' <= t[i] <= '9'
    decreases n
  {
    if n < 10 then [DigitChar(n)] else NatText(n / 10) + [DigitChar(n % 10)]
  }

  /** Decimal rendering of an integer. */
  function IntText(i: int): string
  {
    if i < 0 then "-" + NatText(-i) else NatText(i)
  }

  /** The value of a string of decimal digits (the inverse of NatText on
      canonical renderings). */
  function DigitsValue(t: string): nat
    requires forall i :: 0 <= i < |t| ==> '0' <= t[i] <= '9'
  {
    if |t| == 0 then 0
    else DigitsValue(t[..|t| - 1]) * 10 + ((t[|t| - 1] as int) - ('0' as int))
  }

  lemma {:induction false} NatTextValue(n: nat)
    ensures DigitsValue(NatText(n)) == n
    decreases n
  {
    if n >= 10 {
      NatTextValue(n / 10);
      var t := NatText(n);
      var d := n % 10;
      assert t == NatText(n / 10) + [DigitChar(d)];
      assert t[..|t| - 1] == NatText(n / 10);
      DigitCharValue(d);
      assert DigitsValue(t) == (n / 10) * 10 + d;
    }
  }

  lemma DigitCharValue(d: nat)
    requires d < 10
    ensures (DigitChar(d) as int) - ('0' as int) == d
  {
  }

  lemma NatTextInjective(m: nat, n: nat)
    requires NatText(m) == NatText(n)
    ensures m == n
  {
    NatTextValue(m);
    NatTextValue(n);
  }

  predicate StartsWith(s: string, prefix: string) {
    |prefix| <= |s| && s[..|prefix|] == prefix
  }

  /** `s.indexOf(w) >= 0`. */
  predicate Contains(s: string, w: string) {
    exists i :: 0 <= i <= |s| && StartsWith(s[i..], w)
  }

  function UpperChar(c: char): char {
    if 'a' <= c <= 'z' then (c as int - 32) as char else c
  }

  function LowerChar(c: char): char {
    if 'A' <= c <= 'Z' then (c as int + 32) as char else c
  }

  /** Position of the first `c` in `s` (`s.indexOf(c)` when it is found). */
  function IndexOfChar(s: string, c: char): (k: nat)
    requires c in s
    ensures k < |s| && s[k] == c && c !in s[..k]
  {
    if s[0] == c then 0
    else
      var k := IndexOfChar(s[1..], c);
      assert s[..k + 1] == [s[0]] + s[1..][..k];
      k + 1
  }

  /** `s.replace(a, b)` with a one-character pattern: only the first
      occurrence is replaced. */
  function ReplaceFirst(s: string, a: char, b: char): (r: string)
    ensures a !in s ==> r == s
    ensures a in s ==> r == s[..IndexOfChar(s, a)] + [b] + s[IndexOfChar(s, a) + 1..]
  {
    if a in s then
      var k := IndexOfChar(s, a);
      s[..k] + [b] + s[k + 1..]
    else s
  }

  /** Single-pass substitution of every `{key}` in `template` by `value`;
      text produced by a substitution is not scanned again. */
  function Format(template: string, key: string, value: string): string
    decreases |template|
  {
    var ph := "{" + key + "}";
    if |template| == 0 then ""
    else if StartsWith(template, ph) then value + Format(template[|ph|..], key, value)
    else [template[0]] + Format(template[1..], key, value)
  }

  lemma {:induction false} FormatWithoutBrace(template: string, key: string, value: string)
    requires '{' !in template
    ensures Format(template, key, value) == template
    decreases |template|
  {
    if |template| > 0 {
      assert template[0] != '{';
      assert template[1..] == template[1..];
      assert '{' !in template[1..];
      FormatWithoutBrace(template[1..], key, value);
    }
  }

  lemma FormatLeadingPlaceholder(key: string, value: string, rest: string)
    ensures Format("{" + key + "}" + rest, key, value) == value + Format(rest, key, value)
  {
    var ph := "{" + key + "}";
    var t := ph + rest;
    assert t[..|ph|] == ph;
    assert t[|ph|..] == rest;
  }

  /** Text without an opening brace passes through a substitution untouched,
      whatever follows it. */
  lemma {:induction false} FormatAppend(x: string, y: string, key: string, value: string)
    requires '{' !in x
    ensures Format(x + y, key, value) == x + Format(y, key, value)
    decreases |x|
  {
    if |x| > 0 {
      var t := x + y;
      assert t[0] == x[0] && x[0] != '{';
      assert !StartsWith(t, "{" + key + "}");
      assert t[1..] == x[1..] + y;
      assert '{' !in x[1..];
      FormatAppend(x[1..], y, key, value);
      assert Format(t, key, value) == [x[0]] + Format(x[1..] + y, key, value);
      assert x == [x[0]] + x[1..];
    } else {
      assert x + y == y;
    }
  }

  /** A placeholder for another key, free of braces, is left in place. */
  lemma FormatOtherPlaceholder(other: string, y: string, key: string, value: string)
    requires '{' !in other && '}' !in other && '}' !in key && other != key
    ensures Format("{" + other + "}" + y, key, value) == "{" + other + "}" + Format(y, key, value)
  {
    var ph := "{" + key + "}";
    var t := "{" + other + "}" + y;
    OtherPlaceholderDiffers(other, key, y);
    assert t[1..] == other + ("}" + y);
    FormatAppend(other + "}", y, key, value);
    assert other + ("}" + y) == (other + "}") + y;
    assert '{' !in other + "}";
  }

  lemma OtherPlaceholderDiffers(other: string, key: string, y: string)
    requires '}' !in other && '}' !in key && other != key
    ensures !StartsWith("{" + other + "}" + y, "{" + key + "}")
  {
    var ph := "{" + key + "}";
    var t := "{" + other + "}" + y;
    if |other| < |key| {
      var i := |other| + 1;
      assert t[i] == '}' && ph[i] == key[i - 1] && ph[i] != t[i];
      assert |ph| > |t| || t[..|ph|][i] != ph[i];
    } else if |other| > |key| {
      var i := |key| + 1;
      assert ph[i] == '}' && t[i] == other[i - 1] && ph[i] != t[i];
      assert |ph| <= |t| && t[..|ph|][i] != ph[i];
    } else {
      assert t[1..|other| + 1] == other && ph[1..|key| + 1] == key;
      assert |ph| <= |t| && t[..|ph|][1..|key| + 1] != ph[1..|key| + 1];
    }
  }

  /** `{other}` + middle + `{key}` + tail, with only the second placeholder
      substituted. */
  lemma FormatSecondPlaceholder(other: string, middle: string, key: string, tail: string, value: string)
    requires '{' !in other && '}' !in other && '}' !in key && other != key
    requires '{' !in middle && '{' !in tail
    ensures Format("{" + other + "}" + (middle + ("{" + key + "}" + tail)), key, value)
         == "{" + other + "}" + (middle + (value + tail))
  {
    var rest := "{" + key + "}" + tail;
    FormatOtherPlaceholder(other, middle + rest, key, value);
    FormatAppend(middle, rest, key, value);
    FormatLeadingPlaceholder(key, value, tail);
    FormatWithoutBrace(tail, key, value);
  }
}
