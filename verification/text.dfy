/** Text primitives of the Python runtime that the record format relies on:
    `str.strip()`, `str.split(sep)`, `str.replace(c, "")`, `int(text)` and
    `str(n)` for integers, stated over `string` (a `seq<char>`). */
module Text {

  datatype Option<T> = None | Some(value: T)

  /** The characters Python's `str.isspace()` (and so `str.strip()`) treats as
      whitespace: ASCII tab to carriage return, the four information
      separators, space, NEL, no-break space and the Unicode space separators. */
  predicate IsSpace(c: char)
  {
    || ('\t' <= c <= '\r')
    || ('\U{001C}' <= c <= '\U{001F}')
    || c == ' '
    || c == '\U{0085}'
    || c == '\U{00A0}'
    || c == '\U{1680}'
    || ('\U{2000}' <= c <= '\U{200A}')
    || c == '\U{2028}'
    || c == '\U{2029}'
    || c == '\U{202F}'
    || c == '\U{205F}'
    || c == '\U{3000}'
  }

  predicate IsDigit(c: char)
  {
    '0' <= c <= '9'
  }

  /** The whitespace CPython's `int()` skips around a numeral. Code points
      from 127 up that `str.isspace()` accepts are first turned into a
      space; below 127 only tab to carriage return and space are skipped,
      so the four information separators U+001C to U+001F are not. */
  predicate IsIntSpace(c: char)
  {
    IsSpace(c) && !('\U{001C}' <= c <= '\U{001F}')
  }

  /** The two whitespace sets the program meets: that of `str.strip()` and
      that of `int()`. */
  datatype Spaces = StrSpaces | IntSpaces

  predicate IsBlank(c: char, w: Spaces)
  {
    if w == StrSpaces then IsSpace(c) else IsIntSpace(c)
  }

  /** Removes leading whitespace of set `w`; what it promises is `TrimLeftSuffix`. */
  function TrimLeft(s: string, w: Spaces): string
  {
    if s != [] && IsBlank(s[0], w) then TrimLeft(s[1..], w) else s
  }

  /** The result of `TrimLeft` is the suffix of `s` left after the longest
      prefix of whitespace. */
  lemma {:induction false} TrimLeftSuffix(s: string, w: Spaces)
    ensures var r := TrimLeft(s, w);
      && |r| <= |s| && r == s[|s| - |r|..]
      && (forall i :: 0 <= i < |s| - |r| ==> IsBlank(s[i], w))
      && (r == [] || !IsBlank(r[0], w))
  {
    if s != [] && IsBlank(s[0], w) {
      var t := s[1..];
      TrimLeftSuffix(t, w);
      var r := TrimLeft(t, w);
      assert TrimLeft(s, w) == r;
      assert t[|t| - |r|..] == s[|s| - |r|..];
      forall i | 0 <= i < |s| - |r|
        ensures IsBlank(s[i], w)
      {
        if i > 0 {
          assert s[i] == t[i - 1];
        }
      }
    }
  }

  /** Removes trailing whitespace of set `w`; what it promises is `TrimRightPrefix`. */
  function TrimRight(s: string, w: Spaces): string
  {
    if s != [] && IsBlank(s[|s| - 1], w) then TrimRight(s[..|s| - 1], w) else s
  }

  /** The result of `TrimRight` is the prefix of `s` left before the longest
      suffix of whitespace. */
  lemma {:induction false} TrimRightPrefix(s: string, w: Spaces)
    ensures var r := TrimRight(s, w);
      && |r| <= |s| && r == s[..|r|]
      && (forall i :: |r| <= i < |s| ==> IsBlank(s[i], w))
      && (r == [] || !IsBlank(r[|r| - 1], w))
  {
    if s != [] && IsBlank(s[|s| - 1], w) {
      var t := s[..|s| - 1];
      TrimRightPrefix(t, w);
      var r := TrimRight(t, w);
      assert TrimRight(s, w) == r;
      assert t[..|r|] == s[..|r|];
      forall i | |r| <= i < |s|
        ensures IsBlank(s[i], w)
      {
        if i < |s| - 1 {
          assert s[i] == t[i];
        }
      }
    }
  }

  /** Python's `s.strip()`: the result starts and ends with a
      non-whitespace character unless it is empty. */
  function Strip(s: string): (r: string)
    ensures |r| <= |s|
    ensures r == [] || (!IsSpace(r[0]) && !IsSpace(r[|r| - 1]))
  {
    TrimLeftSuffix(s, StrSpaces);
    TrimRightPrefix(TrimLeft(s, StrSpaces), StrSpaces);
    var l := TrimLeft(s, StrSpaces);
    var r := TrimRight(l, StrSpaces);
    assert r != [] ==> r[0] == l[0];
    r
  }

  /** `s.strip()` is empty exactly when `s` is blank. */
  lemma StripEmptyIffBlank(s: string)
    ensures Strip(s) == [] <==> forall i :: 0 <= i < |s| ==> IsSpace(s[i])
  {
    TrimLeftSuffix(s, StrSpaces);
    TrimRightPrefix(TrimLeft(s, StrSpaces), StrSpaces);
  }

  /** `strip()` only removes characters. */
  lemma StripChars(s: string)
    ensures forall c :: c in Strip(s) ==> c in s
  {
    TrimLeftSuffix(s, StrSpaces);
    TrimRightPrefix(TrimLeft(s, StrSpaces), StrSpaces);
    var l := TrimLeft(s, StrSpaces);
    var r := TrimRight(l, StrSpaces);
    forall c | c in r
      ensures c in s
    {
      var i :| 0 <= i < |r| && r[i] == c;
      assert l[i] == c;
      assert s[|s| - |l| + i] == c;
    }
  }

  /** A string with no whitespace at either end is left alone by `strip()`. */
  lemma StripUnchanged(s: string)
    requires s == [] || (!IsSpace(s[0]) && !IsSpace(s[|s| - 1]))
    ensures Strip(s) == s
  {
    if s != [] {
      assert TrimLeft(s, StrSpaces) == s;
      assert TrimRight(s, StrSpaces) == s;
    }
  }

  /** Joins `parts` with `sep` between consecutive parts: Python's `sep.join(parts)`. */
  function Join(parts: seq<string>, sep: char): string
  {
    if parts == [] then []
    else if |parts| == 1 then parts[0]
    else parts[0] + [sep] + Join(parts[1..], sep)
  }

  /** Python's `s.split(sep)` for a one-character separator; what it
      promises is `SplitParts`. */
  function Split(s: string, sep: char): seq<string>
  {
    if s == [] then [[]]
    else
      var rest := Split(s[1..], sep);
      if s[0] == sep then [[]] + rest
      else [[s[0]] + (if rest == [] then [] else rest[0])] + (if rest == [] then [] else rest[1..])
  }

  /** There is always at least one part, no part contains the separator,
      and joining the parts back with the separator gives `s` again. */
  lemma {:induction false} SplitParts(s: string, sep: char)
    ensures |Split(s, sep)| >= 1
    ensures forall i :: 0 <= i < |Split(s, sep)| ==> sep !in Split(s, sep)[i]
    ensures Join(Split(s, sep), sep) == s
  {
    if s != [] {
      var rest := Split(s[1..], sep);
      SplitParts(s[1..], sep);
      var parts := Split(s, sep);
      if s[0] == sep {
        assert s == [sep] + s[1..];
        assert parts[1..] == rest;
      } else {
        assert parts[1..] == rest[1..];
        assert s == [s[0]] + s[1..];
      }
    }
  }

  /** Every character of every part is a character of `s`. */
  lemma {:induction false} SplitChars(s: string, sep: char)
    ensures forall i, c :: 0 <= i < |Split(s, sep)| && c in Split(s, sep)[i] ==> c in s
  {
    if s != [] {
      SplitChars(s[1..], sep);
      SplitParts(s[1..], sep);
      var rest := Split(s[1..], sep);
      var parts := Split(s, sep);
      forall i, c | 0 <= i < |parts| && c in parts[i]
        ensures c in s
      {
        if s[0] == sep {
          assert parts[i] == ([[]] + rest)[i];
          if i > 0 {
            assert parts[i] == rest[i - 1];
            assert c in s[1..];
          }
        } else if i == 0 {
          assert parts[0] == [s[0]] + rest[0];
          if c != s[0] {
            assert c in rest[0];
            assert c in s[1..];
          }
        } else {
          assert parts[i] == rest[i];
          assert c in s[1..];
        }
      }
    }
  }

  /** The first part is the beginning of `s`. */
  lemma {:induction false} SplitFirstPrefix(s: string, sep: char)
    ensures |Split(s, sep)| >= 1
    ensures |Split(s, sep)[0]| <= |s| && Split(s, sep)[0] == s[..|Split(s, sep)[0]|]
  {
    SplitParts(s, sep);
    if s != [] && s[0] != sep {
      SplitFirstPrefix(s[1..], sep);
      var first := Split(s[1..], sep)[0];
      assert Split(s, sep)[0] == [s[0]] + first;
      assert s[..1 + |first|] == [s[0]] + s[1..][..|first|];
    }
  }

  /** Splitting a string whose first field is `a` peels `a` off. */
  lemma {:induction false} SplitField(a: string, sep: char, t: string)
    requires sep !in a
    ensures Split(a + [sep] + t, sep) == [a] + Split(t, sep)
  {
    var s := a + [sep] + t;
    if a == [] {
      assert s[1..] == t;
    } else {
      assert s[1..] == a[1..] + [sep] + t;
      SplitField(a[1..], sep, t);
      assert [a[0]] + a[1..] == a;
    }
  }

  /** A string without the separator splits into itself alone. */
  lemma {:induction false} SplitNoSeparator(d: string, sep: char)
    requires sep !in d
    ensures Split(d, sep) == [d]
  {
    if d != [] {
      SplitNoSeparator(d[1..], sep);
      assert [d[0]] + d[1..] == d;
    }
  }

  /** Four fields joined by the separator split back into those fields. */
  lemma SplitFour(f0: string, f1: string, f2: string, f3: string, sep: char)
    requires sep !in f0 && sep !in f1 && sep !in f2 && sep !in f3
    ensures Split(f0 + [sep] + (f1 + [sep] + (f2 + [sep] + f3)), sep) == [f0, f1, f2, f3]
  {
    var s2 := f2 + [sep] + f3;
    var s1 := f1 + [sep] + s2;
    SplitNoSeparator(f3, sep);
    SplitField(f2, sep, f3);
    SplitField(f1, sep, s2);
    SplitField(f0, sep, s1);
  }

  /** Joining four parts puts the separator between each neighbouring pair. */
  lemma JoinFour(parts: seq<string>, sep: char)
    requires |parts| == 4
    ensures Join(parts, sep) == parts[0] + [sep] + (parts[1] + [sep] + (parts[2] + [sep] + parts[3]))
  {
    var p1, p2, p3 := parts[1..], parts[2..], parts[3..];
    assert p1[1..] == p2 && p2[1..] == p3 && p3 == [parts[3]];
    assert Join(p3, sep) == parts[3];
    assert Join(p2, sep) == parts[2] + [sep] + parts[3];
    assert Join(p1, sep) == parts[1] + [sep] + (parts[2] + [sep] + parts[3]);
  }

  /** Python's `s.replace(c, "")` for a one-character `c`: the subsequence of
      `s` of the characters other than `c`. */
  function Remove(s: string, c: char): (r: string)
    ensures |r| <= |s|
    ensures c !in r
    ensures forall x :: x != c ==> multiset(r)[x] == multiset(s)[x]
  {
    if s == [] then []
    else
      assert s == [s[0]] + s[1..];
      if s[0] == c then Remove(s[1..], c) else [s[0]] + Remove(s[1..], c)
  }

  /** Removing a character distributes over concatenation. */
  lemma {:induction false} RemoveConcat(a: string, b: string, c: char)
    ensures Remove(a + b, c) == Remove(a, c) + Remove(b, c)
  {
    if a != [] {
      assert (a + b)[1..] == a[1..] + b;
      RemoveConcat(a[1..], b, c);
    } else {
      assert a + b == b;
    }
  }

  /** The value of a non-empty string of ASCII digits read as a decimal numeral. */
  function DigitsValue(s: string): nat
    requires forall i :: 0 <= i < |s| ==> IsDigit(s[i])
  {
    if s == [] then 0
    else
      assert IsDigit(s[|s| - 1]);
      DigitsValue(s[..|s| - 1]) * 10 + (s[|s| - 1] as int - '0' as int)
  }

  /** A string of ASCII digits as a natural number; `None` when it is empty
      or holds anything else. */
  function ParseDigits(s: string): Option<nat>
  {
    if s != [] && forall i :: 0 <= i < |s| ==> IsDigit(s[i]) then Some(DigitsValue(s)) else None
  }

  /** The text `int()` reads its numeral from: the text without the
      whitespace `int()` skips at either end. */
  function IntText(text: string): (r: string)
    ensures |r| <= |text|
    ensures r == [] || (!IsIntSpace(r[0]) && !IsIntSpace(r[|r| - 1]))
  {
    TrimLeftSuffix(text, IntSpaces);
    TrimRightPrefix(TrimLeft(text, IntSpaces), IntSpaces);
    var l := TrimLeft(text, IntSpaces);
    var r := TrimRight(l, IntSpaces);
    assert r != [] ==> r[0] == l[0];
    r
  }

  /** Python's `int(text)` on a string: whitespace around the numeral is
      ignored and an optional `+` or `-` sign comes before the digits. */
  function ParseInt(text: string): (r: Option<int>)
    ensures r.Some? ==> IntText(text) != []
  {
    var t := IntText(text);
    if t != [] && t[0] == '-' then
      match ParseDigits(t[1..])
      case Some(n) => Some(-(n as int))
      case None => None
    else if t != [] && t[0] == '+' then
      match ParseDigits(t[1..])
      case Some(n) => Some(n)
      case None => None
    else
      match ParseDigits(t)
      case Some(n) => Some(n)
      case None => None
  }

  /** What `int()` accepts and what it gives: exactly the texts whose
      numeral is an optional sign followed by ASCII digits, with the value
      of the digits as magnitude and the sign of the numeral. */
  lemma ParseIntAccepts(text: string, n: int)
    ensures ParseInt(text) == Some(n) <==>
      var t := IntText(text);
      && t != []
      && (t[0] == '-' || t[0] == '+' || IsDigit(t[0]))
      && var d := if IsDigit(t[0]) then t else t[1..];
         && ParseDigits(d) == Some(if n < 0 then -n else n)
         && (n < 0 ==> t[0] == '-')
         && (t[0] == '-' ==> n <= 0)
  {
  }

  /** `int()` does not skip an information separator, although `strip()`
      removes it, even when the text also holds non-ASCII whitespace, which
      `int()` does skip. */
  lemma IntWhitespaceExamples(a: string, b: string, c: string)
    requires a == "\U{001C}5" && b == "\U{001C}5\U{00A0}" && c == "\U{00A0}5\t"
    ensures Strip(a) == "5"
    ensures ParseInt(a) == None
    ensures ParseInt(b) == None
    ensures ParseInt(c) == Some(5)
  {
    assert TrimLeft(a, StrSpaces) == "5";
    assert TrimLeft(a, IntSpaces) == a;
    assert TrimRight(a, IntSpaces) == a;
    assert TrimLeft(b, IntSpaces) == b;
    assert TrimRight(b, IntSpaces) == b[..2];
    assert TrimLeft(c, IntSpaces) == c[1..];
    assert TrimRight(c[1..], IntSpaces) == "5";
    assert "5"[..0] == [];
    assert DigitsValue("5") == 5;
  }

  /** The decimal numeral of a natural number, without leading zeros. */
  function NatToString(n: nat): (r: string)
    ensures r != []
    ensures forall i :: 0 <= i < |r| ==> IsDigit(r[i])
    ensures |r| > 1 ==> r[0] != '0'
  {
    if n < 10 then ["0123456789"[n]]
    else NatToString(n / 10) + ["0123456789"[n % 10]]
  }

  /** Python's `str(n)` for an integer: a `-` sign before the digits of a
      negative number. */
  function IntToString(n: int): (r: string)
    ensures r != [] && IsDigit(r[|r| - 1])
    ensures r[0] == '-' || IsDigit(r[0])
    ensures forall i :: 1 <= i < |r| ==> IsDigit(r[i])
  {
    if n < 0 then "-" + NatToString(-n) else NatToString(n)
  }

  /** Reading back the numeral of `n` gives `n`. */
  lemma {:induction false} NatToStringValue(n: nat)
    ensures DigitsValue(NatToString(n)) == n
  {
    if n >= 10 {
      NatToStringValue(n / 10);
      var s := NatToString(n);
      assert s[..|s| - 1] == NatToString(n / 10);
    }
  }

  /** The digits of `n` read back as `n`. */
  lemma ParseNatToString(n: nat)
    ensures ParseDigits(NatToString(n)) == Some(n)
  {
    NatToStringValue(n);
  }

  lemma ParseIntNegative(s: string, m: nat)
    requires IntText(s) == s && s != [] && s[0] == '-' && ParseDigits(s[1..]) == Some(m)
    ensures ParseInt(s) == Some(-(m as int))
  {
  }

  lemma ParseIntUnsigned(s: string, m: nat)
    requires IntText(s) == s && s != [] && IsDigit(s[0]) && ParseDigits(s) == Some(m)
    ensures ParseInt(s) == Some(m)
  {
  }

  /** A numeral has no whitespace around it: `strip()` and `int()` both
      read it as it is. */
  lemma StripIntToString(n: int)
    ensures Strip(IntToString(n)) == IntToString(n)
    ensures IntText(IntToString(n)) == IntToString(n)
  {
    var s := IntToString(n);
    StripUnchanged(s);
    assert TrimLeft(s, IntSpaces) == s;
    assert TrimRight(s, IntSpaces) == s;
  }

  /** `int(str(n)) == n`. */
  lemma IntToStringRoundTrip(n: int)
    ensures ParseInt(IntToString(n)) == Some(n)
  {
    if n < 0 {
      NegativeRoundTrip(n);
    } else {
      NonNegativeRoundTrip(n);
    }
  }

  lemma NegativeRoundTrip(n: int)
    requires n < 0
    ensures ParseInt(IntToString(n)) == Some(n)
  {
    StripIntToString(n);
    ParseNatToString(-n);
    var d := NatToString(-n);
    assert IntToString(n) == "-" + d;
    assert ("-" + d)[1..] == d;
    ParseIntNegative(IntToString(n), -n);
  }

  lemma NonNegativeRoundTrip(n: int)
    requires n >= 0
    ensures ParseInt(IntToString(n)) == Some(n)
  {
    StripIntToString(n);
    ParseNatToString(n);
    ParseIntUnsigned(IntToString(n), n);
  }
}
