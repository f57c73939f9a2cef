/**
 * The parts of Python's `str` that the modelled code relies on: substring
 * tests, `split`/`join`, `strip`/`rstrip`, `replace`, `str(int)` and `int(str)`.
 * Strings are sequences of code points; there is no normalisation.
 */
module Text {
  import opened Wrappers

  /** The characters `str.isspace()` accepts. `str.strip()` removes exactly
      these, and a `\s` in a Unicode regular expression matches exactly these. */
  predicate IsSpace(c: char) {
    || c == ' '
    || ('\t' <= c <= '\r')
    || ('\U{1C}' <= c <= '\U{1F}')
    || c == '\U{85}' || c == '\U{A0}' || c == '\U{1680}'
    || ('\U{2000}' <= c <= '\U{200A}')
    || c == '\U{2028}' || c == '\U{2029}' || c == '\U{202F}' || c == '\U{205F}' || c == '\U{3000}'
  }

  predicate IsPrefix(p: string, s: string) {
    |p| <= |s| && s[..|p|] == p
  }

  /** Python's `t in s`. */
  predicate Contains(s: string, t: string)
    decreases |s|
  {
    IsPrefix(t, s) || (|s| > 0 && Contains(s[1..], t))
  }

  /** Any string containing `t + u` contains `t`. */
  lemma {:induction false} ContainsPrefixOf(s: string, t: string, u: string)
    requires Contains(s, t + u)
    ensures Contains(s, t)
    decreases |s|
  {
    if IsPrefix(t + u, s) {
      assert s[..|t|] == (s[..|t + u|])[..|t|];
    } else {
      ContainsPrefixOf(s[1..], t, u);
    }
  }

  /** A string made of characters none of which is `t`'s first character
      does not contain `t`. */
  lemma {:induction false} NotContainsWithoutFirst(s: string, t: string)
    requires |t| > 0
    requires forall k :: 0 <= k < |s| ==> s[k] != t[0]
    ensures !Contains(s, t)
    decreases |s|
  {
    if |s| > 0 {
      assert !IsPrefix(t, s) by {
        if |t| <= |s| {
          assert s[..|t|][0] == s[0];
        }
      }
      NotContainsWithoutFirst(s[1..], t);
    }
  }

  /** Python's `s.split(sep)` for a non-empty separator: cut at every
      leftmost non-overlapping occurrence of `sep`. */
  function Split(s: string, sep: string): (parts: seq<string>)
    requires |sep| > 0
    ensures |parts| >= 1
    ensures IsPrefix(parts[0], s)
    ensures forall k :: 0 <= k < |parts| ==> !Contains(parts[k], sep)
    decreases |s|
  {
    if IsPrefix(sep, s) then
      [""] + Split(s[|sep|..], sep)
    else if |s| == 0 then
      [""]
    else
      var rest := Split(s[1..], sep);
      var first := [s[0]] + rest[0];
      assert first[1..] == rest[0];
      assert first == s[..|first|] by {
        assert s == [s[0]] + s[1..];
      }
      assert !IsPrefix(sep, first) by {
        if |sep| <= |first| {
          assert first[..|sep|] == s[..|sep|];
        }
      }
      [first] + rest[1..]
  }

  /** One step of `Split` at a position where the separator does not start. */
  lemma SplitStep(s: string, sep: string)
    requires |sep| > 0 && |s| > 0 && !IsPrefix(sep, s)
    ensures Split(s, sep) == [[s[0]] + Split(s[1..], sep)[0]] + Split(s[1..], sep)[1..]
  {
  }

  /** Python's `sep.join(parts)`. */
  function Join(parts: seq<string>, sep: string): string {
    if |parts| == 0 then ""
    else if |parts| == 1 then parts[0]
    else parts[0] + sep + Join(parts[1..], sep)
  }

  lemma JoinCons(x: string, rest: seq<string>, sep: string)
    requires |rest| >= 1
    ensures Join([x] + rest, sep) == x + sep + Join(rest, sep)
  {
    assert ([x] + rest)[1..] == rest;
  }

  lemma JoinPrependChar(c: char, rest: seq<string>, sep: string)
    requires |rest| >= 1
    ensures Join([[c] + rest[0]] + rest[1..], sep) == [c] + Join(rest, sep)
  {
    if |rest| > 1 {
      JoinCons([c] + rest[0], rest[1..], sep);
      JoinCons(rest[0], rest[1..], sep);
      assert rest == [rest[0]] + rest[1..];
    }
  }

  /** Joining the pieces of a split gives the original string back. */
  lemma {:induction false} JoinSplit(s: string, sep: string)
    requires |sep| > 0
    ensures Join(Split(s, sep), sep) == s
    decreases |s|
  {
    if IsPrefix(sep, s) {
      var tail := Split(s[|sep|..], sep);
      JoinSplit(s[|sep|..], sep);
      JoinCons("", tail, sep);
      assert s == sep + s[|sep|..];
    } else if |s| > 0 {
      var rest := Split(s[1..], sep);
      JoinSplit(s[1..], sep);
      JoinPrependChar(s[0], rest, sep);
      assert s == [s[0]] + s[1..];
    }
  }

  /** No proper prefix of `sep` is also a suffix of it, so one occurrence of
      `sep` cannot straddle the end of a piece that does not contain it. */
  predicate BorderFree(sep: string) {
    forall k :: 0 < k < |sep| ==> sep[k..] != sep[..|sep| - k]
  }

  /** The separator the references column uses. */
  lemma CommaSpaceBorderFree()
    ensures BorderFree(", ")
  {
    assert ", "[1..] == " ";
    assert ", "[..1] == ",";
  }

  lemma {:induction false} SplitWithoutSeparator(p: string, sep: string)
    requires |sep| > 0 && !Contains(p, sep)
    ensures Split(p, sep) == [p]
    decreases |p|
  {
    if |p| > 0 {
      assert !IsPrefix(sep, p) && !Contains(p[1..], sep);
      SplitWithoutSeparator(p[1..], sep);
      SplitStep(p, sep);
      assert p == [p[0]] + p[1..];
    } else {
      assert !IsPrefix(sep, p);
    }
  }

  /** A piece shorter than the separator cannot start an occurrence of a
      border-free separator that runs into the separator after it. */
  lemma NoStraddle(p: string, sep: string, rest: string)
    requires 0 < |p| < |sep| && BorderFree(sep)
    ensures !IsPrefix(sep, p + sep + rest)
  {
    var s := p + sep + rest;
    var k := |p|;
    var tail := sep[k..];
    var middle := s[k..|sep|];
    assert middle == sep[..|sep| - k];
    assert s[..|sep|] == sep ==> tail == middle;
  }

  lemma {:induction false} SplitAfterPiece(p: string, sep: string, rest: string)
    requires |sep| > 0 && BorderFree(sep) && !Contains(p, sep)
    ensures Split(p + sep + rest, sep) == [p] + Split(rest, sep)
    decreases |p|
  {
    var s := p + sep + rest;
    if |p| == 0 {
      assert s == sep + rest;
      assert s[..|sep|] == sep && s[|sep|..] == rest;
    } else {
      var s1 := p[1..] + sep + rest;
      assert s[1..] == s1;
      assert !IsPrefix(sep, s) by {
        if |p| < |sep| {
          NoStraddle(p, sep, rest);
        } else {
          assert s[..|sep|] == p[..|sep|];
        }
      }
      SplitAfterPiece(p[1..], sep, rest);
      SplitStep(s, sep);
      var tail := Split(s1, sep);
      assert tail[0] == p[1..] && tail[1..] == Split(rest, sep);
      assert [s[0]] + p[1..] == p;
    }
  }

  /** Splitting a join gives the pieces back, provided there is at least one
      piece and no piece contains the (border-free) separator. */
  lemma {:induction false} SplitJoin(parts: seq<string>, sep: string)
    requires |sep| > 0 && BorderFree(sep) && |parts| >= 1
    requires forall k :: 0 <= k < |parts| ==> !Contains(parts[k], sep)
    ensures Split(Join(parts, sep), sep) == parts
    decreases |parts|
  {
    if |parts| == 1 {
      SplitWithoutSeparator(parts[0], sep);
    } else {
      SplitJoin(parts[1..], sep);
      SplitAfterPiece(parts[0], sep, Join(parts[1..], sep));
      assert parts == [parts[0]] + parts[1..];
    }
  }

  /** Python's `s.lstrip()`. */
  function LStrip(s: string): (r: string)
    ensures |r| <= |s| && r == s[|s| - |r|..]
    ensures forall k :: 0 <= k < |s| - |r| ==> IsSpace(s[k])
    ensures |r| > 0 ==> !IsSpace(r[0])
    decreases |s|
  {
    if |s| > 0 && IsSpace(s[0]) then LStrip(s[1..]) else s
  }

  /** Python's `s.rstrip()`. */
  function RStrip(s: string): (r: string)
    ensures |r| <= |s| && r == s[..|r|]
    ensures forall k :: |r| <= k < |s| ==> IsSpace(s[k])
    ensures |r| > 0 ==> !IsSpace(r[|r| - 1])
    decreases |s|
  {
    if |s| > 0 && IsSpace(s[|s| - 1]) then RStrip(s[..|s| - 1]) else s
  }

  /** Neither end is whitespace. */
  predicate IsStripped(s: string) {
    |s| == 0 || (!IsSpace(s[0]) && !IsSpace(s[|s| - 1]))
  }

  /** Python's `s.strip()`: what is left of `s` once both its leading and its
      trailing whitespace are gone. */
  function Strip(s: string): (r: string)
    ensures IsStripped(r)
    ensures |r| <= |RStrip(s)|
    ensures r == RStrip(s)[|RStrip(s)| - |r|..]
    ensures forall k :: 0 <= k < |RStrip(s)| - |r| ==> IsSpace(s[k])
  {
    var t := RStrip(s);
    var r := LStrip(t);
    forall k | 0 <= k < |t| - |r|
      ensures IsSpace(s[k])
    {
      assert t[k] == s[k];
    }
    assert |r| > 0 ==> r[|r| - 1] == t[|t| - 1];
    r
  }

  lemma StripIdempotent(s: string)
    ensures Strip(Strip(s)) == Strip(s)
  {
    var r := Strip(s);
    assert RStrip(r) == r;
    assert LStrip(r) == r;
  }

  /** The source writes `x.rstrip().strip()`, which is the same as `x.strip()`. */
  lemma RStripThenStrip(s: string)
    ensures Strip(RStrip(s)) == Strip(s)
  {
    var t := RStrip(s);
    assert RStrip(t) == t;
  }

  /** Python's `s.replace(old, new)` for a non-empty `old`. */
  function Replace(s: string, target: string, replacement: string): (r: string)
    requires |target| > 0
    ensures replacement == "" ==> |r| <= |s|
    decreases |s|
  {
    if IsPrefix(target, s) then replacement + Replace(s[|target|..], target, replacement)
    else if |s| == 0 then ""
    else [s[0]] + Replace(s[1..], target, replacement)
  }

  /** `s.replace(old, new)` is `new.join(s.split(old))`. */
  lemma {:induction false} ReplaceIsJoinOfSplit(s: string, target: string, replacement: string)
    requires |target| > 0
    ensures Replace(s, target, replacement) == Join(Split(s, target), replacement)
    decreases |s|
  {
    if IsPrefix(target, s) {
      ReplaceIsJoinOfSplit(s[|target|..], target, replacement);
      var rest := Split(s[|target|..], target);
      assert Split(s, target) == [""] + rest;
    } else if |s| > 0 {
      ReplaceIsJoinOfSplit(s[1..], target, replacement);
      var rest := Split(s[1..], target);
      if |rest| > 1 {
        assert Join(rest, replacement) == rest[0] + replacement + Join(rest[1..], replacement);
      }
    }
  }

  /** A string without `old` in it is left as it is by `replace`. */
  lemma {:induction false} ReplaceAbsent(s: string, target: string, replacement: string)
    requires |target| > 0 && !Contains(s, target)
    ensures Replace(s, target, replacement) == s
    decreases |s|
  {
    if |s| > 0 {
      ReplaceAbsent(s[1..], target, replacement);
      assert s == [s[0]] + s[1..];
    }
  }

  /** Number of times the character `c` occurs in `s`. */
  function CountChar(s: string, c: char): nat {
    if |s| == 0 then 0 else (if s[0] == c then 1 else 0) + CountChar(s[1..], c)
  }

  lemma {:induction false} CountCharAppend(a: string, b: string, c: char)
    ensures CountChar(a + b, c) == CountChar(a, c) + CountChar(b, c)
    decreases |a|
  {
    if |a| == 0 {
      assert a + b == b;
    } else {
      assert (a + b)[1..] == a[1..] + b;
      CountCharAppend(a[1..], b, c);
    }
  }

  predicate IsDigit(c: char) {
    '0' <= c <= '9'
  }

  function DigitChar(d: nat): (c: char)
    requires d < 10
    ensures IsDigit(c)
  {
    "0123456789"[d]
  }

  function DigitValue(c: char): (d: nat)
    requires IsDigit(c)
    ensures d < 10 && DigitChar(d) == c
  {
    (c as int - '0' as int) as nat
  }

  /** Python's `str(n)` for a non-negative integer: decimal, no leading zeros. */
  function NatToString(n: nat): (s: string)
    ensures |s| > 0
    ensures forall k :: 0 <= k < |s| ==> IsDigit(s[k])
    decreases n
  {
    if n < 10 then [DigitChar(n)] else NatToString(n / 10) + [DigitChar(n % 10)]
  }

  /** Python's `str(i)` (and f-string formatting) for an integer. */
  function IntToString(i: int): (s: string)
    ensures |s| > 0
    ensures s[0] == '-' <==> i < 0
  {
    if i < 0 then "-" + NatToString(-i) else NatToString(i)
  }

  /** The value of a non-empty run of decimal digits. */
  function DigitsValue(s: string): nat
    requires forall k :: 0 <= k < |s| ==> IsDigit(s[k])
    decreases |s|
  {
    if |s| == 0 then 0 else 10 * DigitsValue(s[..|s| - 1]) + DigitValue(s[|s| - 1])
  }

  predicate AllDigits(s: string) {
    |s| > 0 && forall k :: 0 <= k < |s| ==> IsDigit(s[k])
  }

  /** Python's `int(s)` on a string: surrounding whitespace is ignored, an
      optional sign is followed by decimal digits; anything else raises
      `ValueError`, here `None`. */
  function ParseInt(s: string): (r: Option<int>)
    ensures r.Some? ==> |Strip(s)| > 0
  {
    var t := Strip(s);
    if |t| > 0 && (t[0] == '-' || t[0] == '+') then
      if AllDigits(t[1..]) then
        var magnitude: int := DigitsValue(t[1..]);
        Some(if t[0] == '-' then -magnitude else magnitude)
      else None
    else if AllDigits(t) then Some(DigitsValue(t))
    else None
  }

  lemma {:induction false} DigitsOfNat(n: nat)
    ensures DigitsValue(NatToString(n)) == n
    decreases n
  {
    if n >= 10 {
      DigitsOfNat(n / 10);
      var s := NatToString(n);
      var d := n % 10;
      assert s == NatToString(n / 10) + [DigitChar(d)];
      assert s[..|s| - 1] == NatToString(n / 10);
      assert DigitValue(s[|s| - 1]) == d;
      assert n == 10 * (n / 10) + d;
    }
  }

  lemma StripStripped(s: string)
    requires IsStripped(s)
    ensures Strip(s) == s
  {
    assert RStrip(s) == s;
    assert LStrip(s) == s;
  }

  lemma DigitIsPlain(c: char)
    requires IsDigit(c)
    ensures !IsSpace(c) && c != '-' && c != '+'
  {
  }

  lemma ParseNatToString(n: nat)
    ensures ParseInt(IntToString(n)) == Some(n)
  {
    var d := NatToString(n);
    assert IntToString(n) == d;
    DigitsOfNat(n);
    DigitIsPlain(d[0]);
    DigitIsPlain(d[|d| - 1]);
    StripStripped(d);
    assert AllDigits(d);
    assert !(d[0] == '-' || d[0] == '+');
  }

  /** A minus sign followed by the digits of `n` parses to `-n`. */
  lemma ParseMinusDigits(d: string, n: nat)
    requires AllDigits(d) && DigitsValue(d) == n
    ensures ParseInt("-" + d) == Some(-(n as int))
  {
    var s := "-" + d;
    DigitIsPlain(d[|d| - 1]);
    assert s[|s| - 1] == d[|d| - 1];
    StripStripped(s);
    assert s[1..] == d;
  }

  lemma ParseNegativeToString(n: nat)
    requires n > 0
    ensures ParseInt(IntToString(-(n as int))) == Some(-(n as int))
  {
    var d := NatToString(n);
    DigitsOfNat(n);
    ParseMinusDigits(d, n);
    assert IntToString(-(n as int)) == "-" + d;
  }

  /** `int(str(i)) == i` for every integer. */
  lemma ParseIntToString(i: int)
    ensures ParseInt(IntToString(i)) == Some(i)
  {
    if i < 0 {
      ParseNegativeToString(-i);
    } else {
      ParseNatToString(i);
    }
  }
}
