/** The string operations of the JavaScript runtime that the route handlers
    and the forms rely on: `trim`, `split` and `join` with a one-character
    separator, `replace` with a string pattern, `toUpperCase` on ASCII,
    `parseInt`, `Number(...)` and `String(n)` for integers. */
module JsText {
  import opened Options

  // ---------------------------------------------------------------------
  // Characters

  /** The white space `trim` and `parseInt` skip: a fixed subset of
      JavaScript's WhiteSpace and LineTerminator characters. */
  predicate IsWhitespace(c: char) {
    c == ' ' || c == '\t' || c == '\n' || c == '\r' || c == '\U{B}' || c == '\U{C}'
    || c == '\U{A0}' || c == '\U{2028}' || c == '\U{2029}' || c == '\U{FEFF}'
  }

  /** A digit of base 10 or base 16 (either case). */
  predicate IsDigitIn(c: char, radix: nat) {
    ('0' <= c <= '9') || (radix == 16 && (('a' <= c <= 'f') || ('A' <= c <= 'F')))
  }

  function DigitValue(c: char, radix: nat): (d: nat)
    requires IsDigitIn(c, radix)
    ensures radix == 10 ==> d < 10
    ensures radix == 16 ==> d < 16
  {
    if '0' <= c <= '9' then c as int - '0' as int
    else if 'a' <= c <= 'f' then c as int - 'a' as int + 10
    else c as int - 'A' as int + 10
  }

  predicate AllDigits(s: string, radix: nat) {
    forall i :: 0 <= i < |s| ==> IsDigitIn(s[i], radix)
  }

  /** `c.toUpperCase()` for one character, on ASCII letters only. */
  function UpperChar(c: char): (u: char)
    ensures 'a' <= c <= 'z' ==> u as int == c as int - 32
    ensures !('a' <= c <= 'z') ==> u == c
  {
    if 'a' <= c <= 'z' then (c as int - 32) as char else c
  }

  /** `s.toUpperCase()`, on ASCII letters only. */
  function ToUpper(s: string): (r: string)
    ensures |r| == |s|
    ensures forall i :: 0 <= i < |s| ==> r[i] == UpperChar(s[i])
  {
    if s == "" then "" else [UpperChar(s[0])] + ToUpper(s[1..])
  }

  // ---------------------------------------------------------------------
  // trim

  /** Drops the leading white space. */
  function TrimStart(s: string): (r: string)
    ensures |r| <= |s| && r == s[|s| - |r|..]
    ensures r == "" || !IsWhitespace(r[0])
    ensures forall i :: 0 <= i < |s| - |r| ==> IsWhitespace(s[i])
  {
    if s == "" || !IsWhitespace(s[0]) then s else TrimStart(s[1..])
  }

  /** Drops the trailing white space. */
  function TrimEnd(s: string): (r: string)
    ensures |r| <= |s| && r == s[..|r|]
    ensures r == "" || !IsWhitespace(r[|r| - 1])
    ensures forall i :: |r| <= i < |s| ==> IsWhitespace(s[i])
  {
    if s == "" || !IsWhitespace(s[|s| - 1]) then s else TrimEnd(s[..|s| - 1])
  }

  predicate IsTrimmed(s: string) {
    s == "" || (!IsWhitespace(s[0]) && !IsWhitespace(s[|s| - 1]))
  }

  /** `r` is the slice of `s` that starts at `a`, with only white space
      before and after it. */
  predicate PaddedSlice(s: string, r: string, a: nat) {
    && a + |r| <= |s| && (forall i, j :: 0 <= i < |r| && j == a + i ==> r[i] == s[j])
    && (forall i :: 0 <= i < a ==> IsWhitespace(s[i]))
    && (forall i :: a + |r| <= i < |s| ==> IsWhitespace(s[i]))
  }

  /** `s.trim()`: the result is the slice of `s` between a run of leading
      and a run of trailing white space, has no white space at either end,
      and a string that is already trimmed is kept. */
  function Trim(s: string): (r: string)
    ensures IsTrimmed(r)
    ensures |r| <= |s|
    ensures exists a: nat :: PaddedSlice(s, r, a)
    ensures IsTrimmed(s) ==> r == s
  {
    TrimIsPaddedSlice(s);
    TrimEnd(TrimStart(s))
  }

  /** What the two halves of `trim` leave is a padded slice. */
  lemma TrimIsPaddedSlice(s: string)
    ensures PaddedSlice(s, TrimEnd(TrimStart(s)), |s| - |TrimStart(s)|)
  {
    var t := TrimStart(s);
    var r := TrimEnd(t);
    var a := |s| - |t|;
    SliceOfSuffix(s, t, r, a);
  }

  /** A prefix of a suffix, with white space outside both, is a padded slice. */
  lemma SliceOfSuffix(s: string, t: string, r: string, a: nat)
    requires a <= |s| && t == s[a..] && |r| <= |t| && r == t[..|r|]
    requires forall i :: 0 <= i < a ==> IsWhitespace(s[i])
    requires forall i :: |r| <= i < |t| ==> IsWhitespace(t[i])
    ensures PaddedSlice(s, r, a)
  {
    forall i | a + |r| <= i < |s|
      ensures IsWhitespace(s[i])
    {
      assert s[i] == t[i - a];
    }
    forall i | 0 <= i < |r|
      ensures r[i] == s[a + i]
    {
      assert r[i] == t[i];
    }
  }

  /** Leading white space is dropped up to the first other character. */
  lemma {:induction false} TrimStartPadded(pre: string, x: string)
    requires forall i :: 0 <= i < |pre| ==> IsWhitespace(pre[i])
    requires x == "" || !IsWhitespace(x[0])
    ensures TrimStart(pre + x) == x
  {
    if pre == "" {
      assert pre + x == x;
    } else {
      assert (pre + x)[1..] == pre[1..] + x;
      TrimStartPadded(pre[1..], x);
    }
  }

  /** Trailing white space is dropped back to the last other character. */
  lemma {:induction false} TrimEndPadded(x: string, post: string)
    requires forall i :: 0 <= i < |post| ==> IsWhitespace(post[i])
    requires x == "" || !IsWhitespace(x[|x| - 1])
    ensures TrimEnd(x + post) == x
  {
    if post == "" {
      assert x + post == x;
    } else {
      var shorter := post[..|post| - 1];
      assert (x + post)[..|x + post| - 1] == x + shorter;
      TrimEndPadded(x, shorter);
    }
  }

  /** `trim` of a trimmed string padded with white space on both sides is
      that string: the slice in Trim's contract is the only one. */
  lemma TrimOfPadded(pre: string, t: string, post: string)
    requires forall i :: 0 <= i < |pre| ==> IsWhitespace(pre[i])
    requires forall i :: 0 <= i < |post| ==> IsWhitespace(post[i])
    requires IsTrimmed(t)
    ensures Trim(pre + t + post) == t
  {
    if t == "" {
      assert pre + t + post == (pre + post) + "";
      TrimStartPadded(pre + post, "");
    } else {
      assert pre + t + post == pre + (t + post);
      TrimStartPadded(pre, t + post);
      TrimEndPadded(t, post);
    }
  }

  /** `trim` only removes characters: one absent from `s` is absent from the result. */
  lemma TrimAddsNothing(s: string, c: char)
    requires c !in s
    ensures c !in Trim(s)
  {
    var t := TrimStart(s);
    assert t == s[|s| - |t|..];
    assert TrimEnd(t) == t[..|TrimEnd(t)|];
  }

  /** Leading white space does not change what `trim` gives. */
  lemma {:induction false} TrimSkipsLeadingSpace(s: string)
    ensures Trim(" " + s) == Trim(s)
  {
    assert (" " + s)[1..] == s;
  }

  // ---------------------------------------------------------------------
  // split and join

  /** The number of occurrences of `c` in `s`. */
  function Occurrences(s: string, c: char): nat {
    if s == "" then 0 else (if s[0] == c then 1 else 0) + Occurrences(s[1..], c)
  }

  /** `s.split(sep)` for a one-character separator: one more part than
      there are separators, and no part holds the separator. */
  function Split(s: string, sep: char): (parts: seq<string>)
    ensures |parts| == Occurrences(s, sep) + 1
    ensures forall i :: 0 <= i < |parts| ==> sep !in parts[i]
  {
    if s == "" then [""]
    else
      var rest := Split(s[1..], sep);
      if s[0] == sep then [""] + rest else [[s[0]] + rest[0]] + rest[1..]
  }

  /** `xs.join(sep)`: empty for no strings, and otherwise starting with
      the first string. */
  function Join(xs: seq<string>, sep: string): (r: string)
    ensures |xs| == 0 ==> r == ""
    ensures |xs| >= 1 ==> xs[0] <= r
  {
    if |xs| == 0 then "" else if |xs| == 1 then xs[0] else xs[0] + sep + Join(xs[1..], sep)
  }

  /** Joining a list of two or more strings: the first, the separator, then
      the join of the rest. */
  lemma JoinCons(x: string, xs: seq<string>, sep: string)
    requires |xs| >= 1
    ensures Join([x] + xs, sep) == x + sep + Join(xs, sep)
  {
    assert ([x] + xs)[1..] == xs;
  }

  /** A character put in front of the first string is in front of the join. */
  lemma JoinExtendFirst(c: char, xs: seq<string>, sep: string)
    requires |xs| >= 1
    ensures Join([[c] + xs[0]] + xs[1..], sep) == [c] + Join(xs, sep)
  {
    if |xs| == 1 {
      assert [[c] + xs[0]] + xs[1..] == [[c] + xs[0]];
    } else {
      JoinCons([c] + xs[0], xs[1..], sep);
      JoinCons(xs[0], xs[1..], sep);
      assert xs == [xs[0]] + xs[1..];
    }
  }

  /** Joining the parts of a split with the separator gives back the string. */
  lemma {:induction false} JoinSplit(s: string, sep: char)
    ensures Join(Split(s, sep), [sep]) == s
  {
    if s != "" {
      var rest := Split(s[1..], sep);
      JoinSplit(s[1..], sep);
      if s[0] == sep {
        assert Split(s, sep) == [""] + rest;
        JoinCons("", rest, [sep]);
      } else {
        assert Split(s, sep) == [[s[0]] + rest[0]] + rest[1..];
        JoinExtendFirst(s[0], rest, [sep]);
      }
      assert s == [s[0]] + s[1..];
    }
  }

  /** A string without the separator splits into itself. */
  lemma {:induction false} SplitWithoutSeparator(a: string, sep: char)
    requires sep !in a
    ensures Split(a, sep) == [a]
  {
    if a != "" {
      SplitWithoutSeparator(a[1..], sep);
      assert a == [a[0]] + a[1..];
    }
  }

  /** A separator after a separator-free prefix ends the first part. */
  lemma {:induction false} SplitAfterPrefix(a: string, b: string, sep: char)
    requires sep !in a
    ensures Split(a + [sep] + b, sep) == [a] + Split(b, sep)
  {
    var s := a + [sep] + b;
    if a == "" {
      assert s[1..] == b;
    } else {
      assert s[1..] == a[1..] + [sep] + b;
      SplitAfterPrefix(a[1..], b, sep);
      assert a == [a[0]] + a[1..];
    }
  }

  /** Splitting the join of separator-free parts gives back the parts. */
  lemma {:induction false} SplitJoin(parts: seq<string>, sep: char)
    requires |parts| >= 1
    requires forall i :: 0 <= i < |parts| ==> sep !in parts[i]
    ensures Split(Join(parts, [sep]), sep) == parts
  {
    if |parts| == 1 {
      SplitWithoutSeparator(parts[0], sep);
    } else {
      SplitJoin(parts[1..], sep);
      SplitAfterPrefix(parts[0], Join(parts[1..], [sep]), sep);
      assert parts == [parts[0]] + parts[1..];
    }
  }

  // ---------------------------------------------------------------------
  // replace with a string pattern

  predicate OccursAt(s: string, pat: string, j: nat) {
    j + |pat| <= |s| && s[j..j + |pat|] == pat
  }

  /** `s.indexOf(pat)`, with -1 as None: the first position of `pat`. */
  function IndexOf(s: string, pat: string): (r: Option<nat>)
    ensures r.Some? ==> OccursAt(s, pat, r.value)
    ensures r.Some? ==> forall j: nat :: j < r.value ==> !OccursAt(s, pat, j)
    ensures r.None? ==> forall j: nat :: !OccursAt(s, pat, j)
    decreases |s|
  {
    if |pat| > |s| then None
    else if s[..|pat|] == pat then Some(0)
    else
      match IndexOf(s[1..], pat)
      case None =>
        assert forall j: nat :: OccursAt(s, pat, j) && j > 0 ==> OccursAt(s[1..], pat, j - 1);
        None
      case Some(i) =>
        assert OccursAt(s[1..], pat, i) ==> OccursAt(s, pat, i + 1);
        assert forall j: nat :: OccursAt(s, pat, j) && j > 0 ==> OccursAt(s[1..], pat, j - 1);
        Some(i + 1)
  }

  /** `s.replace(pat, rep)` with a string pattern: the first occurrence only.
      Without an occurrence the string is unchanged; otherwise the text
      before the first occurrence is kept, `rep` follows it, and the text
      after the occurrence ends the result. */
  function ReplaceFirst(s: string, pat: string, rep: string): (r: string)
    ensures IndexOf(s, pat).None? ==> r == s
    ensures IndexOf(s, pat).Some? ==>
      var i := IndexOf(s, pat).value;
      && |r| == |s| - |pat| + |rep|
      && r[..i] == s[..i]
      && r[i..i + |rep|] == rep
      && r[i + |rep|..] == s[i + |pat|..]
  {
    match IndexOf(s, pat)
    case None => s
    case Some(i) => s[..i] + rep + s[i + |pat|..]
  }

  /** A leading occurrence is the one replaced. */
  lemma ReplaceLeading(pat: string, t: string, rep: string)
    ensures ReplaceFirst(pat + t, pat, rep) == rep + t
  {
    assert (pat + t)[..|pat|] == pat;
    assert (pat + t)[|pat|..] == t;
  }

  /** Replacing the first occurrence of a one-character pattern by one
      character: an occurrence of `c` becomes `d` exactly when no `c` comes
      before it, and every other character is kept. */
  lemma ReplaceFirstChar(s: string, c: char, d: char)
    ensures |ReplaceFirst(s, [c], [d])| == |s|
    ensures forall i :: 0 <= i < |s| && s[i] != c ==> ReplaceFirst(s, [c], [d])[i] == s[i]
    ensures forall i :: 0 <= i < |s| && s[i] == c ==>
              (ReplaceFirst(s, [c], [d])[i] == d <==> c !in s[..i]) || c == d
    ensures forall i :: 0 <= i < |s| && s[i] == c ==>
              ReplaceFirst(s, [c], [d])[i] == c || ReplaceFirst(s, [c], [d])[i] == d
  {
    var r := ReplaceFirst(s, [c], [d]);
    match IndexOf(s, [c])
    case None =>
      assert r == s;
      forall i | 0 <= i < |s| ensures s[i] != c {
        assert !OccursAt(s, [c], i);
        assert s[i..i + 1] == [s[i]];
      }
    case Some(k) =>
      assert s[k..k + 1] == [s[k]];
      forall j | 0 <= j < k ensures s[j] != c {
        assert !OccursAt(s, [c], j);
        assert s[j..j + 1] == [s[j]];
      }
      assert r == s[..k] + [d] + s[k + 1..];
      assert |r| == |s|;
      forall i | 0 <= i < |s|
        ensures r[i] == (if i == k then d else s[i])
      {
      }
      forall i | 0 <= i < |s| && s[i] == c && c != d
        ensures r[i] == d <==> c !in s[..i]
      {
        if i < k {
          assert false;
        } else if i == k {
          assert forall x :: x in s[..i] ==> x != c;
        } else {
          assert s[..i][k] == c;
        }
      }
  }

  // ---------------------------------------------------------------------
  // Numbers

  /** The value of a string of digits, most significant first. */
  function DigitsValue(ds: string, radix: nat): nat
    requires AllDigits(ds, radix)
  {
    if ds == "" then 0
    else
      var high := DigitsValue(ds[..|ds| - 1], radix);
      (if radix == 16 then high * 16 else high * 10) + DigitValue(ds[|ds| - 1], radix)
  }

  /** The longest prefix of `s` made of `radix` digits. */
  function DigitPrefix(s: string, radix: nat): (ds: string)
    ensures |ds| <= |s| && ds == s[..|ds|] && AllDigits(ds, radix)
    ensures |ds| < |s| ==> !IsDigitIn(s[|ds|], radix)
  {
    if s == "" || !IsDigitIn(s[0], radix) then ""
    else [s[0]] + DigitPrefix(s[1..], radix)
  }

  /** `String(n)` for a non-negative integer: its decimal digits. */
  function Decimal(n: nat): (r: string)
    ensures |r| >= 1 && AllDigits(r, 10)
  {
    if n < 10 then ["0123456789"[n]] else Decimal(n / 10) + ["0123456789"[n % 10]]
  }

  /** Reading back the decimal rendering of `n` gives `n`. */
  lemma {:induction false} DecimalValue(n: nat)
    ensures DigitsValue(Decimal(n), 10) == n
  {
    var r := Decimal(n);
    if n >= 10 {
      var high := Decimal(n / 10);
      DecimalValue(n / 10);
      assert r == high + ["0123456789"[n % 10]];
      assert r[..|r| - 1] == high;
      assert DigitValue(r[|r| - 1], 10) == n % 10;
      assert DigitsValue(r, 10) == DigitsValue(high, 10) * 10 + n % 10;
    } else {
      assert r == ["0123456789"[n]];
      assert r[..0] == "";
    }
  }

  /** `parseInt(s)` with no radix; None is NaN. Leading white space and a
      sign are skipped, a `0x`/`0X` prefix selects base 16, and the longest
      run of digits that follows is read: what comes after it is ignored. */
  function ParseInt(s: string): (r: Option<int>)
    ensures (forall i :: 0 <= i < |s| ==> !IsDigitIn(s[i], 10)) ==> r.None?
  {
    var t := TrimStart(s);
    assert forall i :: 0 <= i < |t| ==> t[i] == s[|s| - |t| + i];
    ParseIntAfterSpace(t)
  }

  /** `parseInt` once the leading white space is gone. */
  function ParseIntAfterSpace(t: string): Option<int> {
    var negative := |t| > 0 && t[0] == '-';
    var u := if |t| > 0 && (t[0] == '-' || t[0] == '+') then t[1..] else t;
    var hex := |u| >= 2 && u[0] == '0' && (u[1] == 'x' || u[1] == 'X');
    var radix := if hex then 16 else 10;
    var ds := DigitPrefix(if hex then u[2..] else u, radix);
    if ds == "" then None
    else
      var v: int := DigitsValue(ds, radix);
      Some(if negative then -v else v)
  }

  /** `parseInt` reads the decimal digits of `n` and ignores a tail that
      does not start with a digit or an `x` (so "3abc" reads as 3). */
  lemma ParseIntDecimalPrefix(n: nat, tail: string)
    requires tail == "" || !(IsDigitIn(tail[0], 10) || tail[0] == 'x' || tail[0] == 'X')
    ensures ParseInt(Decimal(n) + tail) == Some(n)
  {
    var d := Decimal(n);
    var s := d + tail;
    assert s[0] == d[0];
    assert TrimStart(s) == s;
    assert |s| >= 2 ==> s[1] == (if |d| >= 2 then d[1] else tail[0]);
    UnsignedDecimalPrefix(s, d, tail);
    DecimalValue(n);
  }

  lemma UnsignedDecimalPrefix(s: string, d: string, tail: string)
    requires s == d + tail && |d| >= 1 && AllDigits(d, 10)
    requires tail == "" || !IsDigitIn(tail[0], 10)
    requires !(|s| >= 2 && s[0] == '0' && (s[1] == 'x' || s[1] == 'X'))
    ensures ParseIntAfterSpace(s) == Some(DigitsValue(d, 10))
  {
    assert IsDigitIn(s[0], 10);
    DigitPrefixOfDigits(d, tail, 10);
  }

  lemma {:induction false} DigitPrefixOfDigits(ds: string, tail: string, radix: nat)
    requires AllDigits(ds, radix)
    requires tail == "" || !IsDigitIn(tail[0], radix)
    ensures DigitPrefix(ds + tail, radix) == ds
  {
    if ds != "" {
      assert (ds + tail)[1..] == ds[1..] + tail;
      DigitPrefixOfDigits(ds[1..], tail, radix);
      assert ds == [ds[0]] + ds[1..];
    } else {
      assert ds + tail == tail;
    }
  }

  /** `Number(s)` for a string; None is NaN. Surrounding white space is
      ignored, the empty string is 0, a decimal integer may carry one sign,
      and `0x`/`0X` introduces an unsigned hexadecimal integer. Every other
      string (fractions, exponents, `Infinity`, `0b`, `0o`) is NaN here.
      A string of white space only is 0, and a run of decimal digits is its
      value. */
  function StringToNumber(s: string): (r: Option<int>)
    ensures (forall i :: 0 <= i < |s| ==> IsWhitespace(s[i])) ==> r == Some(0)
    ensures |s| >= 1 && AllDigits(s, 10) ==> r == Some(DigitsValue(s, 10))
  {
    if |s| >= 1 && AllDigits(s, 10) then TrimDigits(s); DigitsToNumber(s); TrimmedToNumber(Trim(s))
    else if forall i :: 0 <= i < |s| ==> IsWhitespace(s[i]) then TrimBlank(s); TrimmedToNumber(Trim(s))
    else TrimmedToNumber(Trim(s))
  }

  /** A string of white space only trims to the empty string. */
  lemma TrimBlank(s: string)
    requires forall i :: 0 <= i < |s| ==> IsWhitespace(s[i])
    ensures Trim(s) == ""
  {
  }

  lemma DigitsToNumber(s: string)
    requires |s| >= 1 && AllDigits(s, 10)
    ensures TrimmedToNumber(s) == Some(DigitsValue(s, 10))
  {
    assert !(|s| >= 2 && s[0] == '0' && (s[1] == 'x' || s[1] == 'X')) by {
      if |s| >= 2 { assert IsDigitIn(s[1], 10); }
    }
    SignedDecimalOfDigits(s);
  }

  function TrimmedToNumber(t: string): Option<int> {
    if t == "" then Some(0)
    else if |t| >= 2 && t[0] == '0' && (t[1] == 'x' || t[1] == 'X') then HexNumber(t[2..])
    else SignedDecimal(t)
  }

  /** The digits after `0x` in `Number(...)`: no sign, at least one digit. */
  function HexNumber(h: string): Option<int> {
    if h != "" && AllDigits(h, 16) then Some(DigitsValue(h, 16)) else None
  }

  /** A decimal integer with an optional sign in `Number(...)`. */
  function SignedDecimal(t: string): Option<int>
    requires t != ""
  {
    var negative := t[0] == '-';
    var u := if t[0] == '-' || t[0] == '+' then t[1..] else t;
    if u != "" && AllDigits(u, 10) then
      var v: int := DigitsValue(u, 10);
      Some(if negative then -v else v)
    else None
  }

  /** A string of digits is left alone by `trim`. */
  lemma TrimDigits(d: string)
    requires |d| >= 1 && AllDigits(d, 10)
    ensures Trim(d) == d
  {
    assert IsDigitIn(d[0], 10) && IsDigitIn(d[|d| - 1], 10);
    assert IsTrimmed(d);
  }

  /** `Number(String(n)) == n` for a non-negative integer. */
  lemma NumberOfDecimal(n: nat)
    ensures StringToNumber(Decimal(n)) == Some(n)
  {
    DecimalValue(n);
  }

  /** `Number("-" + String(m)) == -m` for a positive integer. */
  lemma NumberOfNegative(m: nat)
    ensures StringToNumber("-" + Decimal(m)) == Some(-(m as int))
  {
    DecimalValue(m);
    NegativeToNumber(Decimal(m), m);
  }

  /** `Number("-" + d) == -v` for a run of decimal digits `d` of value `v`. */
  lemma NegativeToNumber(d: string, v: nat)
    requires |d| >= 1 && AllDigits(d, 10) && DigitsValue(d, 10) == v
    ensures StringToNumber("-" + d) == Some(-(v as int))
  {
    var t := "-" + d;
    var x := Some(-(v as int));
    assert Trim(t) == t && TrimmedToNumber(t) == x by {
      TrimNegative(d);
      NegativeDigitsToNumber(d);
    }
    ReadTrimmed(t, x);
  }

  /** A trimmed string that does not start with a digit is read as it is. */
  lemma ReadTrimmed(s: string, x: Option<int>)
    requires |s| >= 1 && !IsDigitIn(s[0], 10) && Trim(s) == s && TrimmedToNumber(s) == x
    ensures StringToNumber(s) == x
  {
  }

  lemma TrimNegative(d: string)
    requires |d| >= 1 && AllDigits(d, 10)
    ensures Trim("-" + d) == "-" + d
  {
    var t := "-" + d;
    assert t[|t| - 1] == d[|d| - 1] && IsDigitIn(d[|d| - 1], 10);
    assert IsTrimmed(t);
  }

  lemma NegativeDigitsToNumber(d: string)
    requires |d| >= 1 && AllDigits(d, 10)
    ensures TrimmedToNumber("-" + d) == Some(-(DigitsValue(d, 10) as int))
  {
    var t := "-" + d;
    assert t[1..] == d;
  }

  lemma SignedDecimalOfDigits(d: string)
    requires |d| >= 1 && AllDigits(d, 10)
    ensures SignedDecimal(d) == Some(DigitsValue(d, 10))
  {
    assert IsDigitIn(d[0], 10);
  }
}
