/** The Python `str` primitives the scrapers rely on: whitespace, `split()`
    and `" ".join`, `strip()`, `replace("*", "")`, `isdigit()`, `int()`,
    `lower()` and the ordering `sorted` uses. Digits and letters are ASCII. */
module Text {
  import opened Common

  /** The characters `str.isspace()` accepts; `str.split()`, `str.strip()`,
      `int()` and the regex class `\s` all use this set. */
  predicate IsSpace(c: char) {
    var n := c as int;
    (9 <= n <= 13) || (28 <= n <= 32) || n == 0x85 || n == 0xA0 || n == 0x1680
    || (0x2000 <= n <= 0x200A) || n == 0x2028 || n == 0x2029 || n == 0x202F
    || n == 0x205F || n == 0x3000
  }

  predicate IsDigit(c: char) { '0' <= c <= '9' }

  predicate AllSpace(s: string) {
    forall i :: 0 <= i < |s| ==> IsSpace(s[i])
  }

  /** A word of `str.split()`: non-empty and free of whitespace. */
  predicate IsWord(w: string) {
    |w| > 0 && forall i :: 0 <= i < |w| ==> !IsSpace(w[i])
  }

  /** Length of the longest whitespace-free prefix. */
  function WordLen(s: string): (n: nat)
    ensures n <= |s|
    ensures forall i :: 0 <= i < n ==> !IsSpace(s[i])
    ensures n < |s| ==> IsSpace(s[n])
  {
    if s == [] || IsSpace(s[0]) then 0 else 1 + WordLen(s[1..])
  }

  /** `s.split()`: the maximal whitespace-free runs of `s`, in order. */
  function Tokens(s: string): (ts: seq<string>)
    ensures forall k :: 0 <= k < |ts| ==> IsWord(ts[k])
    ensures ts == [] <==> AllSpace(s)
    decreases |s|
  {
    if s == [] then []
    else if IsSpace(s[0]) then Tokens(s[1..])
    else
      var n := WordLen(s);
      [s[..n]] + Tokens(s[n..])
  }

  /** `" ".join(ts)`. */
  function JoinSpaces(ts: seq<string>): string {
    if ts == [] then "" else if |ts| == 1 then ts[0] else ts[0] + " " + JoinSpaces(ts[1..])
  }

  /** No whitespace at either end, no two whitespace characters in a row, and
      the only whitespace character is the plain space. */
  predicate Normalized(t: string) {
    forall i :: 0 <= i < |t| && IsSpace(t[i]) ==>
      t[i] == ' ' && 0 < i < |t| - 1 && !IsSpace(t[i + 1])
  }

  lemma {:induction false} TokensOfWordThen(w: string, t: string)
    requires IsWord(w)
    requires t == [] || IsSpace(t[0])
    ensures Tokens(w + t) == [w] + Tokens(t)
  {
    var s := w + t;
    assert forall i :: 0 <= i < |w| ==> s[i] == w[i];
    assert t != [] ==> s[|w|] == t[0];
    var n := WordLen(s);
    assert n == |w|;
    assert s[..n] == w && s[n..] == t;
  }

  lemma TokensSkipSpace(c: char, s: string)
    requires IsSpace(c)
    ensures Tokens([c] + s) == Tokens(s)
  {
    assert ([c] + s)[1..] == s;
  }

  lemma {:induction false} TokensOfJoin(ts: seq<string>)
    requires forall k :: 0 <= k < |ts| ==> IsWord(ts[k])
    ensures Tokens(JoinSpaces(ts)) == ts
    decreases |ts|
  {
    if |ts| == 1 {
      TokensOfWordThen(ts[0], "");
      assert ts[0] + "" == ts[0];
    } else if |ts| > 1 {
      var w, rest := ts[0], JoinSpaces(ts[1..]);
      assert JoinSpaces(ts) == w + " " + rest;
      assert w + " " + rest == w + ([' '] + rest);
      TokensOfWordThen(w, [' '] + rest);
      TokensSkipSpace(' ', rest);
      TokensOfJoin(ts[1..]);
      assert [w] + ts[1..] == ts;
    }
  }

  lemma {:induction false} JoinNormalized(ts: seq<string>)
    requires forall k :: 0 <= k < |ts| ==> IsWord(ts[k])
    ensures Normalized(JoinSpaces(ts))
    ensures ts != [] ==> |JoinSpaces(ts)| > 0 && !IsSpace(JoinSpaces(ts)[0])
    decreases |ts|
  {
    if |ts| > 1 {
      JoinNormalized(ts[1..]);
      var w, rest := ts[0], JoinSpaces(ts[1..]);
      var t := w + " " + rest;
      assert forall i :: 0 <= i < |w| ==> t[i] == w[i];
      assert forall i :: |w| < i < |t| ==> t[i] == rest[i - |w| - 1];
      assert t[|w|] == ' ' && t[|w| + 1] == rest[0];
    }
  }

  /** A suffix of a normalized string that starts at a non-space is
      normalized. */
  lemma NormalizedSuffix(t: string, m: nat)
    requires Normalized(t) && m < |t| && !IsSpace(t[m])
    ensures Normalized(t[m..])
  {
    var u := t[m..];
    forall i | 0 <= i < |u| && IsSpace(u[i])
      ensures u[i] == ' ' && 0 < i < |u| - 1 && !IsSpace(u[i + 1])
    {
      assert u[i] == t[m + i];
      assert u[i + 1] == t[m + i + 1];
    }
  }

  /** A normalized string is its own normal form. */
  lemma {:induction false} NormalizedFixed(t: string)
    requires Normalized(t)
    ensures JoinSpaces(Tokens(t)) == t
    decreases |t|
  {
    if t != [] {
      var n := WordLen(t);
      var w := t[..n];
      assert IsWord(w);
      if n == |t| {
        assert w == t;
        TokensOfWordThen(w, "");
        assert w + "" == t;
      } else {
        assert t[n] == ' ' && n + 1 < |t| && !IsSpace(t[n + 1]);
        NormalizedSuffix(t, n + 1);
        NormalizedFixed(t[n + 1..]);
        NormalizedFixedStep(t, n);
      }
    }
  }

  /** The inductive step of `NormalizedFixed`: a word, one space, then a
      rest that is its own normal form. */
  lemma NormalizedFixedStep(t: string, n: nat)
    requires n < |t| - 1 && IsWord(t[..n]) && t[n] == ' ' && !IsSpace(t[n + 1])
    requires JoinSpaces(Tokens(t[n + 1..])) == t[n + 1..]
    ensures JoinSpaces(Tokens(t)) == t
  {
    var w, u := t[..n], t[n + 1..];
    TokensAtSpace(t, n);
    var us := Tokens(u);
    assert us != [] by { assert u[0] == t[n + 1]; }
    assert ([w] + us)[1..] == us;
    assert JoinSpaces([w] + us) == w + " " + JoinSpaces(us);
    SplitAtSpace(t, n);
  }

  /** The words of a word, one space, then a rest. */
  lemma TokensAtSpace(t: string, n: nat)
    requires n < |t| && IsWord(t[..n]) && t[n] == ' '
    ensures Tokens(t) == [t[..n]] + Tokens(t[n + 1..])
  {
    var w, u := t[..n], t[n + 1..];
    SplitAtSpace(t, n);
    assert t[n..] == [' '] + u;
    assert t == w + t[n..];
    TokensOfWordThen(w, t[n..]);
    TokensSkipSpace(' ', u);
  }

  lemma SplitAtSpace(t: string, n: nat)
    requires n < |t| && t[n] == ' '
    ensures t == t[..n] + " " + t[n + 1..]
  {
    assert t[n..n + 1] == " ";
    assert t == t[..n] + t[n..n + 1] + t[n + 1..];
  }

  /** `" ".join(s.split())`: the words of `s` joined by single spaces. */
  function NormText(s: string): (r: string)
    ensures Normalized(r)
    ensures Tokens(r) == Tokens(s)
    ensures r == "" <==> AllSpace(s)
  {
    JoinNormalized(Tokens(s));
    TokensOfJoin(Tokens(s));
    JoinSpaces(Tokens(s))
  }

  /** The normal form is unique: a normalized string with the same words as
      `s` is `NormText(s)`. */
  lemma NormTextUnique(s: string, t: string)
    requires Normalized(t) && Tokens(t) == Tokens(s)
    ensures t == NormText(s)
  {
    NormalizedFixed(t);
  }

  lemma NormTextIdempotent(s: string)
    ensures NormText(NormText(s)) == NormText(s)
  {
    NormTextUnique(NormText(s), NormText(s));
  }

  /** A character missing from `s` is missing from each of its words. */
  lemma {:induction false} TokensAvoid(s: string, c: char)
    requires c !in s
    ensures forall k :: 0 <= k < |Tokens(s)| ==> c !in Tokens(s)[k]
    decreases |s|
  {
    if s != [] {
      if IsSpace(s[0]) {
        assert c !in s[1..];
        TokensAvoid(s[1..], c);
      } else {
        var n := WordLen(s);
        var rest := Tokens(s[n..]);
        assert c !in s[..n] && c !in s[n..];
        TokensAvoid(s[n..], c);
        assert Tokens(s) == [s[..n]] + rest;
        assert forall k :: 1 <= k < |Tokens(s)| ==> Tokens(s)[k] == rest[k - 1];
      }
    }
  }

  /** Joining words with spaces adds no character but the space. */
  lemma {:induction false} JoinAvoids(ts: seq<string>, c: char)
    requires c != ' ' && forall k :: 0 <= k < |ts| ==> c !in ts[k]
    ensures c !in JoinSpaces(ts)
    decreases |ts|
  {
    if |ts| > 1 {
      JoinAvoids(ts[1..], c);
    }
  }

  /** Every character of `NormText(s)` but the space comes from `s`. */
  lemma NormTextChars(s: string, c: char)
    requires c != ' ' && c in NormText(s)
    ensures c in s
  {
    if c !in s {
      TokensAvoid(s, c);
      JoinAvoids(Tokens(s), c);
    }
  }

  /** `s.replace("*", "")`. */
  function RemoveStars(s: string): (r: string)
    ensures '*' !in r
    ensures |r| == |s| - multiset(s)['*']
    ensures '*' !in s ==> r == s
  {
    if s == [] then ""
    else
      assert s == [s[0]] + s[1..];
      if s[0] == '*' then RemoveStars(s[1..]) else [s[0]] + RemoveStars(s[1..])
  }

  /** The first index at or after `j` that does not hold whitespace. */
  function SkipSpaces(s: string, j: nat): (n: nat)
    requires j <= |s|
    ensures j <= n <= |s|
    ensures forall q :: j <= q < n ==> IsSpace(s[q])
    ensures n < |s| ==> !IsSpace(s[n])
    decreases |s| - j
  {
    if j < |s| && IsSpace(s[j]) then SkipSpaces(s, j + 1) else j
  }

  /** The least index `n <= j` with whitespace everywhere in `s[n..j]`. */
  function BackSpaces(s: string, j: nat): (n: nat)
    requires j <= |s|
    ensures n <= j
    ensures forall q :: n <= q < j ==> IsSpace(s[q])
    ensures n > 0 ==> !IsSpace(s[n - 1])
  {
    if j > 0 && IsSpace(s[j - 1]) then BackSpaces(s, j - 1) else j
  }

  /** `s.strip()`: `s` without its leading and trailing whitespace. */
  function Strip(s: string): (r: string)
    ensures exists i :: 0 <= i <= |s| - |r| && r == s[i..i + |r|]
                        && AllSpace(s[..i]) && AllSpace(s[i + |r|..])
    ensures r == [] || (!IsSpace(r[0]) && !IsSpace(r[|r| - 1]))
  {
    var i := SkipSpaces(s, 0);
    if i == |s| then
      assert AllSpace(s[..i]) && s[..i] == s;
      ""
    else
      var j := BackSpaces(s, |s|);
      assert !IsSpace(s[i]);
      assert i < j;
      var r := s[i..j];
      assert AllSpace(s[..i]);
      assert AllSpace(s[j..]);
      assert r[0] == s[i] && r[|r| - 1] == s[j - 1];
      r
  }

  lemma StripNoSpace(s: string)
    requires forall i :: 0 <= i < |s| ==> !IsSpace(s[i])
    ensures Strip(s) == s
  {
    assert s == [] || SkipSpaces(s, 0) == 0;
    assert s == [] || BackSpaces(s, |s|) == |s|;
    assert s[0..|s|] == s;
  }

  /** `s.isdigit()`. */
  predicate AllDigits(s: string) {
    |s| > 0 && forall i :: 0 <= i < |s| ==> IsDigit(s[i])
  }

  function DigitValue(c: char): (k: int)
    requires IsDigit(c)
    ensures 0 <= k <= 9
  {
    c as int - '0' as int
  }

  /** The number a string of decimal digits denotes. */
  function DigitsValue(s: string): (n: int)
    requires forall i :: 0 <= i < |s| ==> IsDigit(s[i])
    ensures n >= 0
  {
    if s == [] then 0 else DigitsValue(s[..|s| - 1]) * 10 + DigitValue(s[|s| - 1])
  }

  /** Digits with single underscores between them, as `int()` accepts. */
  predicate UnderscoredDigits(b: string) {
    && |b| > 0 && IsDigit(b[0])
    && (forall i :: 0 <= i < |b| ==> IsDigit(b[i]) || b[i] == '_')
    && (forall i :: 0 <= i < |b| - 1 && b[i] == '_' ==> IsDigit(b[i + 1]))
    && b[|b| - 1] != '_'
  }

  function DropUnderscores(b: string): (r: string)
    requires forall i :: 0 <= i < |b| ==> IsDigit(b[i]) || b[i] == '_'
    ensures forall i :: 0 <= i < |r| ==> IsDigit(r[i])
    ensures (forall i :: 0 <= i < |b| ==> IsDigit(b[i])) ==> r == b
  {
    if b == [] then ""
    else if b[0] == '_' then DropUnderscores(b[1..])
    else [b[0]] + DropUnderscores(b[1..])
  }

  function UnsignedValue(b: string): int
    requires UnderscoredDigits(b)
  {
    DigitsValue(DropUnderscores(b))
  }

  /** `int(s)` on a `str`: surrounding whitespace, an optional sign, then
      digits possibly grouped by single underscores; `None` where Python
      raises `ValueError`. */
  function PyInt(s: string): Option<int> {
    SignedValue(Strip(s))
  }

  /** What `int()` makes of the text once the whitespace is stripped. */
  function SignedValue(t: string): Option<int> {
    if |t| > 0 && (t[0] == '+' || t[0] == '-') then
      if UnderscoredDigits(t[1..]) then
        Some(if t[0] == '-' then -UnsignedValue(t[1..]) else UnsignedValue(t[1..]))
      else None
    else if UnderscoredDigits(t) then Some(UnsignedValue(t))
    else None
  }

  lemma UnsignedOfDigits(s: string)
    requires AllDigits(s)
    ensures UnderscoredDigits(s) && UnsignedValue(s) == DigitsValue(s)
  {
    assert forall i :: 0 <= i < |s| ==> s[i] != '_';
    assert DropUnderscores(s) == s;
  }

  /** `int()` of a digit string is its decimal value. */
  lemma PyIntOfDigits(s: string)
    requires AllDigits(s)
    ensures PyInt(s) == Some(DigitsValue(s))
  {
    StripNoSpace(s);
    UnsignedOfDigits(s);
    assert s[0] != '+' && s[0] != '-';
    assert SignedValue(s) == Some(DigitsValue(s));
  }

  function DigitChar(k: int): char
    requires 0 <= k <= 9
  {
    (('0' as int) + k) as char
  }

  lemma DigitCharValue(k: int)
    requires 0 <= k <= 9
    ensures IsDigit(DigitChar(k)) && DigitValue(DigitChar(k)) == k
  {
  }

  lemma DigitsValueSnoc(s: string, c: char)
    requires forall i :: 0 <= i < |s| ==> IsDigit(s[i])
    requires IsDigit(c)
    ensures DigitsValue(s + [c]) == DigitsValue(s) * 10 + DigitValue(c)
  {
    assert (s + [c])[..|s|] == s;
  }

  function Pow10(k: nat): nat {
    if k == 0 then 1 else 10 * Pow10(k - 1)
  }

  /** The `k`-digit decimal numeral of `n`, with leading zeros. */
  function Numeral(n: nat, k: nat): (s: string)
    requires n < Pow10(k)
    ensures |s| == k && (forall i :: 0 <= i < k ==> IsDigit(s[i])) && DigitsValue(s) == n
  {
    if k == 0 then ""
    else
      var q, d := n / 10, n % 10;
      assert n == q * 10 + d;
      DigitCharValue(d);
      var init := Numeral(q, k - 1);
      DigitsValueSnoc(init, DigitChar(d));
      init + [DigitChar(d)]
  }

  /** A day number as written in prose: one digit, or two. */
  function DayDigits(d: int): (s: string)
    requires 1 <= d <= 99
    ensures 1 <= |s| <= 2 && AllDigits(s) && DigitsValue(s) == d
  {
    if d < 10 then Numeral(d, 1) else Numeral(d, 2)
  }

  /** A year as four digits, as `%Y` and `\d{4}` read it. */
  function FourDigits(y: int): (s: string)
    requires 0 <= y <= 9999
    ensures |s| == 4 && AllDigits(s) && DigitsValue(s) == y
  {
    assert Pow10(4) == 10000;
    Numeral(y, 4)
  }

  /** ASCII `str.lower()`. */
  function AsciiLower(s: string): (r: string)
    ensures |r| == |s|
  {
    seq(|s|, i requires 0 <= i < |s| =>
      if 'A' <= s[i] <= 'Z' then ((s[i] as int) + 32) as char else s[i])
  }

  /** Python's `<` on `str`: code-point lexicographic order. */
  predicate StrLess(a: string, b: string)
    decreases |a|
  {
    if a == [] then b != []
    else if b == [] then false
    else if a[0] != b[0] then a[0] < b[0]
    else StrLess(a[1..], b[1..])
  }

  lemma {:induction false} StrLessIrreflexive(a: string)
    ensures !StrLess(a, a)
    decreases |a|
  {
    if a != [] { StrLessIrreflexive(a[1..]); }
  }

  lemma {:induction false} StrLessTransitive(a: string, b: string, c: string)
    requires StrLess(a, b) && StrLess(b, c)
    ensures StrLess(a, c)
    decreases |a|
  {
    if a != [] && a[0] == b[0] && b[0] == c[0] {
      StrLessTransitive(a[1..], b[1..], c[1..]);
    }
  }

  lemma {:induction false} StrLessTotal(a: string, b: string)
    requires a != b
    ensures StrLess(a, b) || StrLess(b, a)
    decreases |a|
  {
    if a != [] && b != [] && a[0] == b[0] {
      assert a == [a[0]] + a[1..] && b == [b[0]] + b[1..];
      StrLessTotal(a[1..], b[1..]);
    }
  }
}
