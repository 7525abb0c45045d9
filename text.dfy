/**
 * The string operations the zone builder relies on: `{}` formatting of
 * integers, lowercase hex digits, joining with a separator (the `first`
 * flag loops), `ends_with`, `str::replace`, and the scanner for the
 * `{key}` placeholders matched by `\{([_0-9a-zA-Z]+)}`.
 */
module Text {

  // ---------------------------------------------------------------------
  // Prefixes

  lemma TakeSnoc<T>(s: seq<T>, j: nat)
    requires j < |s|
    ensures s[..j + 1] == s[..j] + [s[j]]
  {
  }

  lemma TakeAll<T>(s: seq<T>)
    ensures s[..|s|] == s
  {
  }

  // ---------------------------------------------------------------------
  // Decimal numbers

  function DigitChar(d: nat): (c: char)
    requires d < 10
    ensures '0' <= c <= '9'
  {
    "0123456789"[d]
  }

  predicate IsDigit(c: char)
  {
    '0' <= c <= '9'
  }

  function DigitValue(c: char): (d: nat)
    requires IsDigit(c)
    ensures d < 10
  {
    (c as int) - ('0' as int)
  }

  lemma DigitValueOfChar(d: nat)
    requires d < 10
    ensures DigitValue(DigitChar(d)) == d
  {
  }

  /** `format!("{}", n)` for an unsigned n: decimal digits, no leading zero. */
  function Decimal(n: nat): (r: string)
    ensures 1 <= |r|
    ensures AllDigits(r)
  {
    if n < 10 then [DigitChar(n)] else Decimal(n / 10) + [DigitChar(n % 10)]
  }

  /** The number a string of digits denotes, most significant first. */
  function ParseDecimal(s: string): nat
    requires AllDigits(s)
  {
    if |s| == 0 then 0 else ParseDecimal(s[..|s| - 1]) * 10 + DigitValue(s[|s| - 1])
  }

  /** Reading back the decimal text of n gives n. */
  lemma {:induction false} DecimalRoundTrip(n: nat)
    ensures ParseDecimal(Decimal(n)) == n
  {
    DigitValueOfChar(n % 10);
    if n >= 10 {
      DecimalRoundTrip(n / 10);
      var d := Decimal(n);
      assert d[..|d| - 1] == Decimal(n / 10);
    }
  }

  /** A value below 10^k takes at most k digits. */
  lemma {:induction false} DecimalLength(n: nat, k: nat, bound: nat)
    requires bound == Pow10(k) && n < bound
    ensures |Decimal(n)| <= k || (n < 10 && k == 0)
  {
    if n >= 10 {
      assert k >= 1;
      DivBelowPow10(n, k);
      DecimalLength(n / 10, k - 1, Pow10(k - 1));
    }
  }

  function Pow10(k: nat): (r: nat)
    ensures r >= 1
  {
    if k == 0 then 1 else 10 * Pow10(k - 1)
  }

  lemma DivBelowPow10(n: nat, k: nat)
    requires k >= 1 && n < Pow10(k)
    ensures n / 10 < Pow10(k - 1)
  {
  }

  /** An octet takes one to three digits. */
  lemma OctetDigits(n: nat)
    requires n < 256
    ensures 1 <= |Decimal(n)| <= 3
  {
    DecimalLength(n, 3, Pow10(3));
  }

  /**
   * `format!("{}", i)` for a signed i: a minus sign before the digits of a
   * negative value. It is a numeral that starts with `-` exactly for a
   * negative value; `SignedDecimalRoundTrip` shows it reads back as i.
   */
  function SignedDecimal(i: int): (r: string)
    ensures |r| >= 1 && (r[0] == '-' <==> i < 0)
    ensures IsSignedNumeral(r)
  {
    if i < 0 then "-" + Decimal(-i) else Decimal(i)
  }

  predicate AllDigits(s: string)
  {
    forall i :: 0 <= i < |s| ==> IsDigit(s[i])
  }

  /** Digits, optionally after a minus sign. */
  predicate IsSignedNumeral(s: string)
  {
    if |s| > 0 && s[0] == '-' then AllDigits(s[1..]) else AllDigits(s)
  }

  /** The value of an optionally negative decimal numeral. */
  function ParseSigned(s: string): int
    requires IsSignedNumeral(s)
  {
    if |s| > 0 && s[0] == '-' then -(ParseDecimal(s[1..]) as int) else ParseDecimal(s)
  }

  /** Signed decimal text reads back as the value. */
  lemma SignedDecimalRoundTrip(i: int)
    ensures IsSignedNumeral(SignedDecimal(i)) && ParseSigned(SignedDecimal(i)) == i
  {
    var r := SignedDecimal(i);
    if i < 0 {
      var d := Decimal(-i);
      assert r == "-" + d;
      assert r[1..] == d;
      DecimalRoundTrip(-i);
    } else {
      assert r == Decimal(i);
      DecimalRoundTrip(i);
    }
  }

  // ---------------------------------------------------------------------
  // Hex digits

  /** The lowercase hex digit of d, as `{:x}` writes it. */
  function HexDigit(d: nat): (c: char)
    requires d < 16
    ensures c in "0123456789abcdef"
  {
    "0123456789abcdef"[d]
  }

  /** Distinct nibbles have distinct digits. */
  lemma HexDigitInjective(a: nat, b: nat)
    requires a < 16 && b < 16 && HexDigit(a) == HexDigit(b)
    ensures a == b
  {
  }

  // ---------------------------------------------------------------------
  // Joining with a separator

  /**
   * The parts with `sep` between neighbours: what a loop produces that
   * writes the first part alone and every later one after `sep`.
   */
  function Join(sep: string, parts: seq<string>): string
  {
    if |parts| == 0 then ""
    else if |parts| == 1 then parts[0]
    else Join(sep, parts[..|parts| - 1]) + sep + parts[|parts| - 1]
  }

  /** Appending a part: the next step of the `first`-flag loop. */
  lemma JoinSnoc(sep: string, parts: seq<string>, p: string)
    ensures Join(sep, parts + [p]) == if |parts| == 0 then p else Join(sep, parts) + sep + p
  {
    assert (parts + [p])[..|parts|] == parts;
  }

  /** A join holds a character only if the separator or a part does. */
  lemma {:induction false} JoinAvoids(sep: string, parts: seq<string>, c: char)
    requires c !in sep
    requires forall i :: 0 <= i < |parts| ==> c !in parts[i]
    ensures c !in Join(sep, parts)
  {
    if |parts| > 1 {
      JoinAvoids(sep, parts[..|parts| - 1], c);
    }
  }

  function TotalLength(parts: seq<string>): nat
  {
    if |parts| == 0 then 0 else TotalLength(parts[..|parts| - 1]) + |parts[|parts| - 1]|
  }

  lemma MulSucc(a: nat, b: nat)
    ensures (a + 1) * b == a * b + b
  {
  }

  /** n parts joined take their own characters plus n - 1 separators. */
  lemma {:induction false} JoinLength(sep: string, parts: seq<string>)
    requires |parts| >= 1
    ensures |Join(sep, parts)| == TotalLength(parts) + (|parts| - 1) * |sep|
  {
    if |parts| > 1 {
      var init := parts[..|parts| - 1];
      JoinLength(sep, init);
      MulSucc(|init| - 1, |sep|);
      assert |Join(sep, parts)| == |Join(sep, init)| + |sep| + |parts[|parts| - 1]|;
    }
  }

  /** The last position of c in s, or -1. */
  function LastIndexOf(s: string, c: char): (r: int)
    ensures -1 <= r < |s|
  {
    if |s| == 0 then -1
    else if s[|s| - 1] == c then |s| - 1
    else LastIndexOf(s[..|s| - 1], c)
  }

  /** `s.split(c)`: the pieces between occurrences of c. */
  function Split(s: string, c: char): (r: seq<string>)
    ensures |r| >= 1
    decreases |s|
  {
    var i := LastIndexOf(s, c);
    if i < 0 then [s] else Split(s[..i], c) + [s[i + 1..]]
  }

  /** Splitting a join on a one-character separator that no part contains gives the parts back. */
  lemma {:induction false} SplitJoin(parts: seq<string>, c: char)
    requires |parts| >= 1
    requires forall i :: 0 <= i < |parts| ==> c !in parts[i]
    ensures Split(Join([c], parts), c) == parts
  {
    if |parts| == 1 {
      LastIndexAbsent(parts[0], c);
    } else {
      var init, last := parts[..|parts| - 1], parts[|parts| - 1];
      var s := Join([c], parts);
      var a := Join([c], init);
      assert s == a + [c] + last;
      LastIndexAfter(a, c, last);
      assert s[..|a|] == a && s[|a| + 1..] == last;
      SplitJoin(init, c);
    }
  }

  lemma {:induction false} LastIndexAbsent(s: string, c: char)
    requires c !in s
    ensures LastIndexOf(s, c) == -1
  {
    if |s| > 0 {
      assert s[|s| - 1] in s;
      assert forall x :: x in s[..|s| - 1] ==> x in s;
      LastIndexAbsent(s[..|s| - 1], c);
    }
  }

  lemma {:induction false} LastIndexAfter(a: string, c: char, b: string)
    requires c !in b
    ensures LastIndexOf(a + [c] + b, c) == |a|
  {
    if |b| > 0 {
      var s := a + [c] + b;
      assert b[|b| - 1] in b;
      assert s[..|s| - 1] == a + [c] + b[..|b| - 1];
      assert forall x :: x in b[..|b| - 1] ==> x in b;
      LastIndexAfter(a, c, b[..|b| - 1]);
    }
  }

  // ---------------------------------------------------------------------
  // Suffixes

  /** `s.ends_with(".")` */
  predicate EndsWithDot(s: string)
  {
    |s| > 0 && s[|s| - 1] == '.'
  }

  // ---------------------------------------------------------------------
  // `str::replace`

  predicate StartsWith(s: string, p: string)
  {
    |p| <= |s| && s[..|p|] == p
  }

  /** p occurs in s at some position. */
  predicate Occurs(s: string, p: string)
  {
    exists i :: 0 <= i <= |s| && StartsWith(s[i..], p)
  }

  /** `s.replace(pat, rep)`: every non-overlapping occurrence of pat, scanning left to right, becomes rep. */
  function ReplaceAll(s: string, pat: string, rep: string): string
    requires |pat| > 0
    decreases |s|
  {
    if |s| == 0 then ""
    else if StartsWith(s, pat) then rep + ReplaceAll(s[|pat|..], pat, rep)
    else [s[0]] + ReplaceAll(s[1..], pat, rep)
  }

  lemma OccursAtStart(s: string, pat: string)
    requires StartsWith(s, pat)
    ensures Occurs(s, pat)
  {
    assert s[0..] == s;
  }

  lemma OccursInTail(s: string, pat: string)
    requires |s| > 0 && Occurs(s[1..], pat)
    ensures Occurs(s, pat)
  {
    var i :| 0 <= i <= |s[1..]| && StartsWith(s[1..][i..], pat);
    assert s[1..][i..] == s[i + 1..];
  }

  /** With no occurrence of the pattern, `replace` changes nothing. */
  lemma {:induction false} ReplaceAllAbsent(s: string, pat: string, rep: string)
    requires |pat| > 0 && !Occurs(s, pat)
    ensures ReplaceAll(s, pat, rep) == s
    decreases |s|
  {
    if |s| > 0 {
      if StartsWith(s, pat) {
        OccursAtStart(s, pat);
      } else if Occurs(s[1..], pat) {
        OccursInTail(s, pat);
      } else {
        ReplaceAllAbsent(s[1..], pat, rep);
      }
    }
  }

  /** Replacing a pattern by itself changes nothing. */
  lemma {:induction false} ReplaceAllSelf(s: string, pat: string)
    requires |pat| > 0
    ensures ReplaceAll(s, pat, pat) == s
    decreases |s|
  {
    if |s| > 0 {
      if StartsWith(s, pat) {
        ReplaceAllSelf(s[|pat|..], pat);
        assert s == s[..|pat|] + s[|pat|..];
      } else {
        ReplaceAllSelf(s[1..], pat);
        assert s == [s[0]] + s[1..];
      }
    }
  }

  // ---------------------------------------------------------------------
  // `{key}` placeholders

  /** The characters of `[_0-9a-zA-Z]`. */
  predicate IsKeyChar(c: char)
  {
    c == '_' || ('0' <= c <= '9') || ('a' <= c <= 'z') || ('A' <= c <= 'Z')
  }

  /** The end of the run of key characters that starts at i. */
  function KeyEnd(s: string, i: nat): (j: nat)
    requires i <= |s|
    ensures i <= j <= |s|
    ensures forall k :: i <= k < j ==> IsKeyChar(s[k])
    ensures j < |s| ==> !IsKeyChar(s[j])
    decreases |s| - i
  {
    if i < |s| && IsKeyChar(s[i]) then KeyEnd(s, i + 1) else i
  }

  /**
   * The keys of the placeholders of s from position i on, in the order
   * `captures_iter` reports them: at each position a `{`, one or more key
   * characters and a `}` form a match, and the scan resumes after it.
   */
  function Keys(s: string, i: nat): seq<string>
    requires i <= |s|
    decreases |s| - i
  {
    if i == |s| then []
    else if s[i] == '{' && KeyEnd(s, i + 1) > i + 1 && KeyEnd(s, i + 1) < |s| && s[KeyEnd(s, i + 1)] == '}' then
      [s[i + 1..KeyEnd(s, i + 1)]] + Keys(s, KeyEnd(s, i + 1) + 1)
    else Keys(s, i + 1)
  }

  /** The placeholder text `{key}` that `capture[0]` holds. */
  function Placeholder(key: string): string
  {
    "{" + key + "}"
  }

  predicate IsKey(k: string)
  {
    |k| > 0 && forall i :: 0 <= i < |k| ==> IsKeyChar(k[i])
  }

  /** Every key the scanner reports is a non-empty run of key characters whose placeholder occurs in s. */
  lemma {:induction false} KeysAreMatches(s: string, i: nat)
    requires i <= |s|
    ensures forall k :: k in Keys(s, i) ==> IsKey(k) && Occurs(s, Placeholder(k))
    decreases |s| - i
  {
    if i < |s| {
      var j := KeyEnd(s, i + 1);
      if s[i] == '{' && j > i + 1 && j < |s| && s[j] == '}' {
        KeysAreMatches(s, j + 1);
        var k := s[i + 1..j];
        assert s[i..][..|Placeholder(k)|] == Placeholder(k);
      } else {
        KeysAreMatches(s, i + 1);
      }
    }
  }

  /** A string with no `{` has no placeholders. */
  lemma {:induction false} NoBraceNoKeys(s: string, i: nat)
    requires i <= |s| && '{' !in s
    ensures Keys(s, i) == []
    decreases |s| - i
  {
    if i < |s| {
      assert s[i] in s;
      NoBraceNoKeys(s, i + 1);
    }
  }

  /** Positions without a `{` start no placeholder: the scan moves past them. */
  lemma {:induction false} KeysSkip(s: string, i: nat, j: nat)
    requires i <= j <= |s|
    requires forall k :: i <= k < j ==> s[k] != '{'
    ensures Keys(s, i) == Keys(s, j)
    decreases j - i
  {
    if i < j {
      KeysSkip(s, i + 1, j);
    }
  }

  /** The run of key characters from i ends at the first other character. */
  lemma {:induction false} KeyEndAt(s: string, i: nat, j: nat)
    requires i <= j < |s|
    requires forall k :: i <= k < j ==> IsKeyChar(s[k])
    requires !IsKeyChar(s[j])
    ensures KeyEnd(s, i) == j
    decreases j - i
  {
    if i < j {
      KeyEndAt(s, i + 1, j);
    }
  }

  /** A placeholder at position i is reported, and the scan resumes after its `}`. */
  lemma KeysAtPlaceholder(s: string, i: nat, k: string)
    requires IsKey(k) && i + |k| + 2 <= |s| && s[i..i + |k| + 2] == Placeholder(k)
    ensures Keys(s, i) == [k] + Keys(s, i + |k| + 2)
  {
    var close := i + 1 + |k|;
    assert s[i] == s[i..i + |k| + 2][0] == '{';
    assert s[close] == s[i..i + |k| + 2][|k| + 1] == '}';
    forall m | i + 1 <= m < close
      ensures IsKeyChar(s[m])
    {
      assert s[m] == s[i..i + |k| + 2][m - i] == k[m - i - 1];
    }
    KeyEndAt(s, i + 1, close);
    forall m | 0 <= m < |k|
      ensures s[i + 1..close][m] == k[m]
    {
      assert s[i + 1 + m] == s[i..i + |k| + 2][m + 1] == k[m];
    }
    assert s[i + 1..close] == k;
  }

  /** Between two texts without a `{`, a single placeholder is the only key the scan finds. */
  lemma SingleKey(a: string, k: string, b: string)
    requires '{' !in a && '{' !in b && IsKey(k)
    ensures Keys(a + Placeholder(k) + b, 0) == [k]
  {
    var s := a + Placeholder(k) + b;
    var after := |a| + |k| + 2;
    assert s[..|a|] == a && s[|a|..after] == Placeholder(k) && s[after..] == b;
    forall m | 0 <= m < |a|
      ensures s[m] != '{'
    {
      assert s[m] == a[m];
    }
    KeysSkip(s, 0, |a|);
    KeysAtPlaceholder(s, |a|, k);
    forall m | after <= m < |s|
      ensures s[m] != '{'
    {
      assert s[m] == b[m - after];
    }
    KeysSkip(s, after, |s|);
  }

  /** A prefix that holds no first character of the pattern is copied unchanged. */
  lemma {:induction false} ReplaceAllPrefixFree(a: string, t: string, pat: string, rep: string)
    requires |pat| > 0 && pat[0] !in a
    ensures ReplaceAll(a + t, pat, rep) == a + ReplaceAll(t, pat, rep)
    decreases |a|
  {
    if |a| == 0 {
      assert a + t == t;
    } else {
      assert (a + t)[0] == a[0] && a[0] in a;
      assert (a + t)[1..] == a[1..] + t;
      assert a == [a[0]] + a[1..];
      ReplaceAllPrefixFree(a[1..], t, pat, rep);
      assert [a[0]] + (a[1..] + ReplaceAll(t, pat, rep)) == a + ReplaceAll(t, pat, rep);
    }
  }

  /** `replace` on text with one placeholder and no other `{` puts the value in its place. */
  lemma ReplaceSingle(a: string, k: string, b: string, v: string)
    requires '{' !in a && '{' !in b
    ensures ReplaceAll(a + Placeholder(k) + b, Placeholder(k), v) == a + v + b
  {
    var p := Placeholder(k);
    assert p[0] == '{';
    assert a + p + b == a + (p + b);
    ReplaceAllPrefixFree(a, p + b, p, v);
    assert StartsWith(p + b, p) && (p + b)[|p|..] == b;
    ReplaceAllPrefixFree(b, "", p, v);
    assert b + "" == b;
  }

  // ---------------------------------------------------------------------
  // texts with several placeholders

  /** parts[0] + slots[0] + parts[1] + ... + slots[n - 1] + parts[n]. */
  function Fill(parts: seq<string>, slots: seq<string>): string
    requires |parts| == |slots| + 1
    decreases |slots|
  {
    if |slots| == 0 then parts[0] else parts[0] + slots[0] + Fill(parts[1..], slots[1..])
  }

  /** The placeholder of each key, in order. */
  function Placeholders(keys: seq<string>): (r: seq<string>)
    ensures |r| == |keys| && forall i :: 0 <= i < |keys| ==> r[i] == Placeholder(keys[i])
  {
    seq(|keys|, i requires 0 <= i < |keys| => Placeholder(keys[i]))
  }

  predicate BraceFree(parts: seq<string>)
  {
    forall i :: 0 <= i < |parts| ==> '{' !in parts[i]
  }

  predicate AllKeys(keys: seq<string>)
  {
    forall i :: 0 <= i < |keys| ==> IsKey(keys[i])
  }

  /** A slot of a partly substituted text: plain text without `{`, or a whole placeholder. */
  predicate IsSlot(s: string)
  {
    '{' !in s || (|s| >= 2 && s == Placeholder(s[1..|s| - 1]) && IsKey(s[1..|s| - 1]))
  }

  /** Each slot equal to p becomes v. */
  function Swap(slots: seq<string>, p: string, v: string): (r: seq<string>)
    ensures |r| == |slots|
    ensures forall i :: 0 <= i < |slots| ==> r[i] == if slots[i] == p then v else slots[i]
  {
    seq(|slots|, i requires 0 <= i < |slots| => if slots[i] == p then v else slots[i])
  }

  /** s ends with t from position d on. */
  predicate EndsWithAt(s: string, t: string, d: nat)
  {
    |s| == d + |t| && forall m :: 0 <= m < |t| ==> s[d + m] == t[m]
  }

  /** The key-character scan from inside a suffix sees what it sees in the suffix alone. */
  lemma {:induction false} KeyEndOffset(s: string, t: string, d: nat, i: nat)
    requires EndsWithAt(s, t, d) && i <= |t|
    ensures KeyEnd(s, d + i) == d + KeyEnd(t, i)
    decreases |t| - i
  {
    if i < |t| {
      assert s[d + i] == t[i];
      KeyEndOffset(s, t, d, i + 1);
    }
  }

  /** Whether a `{key}` match starts at position i: the condition of the scan in `Keys`. */
  predicate Opens(s: string, i: nat)
    requires i < |s|
  {
    s[i] == '{' && KeyEnd(s, i + 1) > i + 1 && KeyEnd(s, i + 1) < |s| && s[KeyEnd(s, i + 1)] == '}'
  }

  lemma OpensOffset(s: string, t: string, d: nat, i: nat)
    requires EndsWithAt(s, t, d) && i < |t|
    ensures Opens(s, d + i) == Opens(t, i)
    ensures KeyEnd(s, d + i + 1) == d + KeyEnd(t, i + 1)
    ensures s[d + i + 1..d + KeyEnd(t, i + 1)] == t[i + 1..KeyEnd(t, i + 1)]
  {
    assert s[d + i] == t[i];
    KeyEndOffset(s, t, d, i + 1);
    var e := KeyEnd(t, i + 1);
    if e < |t| {
      assert s[d + e] == t[e];
    }
    var u, v := s[d + i + 1..d + e], t[i + 1..e];
    assert u == v by {
      forall m | 0 <= m < |v|
        ensures u[m] == v[m]
      {
        assert s[d + (i + 1 + m)] == t[i + 1 + m];
      }
    }
  }

  /** One step of the scan at a match, inside a suffix and in the suffix alone. */
  lemma KeysOffsetOpen(s: string, t: string, d: nat, i: nat)
    requires EndsWithAt(s, t, d) && i < |t| && Opens(t, i)
    requires Keys(s, d + KeyEnd(t, i + 1) + 1) == Keys(t, KeyEnd(t, i + 1) + 1)
    ensures Keys(s, d + i) == Keys(t, i)
  {
    OpensOffset(s, t, d, i);
  }

  /** One step of the scan past a non-match, inside a suffix and in the suffix alone. */
  lemma KeysOffsetSkip(s: string, t: string, d: nat, i: nat)
    requires EndsWithAt(s, t, d) && i < |t| && !Opens(t, i)
    requires Keys(s, d + i + 1) == Keys(t, i + 1)
    ensures Keys(s, d + i) == Keys(t, i)
  {
    OpensOffset(s, t, d, i);
  }

  /** The scan from inside a suffix finds what it finds in the suffix alone. */
  lemma {:induction false} KeysOffset(s: string, t: string, d: nat, i: nat)
    requires EndsWithAt(s, t, d) && i <= |t|
    ensures Keys(s, d + i) == Keys(t, i)
    decreases |t| - i
  {
    if i < |t| {
      if Opens(t, i) {
        KeysOffset(s, t, d, KeyEnd(t, i + 1) + 1);
        KeysOffsetOpen(s, t, d, i);
      } else {
        KeysOffset(s, t, d, i + 1);
        KeysOffsetSkip(s, t, d, i);
      }
    }
  }

  lemma KeysShift(x: string, t: string, i: nat)
    requires i <= |t|
    ensures Keys(x + t, |x| + i) == Keys(t, i)
  {
    assert EndsWithAt(x + t, t, |x|) by {
      forall m | 0 <= m < |t| ensures (x + t)[|x| + m] == t[m] { }
    }
    KeysOffset(x + t, t, |x|, i);
  }

  /** The first `{` of s opens a placeholder: that is the first key found. */
  lemma KeysAtFirstBrace(s: string, n: nat, k: string)
    requires IsKey(k) && n + |k| + 2 <= |s| && s[n..n + |k| + 2] == Placeholder(k)
    requires forall m :: 0 <= m < n ==> s[m] != '{'
    ensures Keys(s, 0) == [k] + Keys(s, n + |k| + 2)
  {
    KeysSkip(s, 0, n);
    KeysAtPlaceholder(s, n, k);
  }

  /** After text without `{`, a placeholder is the first key found. */
  lemma KeysThroughPlaceholder(a: string, k: string, rest: string)
    requires '{' !in a && IsKey(k)
    ensures Keys(a + Placeholder(k) + rest, 0) == [k] + Keys(a + Placeholder(k) + rest, |a| + |k| + 2)
  {
    var s := a + Placeholder(k) + rest;
    assert s[|a|..|a| + |k| + 2] == Placeholder(k);
    forall m | 0 <= m < |a|
      ensures s[m] != '{'
    {
      assert s[m] == a[m];
    }
    KeysAtFirstBrace(s, |a|, k);
  }

  /** After text without `{`, a placeholder is the first key found, and the scan goes on with what follows it. */
  lemma KeysAfterPlaceholder(a: string, k: string, rest: string)
    requires '{' !in a && IsKey(k)
    ensures Keys(a + Placeholder(k) + rest, 0) == [k] + Keys(rest, 0)
  {
    KeysThroughPlaceholder(a, k, rest);
    KeysShift(a + Placeholder(k), rest, 0);
  }

  lemma BraceFreeTail(parts: seq<string>)
    requires |parts| > 0 && BraceFree(parts)
    ensures '{' !in parts[0] && BraceFree(parts[1..])
  {
    forall i | 0 <= i < |parts| - 1 ensures '{' !in parts[1..][i] { assert parts[1..][i] == parts[i + 1]; }
  }

  lemma AllKeysTail(keys: seq<string>)
    requires |keys| > 0 && AllKeys(keys)
    ensures IsKey(keys[0]) && AllKeys(keys[1..])
  {
    forall i | 0 <= i < |keys| - 1 ensures IsKey(keys[1..][i]) { assert keys[1..][i] == keys[i + 1]; }
  }

  predicate AllSlots(slots: seq<string>)
  {
    forall i :: 0 <= i < |slots| ==> IsSlot(slots[i])
  }

  lemma AllSlotsTail(slots: seq<string>)
    requires |slots| > 0 && AllSlots(slots)
    ensures IsSlot(slots[0]) && AllSlots(slots[1..])
  {
    forall i | 0 <= i < |slots| - 1 ensures IsSlot(slots[1..][i]) { assert slots[1..][i] == slots[i + 1]; }
  }

  /** The scan finds the keys of a text's placeholders, in order and with repetitions, when the text between has no `{`. */
  lemma {:induction false} KeysOfFill(parts: seq<string>, keys: seq<string>)
    requires |parts| == |keys| + 1 && BraceFree(parts) && AllKeys(keys)
    ensures Keys(Fill(parts, Placeholders(keys)), 0) == keys
    decreases |keys|
  {
    var slots := Placeholders(keys);
    BraceFreeTail(parts);
    if |keys| == 0 {
      NoBraceNoKeys(parts[0], 0);
    } else {
      AllKeysTail(keys);
      assert slots[1..] == Placeholders(keys[1..]);
      KeysOfFill(parts[1..], keys[1..]);
      KeysAfterPlaceholder(parts[0], keys[0], Fill(parts[1..], slots[1..]));
      assert [keys[0]] + keys[1..] == keys;
    }
  }

  /** A placeholder starts with no other key's placeholder. */
  lemma PlaceholderStart(k: string, k2: string, t: string)
    requires IsKey(k) && IsKey(k2) && StartsWith(Placeholder(k2) + t, Placeholder(k))
    ensures k == k2
  {
    var s := Placeholder(k2) + t;
    var n := |k|;
    assert s[..n + 2] == Placeholder(k);
    assert s[n + 1] == '}' && s[|k2| + 1] == '}';
    forall m | 1 <= m <= n
      ensures s[m] != '}'
    {
      assert s[m] == Placeholder(k)[m] == k[m - 1];
    }
    forall m | 1 <= m <= |k2|
      ensures s[m] != '}'
    {
      assert s[m] == k2[m - 1];
    }
    assert n == |k2|;
    forall m | 0 <= m < n
      ensures k[m] == k2[m]
    {
      assert k[m] == Placeholder(k)[m + 1] == s[m + 1] == k2[m];
    }
  }

  /** `replace` of a key's placeholder over one slot and what follows: the slot is swapped if it is that placeholder, else copied. */
  lemma ReplaceSlot(s0: string, rest: string, k: string, v: string)
    requires IsSlot(s0) && IsKey(k)
    ensures ReplaceAll(s0 + rest, Placeholder(k), v) == (if s0 == Placeholder(k) then v else s0) + ReplaceAll(rest, Placeholder(k), v)
  {
    var p := Placeholder(k);
    assert p[0] == '{';
    if s0 == p {
      assert StartsWith(s0 + rest, p) && (s0 + rest)[|p|..] == rest;
    } else if '{' !in s0 {
      ReplaceAllPrefixFree(s0, rest, p, v);
    } else {
      var k2 := s0[1..|s0| - 1];
      if StartsWith(s0 + rest, p) {
        PlaceholderStart(k, k2, rest);
      }
      assert (s0 + rest)[0] == '{' && (s0 + rest)[1..] == s0[1..] + rest;
      assert s0[1..] == k2 + "}";
      assert '{' !in s0[1..] by {
        forall m | 0 <= m < |s0[1..]| ensures s0[1..][m] != '{' {
          if m < |k2| { assert s0[1..][m] == k2[m] && IsKeyChar(k2[m]); }
        }
      }
      ReplaceAllPrefixFree(s0[1..], rest, p, v);
      assert [s0[0]] + s0[1..] == s0;
    }
  }

  /** Swapping slot by slot: the first slot, then the rest. */
  lemma SwapTail(slots: seq<string>, p: string, v: string)
    requires |slots| > 0
    ensures Swap(slots, p, v)[0] == (if slots[0] == p then v else slots[0])
    ensures Swap(slots, p, v)[1..] == Swap(slots[1..], p, v)
  {
  }

  /** `replace` of a key's placeholder over text without `{`, one slot and what follows. */
  lemma ReplaceHead(a: string, s0: string, rest: string, k: string, v: string)
    requires '{' !in a && IsSlot(s0) && IsKey(k)
    ensures ReplaceAll(a + s0 + rest, Placeholder(k), v) == a + (if s0 == Placeholder(k) then v else s0) + ReplaceAll(rest, Placeholder(k), v)
  {
    var p := Placeholder(k);
    assert p[0] == '{';
    assert a + s0 + rest == a + (s0 + rest);
    ReplaceAllPrefixFree(a, s0 + rest, p, v);
    ReplaceSlot(s0, rest, k, v);
  }

  /** `replace` of one key's placeholder in a text of slots replaces exactly the slots that are that placeholder. */
  lemma {:induction false} ReplaceFill(parts: seq<string>, slots: seq<string>, k: string, v: string)
    requires |parts| == |slots| + 1 && BraceFree(parts) && IsKey(k) && AllSlots(slots)
    ensures ReplaceAll(Fill(parts, slots), Placeholder(k), v) == Fill(parts, Swap(slots, Placeholder(k), v))
    decreases |slots|
  {
    var p := Placeholder(k);
    BraceFreeTail(parts);
    if |slots| == 0 {
      assert p[0] == '{';
      ReplaceAllPrefixFree(parts[0], "", p, v);
      assert parts[0] + "" == parts[0];
    } else {
      AllSlotsTail(slots);
      SwapTail(slots, p, v);
      ReplaceFill(parts[1..], slots[1..], k, v);
      ReplaceHead(parts[0], slots[0], Fill(parts[1..], slots[1..]), k, v);
    }
  }

  /** A placeholder names its key: different keys have different placeholders. */
  lemma PlaceholderInjective(k1: string, k2: string)
    ensures Placeholder(k1) == Placeholder(k2) <==> k1 == k2
  {
    if Placeholder(k1) == Placeholder(k2) {
      assert k1 == Placeholder(k1)[1..|k1| + 1];
      assert k2 == Placeholder(k2)[1..|k2| + 1];
    }
  }

  /** A key's placeholder is a slot. */
  lemma PlaceholderIsSlot(k: string)
    requires IsKey(k)
    ensures IsSlot(Placeholder(k))
  {
    var p := Placeholder(k);
    assert p[1..|p| - 1] == k;
  }
}
