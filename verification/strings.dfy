/** The JavaScript string operations the dashboard relies on: `trim`, `split` on
    one character, `join`, `includes`, a global one-character `replace`, and the
    decimal rendering of a non-negative integer. */
module Strings {

  /** ECMAScript's WhiteSpace and LineTerminator code points: exactly what
      `String.prototype.trim` strips. */
  predicate IsWhitespace(c: char) {
    || c == '\t' || c == '\n' || c == '\U{0B}' || c == '\U{0C}' || c == '\r' || c == ' '
    || c == '\U{A0}' || c == '\U{1680}' || ('\U{2000}' <= c <= '\U{200A}')
    || c == '\U{2028}' || c == '\U{2029}' || c == '\U{202F}' || c == '\U{205F}'
    || c == '\U{3000}' || c == '\U{FEFF}'
  }

  ghost predicate AllWhitespace(s: string) {
    forall i :: 0 <= i < |s| ==> IsWhitespace(s[i])
  }

  /** Neither end of `s` is whitespace. */
  predicate IsTrimmed(s: string) {
    |s| == 0 || (!IsWhitespace(s[0]) && !IsWhitespace(s[|s| - 1]))
  }

  /** `s.trimStart()`: the longest suffix that does not start with whitespace. */
  function TrimStart(s: string): (r: string)
    ensures |r| <= |s| && r == s[|s| - |r|..]
    ensures AllWhitespace(s[..|s| - |r|])
    ensures r == [] || !IsWhitespace(r[0])
  {
    if |s| > 0 && IsWhitespace(s[0]) then
      var r := TrimStart(s[1..]);
      assert s[..|s| - |r|] == [s[0]] + s[1..][..|s| - 1 - |r|];
      r
    else
      s
  }

  /** `s.trimEnd()`: the longest prefix that does not end with whitespace. */
  function TrimEnd(s: string): (r: string)
    ensures |r| <= |s| && r == s[..|r|]
    ensures AllWhitespace(s[|r|..])
    ensures r == [] || !IsWhitespace(r[|r| - 1])
  {
    if |s| > 0 && IsWhitespace(s[|s| - 1]) then
      var r := TrimEnd(s[..|s| - 1]);
      assert s[|r|..] == s[..|s| - 1][|r|..] + [s[|s| - 1]];
      r
    else
      s
  }

  /** `r` is `s[i..j]` and everything outside it is whitespace. */
  ghost predicate IsCoreOf(s: string, r: string, i: int, j: int) {
    0 <= i <= j <= |s| && r == s[i..j] && AllWhitespace(s[..i]) && AllWhitespace(s[j..])
  }

  /** `s.trim()`. */
  function Trim(s: string): (r: string)
    ensures IsTrimmed(r)
    ensures exists i, j :: IsCoreOf(s, r, i, j)
  {
    var t := TrimStart(s);
    var r := TrimEnd(t);
    CoreOfTrimmed(s, t, r);
    r
  }

  lemma CoreOfTrimmed(s: string, t: string, r: string)
    requires |t| <= |s| && t == s[|s| - |t|..] && AllWhitespace(s[..|s| - |t|])
    requires |r| <= |t| && r == t[..|r|] && AllWhitespace(t[|r|..])
    ensures IsCoreOf(s, r, |s| - |t|, |s| - |t| + |r|)
  {
    var i := |s| - |t|;
    assert s[i + |r|..] == t[|r|..];
  }

  /** Trimming strips exactly the surrounding whitespace: a trimmed core with
      whitespace on both sides trims back to that core. */
  lemma {:induction false} TrimPadded(w1: string, t: string, w2: string)
    requires AllWhitespace(w1) && AllWhitespace(w2) && IsTrimmed(t)
    ensures Trim(w1 + t + w2) == t
  {
    var s := w1 + t + w2;
    var ts := TrimStart(s);
    var k := |s| - |ts|;
    if |t| == 0 {
      assert s == w1 + w2;
      assert AllWhitespace(s) by {
        forall i | 0 <= i < |s| ensures IsWhitespace(s[i]) {
          if i < |w1| { assert s[i] == w1[i]; } else { assert s[i] == w2[i - |w1|]; }
        }
      }
      assert |ts| == 0;
    } else {
      assert s[|w1|] == t[0];
      assert k <= |w1|;
      assert k == |w1|;
      assert ts == t + w2;
      var te := TrimEnd(ts);
      assert ts[|t| - 1] == t[|t| - 1];
      assert |te| >= |t|;
      assert |te| <= |t|;
      assert te == t;
    }
  }

  /** Whitespace in front of a trimmed string is all that trimming removes. */
  lemma TrimLeftPadded(w: string, t: string)
    requires AllWhitespace(w) && IsTrimmed(t)
    ensures Trim(w + t) == t
  {
    assert w + t == w + t + [];
    TrimPadded(w, t, []);
  }

  /** Trimming a trimmed string changes nothing. */
  lemma TrimOfTrimmed(t: string)
    requires IsTrimmed(t)
    ensures Trim(t) == t
  {
    TrimLeftPadded([], t);
    assert [] + t == t;
  }

  /** Trimming never introduces a character. */
  lemma TrimKeepsOut(s: string, c: char)
    requires c !in s
    ensures c !in Trim(s)
  {
    var i, j :| IsCoreOf(s, Trim(s), i, j);
    CoreKeepsOut(s, Trim(s), i, j, c);
  }

  lemma CoreKeepsOut(s: string, r: string, i: int, j: int, c: char)
    requires IsCoreOf(s, r, i, j) && c !in s
    ensures c !in r
  {
    assert forall k :: 0 <= k < |r| ==> r[k] == s[i + k];
  }

  /** A string trims to the empty string exactly when it is all whitespace. */
  lemma TrimEmptyIffBlank(s: string)
    ensures Trim(s) == [] <==> AllWhitespace(s)
  {
    if AllWhitespace(s) {
      assert s == s + [] + [];
      TrimPadded(s, [], []);
    } else {
      var i, j :| IsCoreOf(s, Trim(s), i, j);
      EmptyCoreIsBlank(s, Trim(s), i, j);
    }
  }

  lemma EmptyCoreIsBlank(s: string, r: string, i: int, j: int)
    requires IsCoreOf(s, r, i, j)
    ensures r == [] ==> AllWhitespace(s)
  {
    if r == [] {
      forall k | 0 <= k < |s| ensures IsWhitespace(s[k]) {
        if k < i { assert s[..i][k] == s[k]; } else { assert s[j..][k - j] == s[k]; }
      }
    }
  }

  /** Index of the first `c` in `s`, or `|s|` when there is none. */
  function IndexOf(s: string, c: char): (r: nat)
    ensures r <= |s|
    ensures r < |s| ==> s[r] == c
    ensures forall i :: 0 <= i < r ==> s[i] != c
  {
    if |s| == 0 then 0
    else if s[0] == c then 0
    else 1 + IndexOf(s[1..], c)
  }

  /** `s.split(sep)` for a one-character separator: the pieces between
      separators, with empty pieces kept (so `"".split(",")` is `[""]`). */
  function Split(s: string, sep: char): (r: seq<string>)
    ensures |r| >= 1
    ensures forall k :: 0 <= k < |r| ==> sep !in r[k]
    decreases |s|
  {
    var k := IndexOf(s, sep);
    if k == |s| then [s]
    else
      assert sep !in s[..k] by {
        forall i | 0 <= i < k ensures s[..k][i] != sep { }
      }
      [s[..k]] + Split(s[k + 1..], sep)
  }

  /** `parts.join(sep)`. */
  function Join(parts: seq<string>, sep: string): string {
    if |parts| == 0 then ""
    else if |parts| == 1 then parts[0]
    else parts[0] + sep + Join(parts[1..], sep)
  }

  /** The number of pieces `split` yields is one more than the number of separators. */
  lemma {:induction false} SplitCount(s: string, sep: char)
    ensures |Split(s, sep)| == multiset(s)[sep] + 1
    decreases |s|
  {
    var k := IndexOf(s, sep);
    if k == |s| {
      assert sep !in multiset(s);
    } else {
      SplitCount(s[k + 1..], sep);
      assert s == s[..k] + [sep] + s[k + 1..];
      assert sep !in multiset(s[..k]);
    }
  }

  /** Splitting undoes joining on the same separator. */
  lemma {:induction false} JoinSplit(s: string, sep: char)
    ensures Join(Split(s, sep), [sep]) == s
    decreases |s|
  {
    var k := IndexOf(s, sep);
    if k < |s| {
      var rest := Split(s[k + 1..], sep);
      JoinSplit(s[k + 1..], sep);
      assert Split(s, sep) == [s[..k]] + rest;
      assert s == s[..k] + [sep] + s[k + 1..];
    }
  }

  /** Joining undoes splitting when no piece contains the separator. */
  lemma {:induction false} SplitJoin(parts: seq<string>, sep: char)
    requires |parts| >= 1
    requires forall k :: 0 <= k < |parts| ==> sep !in parts[k]
    ensures Split(Join(parts, [sep]), sep) == parts
  {
    var s := Join(parts, [sep]);
    if |parts| == 1 {
      assert IndexOf(s, sep) == |s|;
    } else {
      var tail := Join(parts[1..], [sep]);
      assert s == parts[0] + [sep] + tail;
      var k := IndexOf(s, sep);
      assert s[|parts[0]|] == sep;
      assert k == |parts[0]|;
      assert s[k + 1..] == tail;
      assert s[..k] == parts[0];
      SplitJoin(parts[1..], sep);
    }
  }

  /** Joining with `sep + pad` is joining with `sep` after prefixing every part
      but the first with `pad`. */
  lemma {:induction false} JoinPadded(parts: seq<string>, sep: string, pad: string)
    requires |parts| >= 1
    ensures Join(parts, sep + pad) == Join([parts[0]] + Prefixed(pad, parts[1..]), sep)
    decreases |parts|
  {
    if |parts| > 1 {
      var rest := parts[1..];
      JoinPadded(rest, sep, pad);
      var q := Prefixed(pad, rest[1..]);
      assert Prefixed(pad, rest) == [pad + rest[0]] + q;
      assert [parts[0]] + Prefixed(pad, rest) == [parts[0]] + ([pad + rest[0]] + q);
      if |q| > 0 {
        assert ([parts[0]] + ([pad + rest[0]] + q))[1..] == [pad + rest[0]] + q;
        assert ([pad + rest[0]] + q)[1..] == q;
      } else {
        assert ([parts[0]] + ([pad + rest[0]] + q))[1..] == [pad + rest[0]] + q;
      }
    }
  }

  /** Every element of `parts`, with `pad` in front. */
  function Prefixed(pad: string, parts: seq<string>): (r: seq<string>)
    ensures |r| == |parts|
    ensures forall k :: 0 <= k < |r| ==> r[k] == pad + parts[k]
  {
    seq(|parts|, k requires 0 <= k < |parts| => pad + parts[k])
  }

  /** `parts.map(p => p.trim())`. */
  function TrimAll(parts: seq<string>): (r: seq<string>)
    ensures |r| == |parts|
    ensures forall k :: 0 <= k < |r| ==> r[k] == Trim(parts[k]) && IsTrimmed(r[k])
  {
    seq(|parts|, k requires 0 <= k < |parts| => Trim(parts[k]))
  }

  /** `text.split(sep).map(p => p.trim())`: one trimmed piece per field,
      empty pieces kept. */
  function SplitTrim(text: string, sep: char): (r: seq<string>)
    ensures |r| == multiset(text)[sep] + 1
    ensures forall k :: 0 <= k < |r| ==> IsTrimmed(r[k]) && sep !in r[k]
  {
    var parts := Split(text, sep);
    SplitCount(text, sep);
    var r := TrimAll(parts);
    assert forall k :: 0 <= k < |r| ==> sep !in r[k] by {
      forall k | 0 <= k < |r| ensures sep !in r[k] {
        TrimKeepsOut(parts[k], sep);
      }
    }
    r
  }

  /** Splitting the join of separator-free fields and trimming gives each
      field trimmed, in order; with `JoinSplit` this describes every text. */
  lemma SplitTrimFields(fields: seq<string>, sep: char)
    requires |fields| >= 1
    requires forall k :: 0 <= k < |fields| ==> sep !in fields[k]
    ensures SplitTrim(Join(fields, [sep]), sep) == TrimAll(fields)
  {
    SplitJoin(fields, sep);
  }

  /** Trimmed, separator-free parts joined with `sep` followed by whitespace
      padding split and trim back to themselves. */
  lemma SplitTrimRoundTrip(parts: seq<string>, sep: char, pad: string)
    requires |parts| >= 1
    requires forall k :: 0 <= k < |parts| ==> IsTrimmed(parts[k]) && sep !in parts[k]
    requires AllWhitespace(pad) && !IsWhitespace(sep)
    ensures SplitTrim(Join(parts, [sep] + pad), sep) == parts
  {
    var padded := [parts[0]] + Prefixed(pad, parts[1..]);
    PaddedSplit(parts, sep, pad, padded);
    TrimAllPadded(parts, pad, padded);
  }

  lemma PaddedSplit(parts: seq<string>, sep: char, pad: string, padded: seq<string>)
    requires |parts| >= 1
    requires forall k :: 0 <= k < |parts| ==> sep !in parts[k]
    requires AllWhitespace(pad) && !IsWhitespace(sep)
    requires padded == [parts[0]] + Prefixed(pad, parts[1..])
    ensures Split(Join(parts, [sep] + pad), sep) == padded
  {
    JoinPadded(parts, [sep], pad);
    forall k | 0 <= k < |padded| ensures sep !in padded[k] {
      if k > 0 {
        assert padded[k] == pad + parts[k];
      }
    }
    SplitJoin(padded, sep);
  }

  lemma TrimAllPadded(parts: seq<string>, pad: string, padded: seq<string>)
    requires |parts| >= 1
    requires forall k :: 0 <= k < |parts| ==> IsTrimmed(parts[k])
    requires AllWhitespace(pad)
    requires padded == [parts[0]] + Prefixed(pad, parts[1..])
    ensures TrimAll(padded) == parts
  {
    forall k | 0 <= k < |padded| ensures Trim(padded[k]) == parts[k] {
      TrimPaddedPart(parts, pad, padded, k);
    }
    TrimAllPointwise(padded, parts);
  }

  lemma TrimPaddedPart(parts: seq<string>, pad: string, padded: seq<string>, k: int)
    requires 0 <= k < |parts| && IsTrimmed(parts[k])
    requires AllWhitespace(pad)
    requires padded == [parts[0]] + Prefixed(pad, parts[1..])
    ensures Trim(padded[k]) == parts[k]
  {
    if k == 0 {
      TrimOfTrimmed(parts[0]);
    } else {
      assert padded[k] == pad + parts[k];
      TrimLeftPadded(pad, parts[k]);
    }
  }

  lemma TrimAllPointwise(xs: seq<string>, ys: seq<string>)
    requires |xs| == |ys|
    requires forall k :: 0 <= k < |xs| ==> Trim(xs[k]) == ys[k]
    ensures TrimAll(xs) == ys
  {
  }

  /** `sub` occurs in `s` starting at index `i`. */
  ghost predicate OccursAt(s: string, sub: string, i: int) {
    0 <= i && i + |sub| <= |s| && s[i..i + |sub|] == sub
  }

  /** `s.includes(sub)`. */
  function Contains(s: string, sub: string): (r: bool)
    ensures r <==> exists i :: OccursAt(s, sub, i)
    decreases |s|
  {
    if |sub| > |s| then
      assert forall i :: !OccursAt(s, sub, i);
      false
    else if s[..|sub|] == sub then
      assert OccursAt(s, sub, 0);
      true
    else
      var r := Contains(s[1..], sub);
      assert forall i :: OccursAt(s[1..], sub, i) <==> OccursAt(s, sub, i + 1) by {
        forall i ensures OccursAt(s[1..], sub, i) <==> OccursAt(s, sub, i + 1) {
          if 0 <= i && i + |sub| <= |s| - 1 {
            assert s[1..][i..i + |sub|] == s[i + 1..i + 1 + |sub|];
          }
        }
      }
      assert !OccursAt(s, sub, 0);
      assert (exists i :: OccursAt(s, sub, i)) ==> exists i :: OccursAt(s[1..], sub, i) by {
        if exists i :: OccursAt(s, sub, i) {
          var i :| OccursAt(s, sub, i);
          assert OccursAt(s[1..], sub, i - 1);
        }
      }
      r
  }

  /** `s.replace(/from/g, to)` for a single character `from`. */
  function ReplaceAll(s: string, from: char, to: char): (r: string)
    ensures |r| == |s|
    ensures forall i :: 0 <= i < |s| ==> r[i] == (if s[i] == from then to else s[i])
  {
    seq(|s|, i requires 0 <= i < |s| => if s[i] == from then to else s[i])
  }

  predicate IsDigit(c: char) {
    '0' <= c <= '9'
  }

  function DigitChar(d: nat): (c: char)
    requires d < 10
    ensures IsDigit(c) && c as int - '0' as int == d
  {
    ('0' as int + d) as char
  }

  /** The decimal text of `n`, as JavaScript's `String(n)` renders an integer. */
  function NatToDecimal(n: nat): (r: string)
    ensures |r| >= 1
    ensures forall i :: 0 <= i < |r| ==> IsDigit(r[i])
    ensures r[0] == '0' ==> n == 0
  {
    if n < 10 then [DigitChar(n)] else NatToDecimal(n / 10) + [DigitChar(n % 10)]
  }

  /** The number a string of decimal digits denotes. */
  function DecimalValue(s: string): nat
    requires forall i :: 0 <= i < |s| ==> IsDigit(s[i])
  {
    if |s| == 0 then 0
    else
      assert IsDigit(s[|s| - 1]);
      DecimalValue(s[..|s| - 1]) * 10 + (s[|s| - 1] as int - '0' as int)
  }

  /** Reading back the decimal text of `n` gives `n`. */
  lemma {:induction false} DecimalRoundTrip(n: nat)
    ensures DecimalValue(NatToDecimal(n)) == n
  {
    if n >= 10 {
      var r := NatToDecimal(n);
      assert r[..|r| - 1] == NatToDecimal(n / 10);
      DecimalRoundTrip(n / 10);
    }
  }

  /** Distinct numbers have distinct decimal texts. */
  lemma DecimalInjective(m: nat, n: nat)
    ensures NatToDecimal(m) == NatToDecimal(n) <==> m == n
  {
    DecimalRoundTrip(m);
    DecimalRoundTrip(n);
  }
}
