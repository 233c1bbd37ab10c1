/**
 * The JavaScript string operations the core relies on, on `seq<char>`:
 * `trim`, `split` with a one-character separator (with and without a
 * limit), `join`, decimal rendering and parsing of integers, and the
 * regular-expression replacement `replace` with the pattern `\s*—\s*` that turns a
 * time-slot label into a time-slot id.
 */
module Text {
  import opened Common

  /** The characters JavaScript's `\s` class and `String.prototype.trim` treat as white space. */
  predicate IsSpace(c: char)
  {
    c == ' ' || c == '\t' || c == '\n' || c == '\U{B}' || c == '\U{C}' || c == '\r'
    || c == '\U{A0}' || c == '\U{1680}' || ('\U{2000}' <= c <= '\U{200A}')
    || c == '\U{2028}' || c == '\U{2029}' || c == '\U{202F}' || c == '\U{205F}'
    || c == '\U{3000}' || c == '\U{FEFF}'
  }

  /** The em dash that separates the two times of a slot label ("08:30 — 10:00"). */
  const EmDash: char := '—'

  predicate AllSpace(s: string)
  {
    forall k :: 0 <= k < |s| ==> IsSpace(s[k])
  }

  // ---------------------------------------------------------------- trim

  function TrimStart(s: string): (r: string)
    ensures |r| <= |s| && r == s[|s| - |r|..]
    ensures forall k :: 0 <= k < |s| - |r| ==> IsSpace(s[k])
    ensures r == [] || !IsSpace(r[0])
  {
    if |s| > 0 && IsSpace(s[0]) then
      var r := TrimStart(s[1..]);
      assert s[1..][|s| - 1 - |r|..] == s[|s| - |r|..];
      assert forall k :: 1 <= k < |s| - |r| ==> s[k] == s[1..][k - 1];
      r
    else s
  }

  function TrimEnd(s: string): (r: string)
    ensures |r| <= |s| && r == s[..|r|]
    ensures forall k :: |r| <= k < |s| ==> IsSpace(s[k])
    ensures r == [] || !IsSpace(r[|r| - 1])
  {
    if |s| > 0 && IsSpace(s[|s| - 1]) then
      var r := TrimEnd(s[..|s| - 1]);
      assert s[..|s| - 1][..|r|] == s[..|r|];
      assert forall k :: |r| <= k < |s| - 1 ==> s[k] == s[..|s| - 1][k];
      r
    else s
  }

  /** `String.prototype.trim`. */
  function Trim(s: string): string
  {
    TrimEnd(TrimStart(s))
  }

  /** `r` sits in `s` at `i` with only white space before and after it. */
  predicate CoreAt(s: string, r: string, i: nat)
  {
    i + |r| <= |s| && r == s[i..i + |r|] && AllSpace(s[..i]) && AllSpace(s[i + |r|..])
  }

  /** What `TrimStart` removes is white space. */
  lemma TrimStartPrefix(s: string)
    ensures AllSpace(s[..|s| - |TrimStart(s)|])
  {
    var i := |s| - |TrimStart(s)|;
    forall k | 0 <= k < i ensures IsSpace(s[..i][k]) {
      assert s[..i][k] == s[k];
    }
  }

  /** What `TrimEnd` removes is white space. */
  lemma TrimEndSuffix(t: string)
    ensures AllSpace(t[|TrimEnd(t)|..])
  {
    var n := |TrimEnd(t)|;
    forall k | 0 <= k < |t| - n ensures IsSpace(t[n..][k]) {
      assert t[n..][k] == t[n + k];
    }
  }

  /** The trimmed string is the infix of `s` between white-space runs, and neither starts nor ends with white space. */
  lemma TrimIsCore(s: string)
    ensures var r := Trim(s);
      (r == [] || (!IsSpace(r[0]) && !IsSpace(r[|r| - 1])))
      && CoreAt(s, r, |s| - |TrimStart(s)|)
  {
    var t := TrimStart(s);
    var r := TrimEnd(t);
    var i := |s| - |t|;
    TrimStartPrefix(s);
    TrimEndSuffix(t);
    assert r == s[i..i + |r|] && s[i + |r|..] == t[|r|..] by {
      assert t == s[i..];
    }
    assert AllSpace(s[i + |r|..]);
    assert CoreAt(s, r, i);
    if r != [] {
      assert r[0] == t[0];
    }
  }

  /** Trimming adds no character: a character absent from `s` is absent from `Trim(s)`. */
  lemma TrimWithin(s: string, c: char)
    requires c !in s
    ensures c !in Trim(s)
  {
    var t := TrimStart(s);
    SliceWithin(s, |s| - |t|, |s|, c);
    var r := TrimEnd(t);
    SliceWithin(t, 0, |r|, c);
  }

  lemma SliceWithin(s: string, i: nat, j: nat, c: char)
    requires i <= j <= |s| && c !in s
    ensures c !in s[i..j]
  {
    forall k | 0 <= k < j - i ensures s[i..j][k] != c {
      assert s[i..j][k] == s[i + k];
    }
  }

  lemma TrimEndOfTrimmedStart(s: string)
    requires s == [] || !IsSpace(s[0])
    ensures TrimEnd(s) == [] || !IsSpace(TrimEnd(s)[0])
  {
    var r := TrimEnd(s);
    if r != [] {
      assert r[0] == s[0];
    }
  }

  lemma {:induction false} TrimStartNoop(s: string)
    requires s == [] || !IsSpace(s[0])
    ensures TrimStart(s) == s
  {
  }

  lemma {:induction false} TrimEndNoop(s: string)
    requires s == [] || !IsSpace(s[|s| - 1])
    ensures TrimEnd(s) == s
  {
  }

  /** Text after a non-blank start survives `trimStart` unchanged. */
  lemma {:induction false} TrimStartAppend(t: string, x: string)
    requires TrimStart(t) != []
    ensures TrimStart(t + x) == TrimStart(t) + x
  {
    if IsSpace(t[0]) {
      assert (t + x)[1..] == t[1..] + x;
      TrimStartAppend(t[1..], x);
    }
  }

  /** White space after white space is all trimmed away. */
  lemma {:induction false} TrimStartBlank(t: string, x: string)
    requires TrimStart(t) == [] && AllSpace(x)
    ensures TrimStart(t + x) == []
  {
    if |t| > 0 {
      assert (t + x)[1..] == t[1..] + x;
      TrimStartBlank(t[1..], x);
    } else {
      assert t + x == x;
      TrimStartAllSpace(x);
    }
  }

  lemma {:induction false} TrimStartAllSpace(x: string)
    requires AllSpace(x)
    ensures TrimStart(x) == []
  {
    if |x| > 0 {
      TrimStartAllSpace(x[1..]);
    }
  }

  /** A trailing space disappears under trimming. */
  lemma TrimTrailingSpace(t: string)
    ensures Trim(t + " ") == Trim(t)
  {
    if TrimStart(t) != [] {
      var u := TrimStart(t);
      TrimStartAppend(t, " ");
      assert (u + " ")[..|u|] == u;
    } else {
      TrimStartBlank(t, " ");
    }
  }

  /** Trimming twice is trimming once. */
  lemma TrimIdempotent(s: string)
    ensures Trim(Trim(s)) == Trim(s)
  {
    var r := Trim(s);
    TrimEndOfTrimmedStart(TrimStart(s));
    TrimStartNoop(r);
    TrimEndNoop(r);
  }

  // ---------------------------------------------------------------- split / join

  /** `s.split(c)` for a one-character separator: every occurrence of `c` cuts `s`. */
  function Split(s: string, c: char): (parts: seq<string>)
    ensures |parts| >= 1
    ensures forall k :: 0 <= k < |parts| ==> c !in parts[k]
  {
    if |s| == 0 then [""]
    else
      var rest := Split(s[1..], c);
      if s[0] == c then [""] + rest
      else [[s[0]] + rest[0]] + rest[1..]
  }

  /** `parts.join(sep)`. */
  function Join(parts: seq<string>, sep: string): string
  {
    if |parts| == 0 then ""
    else if |parts| == 1 then parts[0]
    else parts[0] + sep + Join(parts[1..], sep)
  }

  /** Joining the pieces of a split with the separator gives back the original string. */
  lemma {:induction false} JoinSplit(s: string, c: char)
    ensures Join(Split(s, c), [c]) == s
  {
    if |s| > 0 {
      var rest := Split(s[1..], c);
      JoinSplit(s[1..], c);
      if s[0] == c {
        assert Split(s, c) == [""] + rest;
        assert Split(s, c)[1..] == rest;
      } else {
        var parts := Split(s, c);
        assert parts == [[s[0]] + rest[0]] + rest[1..];
        if |rest| == 1 {
          assert Join(rest, [c]) == rest[0];
        } else {
          assert parts[1..] == rest[1..];
          assert Join(rest, [c]) == rest[0] + [c] + Join(rest[1..], [c]);
        }
        assert s == [s[0]] + s[1..];
      }
    }
  }

  function CountChar(s: string, c: char): nat
  {
    if |s| == 0 then 0 else (if s[0] == c then 1 else 0) + CountChar(s[1..], c)
  }

  /** `s.split(c)` has one more piece than `s` has separators. */
  lemma {:induction false} SplitCount(s: string, c: char)
    ensures |Split(s, c)| == CountChar(s, c) + 1
  {
    if |s| > 0 {
      SplitCount(s[1..], c);
    }
  }

  /** Splitting at a first separator: the first piece is the text before it. */
  lemma {:induction false} SplitAtFirst(a: string, c: char, b: string)
    requires c !in a
    ensures Split(a + [c] + b, c) == [a] + Split(b, c)
  {
    if |a| == 0 {
      assert (a + [c] + b)[1..] == b;
    } else {
      assert (a + [c] + b)[1..] == a[1..] + [c] + b;
      SplitAtFirst(a[1..], c, b);
      assert [a[0]] + a[1..] == a;
    }
  }

  /** A string without the separator splits into itself alone. */
  lemma {:induction false} SplitNoSeparator(a: string, c: char)
    requires c !in a
    ensures Split(a, c) == [a]
  {
    if |a| > 0 {
      SplitNoSeparator(a[1..], c);
      assert [a[0]] + a[1..] == a;
    }
  }

  /** `s.split(c, limit)`: the first `limit` pieces of the full split. */
  function SplitLimit(s: string, c: char, limit: nat): (parts: seq<string>)
    ensures |parts| <= limit && (limit >= 1 ==> |parts| >= 1)
    ensures |parts| <= |Split(s, c)| && parts == Split(s, c)[..|parts|]
    ensures |parts| == limit || |parts| == |Split(s, c)|
  {
    var all := Split(s, c);
    if limit < |all| then all[..limit] else all
  }

  /** Indexing an array with `[k]`: `undefined` past its end. */
  function At<T>(xs: seq<T>, k: nat): Option<T>
  {
    if k < |xs| then Some(xs[k]) else None
  }

  // ---------------------------------------------------------------- integers

  predicate IsDigit(c: char)
  {
    '0' <= c <= '9'
  }

  predicate AllDigits(s: string)
  {
    forall k :: 0 <= k < |s| ==> IsDigit(s[k])
  }

  function DigitChar(d: nat): (c: char)
    requires d < 10
    ensures IsDigit(c)
  {
    ['0', '1', '2', '3', '4', '5', '6', '7', '8', '9'][d]
  }

  function DigitValue(c: char): (d: nat)
    requires IsDigit(c)
    ensures d < 10
  {
    c as int - '0' as int
  }

  /** Decimal rendering of a natural number, as template literals and `String(n)` produce it. */
  function NatToString(n: nat): (s: string)
    ensures |s| > 0 && AllDigits(s)
  {
    if n < 10 then [DigitChar(n)] else NatToString(n / 10) + [DigitChar(n % 10)]
  }

  /** `String(n)` for an integer. */
  function IntToString(i: int): string
  {
    if i < 0 then "-" + NatToString(-i) else NatToString(i)
  }

  /** The value of a string of decimal digits (what `parseInt` returns for it). */
  function DigitsValue(s: string): nat
    requires AllDigits(s)
  {
    if |s| == 0 then 0 else 10 * DigitsValue(s[..|s| - 1]) + DigitValue(s[|s| - 1])
  }

  /** Parsing the decimal rendering of `n` gives back `n`. */
  lemma {:induction false} DigitsValueOfNatToString(n: nat)
    ensures DigitsValue(NatToString(n)) == n
  {
    var s := NatToString(n);
    if n >= 10 {
      DigitsValueOfNatToString(n / 10);
      assert s[..|s| - 1] == NatToString(n / 10);
    }
  }

  /** Distinct numbers render differently. */
  lemma NatToStringInjective(m: nat, n: nat)
    requires NatToString(m) == NatToString(n)
    ensures m == n
  {
    DigitsValueOfNatToString(m);
    DigitsValueOfNatToString(n);
  }

  /** The longest prefix of decimal digits. */
  function LeadingDigits(s: string): (r: string)
    ensures |r| <= |s| && AllDigits(r) && r == s[..|r|]
    ensures |r| == |s| || !IsDigit(s[|r|])
  {
    if |s| > 0 && IsDigit(s[0]) then [s[0]] + LeadingDigits(s[1..]) else ""
  }

  lemma {:induction false} LeadingDigitsOfDigits(d: string, rest: string)
    requires AllDigits(d)
    requires rest == [] || !IsDigit(rest[0])
    ensures LeadingDigits(d + rest) == d
  {
    if |d| > 0 {
      assert (d + rest)[1..] == d[1..] + rest;
      LeadingDigitsOfDigits(d[1..], rest);
      assert [d[0]] + d[1..] == d;
    } else {
      assert d + rest == rest;
    }
  }

  /** `parseInt(s)` for a string that begins with its digits: `None` stands for NaN. */
  function ParseLeadingNat(s: string): (r: Option<nat>)
    ensures r.None? <==> (s == [] || !IsDigit(s[0]))
  {
    var d := LeadingDigits(s);
    if d == [] then None else Some(DigitsValue(d))
  }

  lemma ParseLeadingNatOfNatToString(n: nat, rest: string)
    requires rest == [] || !IsDigit(rest[0])
    ensures ParseLeadingNat(NatToString(n) + rest) == Some(n)
  {
    LeadingDigitsOfDigits(NatToString(n), rest);
    DigitsValueOfNatToString(n);
  }

  /**
   * `parseInt(s, 10)`: leading white space is skipped, an optional sign is
   * read, then the longest run of digits; `None` stands for NaN.
   */
  function ParseInt(s: string): (r: Option<int>)
  {
    var t := TrimStart(s);
    if |t| > 0 && (t[0] == '-' || t[0] == '+') then
      var d := LeadingDigits(t[1..]);
      if d == [] then None
      else if t[0] == '-' then Some(0 - DigitsValue(d) as int)
      else Some(DigitsValue(d))
    else
      var d := LeadingDigits(t);
      if d == [] then None else Some(DigitsValue(d))
  }

  /** `parseInt` reads back a rendered number followed by anything that is not a digit. */
  lemma ParseIntOfNatToString(n: nat, rest: string)
    requires rest == [] || !IsDigit(rest[0])
    ensures ParseInt(NatToString(n) + rest) == Some(n)
  {
    var s := NatToString(n) + rest;
    assert s[0] == NatToString(n)[0];
    assert IsDigit(s[0]) && !IsSpace(s[0]) && s[0] != '-' && s[0] != '+';
    TrimStartNoop(s);
    assert TrimStart(s) == s;
    LeadingDigitsOfDigits(NatToString(n), rest);
    assert LeadingDigits(s) == NatToString(n);
    DigitsValueOfNatToString(n);
  }

  // ---------------------------------------------------------------- substring search

  predicate StartsWith(s: string, prefix: string)
  {
    |prefix| <= |s| && s[..|prefix|] == prefix
  }

  /** Index of the first occurrence of `pat` in `s`, as `indexOf` finds it. */
  function IndexOf(s: string, pat: string, from: nat): (r: Option<nat>)
    requires from <= |s|
    ensures r.Some? ==> from <= r.value && r.value + |pat| <= |s| && s[r.value..r.value + |pat|] == pat
    ensures r.Some? ==> forall p :: from <= p < r.value ==> !StartsWith(s[p..], pat)
    ensures r.None? ==> forall p :: from <= p <= |s| ==> !StartsWith(s[p..], pat)
    decreases |s| - from
  {
    if StartsWith(s[from..], pat) then Some(from)
    else if from == |s| then None
    else IndexOf(s, pat, from + 1)
  }

  /** The search from `from` stops at the first occurrence. */
  lemma {:induction false} IndexOfAt(s: string, pat: string, from: nat, at: nat)
    requires from <= at <= |s| && StartsWith(s[at..], pat)
    requires forall p :: from <= p < at ==> !StartsWith(s[p..], pat)
    ensures IndexOf(s, pat, from) == Some(at)
    decreases at - from
  {
    if from < at {
      IndexOfAt(s, pat, from + 1, at);
    }
  }

  /** `s.replace(pat, rep)` with a string pattern: only the first occurrence is replaced. */
  function ReplaceFirst(s: string, pat: string, rep: string): (r: string)
    ensures IndexOf(s, pat, 0).None? ==> r == s
  {
    match IndexOf(s, pat, 0)
    case None => s
    case Some(i) => s[..i] + rep + s[i + |pat|..]
  }

  // ---------------------------------------------------------------- /\s*—\s*/ -> '-'

  /** Index of the first em dash. */
  function FirstDash(s: string, from: nat): (r: Option<nat>)
    requires from <= |s|
    ensures r.Some? ==> from <= r.value < |s| && s[r.value] == EmDash
    ensures r.Some? ==> forall p :: from <= p < r.value ==> s[p] != EmDash
    ensures r.None? ==> forall p :: from <= p < |s| ==> s[p] != EmDash
    decreases |s| - from
  {
    if from == |s| then None
    else if s[from] == EmDash then Some(from)
    else FirstDash(s, from + 1)
  }

  /** Start of the white-space run that ends at `k`. */
  function RunStart(s: string, k: nat): (i: nat)
    requires k <= |s|
    ensures i <= k && AllSpace(s[i..k])
    ensures i == 0 || !IsSpace(s[i - 1])
  {
    if k > 0 && IsSpace(s[k - 1]) then
      var i := RunStart(s, k - 1);
      assert AllSpace(s[i..k]) by {
        forall p | 0 <= p < k - i ensures IsSpace(s[i..k][p]) {
          if p < k - 1 - i {
            assert s[i..k][p] == s[i..k - 1][p];
          }
        }
      }
      i
    else k
  }

  /** End of the white-space run that starts at `k`. */
  function RunEnd(s: string, k: nat): (j: nat)
    requires k <= |s|
    ensures k <= j <= |s| && AllSpace(s[k..j])
    ensures j == |s| || !IsSpace(s[j])
    decreases |s| - k
  {
    if k < |s| && IsSpace(s[k]) then
      var j := RunEnd(s, k + 1);
      assert s[k..j] == [s[k]] + s[k + 1..j];
      j
    else k
  }

  /** The regular expression `\s*—\s*` matches `s` at `p` and ends at `q`. */
  predicate DashMatch(s: string, p: nat, q: nat)
  {
    p <= q <= |s|
    && exists d :: p <= d < q && s[d] == EmDash && AllSpace(s[p..d]) && AllSpace(s[d + 1..q])
  }

  /** Where the leftmost, greedy match of `\s*—\s*` lies, if anywhere. */
  function DashSpan(s: string): Option<(nat, nat)>
  {
    match FirstDash(s, 0)
    case None => None
    case Some(k) => Some((RunStart(s, k), RunEnd(s, k + 1)))
  }

  /** `s.replace` with the pattern `\s*—\s*` and replacement "-": the first em dash and the white space around it become one hyphen. */
  function ReplaceDash(s: string): string
  {
    match DashSpan(s)
    case None => s
    case Some((i, j)) =>
      if i <= j <= |s| then s[..i] + "-" + s[j..] else s
  }

  /**
   * `DashSpan` is the span the regular-expression engine replaces: it is a
   * match, no match starts further left, and no match from the same start
   * is longer (the trailing `\s*` is greedy). Without an em dash nothing matches.
   */
  lemma DashSpanIsLeftmostLongest(s: string)
    ensures DashSpan(s).None? ==> forall p: nat, q: nat :: !DashMatch(s, p, q)
    ensures DashSpan(s).Some? ==>
      var (i, j) := DashSpan(s).value;
      DashMatch(s, i, j)
      && (forall p: nat, q: nat :: p < i ==> !DashMatch(s, p, q))
      && (forall q: nat :: j < q ==> !DashMatch(s, i, q))
  {
    match FirstDash(s, 0)
    case None =>
    case Some(k) =>
      var i := RunStart(s, k);
      var j := RunEnd(s, k + 1);
      assert DashMatch(s, i, j) by {
        assert i <= k < j && s[k] == EmDash;
      }
      forall p: nat, q: nat | p < i ensures !DashMatch(s, p, q) {
        forall d | p <= d < q <= |s| ensures !(s[d] == EmDash && AllSpace(s[p..d])) {
          if d > k {
            assert s[p..d][k - p] == s[k];
          } else if d == k {
            assert s[p..d][i - 1 - p] == s[i - 1];
          }
        }
      }
      forall q: nat | j < q ensures !DashMatch(s, i, q) {
        forall d | i <= d < q <= |s| ensures !(s[d] == EmDash && AllSpace(s[i..d]) && AllSpace(s[d + 1..q])) {
          if d > k {
            assert s[i..d][k - i] == s[k];
          } else if d == k {
            assert s[d + 1..q][j - (d + 1)] == s[j];
          }
        }
      }
  }

  /** A string without an em dash is left as it is. */
  lemma ReplaceDashNoDash(s: string)
    requires EmDash !in s
    ensures ReplaceDash(s) == s
  {
    forall p | 0 <= p < |s| ensures s[p] != EmDash {
      assert s[p] in s;
    }
  }

  lemma {:induction false} FirstDashAt(s: string, from: nat, k: nat)
    requires from <= k < |s| && s[k] == EmDash
    requires forall p :: from <= p < k ==> s[p] != EmDash
    ensures FirstDash(s, from) == Some(k)
    decreases k - from
  {
    if from < k {
      FirstDashAt(s, from + 1, k);
    }
  }

  /** A canonical label "a — b" becomes the id "a-b". */
  lemma ReplaceDashCanonical(a: string, b: string)
    requires EmDash !in a
    requires a == [] || !IsSpace(a[|a| - 1])
    requires b == [] || !IsSpace(b[0])
    ensures ReplaceDash(a + " " + [EmDash] + " " + b) == a + "-" + b
  {
    var s := a + " " + [EmDash] + " " + b;
    var k := |a| + 1;
    assert s[k] == EmDash;
    assert forall p :: 0 <= p < k ==> s[p] != EmDash by {
      forall p | 0 <= p < k ensures s[p] != EmDash {
        if p < |a| {
          assert s[p] == a[p];
          assert a[p] in a;
        }
      }
    }
    FirstDashAt(s, 0, k);
    assert RunStart(s, k) == |a| by {
      assert IsSpace(s[k - 1]);
      assert RunStart(s, k) == RunStart(s, k - 1);
      if |a| > 0 {
        assert s[|a| - 1] == a[|a| - 1];
      }
    }
    assert RunEnd(s, k + 1) == k + 2 by {
      assert IsSpace(s[k + 1]);
      assert RunEnd(s, k + 1) == RunEnd(s, k + 2);
      if |b| > 0 {
        assert s[k + 2] == b[0];
      }
    }
    assert s[..|a|] == a;
    assert s[k + 2..] == b;
  }

  /** Lexicographic order by character code, as `orderBy` sorts the slot start times. */
  predicate LexLeq(a: string, b: string)
  {
    |a| == 0 || (|b| > 0 && (a[0] < b[0] || (a[0] == b[0] && LexLeq(a[1..], b[1..]))))
  }

  lemma {:induction false} LexLeqTotal(a: string, b: string)
    ensures LexLeq(a, b) || LexLeq(b, a)
  {
    if |a| > 0 && |b| > 0 && a[0] == b[0] {
      LexLeqTotal(a[1..], b[1..]);
    }
  }

  lemma {:induction false} LexLeqTrans(a: string, b: string, c: string)
    requires LexLeq(a, b) && LexLeq(b, c)
    ensures LexLeq(a, c)
  {
    if |a| > 0 && a[0] == b[0] && b[0] == c[0] {
      LexLeqTrans(a[1..], b[1..], c[1..]);
    }
  }
}
