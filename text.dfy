/** Plain string searching, standing in for the literal regular expressions and
    `str` methods the merge engine uses. */
module Text {
  import opened Basics

  /** `t` occurs in `s` starting at index `i`. */
  predicate PrefixAt(s: string, i: nat, t: string) {
    i + |t| <= |s| && s[i..i + |t|] == t
  }

  /** The first index at or after `i` where `t` occurs: `str.find(t, i)`, and the start
      of the match of `re.search` for a pattern that begins with the literal `t`. */
  function FindFrom(s: string, t: string, i: nat): (r: Option<nat>)
    requires i <= |s|
    ensures r.Some? ==> i <= r.value <= |s| && PrefixAt(s, r.value, t)
    ensures r.Some? ==> forall q :: i <= q < r.value ==> !PrefixAt(s, q, t)
    ensures r.None? ==> forall q :: i <= q <= |s| ==> !PrefixAt(s, q, t)
    decreases |s| - i
  {
    if PrefixAt(s, i, t) then Some(i)
    else if i == |s| then None
    else FindFrom(s, t, i + 1)
  }

  function Find(s: string, t: string): Option<nat> {
    FindFrom(s, t, 0)
  }

  predicate Contains(s: string, t: string) {
    Find(s, t).Some?
  }

  /** The first occurrence is the one no earlier occurrence precedes. */
  lemma FindIs(s: string, t: string, p: nat)
    requires PrefixAt(s, p, t)
    requires forall q :: 0 <= q < p ==> !PrefixAt(s, q, t)
    ensures Find(s, t) == Some(p)
  {
  }

  lemma ContainsIff(s: string, t: string)
    ensures Contains(s, t) <==> exists q :: 0 <= q <= |s| && PrefixAt(s, q, t)
  {
    if exists q :: 0 <= q <= |s| && PrefixAt(s, q, t) {
      var q :| 0 <= q <= |s| && PrefixAt(s, q, t);
      assert Find(s, t).Some?;
    }
  }

  lemma SliceOfSlice(s: string, a: nat, b: nat, i: nat, j: nat)
    requires a <= b <= |s| && i <= j <= b - a
    ensures s[a..b][i..j] == s[a + i..a + j]
  {
    assert forall k :: 0 <= k < j - i ==> s[a..b][i..j][k] == s[a + i..a + j][k];
  }

  /** An occurrence inside the slice `s[a..b]` is an occurrence in `s` that lies between `a` and `b`. */
  lemma {:induction false} ContainsSlice(s: string, a: nat, b: nat, t: string)
    requires a <= b <= |s|
    ensures Contains(s[a..b], t) <==> exists q :: a <= q && q + |t| <= b && PrefixAt(s, q, t)
  {
    var w := s[a..b];
    ContainsIff(w, t);
    if Contains(w, t) {
      var v :| 0 <= v <= |w| && PrefixAt(w, v, t);
      SliceOfSlice(s, a, b, v, v + |t|);
      assert PrefixAt(s, a + v, t);
    }
    if exists q :: a <= q && q + |t| <= b && PrefixAt(s, q, t) {
      var q :| a <= q && q + |t| <= b && PrefixAt(s, q, t);
      SliceOfSlice(s, a, b, q - a, q - a + |t|);
      assert PrefixAt(w, q - a, t);
    }
  }

  /** An occurrence of `t` gives an occurrence of each of its prefixes. */
  lemma PrefixOfPrefix(s: string, i: nat, t: string, u: string)
    requires PrefixAt(s, i, t) && |u| <= |t| && t[..|u|] == u
    ensures PrefixAt(s, i, u)
  {
    assert s[i..i + |u|] == s[i..i + |t|][..|u|];
  }

  /** Python's `str.replace(pat, rep)`: every non-overlapping occurrence of `pat`, from left
      to right, is replaced. */
  function ReplaceAll(s: string, pat: string, rep: string): string
    requires |pat| > 0
    decreases |s|
  {
    match Find(s, pat)
    case None => s
    case Some(p) => s[..p] + rep + ReplaceAll(s[p + |pat|..], pat, rep)
  }

  /** Replacing a pattern that occurs once touches only that occurrence. */
  lemma ReplaceAllOnce(s: string, pat: string, rep: string, a: nat)
    requires |pat| > 0 && Find(s, pat) == Some(a)
    requires !Contains(s[a + |pat|..], pat)
    ensures ReplaceAll(s, pat, rep) == s[..a] + rep + s[a + |pat|..]
  {
  }

  /** An occurrence of `t` in a suffix of `s` is an occurrence in `s`. */
  lemma ContainsSuffix(s: string, b: nat, t: string) returns (q: nat)
    requires b <= |s| && Contains(s[b..], t)
    ensures b <= q && PrefixAt(s, q, t)
  {
    var v := Find(s[b..], t).value;
    SliceOfSlice(s, b, |s|, v, v + |t|);
    q := b + v;
  }

  /** `<h2>` does not start at `x` when one of its first three characters differs there. */
  lemma NotH2At(s: string, x: nat)
    requires x + 4 > |s| || s[x] != '<' || s[x + 1] != 'h' || s[x + 2] != '2'
    ensures !PrefixAt(s, x, "<h2>")
  {
    if x + 4 <= |s| {
      assert s[x..x + 4][0] == s[x] && s[x..x + 4][1] == s[x + 1] && s[x..x + 4][2] == s[x + 2];
    }
  }

  /** The lookahead `(?=<hN>|$)` that ends a lazy `(.*?)`: which headings stop the span. */
  datatype Boundary = BeforeH1 | BeforeH2 | BeforeH3OrH2

  /** Index `k` satisfies the lookahead: `$` holds at the end of `s` and, in Python without
      `re.MULTILINE`, also just before a final newline; or a stopping heading starts at `k`. */
  predicate StopsAt(s: string, k: nat, b: Boundary) {
    || k == |s|
    || (k + 1 == |s| && s[k] == '\n')
    || (match b
        case BeforeH1 => PrefixAt(s, k, "<h1>")
        case BeforeH2 => PrefixAt(s, k, "<h2>")
        case BeforeH3OrH2 => PrefixAt(s, k, "<h3>") || PrefixAt(s, k, "<h2>"))
  }

  /** Where a lazy `(.*?)(?=...)` that starts at `j` ends: the first index from `j` on at which
      the lookahead holds. */
  function SpanEnd(s: string, j: nat, b: Boundary): (k: nat)
    requires j <= |s|
    ensures j <= k <= |s| && StopsAt(s, k, b)
    ensures forall x :: j <= x < k ==> !StopsAt(s, x, b)
    decreases |s| - j
  {
    if StopsAt(s, j, b) then j else SpanEnd(s, j + 1, b)
  }

  // ---------------------------------------------------------------------------
  // Decimal digits: `int(...)` on a digit string and `f"{n}"`, `f"{n:02d}"`.

  predicate IsDigit(c: char) {
    '0' <= c <= '9'
  }

  predicate AllDigits(s: string) {
    forall i :: 0 <= i < |s| ==> IsDigit(s[i])
  }

  function DigitValue(c: char): (v: nat)
    requires IsDigit(c)
    ensures v < 10
  {
    c as int - '0' as int
  }

  function DigitChar(v: nat): (c: char)
    requires v < 10
    ensures IsDigit(c) && DigitValue(c) == v
  {
    ('0' as int + v) as char
  }

  /** `int(s)` for a non-empty string of ASCII digits. */
  function ParseNat(s: string): nat
    requires AllDigits(s)
    decreases |s|
  {
    if |s| == 0 then 0 else 10 * ParseNat(s[..|s| - 1]) + DigitValue(s[|s| - 1])
  }

  /** `f"{n}"`: the decimal digits of `n` without leading zeros. */
  function ShowNat(n: nat): (r: string)
    ensures |r| > 0 && AllDigits(r)
    ensures |r| == 1 <==> n < 10
    ensures |r| == 2 <==> 10 <= n < 100
    ensures r[0] != '0' || n == 0
  {
    if n < 10 then [DigitChar(n)] else ShowNat(n / 10) + [DigitChar(n % 10)]
  }

  /** `f"{n:02d}"`: at least two digits, zero-padded on the left. */
  function Pad2(n: nat): (r: string)
    ensures |r| >= 2 && AllDigits(r)
    ensures |r| == 2 <==> n < 100
  {
    if n < 10 then "0" + ShowNat(n) else ShowNat(n)
  }

  lemma {:induction false} ParseShowNat(n: nat)
    ensures ParseNat(ShowNat(n)) == n
  {
    if n >= 10 {
      var s := ShowNat(n);
      assert s[..|s| - 1] == ShowNat(n / 10);
      ParseShowNat(n / 10);
    }
  }

  /** A leading zero does not change the value `int` reads. */
  lemma {:induction false} ParseLeadingZero(s: string)
    requires AllDigits(s)
    ensures AllDigits("0" + s) && ParseNat("0" + s) == ParseNat(s)
  {
    var z := "0" + s;
    assert AllDigits(z) by {
      forall i | 0 <= i < |z| ensures IsDigit(z[i]) {
        if i > 0 { assert z[i] == s[i - 1]; }
      }
    }
    if |s| > 0 {
      assert z[..|z| - 1] == "0" + s[..|s| - 1];
      ParseLeadingZero(s[..|s| - 1]);
    }
  }

  lemma ParsePad2(n: nat)
    ensures ParseNat(Pad2(n)) == n
  {
    ParseShowNat(n);
    if n < 10 { ParseLeadingZero(ShowNat(n)); }
  }
}
