/** The pieces of Rust's `str` and formatting machinery that the core relies on:
    `str::trim`, the `Display` of an unsigned integer and the `Debug` of a `Vec<usize>`. */
module Text {

  /** `char::is_whitespace`: the Unicode White_Space property. */
  predicate IsWhitespace(c: char) {
    || ('\t' <= c <= '\r')
    || c == ' '
    || c == '\U{85}'
    || c == '\U{A0}'
    || c == '\U{1680}'
    || ('\U{2000}' <= c <= '\U{200A}')
    || c == '\U{2028}'
    || c == '\U{2029}'
    || c == '\U{202F}'
    || c == '\U{205F}'
    || c == '\U{3000}'
  }

  /** No character of `s` is outside the White_Space property. */
  ghost predicate AllWhitespace(s: string) {
    forall k {:trigger IsWhitespace(s[k])} :: 0 <= k < |s| ==> IsWhitespace(s[k])
  }

  /** `p` occurs somewhere in `s` as a contiguous piece. */
  ghost predicate IsInfix(p: string, s: string) {
    exists i :: OccursAt(p, s, i)
  }

  /** `p` occurs in `s` starting at position `i`. */
  predicate OccursAt(p: string, s: string, i: int) {
    0 <= i <= |s| - |p| && s[i..i + |p|] == p
  }

  /** `str::trim_start`: drops the longest all-whitespace prefix. */
  function TrimStart(s: string): (r: string)
    ensures |r| <= |s| && r == s[|s| - |r|..]
    ensures AllWhitespace(s[..|s| - |r|])
    ensures r != [] ==> !IsWhitespace(r[0])
    decreases |s|
  {
    if s != [] && IsWhitespace(s[0]) then TrimStart(s[1..]) else s
  }

  /** `str::trim_end`: drops the longest all-whitespace suffix. */
  function TrimEnd(s: string): (r: string)
    ensures |r| <= |s| && r == s[..|r|]
    ensures AllWhitespace(s[|r|..])
    ensures r != [] ==> !IsWhitespace(r[|r| - 1])
    ensures AllWhitespace(r) ==> r == []
    decreases |s|
  {
    if s != [] && IsWhitespace(s[|s| - 1]) then
      var p := s[..|s| - 1];
      var r := TrimEnd(p);
      assert s[..|r|] == p[..|r|];
      assert s[|r|..] == p[|r|..] + [s[|s| - 1]];
      r
    else s
  }

  /** `str::trim`: `s` with whitespace removed at both ends and nowhere else; the result
      neither starts nor ends with whitespace, and is empty exactly when `s` is all
      whitespace. */
  function Trim(s: string): (r: string)
    ensures exists i :: TrimmedAt(r, s, i)
    ensures r == [] <==> AllWhitespace(s)
    ensures r != [] ==> !IsWhitespace(r[0]) && !IsWhitespace(r[|r| - 1])
    ensures IsInfix(r, s)
  {
    TrimInfix(s);
    TrimEmptyIff(s);
    TrimLast(s);
    TrimStart(TrimEnd(s))
  }

  /** The trimmed piece sits where trimming the start left off. */
  lemma TrimInfix(s: string)
    ensures var r := TrimStart(TrimEnd(s));
      TrimmedAt(r, s, |TrimEnd(s)| - |r|) && OccursAt(r, s, |TrimEnd(s)| - |r|)
  {
    TrimmedBetween(s, TrimEnd(s), TrimStart(TrimEnd(s)));
  }

  /** Dropping whitespace from the end of `s` (giving `t`), then from the start of `t`,
      leaves `r` between two whitespace runs of `s`. */
  lemma TrimmedBetween(s: string, t: string, r: string)
    requires |t| <= |s| && t == s[..|t|] && AllWhitespace(s[|t|..])
    requires |r| <= |t| && r == t[|t| - |r|..] && AllWhitespace(t[..|t| - |r|])
    ensures TrimmedAt(r, s, |t| - |r|) && OccursAt(r, s, |t| - |r|)
  {
    var i := |t| - |r|;
    assert s[..i] == t[..i];
    assert s[i..i + |r|] == r;
  }

  /** `r` sits at `i` in `s`, with only whitespace before and after it. */
  ghost predicate TrimmedAt(r: string, s: string, i: int) {
    OccursAt(r, s, i) && AllWhitespace(s[..i]) && AllWhitespace(s[i + |r|..])
  }

  lemma TrimLast(s: string)
    ensures var r := TrimStart(TrimEnd(s)); r != [] ==> !IsWhitespace(r[|r| - 1])
  {
    var t := TrimEnd(s);
    TrimmedPieces(s, t, TrimStart(t));
  }

  lemma TrimEmptyIff(s: string)
    ensures TrimStart(TrimEnd(s)) == [] <==> AllWhitespace(s)
  {
    var t := TrimEnd(s);
    var r := TrimStart(t);
    if r == [] {
      TrimmedPieces(s, t, r);
      AllWhitespaceJoin(s, |t|);
    }
    if AllWhitespace(s) {
      AllWhitespacePrefix(s, |t|);
    }
  }

  /** The result of trimming the end, then the start, sits at `|t| - |r|` in `s`; what was
      dropped from `t` at the front is whitespace. */
  lemma TrimmedPieces(s: string, t: string, r: string)
    requires |t| <= |s| && t == s[..|t|]
    requires |r| <= |t| && r == t[|t| - |r|..]
    requires AllWhitespace(t[..|t| - |r|])
    ensures s[|t| - |r|..|t|] == r
    ensures r == [] ==> AllWhitespace(s[..|t|])
    ensures r != [] ==> r[|r| - 1] == t[|t| - 1]
  {
    assert r == [] ==> t[..|t|] == s[..|t|];
  }

  lemma AllWhitespaceJoin(s: string, i: nat)
    requires i <= |s| && AllWhitespace(s[..i]) && AllWhitespace(s[i..])
    ensures AllWhitespace(s)
  {
    forall k | 0 <= k < |s| ensures IsWhitespace(s[k]) {
      if k < i { assert s[..i][k] == s[k]; } else { assert s[i..][k - i] == s[k]; }
    }
  }

  lemma AllWhitespacePrefix(s: string, i: nat)
    requires i <= |s| && AllWhitespace(s)
    ensures AllWhitespace(s[..i])
  {
    forall k | 0 <= k < i ensures IsWhitespace(s[..i][k]) {
      assert s[..i][k] == s[k];
    }
  }

  /** The decimal digit character for `d`. */
  function DigitChar(d: nat): (c: char)
    requires d < 10
    ensures '0' <= c <= '9'
  {
    ('0' as int + d) as char
  }

  predicate IsDigits(s: string) {
    forall k :: 0 <= k < |s| ==> '0' <= s[k] <= '9'
  }

  /** `Display` of an unsigned integer: decimal, no sign, no leading zero. */
  function Decimal(n: nat): (r: string)
    ensures r != [] && IsDigits(r)
    ensures |r| > 1 ==> r[0] != '0'
    decreases n
  {
    if n < 10 then [DigitChar(n)] else Decimal(n / 10) + [DigitChar(n % 10)]
  }

  /** Reads a string of decimal digits back as a number (the inverse of `Decimal`). */
  function ParseDecimal(s: string): nat
    requires IsDigits(s)
  {
    if s == [] then 0 else 10 * ParseDecimal(s[..|s| - 1]) + (s[|s| - 1] as int - '0' as int)
  }

  lemma {:induction false} DecimalRoundTrip(n: nat)
    ensures ParseDecimal(Decimal(n)) == n
    decreases n
  {
    if n >= 10 {
      var d := Decimal(n);
      assert d[..|d| - 1] == Decimal(n / 10);
      DecimalRoundTrip(n / 10);
    }
  }

  lemma DecimalInjective(m: nat, n: nat)
    requires Decimal(m) == Decimal(n)
    ensures m == n
  {
    DecimalRoundTrip(m);
    DecimalRoundTrip(n);
  }

  /** The comma-separated body of a `Debug`-formatted list of numbers. */
  function DecimalItems(xs: seq<nat>): string {
    if xs == [] then ""
    else if |xs| == 1 then Decimal(xs[0])
    else DecimalItems(xs[..|xs| - 1]) + ", " + Decimal(xs[|xs| - 1])
  }

  /** `{:?}` of a `Vec<usize>`: `[1, 3]`, or `[]` for the empty vector. */
  function DebugList(xs: seq<nat>): (r: string)
    ensures |r| >= 2 && r[0] == '[' && r[|r| - 1] == ']'
    ensures r == "[]" <==> xs == []
  {
    var body := DecimalItems(xs);
    assert xs != [] ==> body != [] by {
      if |xs| == 1 { assert body == Decimal(xs[0]); }
    }
    "[" + body + "]"
  }

  /** The comma-separated body of `Debug` determines the list. */
  lemma {:induction false} DecimalItemsInjective(xs: seq<nat>, ys: seq<nat>)
    requires DecimalItems(xs) == DecimalItems(ys)
    ensures xs == ys
    decreases |xs|
  {
    if xs == [] || ys == [] {
      NonEmptyItems(xs);
      NonEmptyItems(ys);
    } else {
      var p1, d1 := ItemsLead(xs), Decimal(xs[|xs| - 1]);
      var p2, d2 := ItemsLead(ys), Decimal(ys[|ys| - 1]);
      ItemsSplit(xs);
      ItemsSplit(ys);
      DigitsSuffix(p1, d1, p2, d2);
      DecimalInjective(xs[|xs| - 1], ys[|ys| - 1]);
      if |xs| == 1 || |ys| == 1 {
        assert |xs| == 1 && |ys| == 1;
      } else {
        var a, b := DecimalItems(xs[..|xs| - 1]), DecimalItems(ys[..|ys| - 1]);
        assert a == p1[..|p1| - 2] && b == p2[..|p2| - 2];
        DecimalItemsInjective(xs[..|xs| - 1], ys[..|ys| - 1]);
        assert xs == xs[..|xs| - 1] + [xs[|xs| - 1]];
        assert ys == ys[..|ys| - 1] + [ys[|ys| - 1]];
      }
    }
  }

  /** What precedes the last number in the body: nothing, or the earlier items and `", "`. */
  function ItemsLead(xs: seq<nat>): string
    requires xs != []
  {
    if |xs| == 1 then "" else DecimalItems(xs[..|xs| - 1]) + ", "
  }

  predicate EndsInNonDigit(p: string) {
    p == [] || !('0' <= p[|p| - 1] <= '9')
  }

  lemma ItemsSplit(xs: seq<nat>)
    requires xs != []
    ensures DecimalItems(xs) == ItemsLead(xs) + Decimal(xs[|xs| - 1])
    ensures EndsInNonDigit(ItemsLead(xs))
    ensures |xs| == 1 <==> ItemsLead(xs) == []
  {
    if |xs| == 1 {
      assert "" + Decimal(xs[0]) == Decimal(xs[0]);
    }
  }

  lemma NonEmptyItems(xs: seq<nat>)
    ensures DecimalItems(xs) == [] <==> xs == []
  {
    if xs != [] {
      ItemsSplit(xs);
    }
  }

  /** A digit run that follows a non-digit (or nothing) is the whole run of trailing digits. */
  lemma DigitsSuffix(p1: string, d1: string, p2: string, d2: string)
    requires IsDigits(d1) && IsDigits(d2) && EndsInNonDigit(p1) && EndsInNonDigit(p2)
    requires p1 + d1 == p2 + d2
    ensures d1 == d2 && p1 == p2
  {
    var s := p1 + d1;
    TrailingDigitRun(p1, d1);
    TrailingDigitRun(p2, d2);
    assert d1 == s[|p1|..] && d2 == s[|p2|..];
    assert p1 == s[..|p1|] && p2 == s[..|p2|];
  }

  /** The number of digits at the end of `s`. */
  function TrailingDigits(s: string): nat
    decreases |s|
  {
    if s != [] && '0' <= s[|s| - 1] <= '9' then 1 + TrailingDigits(s[..|s| - 1]) else 0
  }

  lemma {:induction false} TrailingDigitRun(p: string, d: string)
    requires IsDigits(d) && EndsInNonDigit(p)
    ensures TrailingDigits(p + d) == |d|
    decreases |d|
  {
    if d != [] {
      var d' := d[..|d| - 1];
      assert (p + d)[..|p + d| - 1] == p + d';
      assert IsDigits(d') by {
        forall k | 0 <= k < |d'| ensures '0' <= d'[k] <= '9' { assert d'[k] == d[k]; }
      }
      TrailingDigitRun(p, d');
    }
  }

  /** `Debug` of a list determines the list: the printed indices are echoed in order. */
  lemma DebugListInjective(xs: seq<nat>, ys: seq<nat>)
    requires DebugList(xs) == DebugList(ys)
    ensures xs == ys
  {
    var r := DebugList(xs);
    assert DecimalItems(xs) == r[1..|r| - 1];
    assert DecimalItems(ys) == DebugList(ys)[1..|r| - 1];
    DecimalItemsInjective(xs, ys);
  }

  /** Regrouping a concatenation. */
  lemma AppendAssoc(a: string, b: string, c: string)
    ensures a + b + c == a + (b + c)
  {}

  /** Three pushes onto `s` append their concatenation. */
  lemma PushThree(s: string, a: string, b: string, c: string)
    ensures s + a + b + c == s + (a + b + c)
  {
    AppendAssoc(s, a, b);
    AppendAssoc(s, a + b, c);
  }

  /** `s` ends with `t`. */
  predicate EndsWith(s: string, t: string) {
    |t| <= |s| && s[|s| - |t|..] == t
  }

  /** The first piece of a text built by three further appends is a prefix of it. */
  lemma PrefixOfLeftmost(a: string, b: string, c: string, d: string)
    ensures a <= a + b + c + d
  {
    assert (a + b + c + d)[..|a|] == a;
  }

  /** A text built as `f + x + (p + d + z)` ends with `x + p + d + z`. */
  lemma EndsWithNested(f: string, x: string, p: string, d: string, z: string)
    ensures EndsWith(f + x + (p + d + z), x + p + d + z)
  {
    var t := x + p + d + z;
    AppendAssoc(x, p, d);
    AppendAssoc(x, p + d, z);
    AppendAssoc(f, x, p + d + z);
    assert f + x + (p + d + z) == f + t;
    assert (f + t)[|f + t| - |t|..] == t;
  }

  /** The head of a text built as `a`, then a part starting with `b + c`, then `e` and `f`. */
  lemma PrefixOfNested(a: string, b: string, c: string, d: string, e: string, f: string)
    ensures a + b + c <= a + (b + c + d) + e + f
  {
    var head := a + b + c;
    AppendAssoc(a, b, c);
    AppendAssoc(a, b + c, d);
    assert a + (b + c + d) == head + d;
    assert head <= head + d + e + f by {
      assert (head + d + e + f)[..|head|] == head;
    }
  }

  /** A piece `d` found in the middle of such a text. */
  lemma InfixOfNested(x: string, a: string, b: string, c: string, d: string, e: string, f: string)
    requires IsInfix(x, d)
    ensures IsInfix(x, a + (b + c + d) + e + f)
  {
    InfixOfRight(x, b + c, d);
    InfixOfRight(x, a, b + c + d);
    InfixOfLeft(x, a + (b + c + d), e);
    InfixOfLeft(x, a + (b + c + d) + e, f);
  }

  /** Helpers for locating pieces of a concatenation. */
  lemma InfixOfLeft(p: string, a: string, b: string)
    requires IsInfix(p, a)
    ensures IsInfix(p, a + b)
  {
    var i :| OccursAt(p, a, i);
    assert (a + b)[i..i + |p|] == p;
    assert OccursAt(p, a + b, i);
  }

  lemma InfixOfRight(p: string, a: string, b: string)
    requires IsInfix(p, b)
    ensures IsInfix(p, a + b)
  {
    var i :| OccursAt(p, b, i);
    assert (a + b)[|a| + i..|a| + i + |p|] == p;
    assert OccursAt(p, a + b, |a| + i);
  }

  lemma InfixTransitive(p: string, q: string, s: string)
    requires IsInfix(p, q) && IsInfix(q, s)
    ensures IsInfix(p, s)
  {
    var i :| OccursAt(p, q, i);
    var j :| OccursAt(q, s, j);
    forall m | 0 <= m < |p| ensures s[j + i + m] == p[m] {
      assert p[m] == q[i + m];
      assert q[i + m] == s[j + i + m];
    }
    assert OccursAt(p, s, j + i);
  }

  lemma InfixOfWhole(s: string)
    ensures IsInfix(s, s)
  {
    assert OccursAt(s, s, 0);
  }
}
