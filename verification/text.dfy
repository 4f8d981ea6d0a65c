/** The Python string operations the scripts rely on: `str.split` with a one-character
    separator, `str.join`, `str.strip` and `str(n)` for a natural number. */
module Text {

  /** Number of occurrences of `c` in `s` (Python's `s.count(c)`). */
  function Count(s: string, c: char): nat {
    if |s| == 0 then 0 else (if s[0] == c then 1 else 0) + Count(s[1..], c)
  }

  lemma {:induction false} CountAppend(a: string, b: string, c: char)
    ensures Count(a + b, c) == Count(a, c) + Count(b, c)
  {
    if |a| > 0 {
      assert (a + b)[1..] == a[1..] + b;
      CountAppend(a[1..], b, c);
    } else {
      assert a + b == b;
    }
  }

  lemma {:induction false} CountAbsent(s: string, c: char)
    requires c !in s
    ensures Count(s, c) == 0
  {
    if |s| > 0 {
      CountAbsent(s[1..], c);
    }
  }

  /** Position of the first `c` in `s`, or `|s|` when `s` has none. */
  function IndexOf(s: string, c: char): (i: nat)
    ensures i <= |s|
    ensures i < |s| ==> s[i] == c
    ensures c !in s[..i]
  {
    if |s| == 0 || s[0] == c then 0
    else
      var j := IndexOf(s[1..], c);
      assert s[..1 + j] == [s[0]] + s[1..][..j];
      1 + j
  }

  /** The first occurrence of `c` is the one at `k` when none comes before it. */
  lemma IndexOfFirst(s: string, c: char, k: nat)
    requires k <= |s| && c !in s[..k]
    requires k < |s| ==> s[k] == c
    ensures IndexOf(s, c) == k
  {
  }

  /** Python's `sep.join(parts)` for a one-character separator. */
  function Join(parts: seq<string>, sep: char): (s: string)
    ensures |parts| == 1 ==> s == parts[0]
  {
    if |parts| == 0 then ""
    else if |parts| == 1 then parts[0]
    else parts[0] + [sep] + Join(parts[1..], sep)
  }

  /** Joining a list that has a first part and at least one more. */
  lemma JoinCons(first: string, rest: seq<string>, sep: char)
    requires |rest| >= 1
    ensures Join([first] + rest, sep) == first + [sep] + Join(rest, sep)
  {
    assert ([first] + rest)[1..] == rest;
  }

  /** Python's `s.split(sep)` for a one-character separator: the pieces between
      the separators, at least one, none containing the separator, which glued
      back together with the separator give `s` again. */
  function Split(s: string, sep: char): (parts: seq<string>)
    ensures |parts| >= 1
    ensures forall k :: 0 <= k < |parts| ==> sep !in parts[k]
    ensures Join(parts, sep) == s
    decreases |s|
  {
    var i := IndexOf(s, sep);
    if i == |s| then
      assert s[..i] == s;
      [s]
    else
      var rest := Split(s[i + 1..], sep);
      assert ([s[..i]] + rest)[1..] == rest;
      assert s == s[..i] + [sep] + s[i + 1..];
      [s[..i]] + rest
  }

  /** Splitting at a separator that ends the first piece. */
  lemma SplitCons(a: string, sep: char, b: string)
    requires sep !in a
    ensures Split(a + [sep] + b, sep) == [a] + Split(b, sep)
  {
    var s := a + [sep] + b;
    assert s[..|a|] == a;
    IndexOfFirst(s, sep, |a|);
    assert s[|a| + 1..] == b;
  }

  /** Splitting a joined list gives the list back when no part holds the separator. */
  lemma {:induction false} SplitJoin(parts: seq<string>, sep: char)
    requires |parts| >= 1
    requires forall k :: 0 <= k < |parts| ==> sep !in parts[k]
    ensures Split(Join(parts, sep), sep) == parts
  {
    if |parts| == 1 {
      IndexOfFirst(parts[0], sep, |parts[0]|);
    } else {
      SplitJoin(parts[1..], sep);
      SplitCons(parts[0], sep, Join(parts[1..], sep));
    }
  }

  /** There is one more piece than there are separators. */
  lemma {:induction false} SplitCount(s: string, sep: char)
    ensures |Split(s, sep)| == Count(s, sep) + 1
    decreases |s|
  {
    var i := IndexOf(s, sep);
    if i == |s| {
      assert s[..i] == s;
      CountAbsent(s, sep);
    } else {
      assert s == s[..i] + [sep] + s[i + 1..];
      CountAppend(s[..i] + [sep], s[i + 1..], sep);
      CountAppend(s[..i], [sep], sep);
      CountAbsent(s[..i], sep);
      assert Count([sep], sep) == 1 + Count([], sep);
      SplitCount(s[i + 1..], sep);
    }
  }

  /** A character absent from every part and distinct from the separator is absent from the join. */
  lemma {:induction false} JoinAvoids(parts: seq<string>, sep: char, c: char)
    requires c != sep
    requires forall k :: 0 <= k < |parts| ==> c !in parts[k]
    ensures c !in Join(parts, sep)
  {
    if |parts| > 1 {
      JoinAvoids(parts[1..], sep, c);
    }
  }

  /** `[sep.join(row) for row in rows]`: each row as one line of text. */
  function JoinEach(rows: seq<seq<string>>, sep: char): (lines: seq<string>)
    ensures |lines| == |rows|
  {
    seq(|rows|, j requires 0 <= j < |rows| => Join(rows[j], sep))
  }

  /** Fields free of both separators. */
  predicate Plain(rows: seq<seq<string>>, sep: char, nl: char) {
    forall j, k :: 0 <= j < |rows| && 0 <= k < |rows[j]| ==> sep !in rows[j][k] && nl !in rows[j][k]
  }

  /** Every joined row is one line, and splitting it at `sep` gives the row back. */
  lemma JoinEachRoundTrip(rows: seq<seq<string>>, sep: char, nl: char)
    requires sep != nl && Plain(rows, sep, nl)
    requires forall j :: 0 <= j < |rows| ==> |rows[j]| >= 1
    ensures forall j :: 0 <= j < |rows| ==>
      nl !in JoinEach(rows, sep)[j] && Split(JoinEach(rows, sep)[j], sep) == rows[j]
  {
    forall j | 0 <= j < |rows|
      ensures nl !in JoinEach(rows, sep)[j] && Split(JoinEach(rows, sep)[j], sep) == rows[j]
    {
      JoinAvoids(rows[j], sep, nl);
      SplitJoin(rows[j], sep);
    }
  }

  /** A text of one line per row, each row joined by `sep`, the lines joined by `nl`,
      splits back at `nl` into those lines. */
  lemma RowsRoundTrip(rows: seq<seq<string>>, sep: char, nl: char)
    requires sep != nl && Plain(rows, sep, nl) && |rows| >= 1
    requires forall j :: 0 <= j < |rows| ==> |rows[j]| >= 1
    ensures Split(Join(JoinEach(rows, sep), nl), nl) == JoinEach(rows, sep)
  {
    JoinEachRoundTrip(rows, sep, nl);
    SplitJoin(JoinEach(rows, sep), nl);
  }

  /** The same with a first line in front. */
  lemma HeadedRowsRoundTrip(first: string, rows: seq<seq<string>>, sep: char, nl: char)
    requires nl !in first
    requires sep != nl && Plain(rows, sep, nl) && |rows| >= 1
    requires forall j :: 0 <= j < |rows| ==> |rows[j]| >= 1
    ensures Split(first + [nl] + Join(JoinEach(rows, sep), nl), nl) == [first] + JoinEach(rows, sep)
  {
    JoinEachRoundTrip(rows, sep, nl);
    JoinCons(first, JoinEach(rows, sep), nl);
    SplitJoin([first] + JoinEach(rows, sep), nl);
  }

  /** Number of leading characters of `s` that `drop` accepts. */
  function LeadLen(s: string, drop: char -> bool): (k: nat)
    ensures k <= |s|
    ensures forall i :: 0 <= i < k ==> drop(s[i])
    ensures k < |s| ==> !drop(s[k])
  {
    if |s| == 0 || !drop(s[0]) then 0 else 1 + LeadLen(s[1..], drop)
  }

  /** Number of trailing characters of `s` that `drop` accepts. */
  function TrailLen(s: string, drop: char -> bool): (k: nat)
    ensures k <= |s|
    ensures forall i :: |s| - k <= i < |s| ==> drop(s[i])
    ensures k < |s| ==> !drop(s[|s| - k - 1])
  {
    if |s| == 0 || !drop(s[|s| - 1]) then 0 else 1 + TrailLen(s[..|s| - 1], drop)
  }

  /** Python's `s.strip(chars)`: the slice of `s` left after removing every leading
      and every trailing character that `drop` accepts. */
  function Strip(s: string, drop: char -> bool): (r: string)
    ensures LeadLen(s, drop) + |r| <= |s|
    ensures r == s[LeadLen(s, drop)..LeadLen(s, drop) + |r|]
    ensures forall i :: LeadLen(s, drop) + |r| <= i < |s| ==> drop(s[i])
    ensures |r| > 0 ==> !drop(r[0]) && !drop(r[|r| - 1])
  {
    var t := s[LeadLen(s, drop)..];
    t[..|t| - TrailLen(t, drop)]
  }

  /** Stripping removes exactly the padding around a core whose end characters are kept. */
  lemma StripPadding(pre: string, w: string, post: string, drop: char -> bool)
    requires forall i :: 0 <= i < |pre| ==> drop(pre[i])
    requires forall i :: 0 <= i < |post| ==> drop(post[i])
    requires |w| > 0 ==> !drop(w[0]) && !drop(w[|w| - 1])
    ensures Strip(pre + w + post, drop) == w
  {
    var s := pre + w + post;
    if |w| > 0 {
      assert s[|pre|] == w[0];
      assert s[|pre| + |w| - 1] == w[|w| - 1];
      assert s[|pre|..|pre| + |w|] == w;
    }
  }

  /** A string with no padding at either end is left as it is. */
  lemma StripNothing(s: string, drop: char -> bool)
    requires |s| > 0 ==> !drop(s[0]) && !drop(s[|s| - 1])
    ensures Strip(s, drop) == s
  {
    StripPadding("", s, "", drop);
    assert "" + s + "" == s;
  }

  /** The characters Python's `str.isspace` accepts, which `str.strip()` removes. */
  predicate IsSpace(c: char) {
    var n := c as int;
    || 9 <= n <= 13
    || 28 <= n <= 32
    || n == 0x85 || n == 0xA0 || n == 0x1680
    || 0x2000 <= n <= 0x200A
    || n == 0x2028 || n == 0x2029 || n == 0x202F || n == 0x205F || n == 0x3000
  }

  predicate IsDigit(c: char) {
    '0' <= c <= '9'
  }

  function DigitChar(d: nat): (c: char)
    requires d < 10
    ensures IsDigit(c)
  {
    (48 + d) as char
  }

  /** Python's `str(n)` for a natural number: its decimal digits, without leading zeros. */
  function NatToString(n: nat): (s: string)
    ensures |s| >= 1
    ensures forall i :: 0 <= i < |s| ==> IsDigit(s[i])
    ensures s[0] == '0' <==> n == 0
    decreases n
  {
    if n < 10 then [DigitChar(n)] else NatToString(n / 10) + [DigitChar(n % 10)]
  }

  /** The number a string of decimal digits denotes. */
  function DecimalValue(s: string): nat
    requires forall i :: 0 <= i < |s| ==> IsDigit(s[i])
  {
    if |s| == 0 then 0
    else 10 * DecimalValue(s[..|s| - 1]) + DigitValue(s[|s| - 1])
  }

  function DigitValue(c: char): (d: nat)
    requires IsDigit(c)
    ensures d < 10 && DigitChar(d) == c
  {
    (c as int) - ('0' as int)
  }

  /** Reading back the decimal representation gives the number. */
  lemma {:induction false} DecimalRoundTrip(n: nat)
    ensures DecimalValue(NatToString(n)) == n
    decreases n
  {
    if n >= 10 {
      DecimalRoundTrip(n / 10);
      var s := NatToString(n);
      assert s[..|s| - 1] == NatToString(n / 10);
    }
  }

  /** Distinct numbers have distinct decimal representations. */
  lemma NatToStringInjective(a: nat, b: nat)
    requires NatToString(a) == NatToString(b)
    ensures a == b
  {
    DecimalRoundTrip(a);
    DecimalRoundTrip(b);
  }
}
