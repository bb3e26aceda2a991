/** The few Python string operations that the modelled code relies on:
    `str.strip()`, `str.split(sep)`, the substring test `sub in s`, and
    decimal digit fields read and written by `strptime` and `strftime`. */
module Text {

  /** The characters for which Python's `str.isspace()` holds; `str.strip()`
      with no argument removes exactly these from both ends. */
  predicate IsSpace(c: char) {
    ('\t' <= c <= '\r') || ('\U{001C}' <= c <= ' ') || c == '\U{0085}' || c == '\U{00A0}'
    || c == '\U{1680}' || ('\U{2000}' <= c <= '\U{200A}') || c == '\U{2028}' || c == '\U{2029}'
    || c == '\U{202F}' || c == '\U{205F}' || c == '\U{3000}'
  }

  predicate AllSpace(s: string) {
    forall i :: 0 <= i < |s| ==> IsSpace(s[i])
  }

  /** How many whitespace characters `s` starts with. */
  function LeadingSpaces(s: string): (n: nat)
    ensures n <= |s|
  {
    if s != [] && IsSpace(s[0]) then 1 + LeadingSpaces(s[1..]) else 0
  }

  /** The leading whitespace is all whitespace and is followed by a
      character that is not. */
  lemma {:induction false} LeadingSpacesBound(s: string)
    ensures var n := LeadingSpaces(s);
      AllSpace(s[..n]) && (n == |s| || !IsSpace(s[n]))
  {
    if s != [] && IsSpace(s[0]) {
      LeadingSpacesBound(s[1..]);
      var n := LeadingSpaces(s);
      assert s[..n] == [s[0]] + s[1..][..n - 1];
    }
  }

  /** Where the trailing whitespace of `s` starts. */
  function ContentEnd(s: string): (n: nat)
    ensures n <= |s|
  {
    if s != [] && IsSpace(s[|s| - 1]) then ContentEnd(s[..|s| - 1]) else |s|
  }

  /** The trailing whitespace is all whitespace and is preceded by a
      character that is not. */
  lemma {:induction false} ContentEndBound(s: string)
    ensures var n := ContentEnd(s);
      AllSpace(s[n..]) && (n == 0 || !IsSpace(s[n - 1]))
  {
    if s != [] && IsSpace(s[|s| - 1]) {
      ContentEndBound(s[..|s| - 1]);
      var n := ContentEnd(s);
      assert s[n..] == s[..|s| - 1][n..] + [s[|s| - 1]];
    }
  }

  /** `s.strip()`: `s` without its leading and trailing whitespace. */
  function Strip(s: string): (r: string)
    ensures |r| <= |s|
  {
    var t := s[LeadingSpaces(s)..];
    t[..ContentEnd(t)]
  }

  /** What `strip()` leaves neither starts nor ends with whitespace, and it
      removed only whitespace. */
  lemma StripEnds(s: string)
    ensures var r := Strip(s);
      r == [] || (!IsSpace(r[0]) && !IsSpace(r[|r| - 1]))
    ensures var i := LeadingSpaces(s);
      var t := s[i..];
      AllSpace(s[..i]) && AllSpace(t[ContentEnd(t)..])
  {
    var i := LeadingSpaces(s);
    var t := s[i..];
    LeadingSpacesBound(s);
    ContentEndBound(t);
    var j := ContentEnd(t);
    if j > 0 {
      assert !IsSpace(t[0]);
    }
  }

  lemma {:induction false} LeadingSpacesPadded(pre: string, rest: string)
    requires AllSpace(pre)
    requires rest == [] || !IsSpace(rest[0])
    ensures LeadingSpaces(pre + rest) == |pre|
  {
    if pre != [] {
      assert (pre + rest)[1..] == pre[1..] + rest;
      LeadingSpacesPadded(pre[1..], rest);
    }
  }

  lemma {:induction false} ContentEndPadded(rest: string, post: string)
    requires AllSpace(post)
    requires rest == [] || !IsSpace(rest[|rest| - 1])
    ensures ContentEnd(rest + post) == |rest|
  {
    if post != [] {
      assert (rest + post)[..|rest + post| - 1] == rest + post[..|post| - 1];
      ContentEndPadded(rest, post[..|post| - 1]);
    }
  }

  /** Stripping removes exactly the surrounding whitespace: any text whose
      ends are not whitespace comes back unchanged from `strip()`, however
      much whitespace surrounds it. */
  lemma StripPadded(pre: string, core: string, post: string)
    requires AllSpace(pre) && AllSpace(post)
    requires core == [] || (!IsSpace(core[0]) && !IsSpace(core[|core| - 1]))
    ensures Strip(pre + core + post) == core
  {
    var s := pre + core + post;
    if core == [] {
      assert s == (pre + post) + [];
      LeadingSpacesPadded(pre + post, []);
      assert s[LeadingSpaces(s)..] == [];
    } else {
      assert s == pre + (core + post);
      LeadingSpacesPadded(pre, core + post);
      assert s[|pre|..] == core + post;
      ContentEndPadded(core, post);
    }
  }

  /** Non-empty text that neither starts nor ends with whitespace. */
  predicate Trimmed(s: string) {
    s != [] && !IsSpace(s[0]) && !IsSpace(s[|s| - 1])
  }

  /** Trimmed text comes back from `strip()` unchanged, alone or next to
      one space. */
  lemma StripTrimmed(s: string)
    requires Trimmed(s)
    ensures Strip(s) == s && Strip(s + " ") == s && Strip(" " + s) == s
  {
    StripPadded([], s, []);
    assert [] + s + [] == s;
    StripPadded([], s, " ");
    assert [] + s + " " == s + " ";
    StripPadded(" ", s, []);
    assert " " + s + [] == " " + s;
  }

  /** A character that is not whitespace lies past the leading whitespace. */
  lemma AllSpaceBefore(s: string, n: nat, p: nat)
    requires n <= |s| && AllSpace(s[..n]) && p < |s| && !IsSpace(s[p])
    ensures n <= p
  {
  }

  /** A character that is not whitespace lies before the trailing whitespace. */
  lemma AllSpaceAfter(t: string, j: nat, p: nat)
    requires j <= |t| && AllSpace(t[j..]) && p < |t| && !IsSpace(t[p])
    ensures p < j
  {
  }

  /** `s.count(c)`: how often `c` occurs in `s`. */
  function Count(s: string, c: char): nat {
    if s == [] then 0 else (if s[0] == c then 1 else 0) + Count(s[1..], c)
  }

  lemma {:induction false} CountAppend(a: string, b: string, c: char)
    ensures Count(a + b, c) == Count(a, c) + Count(b, c)
  {
    if a == [] {
      assert a + b == b;
    } else {
      assert (a + b)[0] == a[0] && (a + b)[1..] == a[1..] + b;
      CountAppend(a[1..], b, c);
    }
  }

  lemma {:induction false} CountAbsent(s: string, c: char)
    requires c !in s
    ensures Count(s, c) == 0
  {
    if s != [] {
      CountAbsent(s[1..], c);
    }
  }

  /** `s.split(sep)` for a one-character separator: one more piece than
      there are separators. */
  function Split(s: string, sep: char): (parts: seq<string>)
    ensures |parts| == Count(s, sep) + 1
  {
    if s == [] then [[]]
    else
      var rest := Split(s[1..], sep);
      if s[0] == sep then [[]] + rest else [[s[0]] + rest[0]] + rest[1..]
  }

  /** No piece of a split holds the separator. */
  lemma {:induction false} SplitPiecesSeparatorFree(s: string, sep: char)
    ensures forall k :: 0 <= k < |Split(s, sep)| ==> sep !in Split(s, sep)[k]
  {
    if s != [] {
      SplitPiecesSeparatorFree(s[1..], sep);
      var rest := Split(s[1..], sep);
      if s[0] != sep {
        assert sep !in [s[0]] + rest[0];
      }
    }
  }

  /** `sep.join(parts)`. */
  function Join(parts: seq<string>, sep: char): string {
    if parts == [] then []
    else if |parts| == 1 then parts[0]
    else parts[0] + [sep] + Join(parts[1..], sep)
  }

  /** Joining the pieces of a split with the same separator gives the text back. */
  lemma {:induction false} JoinSplit(s: string, sep: char)
    ensures Join(Split(s, sep), sep) == s
  {
    if s != [] {
      var rest := Split(s[1..], sep);
      JoinSplit(s[1..], sep);
      if s[0] == sep {
        JoinCons([], rest, sep);
      } else {
        JoinExtendHead(s[0], rest, sep);
      }
      assert s == [s[0]] + s[1..];
    }
  }

  lemma JoinCons(head: string, rest: seq<string>, sep: char)
    requires |rest| >= 1
    ensures Join([head] + rest, sep) == head + [sep] + Join(rest, sep)
  {
    assert ([head] + rest)[1..] == rest;
  }

  lemma JoinExtendHead(c: char, parts: seq<string>, sep: char)
    requires |parts| >= 1
    ensures Join([[c] + parts[0]] + parts[1..], sep) == [c] + Join(parts, sep)
  {
    if |parts| > 1 {
      JoinCons([c] + parts[0], parts[1..], sep);
    }
  }

  /** Splitting a join of separator-free pieces gives the pieces back. */
  lemma {:induction false} SplitJoin(parts: seq<string>, sep: char)
    requires |parts| >= 1
    requires forall k :: 0 <= k < |parts| ==> sep !in parts[k]
    ensures Split(Join(parts, sep), sep) == parts
  {
    if |parts| == 1 {
      SplitSeparatorFree(parts[0], sep);
    } else {
      SplitJoin(parts[1..], sep);
      SplitPrefix(parts[0], Join(parts[1..], sep), sep);
    }
  }

  lemma {:induction false} SplitSeparatorFree(s: string, sep: char)
    requires sep !in s
    ensures Split(s, sep) == [s]
  {
    if s != [] {
      SplitSeparatorFree(s[1..], sep);
      assert s == [s[0]] + s[1..];
    }
  }

  lemma {:induction false} SplitPrefix(head: string, tail: string, sep: char)
    requires sep !in head
    ensures Split(head + [sep] + tail, sep) == [head] + Split(tail, sep)
  {
    var s := head + [sep] + tail;
    if head == [] {
      assert s[1..] == tail;
    } else {
      assert s[1..] == head[1..] + [sep] + tail;
      SplitPrefix(head[1..], tail, sep);
      assert [head[0]] + head[1..] == head;
    }
  }

  /** Stripping a text with one separator `c` that is not whitespace, then
      splitting it on `c`, gives two fields: `l` without some leading
      whitespace and `r` without some trailing whitespace. */
  lemma StripAroundSeparator(l: string, r: string, c: char) returns (i: nat, k: nat)
    requires c !in l && c !in r && !IsSpace(c)
    ensures i <= |l| && AllSpace(l[..i])
    ensures k <= |r| && AllSpace(r[k..])
    ensures |Split(Strip(l + [c] + r), c)| == 2
    ensures Split(Strip(l + [c] + r), c)[0] == l[i..]
    ensures Split(Strip(l + [c] + r), c)[1] == r[..k]
  {
    var s := l + [c] + r;
    i := LeadingSpaces(s);
    var t := s[i..];
    var j := ContentEnd(t);
    StripEnds(s);
    assert s[|l|] == c;
    AllSpaceBefore(s, i, |l|);
    assert t[|l| - i] == c;
    AllSpaceAfter(t, j, |l| - i);
    k := i + j - |l| - 1;
    SliceAroundMiddle(l, c, r, i, i + j);
    assert c !in l[i..] by { assert forall x | x in l[i..] :: x in l; }
    assert c !in r[..k] by { assert forall x | x in r[..k] :: x in r; }
    SplitTwo(l[i..], r[..k], c);
  }

  /** Each of the two fields around a separator, stripped, is the text on
      that side of the separator, stripped. */
  lemma StripSplitTwo(l: string, r: string, c: char)
    requires c !in l && c !in r && !IsSpace(c)
    ensures var parts := Split(Strip(l + [c] + r), c);
      |parts| == 2 && Strip(parts[0]) == Strip(l) && Strip(parts[1]) == Strip(r)
  {
    var i, k := StripAroundSeparator(l, r, c);
    assert l == l[..i] + l[i..] + [];
    StripIgnoresPadding(l[..i], l[i..], []);
    assert r == [] + r[..k] + r[k..];
    StripIgnoresPadding([], r[..k], r[k..]);
  }

  /** Whitespace added around a text does not change what `strip()` gives. */
  lemma StripIgnoresPadding(pre: string, s: string, post: string)
    requires AllSpace(pre) && AllSpace(post)
    ensures Strip(pre + s + post) == Strip(s)
  {
    var i := LeadingSpaces(s);
    var t := s[i..];
    var j := ContentEnd(t);
    StripEnds(s);
    var front, core, back := s[..i], t[..j], t[j..];
    ThreeParts(s, i, j);
    AllSpaceAppend(pre, front);
    AllSpaceAppend(back, post);
    ConcatRegroup(pre, front, core, back, post);
    StripPadded(pre + front, core, back + post);
  }

  lemma AllSpaceAppend(a: string, b: string)
    requires AllSpace(a) && AllSpace(b)
    ensures AllSpace(a + b)
  {
  }

  lemma ConcatRegroup<T>(a: seq<T>, b: seq<T>, c: seq<T>, d: seq<T>, e: seq<T>)
    ensures a + (b + (c + d)) + e == (a + b) + c + (d + e)
  {
  }

  lemma ThreeParts<T>(s: seq<T>, i: nat, j: nat)
    requires i <= |s| && j <= |s| - i
    ensures s == s[..i] + (s[i..][..j] + s[i..][j..])
  {
  }

  /** Cutting `l + [c] + r` at `i` and `m` on either side of `c`. */
  lemma SliceAroundMiddle<T>(l: seq<T>, c: T, r: seq<T>, i: nat, m: nat)
    requires i <= |l| < m <= |l| + 1 + |r|
    ensures (l + [c] + r)[i..][..m - i] == l[i..] + [c] + r[..m - |l| - 1]
    ensures (l + [c] + r)[i..][m - i..] == r[m - |l| - 1..]
    ensures (l + [c] + r)[..i] == l[..i]
  {
  }

  /** The two- and three-piece splits that the date formats rely on. */
  lemma SplitTwo(a: string, b: string, sep: char)
    requires sep !in a && sep !in b
    ensures Split(a + [sep] + b, sep) == [a, b]
  {
    SplitPrefix(a, b, sep);
    SplitSeparatorFree(b, sep);
  }

  lemma SplitThree(a: string, b: string, c: string, sep: char)
    requires sep !in a && sep !in b && sep !in c
    ensures Split(a + [sep] + b + [sep] + c, sep) == [a, b, c]
  {
    var tail := b + [sep] + c;
    assert a + [sep] + b + [sep] + c == a + [sep] + tail;
    SplitPrefix(a, tail, sep);
    SplitTwo(b, c, sep);
    assert [a] + [b, c] == [a, b, c];
  }

  /** Python's substring test `sub in s`. */
  predicate Contains(s: string, sub: string) {
    sub <= s || (s != [] && Contains(s[1..], sub))
  }

  /** `sub` occurs in `s` starting at index `i`. */
  predicate OccursAt(s: string, sub: string, i: nat) {
    i + |sub| <= |s| && s[i..i + |sub|] == sub
  }

  /** `sub in s` holds exactly when `sub` occurs in `s` at some index. */
  lemma {:induction false} ContainsAt(s: string, sub: string)
    ensures Contains(s, sub) <==> exists i: nat :: OccursAt(s, sub, i)
  {
    if s == [] {
      if sub == [] {
        assert OccursAt(s, sub, 0);
      }
    } else {
      ContainsAt(s[1..], sub);
      if Contains(s, sub) {
        if sub <= s {
          assert OccursAt(s, sub, 0);
        } else {
          var i: nat :| OccursAt(s[1..], sub, i);
          SliceOfTail(s, i, |sub|);
          assert OccursAt(s, sub, i + 1);
        }
      }
      if exists i: nat :: OccursAt(s, sub, i) {
        var i: nat :| OccursAt(s, sub, i);
        if i > 0 {
          SliceOfTail(s, i - 1, |sub|);
          assert OccursAt(s[1..], sub, i - 1);
        }
      }
    }
  }

  lemma SliceOfTail<T>(s: seq<T>, i: nat, n: nat)
    requires 1 <= |s| && i + n <= |s| - 1
    ensures s[1..][i..i + n] == s[i + 1..i + 1 + n]
  {
  }

  /** A substring test on `prefix + s` looks only at `s` when no
      occurrence of `sub` starts inside `prefix`. */
  lemma {:induction false} ContainsBehindPrefix(prefix: string, s: string, sub: string)
    requires forall i :: 0 <= i < |prefix| ==> !(sub <= prefix[i..] + s)
    ensures Contains(prefix + s, sub) <==> Contains(s, sub)
  {
    if prefix != [] {
      assert prefix[0..] == prefix;
      assert (prefix + s)[1..] == prefix[1..] + s;
      forall i | 0 <= i < |prefix[1..]| ensures !(sub <= prefix[1..][i..] + s) {
        assert prefix[1..][i..] == prefix[i + 1..];
      }
      ContainsBehindPrefix(prefix[1..], s, sub);
    } else {
      assert prefix + s == s;
    }
  }

  predicate IsDigit(c: char) {
    '0' <= c <= '9'
  }

  predicate AllDigits(s: string) {
    forall i :: 0 <= i < |s| ==> IsDigit(s[i])
  }

  function Pow10(n: nat): (p: nat)
    ensures p >= 1
  {
    if n == 0 then 1 else 10 * Pow10(n - 1)
  }

  /** The number a run of decimal digits stands for. */
  function DecimalValue(s: string): (n: nat)
    requires AllDigits(s)
    ensures n < Pow10(|s|)
  {
    if s == [] then 0
    else DecimalValue(s[..|s| - 1]) * 10 + (s[|s| - 1] as int - '0' as int)
  }

  /** The last `width` decimal digits of `n`, zero-padded on the left
      (`strftime`'s `%d`, `%m` and `%Y`). */
  function PadDecimal(n: nat, width: nat): (r: string)
    ensures |r| == width && AllDigits(r)
  {
    if width == 0 then []
    else PadDecimal(n / 10, width - 1) + [('0' as int + n % 10) as char]
  }

  /** Reading back a zero-padded field gives the number, when it fits. */
  lemma {:induction false} DecimalOfPad(n: nat, width: nat)
    requires n < Pow10(width)
    ensures DecimalValue(PadDecimal(n, width)) == n
  {
    if width > 0 {
      DecimalOfPad(n / 10, width - 1);
      var r := PadDecimal(n, width);
      assert r[..|r| - 1] == PadDecimal(n / 10, width - 1);
    }
  }

  /** Padding the value of a digit field to its own width gives it back. */
  lemma {:induction false} PadOfDecimal(s: string)
    requires AllDigits(s)
    ensures PadDecimal(DecimalValue(s), |s|) == s
  {
    if s != [] {
      var init := s[..|s| - 1];
      PadOfDecimal(init);
      var n := DecimalValue(s);
      var d := s[|s| - 1] as int - '0' as int;
      assert n == DecimalValue(init) * 10 + d && 0 <= d < 10;
      assert n / 10 == DecimalValue(init) && n % 10 == d;
      assert PadDecimal(n, |s|) == PadDecimal(n / 10, |s| - 1) + [('0' as int + d) as char];
      assert s == init + [s[|s| - 1]];
    }
  }
}
