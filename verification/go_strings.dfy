/** The parts of Go's `strings` and `fmt` packages that the downloader relies on,
    defined on `seq<char>` with the same left-to-right, non-overlapping semantics:
    `strings.Index`, `Split`, `Join`, `ReplaceAll`, `HasPrefix`, `TrimSpace`, and
    `fmt.Sprintf("%d", n)`. */
module GoStrings {
  import opened Seqs

  /** `sep` occurs in `s` starting at position `i`. */
  predicate OccursAt(s: string, sep: string, i: int)
  {
    0 <= i && i + |sep| <= |s| && s[i..i + |sep|] == sep
  }

  /** `strings.Contains(s, sep)`. */
  predicate Contains(s: string, sep: string)
  {
    exists i | 0 <= i <= |s| - |sep| :: OccursAt(s, sep, i)
  }

  /** `sep` occurs in `s` at exactly one position. */
  predicate OccursOnce(s: string, sep: string)
  {
    exists i | 0 <= i <= |s| - |sep| ::
      OccursAt(s, sep, i) && forall j | 0 <= j <= |s| - |sep| :: OccursAt(s, sep, j) ==> j == i
  }

  /** No proper prefix of `sep` is also a suffix of it, so two occurrences of
      `sep` can never overlap. Every separator the downloader uses has this shape. */
  predicate NoBorder(sep: string)
  {
    forall k :: 0 < k < |sep| ==> sep[..k] != sep[|sep| - k..]
  }

  /** Occurrences in `s[1..]` are occurrences in `s`, one position later. */
  lemma OccursShift(s: string, sep: string)
    requires |s| > 0
    ensures forall i :: 1 <= i ==> (OccursAt(s, sep, i) <==> OccursAt(s[1..], sep, i - 1))
  {
    forall i | 1 <= i
      ensures OccursAt(s, sep, i) <==> OccursAt(s[1..], sep, i - 1)
    {
      if i + |sep| <= |s| {
        assert s[1..][i - 1..i - 1 + |sep|] == s[i..i + |sep|];
      }
    }
  }

  /** `strings.Index(s, sep)`: the first position of `sep` in `s`, or -1. */
  function Index(s: string, sep: string): (r: int)
    requires |sep| > 0
    ensures r < 0 ==> r == -1 && !Contains(s, sep)
    ensures r >= 0 ==> OccursAt(s, sep, r) && forall j :: 0 <= j < r ==> !OccursAt(s, sep, j)
    decreases |s|
  {
    if |s| < |sep| then -1
    else if s[..|sep|] == sep then 0
    else
      var k := Index(s[1..], sep);
      OccursShift(s, sep);
      if k < 0 then -1 else k + 1
  }

  /** No occurrence of `sep` lies wholly inside `s[..i]` when none starts before `i`. */
  lemma PrefixFree(s: string, sep: string, i: int)
    requires |sep| > 0 && 0 <= i <= |s|
    requires forall j :: 0 <= j < i ==> !OccursAt(s, sep, j)
    ensures !Contains(s[..i], sep)
  {
    forall j | OccursAt(s[..i], sep, j)
      ensures false
    {
      assert s[..i][j..j + |sep|] == s[j..j + |sep|];
      assert OccursAt(s, sep, j);
    }
  }

  /** `strings.Join(parts, sep)`. */
  function Join(parts: seq<string>, sep: string): string
    decreases |parts|
  {
    if |parts| == 0 then ""
    else if |parts| == 1 then parts[0]
    else parts[0] + sep + Join(parts[1..], sep)
  }

  /** `strings.Split(s, sep)` for a non-empty separator: the pieces between the
      left-to-right, non-overlapping occurrences of `sep`. Joining them back gives
      `s`, and no piece contains the separator. */
  function Split(s: string, sep: string): (parts: seq<string>)
    requires |sep| > 0
    ensures |parts| >= 1
    ensures Join(parts, sep) == s
    ensures forall i :: 0 <= i < |parts| ==> !Contains(parts[i], sep)
    decreases |s|
  {
    var i := Index(s, sep);
    if i < 0 then [s]
    else
      PrefixFree(s, sep, i);
      var rest := Split(s[i + |sep|..], sep);
      assert s == s[..i] + sep + s[i + |sep|..];
      assert ([s[..i]] + rest)[1..] == rest;
      [s[..i]] + rest
  }

  /** `strings.ReplaceAll(s, target, replacement)` for a non-empty `target`. */
  function ReplaceAll(s: string, target: string, replacement: string): (r: string)
    requires |target| > 0
    ensures !Contains(s, target) ==> r == s
  {
    var parts := Split(s, target);
    assert !Contains(s, target) ==> parts == [s] by {
      if !Contains(s, target) {
        SplitNone(s, target);
      }
    }
    Join(parts, replacement)
  }

  /** `strings.HasPrefix(s, prefix)`. */
  predicate HasPrefix(s: string, prefix: string)
    ensures HasPrefix(s, prefix) <==> exists rest :: s == prefix + rest
  {
    var ok := |prefix| <= |s| && s[..|prefix|] == prefix;
    assert ok ==> s == prefix + s[|prefix|..];
    ok
  }

  /** `unicode.IsSpace`: the Latin-1 spaces and the Unicode White_Space property. */
  predicate IsSpace(c: char)
  {
    || c == '\t' || c == '\n' || c == '\U{000B}' || c == '\U{000C}' || c == '\r' || c == ' '
    || c == '\U{0085}' || c == '\U{00A0}' || c == '\U{1680}'
    || ('\U{2000}' <= c <= '\U{200A}')
    || c == '\U{2028}' || c == '\U{2029}' || c == '\U{202F}' || c == '\U{205F}' || c == '\U{3000}'
  }

  /** `s` without its leading white space. */
  function TrimLeft(s: string): (r: string)
    ensures |r| <= |s| && r == s[|s| - |r|..]
    ensures forall i :: 0 <= i < |s| - |r| ==> IsSpace(s[i])
    ensures |r| > 0 ==> !IsSpace(r[0])
    decreases |s|
  {
    if |s| > 0 && IsSpace(s[0]) then TrimLeft(s[1..]) else s
  }

  /** `s` without its trailing white space. */
  function TrimRight(s: string): (r: string)
    ensures |r| <= |s| && r == s[..|r|]
    ensures forall i :: |r| <= i < |s| ==> IsSpace(s[i])
    ensures |r| > 0 ==> !IsSpace(r[|r| - 1])
    decreases |s|
  {
    if |s| > 0 && IsSpace(s[|s| - 1]) then TrimRight(s[..|s| - 1]) else s
  }

  /** `r` is `s[i..]` cut to length `|r|`, and everything of `s` outside that slice is white space. */
  predicate TrimmedAt(s: string, r: string, i: int)
  {
    && 0 <= i && i + |r| <= |s| && r == s[i..i + |r|]
    && (forall j :: 0 <= j < i ==> IsSpace(s[j]))
    && (forall j :: i + |r| <= j < |s| ==> IsSpace(s[j]))
  }

  /** `strings.TrimSpace(s)`: the slice of `s` left after removing white space at both ends. */
  function TrimSpace(s: string): (r: string)
    ensures |r| > 0 ==> !IsSpace(r[0]) && !IsSpace(r[|r| - 1])
    ensures exists i :: TrimmedAt(s, r, i)
  {
    var l := TrimLeft(s);
    var r := TrimRight(l);
    FramedSlice(s, l, r, |s| - |l|);
    r
  }

  /** A prefix `r` of a suffix `l == s[i..]`, with white space on both sides, is a trimmed slice of `s`. */
  lemma FramedSlice(s: string, l: string, r: string, i: int)
    requires 0 <= i <= |s| && l == s[i..] && |r| <= |l| && r == l[..|r|]
    requires forall j :: 0 <= j < i ==> IsSpace(s[j])
    requires forall j :: |r| <= j < |l| ==> IsSpace(l[j])
    ensures TrimmedAt(s, r, i)
  {
    forall j | i + |r| <= j < |s|
      ensures IsSpace(s[j])
    {
      assert s[j] == l[j - i];
    }
  }

  /** The decimal digit for `d`. */
  function Digit(d: nat): (c: char)
    requires d < 10
    ensures '0' <= c <= '9'
  {
    (48 + d) as char
  }

  /** `fmt.Sprintf("%d", n)` for a non-negative `n`. */
  function FormatNat(n: nat): (r: string)
    ensures |r| > 0
    ensures forall i :: 0 <= i < |r| ==> '0' <= r[i] <= '9'
    decreases n
  {
    if n < 10 then [Digit(n)] else FormatNat(n / 10) + [Digit(n % 10)]
  }

  /** `fmt.Sprintf("%d", n)`: an optional minus sign followed by decimal digits. */
  function FormatInt(n: int): (r: string)
    ensures forall i :: 0 <= i < |r| ==> r[i] == '-' || '0' <= r[i] <= '9'
  {
    if n < 0 then "-" + FormatNat(-n) else FormatNat(n)
  }

  /** The number a string of decimal digits denotes (`strconv.Atoi` on digits only). */
  function DecimalValue(s: string): (n: nat)
    requires forall i :: 0 <= i < |s| ==> '0' <= s[i] <= '9'
    decreases |s|
  {
    if |s| == 0 then 0
    else DecimalValue(s[..|s| - 1]) * 10 + (s[|s| - 1] as int - '0' as int)
  }

  /** The number an optional minus sign and decimal digits denote. */
  function IntValue(s: string): int
    requires forall i :: 0 <= i < |s| ==> s[i] == '-' || '0' <= s[i] <= '9'
    requires forall i :: 0 < i < |s| ==> s[i] != '-'
  {
    if |s| > 0 && s[0] == '-' then 0 - DecimalValue(s[1..]) else DecimalValue(s)
  }

  /** `FormatNat` writes `n` in decimal: reading the digits back gives `n`. */
  lemma {:induction false} FormatNatValue(n: nat)
    ensures DecimalValue(FormatNat(n)) == n
    decreases n
  {
    if n >= 10 {
      FormatNatValue(n / 10);
      var r := FormatNat(n);
      assert r[..|r| - 1] == FormatNat(n / 10);
    }
  }

  /** `FormatInt` writes `n` in decimal with a sign: reading it back gives `n`, so
      distinct numbers are formatted differently. */
  lemma FormatIntValue(n: int)
    ensures (forall i :: 0 < i < |FormatInt(n)| ==> FormatInt(n)[i] != '-')
    ensures IntValue(FormatInt(n)) == n
  {
    if n < 0 {
      NegativeValue(-n);
    } else {
      FormatNatValue(n);
    }
  }

  /** A minus sign before the digits of `m` reads back as `-m`. */
  lemma NegativeValue(m: nat)
    requires m > 0
    ensures var r := "-" + FormatNat(m);
            (forall i :: 0 < i < |r| ==> r[i] != '-') && IntValue(r) == 0 - m
  {
    var r := "-" + FormatNat(m);
    assert r[1..] == FormatNat(m);
    FormatNatValue(m);
  }

  /** `TrimSpace` removes exactly the white space around a word that starts and ends
      with a non-space character. */
  lemma TrimSpaceAround(pre: string, word: string, post: string)
    requires forall i :: 0 <= i < |pre| ==> IsSpace(pre[i])
    requires forall i :: 0 <= i < |post| ==> IsSpace(post[i])
    requires |word| > 0 && !IsSpace(word[0]) && !IsSpace(word[|word| - 1])
    ensures TrimSpace(pre + word + post) == word
  {
    var s := pre + word + post;
    var a, b := |pre|, |pre| + |word|;
    SpacesAround(pre, word, post);
    assert s[a] == word[0] && s[b - 1] == word[|word| - 1];
    TrimSpaceSpan(s, a, b);
    assert s[a..b] == word;
  }

  /** `TrimSpace` keeps the span from the first to the last non-space character. */
  lemma TrimSpaceSpan(s: string, a: int, b: int)
    requires 0 <= a < b <= |s| && !IsSpace(s[a]) && !IsSpace(s[b - 1])
    requires forall j :: 0 <= j < a ==> IsSpace(s[j])
    requires forall j :: b <= j < |s| ==> IsSpace(s[j])
    ensures TrimSpace(s) == s[a..b]
  {
    var r := TrimSpace(s);
    var i :| TrimmedAt(s, r, i);
    TrimmedAtIsSpan(s, r, i, a, b);
  }

  /** A trimmed slice of `s` that keeps its non-space ends is exactly the span from the
      first to the last non-space character. */
  lemma TrimmedAtIsSpan(s: string, r: string, i: int, a: int, b: int)
    requires TrimmedAt(s, r, i)
    requires |r| > 0 ==> !IsSpace(r[0]) && !IsSpace(r[|r| - 1])
    requires 0 <= a < b <= |s| && !IsSpace(s[a]) && !IsSpace(s[b - 1])
    requires forall j :: 0 <= j < a ==> IsSpace(s[j])
    requires forall j :: b <= j < |s| ==> IsSpace(s[j])
    ensures i == a && i + |r| == b
  {
    assert i <= a < i + |r|;
    assert i <= b - 1 < i + |r|;
    assert r[0] == s[i] && r[|r| - 1] == s[i + |r| - 1];
  }

  /** In `pre + word + post`, the characters of `pre` and `post` are white space when
      those strings are. */
  lemma SpacesAround(pre: string, word: string, post: string)
    requires forall i :: 0 <= i < |pre| ==> IsSpace(pre[i])
    requires forall i :: 0 <= i < |post| ==> IsSpace(post[i])
    ensures var s := pre + word + post;
            && (forall j :: 0 <= j < |pre| ==> IsSpace(s[j]))
            && (forall j :: |pre| + |word| <= j < |s| ==> IsSpace(s[j]))
            && (forall j :: |pre| <= j < |pre| + |word| ==> s[j] == word[j - |pre|])
  {
    var s := pre + word + post;
    forall j | |pre| + |word| <= j < |s|
      ensures IsSpace(s[j])
    {
      assert s[j] == post[j - |pre| - |word|];
    }
  }

  // ---------------------------------------------------------------------------
  // Facts about occurrences

  /** An occurrence inside `a` is an occurrence inside `a + b`, at the same place. */
  lemma OccursInLeft(a: string, b: string, sep: string, j: int)
    requires OccursAt(a, sep, j)
    ensures OccursAt(a + b, sep, j)
  {
    assert (a + b)[j..j + |sep|] == a[j..j + |sep|];
  }

  /** An occurrence inside `b` is an occurrence inside `a + b`, shifted by `|a|`. */
  lemma OccursInRight(a: string, b: string, sep: string, j: int)
    requires OccursAt(b, sep, j)
    ensures OccursAt(a + b, sep, |a| + j)
  {
    assert (a + b)[|a| + j..|a| + j + |sep|] == b[j..j + |sep|];
  }

  /** Two occurrences closer together than `|sep|` would give `sep` a border. */
  lemma OverlapIsBorder(s: string, sep: string, i: int, j: int)
    requires OccursAt(s, sep, i) && OccursAt(s, sep, j) && i < j < i + |sep|
    ensures !NoBorder(sep)
  {
    var n := |sep|;
    var k := i + n - j;
    assert 0 < k < n;
    assert sep[..k] == s[j..j + k] by {
      assert sep == s[j..j + n];
    }
    assert sep[n - k..] == s[j..j + k] by {
      assert sep == s[i..i + n];
    }
  }

  /** A separator whose first character never reappears in it has no border. */
  lemma HeadUniqueNoBorder(sep: string)
    requires |sep| > 0
    requires forall i :: 0 < i < |sep| ==> sep[i] != sep[0]
    ensures NoBorder(sep)
  {
    forall k | 0 < k < |sep|
      ensures sep[..k] != sep[|sep| - k..]
    {
      assert sep[..k][0] == sep[0];
      assert sep[|sep| - k..][0] == sep[|sep| - k];
    }
  }

  /** A string that lacks the separator's first character cannot contain the separator. */
  lemma HeadAbsent(s: string, sep: string)
    requires |sep| > 0 && sep[0] !in s
    ensures !Contains(s, sep)
  {
    forall j | OccursAt(s, sep, j)
      ensures false
    {
    }
  }

  /** For a one-character separator, containment is plain membership. */
  lemma ContainsChar(s: string, c: char)
    ensures Contains(s, [c]) <==> c in s
  {
    if c in s {
      var j :| 0 <= j < |s| && s[j] == c;
      assert s[j..j + 1] == [c];
      assert OccursAt(s, [c], j);
    }
    if Contains(s, [c]) {
      var j :| 0 <= j <= |s| - 1 && OccursAt(s, [c], j);
      assert s[j] == s[j..j + 1][0];
    }
  }

  /** Containment in a concatenation that avoids the seam comes from one side. */
  lemma ContainsConcat(a: string, b: string, sep: string)
    requires Contains(a, sep) || Contains(b, sep)
    ensures Contains(a + b, sep)
  {
    if Contains(a, sep) {
      var j :| OccursAt(a, sep, j);
      OccursInLeft(a, b, sep, j);
    } else {
      var j :| OccursAt(b, sep, j);
      OccursInRight(a, b, sep, j);
    }
  }

  // ---------------------------------------------------------------------------
  // Facts about Split

  /** When `p` is free of a border-free separator, the first occurrence of the
      separator in `p + sep + rest` is the one right after `p`. */
  lemma {:induction false} FirstOccurrenceAfter(p: string, sep: string, rest: string)
    requires |sep| > 0 && NoBorder(sep) && !Contains(p, sep)
    ensures Index(p + sep + rest, sep) == |p|
  {
    var s := p + sep + rest;
    assert OccursAt(s, sep, |p|) by {
      assert s[|p|..|p| + |sep|] == sep;
    }
    var r := Index(s, sep);
    if r < |p| {
      assert OccursAt(s, sep, r);
      if r + |sep| <= |p| {
        assert s[r..r + |sep|] == p[r..r + |sep|];
        assert OccursAt(p, sep, r);
      } else {
        OverlapIsBorder(s, sep, r, |p|);
      }
      assert false;
    }
  }

  /** Splitting `p + sep + rest` yields `p` and then the pieces of `rest`. */
  lemma {:induction false} SplitCons(p: string, sep: string, rest: string)
    requires |sep| > 0 && NoBorder(sep) && !Contains(p, sep)
    ensures Split(p + sep + rest, sep) == [p] + Split(rest, sep)
  {
    var s := p + sep + rest;
    FirstOccurrenceAfter(p, sep, rest);
    assert s[..|p|] == p;
    assert s[|p| + |sep|..] == rest;
  }

  /** Splitting yields more than one piece exactly when the separator occurs. */
  lemma SplitSeveralIffContains(s: string, sep: string)
    requires |sep| > 0
    ensures |Split(s, sep)| >= 2 <==> Contains(s, sep)
  {
    var i := Index(s, sep);
    if i >= 0 {
      assert OccursAt(s, sep, i);
      assert Split(s, sep) == [s[..i]] + Split(s[i + |sep|..], sep);
    }
  }

  /** A string without the separator splits into itself alone. */
  lemma SplitNone(s: string, sep: string)
    requires |sep| > 0 && !Contains(s, sep)
    ensures Split(s, sep) == [s]
  {
  }

  /** Split undoes Join: for a border-free separator, pieces that do not contain it
      are recovered exactly by splitting their join. Together with Split's own
      contract this makes Split the unique such decomposition. */
  lemma {:induction false} SplitJoin(parts: seq<string>, sep: string)
    requires |sep| > 0 && NoBorder(sep) && |parts| >= 1
    requires forall i :: 0 <= i < |parts| ==> !Contains(parts[i], sep)
    ensures Split(Join(parts, sep), sep) == parts
    decreases |parts|
  {
    if |parts| == 1 {
      SplitNone(parts[0], sep);
    } else {
      SplitCons(parts[0], sep, Join(parts[1..], sep));
      SplitJoin(parts[1..], sep);
      assert parts == [parts[0]] + parts[1..];
    }
  }

  /** Joining two non-empty lists of pieces puts one separator at the seam. */
  lemma {:induction false} JoinConcat(x: seq<string>, y: seq<string>, sep: string)
    requires |x| >= 1 && |y| >= 1
    ensures Join(x + y, sep) == Join(x, sep) + sep + Join(y, sep)
    decreases |x|
  {
    if |x| == 1 {
      assert (x + y)[1..] == y;
    } else {
      assert (x + y)[1..] == x[1..] + y;
      JoinConcat(x[1..], y, sep);
    }
  }

  /** A join holds at least one separator between each pair of neighbouring pieces. */
  lemma {:induction false} JoinLength(parts: seq<string>, sep: string)
    requires |parts| >= 1
    ensures |Join(parts, sep)| >= (|parts| - 1) * |sep|
    decreases |parts|
  {
    if |parts| > 1 {
      JoinLength(parts[1..], sep);
    }
  }

  /** The first piece of a split runs up to the first occurrence of the separator,
      or is the whole string when there is none. */
  lemma SplitHead(s: string, sep: string, i: int)
    requires |sep| > 0 && 0 <= i <= |s|
    requires i == |s| || OccursAt(s, sep, i)
    requires forall j :: 0 <= j < i ==> !OccursAt(s, sep, j)
    ensures Split(s, sep)[0] == s[..i]
  {
    var r := Index(s, sep);
    if r < 0 {
      assert !OccursAt(s, sep, i);
    } else {
      assert OccursAt(s, sep, r);
      assert r == i;
    }
  }

  /** The last piece of a split on a character runs from just after its last copy,
      or is the whole string when there is none. */
  lemma SplitLast(s: string, c: char, j: int)
    requires 0 <= j <= |s| && (j == 0 || s[j - 1] == c) && c !in s[j..]
    ensures var parts := Split(s, [c]); parts[|parts| - 1] == s[j..]
  {
    ContainsChar(s[j..], c);
    SplitNone(s[j..], [c]);
    if j == 0 {
      assert s[j..] == s;
    } else {
      HeadUniqueNoBorder([c]);
      assert s == s[..j - 1] + [c] + s[j..];
      SplitAround(s[..j - 1], [c], s[j..]);
    }
  }

  /** Splitting at a known occurrence: the pieces on either side concatenate. */
  lemma SplitAround(a: string, sep: string, b: string)
    requires |sep| > 0 && NoBorder(sep)
    ensures Split(a + sep + b, sep) == Split(a, sep) + Split(b, sep)
  {
    var parts := Split(a, sep) + Split(b, sep);
    JoinConcat(Split(a, sep), Split(b, sep), sep);
    SplitJoin(parts, sep);
  }

  /** A one-character separator splits a string into one more piece than it has
      copies of that character. */
  lemma {:induction false} SplitCharCount(s: string, c: char)
    ensures |Split(s, [c])| == multiset(s)[c] + 1
    decreases |s|
  {
    var i := Index(s, [c]);
    if i < 0 {
      ContainsChar(s, c);
    } else {
      var rest := s[i + 1..];
      assert s[i..i + 1] == [c];
      assert s == s[..i] + [c] + rest;
      PrefixFree(s, [c], i);
      ContainsChar(s[..i], c);
      SplitCharCount(rest, c);
      assert multiset(s) == multiset(s[..i]) + multiset{c} + multiset(rest);
    }
  }

  /** For a border-free separator, splitting gives exactly two pieces precisely
      when the separator occurs exactly once. */
  lemma {:induction false} SplitTwoIffOnce(s: string, sep: string)
    requires |sep| > 0 && NoBorder(sep)
    ensures |Split(s, sep)| == 2 <==> OccursOnce(s, sep)
  {
    var i := Index(s, sep);
    if i < 0 {
      assert !OccursOnce(s, sep);
    } else {
      var rest := s[i + |sep|..];
      assert Split(s, sep) == [s[..i]] + Split(rest, sep);
      if Contains(rest, sep) {
        SecondOccurrence(s, sep, i);
      } else {
        SplitNone(rest, sep);
        OnlyOccurrence(s, sep, i);
      }
    }
  }

  /** A separator occurring again after the first occurrence occurs more than once. */
  lemma SecondOccurrence(s: string, sep: string, i: int)
    requires |sep| > 0 && 0 <= i && i + |sep| <= |s|
    requires OccursAt(s, sep, i) && Contains(s[i + |sep|..], sep)
    ensures !OccursOnce(s, sep)
  {
    var rest := s[i + |sep|..];
    var j :| OccursAt(rest, sep, j);
    assert s == s[..i + |sep|] + rest;
    OccursInRight(s[..i + |sep|], rest, sep, j);
  }

  /** The first occurrence of a border-free separator, with none after it, is the only one. */
  lemma OnlyOccurrence(s: string, sep: string, i: int)
    requires |sep| > 0 && NoBorder(sep) && 0 <= i && i + |sep| <= |s|
    requires OccursAt(s, sep, i) && forall j :: 0 <= j < i ==> !OccursAt(s, sep, j)
    requires !Contains(s[i + |sep|..], sep)
    ensures OccursOnce(s, sep)
  {
    var n := |sep|;
    var rest := s[i + n..];
    forall k | OccursAt(s, sep, k)
      ensures k == i
    {
      if k < i {
      } else if k < i + n {
        if k > i { OverlapIsBorder(s, sep, i, k); }
      } else {
        assert s[k..k + n] == rest[k - i - n..k - i];
        assert OccursAt(rest, sep, k - i - n);
      }
    }
  }

  /** `ReplaceAll` with an empty replacement deletes every copy of a character:
      the result is the characters of `s` other than `c`, in order. */
  lemma {:induction false} ReplaceAllDeletes(s: string, c: char)
    ensures ReplaceAll(s, [c], "") == Filter(s, Other(c))
    decreases |s|
  {
    var i := Index(s, [c]);
    if i < 0 {
      ContainsChar(s, c);
      FilterAllKept(s, c);
    } else {
      var rest := s[i + 1..];
      assert s[i..i + 1] == [c];
      assert s == s[..i] + [c] + rest;
      PrefixFree(s, [c], i);
      ContainsChar(s[..i], c);
      ReplaceAllDeletes(rest, c);
      var parts := Split(rest, [c]);
      assert Split(s, [c]) == [s[..i]] + parts;
      JoinConcat([s[..i]], parts, "");
      FilterConcat(s[..i] + [c], rest, Other(c));
      FilterConcat(s[..i], [c], Other(c));
      FilterAllKept(s[..i], c);
    }
  }

  /** The predicate "differs from `c`". */
  function Other(c: char): char -> bool
  {
    x => x != c
  }

  /** Filtering out a character that does not occur changes nothing. */
  lemma {:induction false} FilterAllKept(s: string, c: char)
    requires c !in s
    ensures Filter(s, Other(c)) == s
    decreases |s|
  {
    if |s| > 0 {
      FilterAllKept(s[1..], c);
      assert Other(c)(s[0]);
      assert Filter(s, Other(c)) == [s[0]] + Filter(s[1..], Other(c));
    }
  }
}
