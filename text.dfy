/** Text primitives shared by the documentation tools.

    Characters follow Python's meaning restricted to ASCII: `IsSpace` is
    `str.isspace()` and the regex class `\s`, `IsWordChar` is `\w`.
    Strings are split on `\n` only.  The last part of the module is a tiny
    engine that runs a hand-written regular-expression matcher the way
    `re.search`, `re.findall` and `re.sub` drive a compiled pattern: try
    every position (or every line start, for a `^` pattern compiled with
    `re.MULTILINE`) from left to right and, after a match, resume at its end. */
module Text {

  datatype Option<+T> = None | Some(value: T)

  // ------------------------------------------------------------------
  // Characters

  /** `str.isspace()` / `\s` on ASCII: space, \t \n \v \f \r and \x1c-\x1f. */
  predicate IsSpace(c: char) {
    c == ' ' || c == '\t' || c == '\n' || c == '\r' || c == '\U{B}' || c == '\U{C}'
    || ('\U{1C}' <= c <= '\U{1F}')
  }

  predicate IsDigit(c: char) { '0' <= c <= '9' }
  predicate IsUpper(c: char) { 'A' <= c <= 'Z' }
  predicate IsLower(c: char) { 'a' <= c <= 'z' }

  /** The regex class `\w` on ASCII. */
  predicate IsWordChar(c: char) { IsUpper(c) || IsLower(c) || IsDigit(c) || c == '_' }

  predicate NotNewline(c: char) { c != '\n' }
  predicate IsEquals(c: char) { c == '=' }
  predicate NotOpenBracket(c: char) { c != '[' }

  function ToLower(c: char): (r: char)
    ensures IsUpper(c) ==> IsLower(r) && r as int == c as int + 32
    ensures !IsUpper(c) ==> r == c
  {
    if IsUpper(c) then (c as int + 32) as char else c
  }

  function ToUpper(c: char): (r: char)
    ensures IsLower(c) ==> IsUpper(r) && r as int == c as int - 32
    ensures !IsLower(c) ==> r == c
    ensures !IsLower(r) && (IsSpace(r) <==> IsSpace(c))
  {
    if IsLower(c) then (c as int - 32) as char else c
  }

  /** `str.lower()` on ASCII text. */
  function Lower(s: string): (r: string)
    ensures |r| == |s|
    ensures forall i :: 0 <= i < |s| ==> r[i] == ToLower(s[i])
  {
    seq(|s|, i requires 0 <= i < |s| => ToLower(s[i]))
  }

  /** `str.upper()` on ASCII text. */
  function Upper(s: string): (r: string)
    ensures |r| == |s|
    ensures forall i :: 0 <= i < |s| ==> r[i] == ToUpper(s[i])
    ensures forall i :: 0 <= i < |s| ==> !IsLower(r[i]) && (IsSpace(r[i]) <==> IsSpace(s[i]))
  {
    seq(|s|, i requires 0 <= i < |s| => ToUpper(s[i]))
  }

  // ------------------------------------------------------------------
  // Prefixes, substrings and searching

  predicate StartsWith(s: string, p: string) {
    |p| <= |s| && s[..|p|] == p
  }

  predicate EndsWith(s: string, p: string) {
    |p| <= |s| && s[|s| - |p|..] == p
  }

  /** `pat` occurs in `s` at index `i`. */
  predicate OccursAt(s: string, pat: string, i: int) {
    0 <= i && i + |pat| <= |s| && s[i..i + |pat|] == pat
  }

  /** `str.find(pat, from)`: the first occurrence at or after `from`. */
  function Find(s: string, pat: string, from: nat): (r: Option<nat>)
    requires from <= |s|
    ensures r.Some? ==> from <= r.value && OccursAt(s, pat, r.value)
    ensures r.Some? ==> forall j :: from <= j < r.value ==> !OccursAt(s, pat, j)
    ensures r.None? ==> forall j :: from <= j ==> !OccursAt(s, pat, j)
    decreases |s| - from
  {
    if from + |pat| > |s| then None
    else if s[from..from + |pat|] == pat then Some(from)
    else Find(s, pat, from + 1)
  }

  /** Python's `pat in s`. */
  predicate Contains(s: string, pat: string) {
    Find(s, pat, 0).Some?
  }

  lemma ContainsAt(s: string, pat: string, i: int)
    requires OccursAt(s, pat, i)
    ensures Contains(s, pat)
  {
  }

  /** The first `n` characters, as `s[:n]` does for `n >= 0`. */
  function Take(s: string, n: nat): (r: string)
    ensures |r| == if n < |s| then n else |s|
    ensures r == s[..|r|]
  {
    if n < |s| then s[..n] else s
  }

  /** Python's slice `s[a:b]` with its treatment of negative and
      out-of-range bounds. */
  function PyIndex(i: int, n: nat): (r: nat)
    ensures r <= n
  {
    if i < 0 then (if i + n < 0 then 0 else i + n) else if i > n then n else i
  }

  function PySlice(s: string, a: int, b: int): (r: string)
    ensures |r| <= |s|
  {
    var i := PyIndex(a, |s|);
    var j := PyIndex(b, |s|);
    if i <= j then s[i..j] else []
  }

  /** First index `j >= i` whose element does not satisfy `P` (or `|s|`). */
  function SkipWhile<T>(s: seq<T>, i: nat, P: T -> bool): (j: nat)
    requires i <= |s|
    ensures i <= j <= |s|
    ensures forall k :: i <= k < j ==> P(s[k])
    ensures j == |s| || !P(s[j])
    decreases |s| - i
  {
    if i < |s| && P(s[i]) then SkipWhile(s, i + 1, P) else i
  }

  /** A run of `P` elements from `i` that stops at `j` is where `SkipWhile` stops. */
  lemma {:induction false} SkipWhileExact<T>(s: seq<T>, i: nat, j: nat, P: T -> bool)
    requires i <= j <= |s|
    requires forall k :: i <= k < j ==> P(s[k])
    requires j == |s| || !P(s[j])
    ensures SkipWhile(s, i, P) == j
    decreases j - i
  {
    if i < j {
      SkipWhileExact(s, i + 1, j, P);
    }
  }

  /** End of the whitespace run that starts at `i`. */
  function SkipSpaces(s: string, i: nat): (j: nat)
    requires i <= |s|
    ensures i <= j <= |s|
    ensures forall k :: i <= k < j ==> IsSpace(s[k])
    ensures j == |s| || !IsSpace(s[j])
  {
    SkipWhile(s, i, IsSpace)
  }

  /** The position of the `\n` that ends the line containing `i`, or `|s|`. */
  function LineEnd(s: string, i: nat): (j: nat)
    requires i <= |s|
    ensures i <= j <= |s|
    ensures forall k :: i <= k < j ==> s[k] != '\n'
    ensures j == |s| || s[j] == '\n'
  {
    SkipWhile(s, i, NotNewline)
  }

  /** Positions on the same line share its end. */
  lemma LineEndSame(s: string, a: nat, b: nat)
    requires a <= |s| && a <= b <= LineEnd(s, a)
    ensures LineEnd(s, b) == LineEnd(s, a)
  {
  }

  predicate IsNewline(c: char) { c == '\n' }

  /** The last index in `[lo, hi)` whose character satisfies `P`. */
  function LastWhere(s: string, lo: nat, hi: nat, P: char -> bool): (r: Option<nat>)
    requires lo <= hi <= |s|
    ensures r.Some? ==> lo <= r.value < hi && P(s[r.value])
    ensures r.Some? ==> forall k :: r.value < k < hi ==> !P(s[k])
    ensures r.None? ==> forall k :: lo <= k < hi ==> !P(s[k])
    decreases hi - lo
  {
    if lo == hi then None
    else if P(s[hi - 1]) then Some(hi - 1)
    else LastWhere(s, lo, hi - 1, P)
  }

  /** `c * n` for a one-character string (empty for `n <= 0`). */
  function Repeat(c: char, n: int): (r: string)
    ensures |r| == if n < 0 then 0 else n
    ensures forall i :: 0 <= i < |r| ==> r[i] == c
    decreases if n < 0 then 0 else n
  {
    if n <= 0 then [] else [c] + Repeat(c, n - 1)
  }

  // ------------------------------------------------------------------
  // Stripping

  /** `str.lstrip()`. */
  function LStrip(s: string): (r: string)
    ensures |r| <= |s| && r == s[|s| - |r|..]
    ensures r == [] || !IsSpace(r[0])
    ensures forall i :: 0 <= i < |s| - |r| ==> IsSpace(s[i])
    decreases |s|
  {
    if s != [] && IsSpace(s[0]) then LStrip(s[1..]) else s
  }

  /** `str.rstrip()`. */
  function RStrip(s: string): (r: string)
    ensures |r| <= |s| && r == s[..|r|]
    ensures r == [] || !IsSpace(r[|r| - 1])
    ensures forall i :: |r| <= i < |s| ==> IsSpace(s[i])
    decreases |s|
  {
    if s != [] && IsSpace(s[|s| - 1]) then RStrip(s[..|s| - 1]) else s
  }

  /** `str.strip()`. */
  function Strip(s: string): (r: string)
    ensures |r| <= |s|
    ensures r == [] || (!IsSpace(r[0]) && !IsSpace(r[|r| - 1]))
    ensures |s| - |LStrip(s)| + |r| <= |s| && r == s[|s| - |LStrip(s)|..|s| - |LStrip(s)| + |r|]
  {
    RStrip(LStrip(s))
  }

  /** `str.rstrip(c)` for a single character `c`. */
  function RStripChar(s: string, c: char): (r: string)
    ensures |r| <= |s| && r == s[..|r|]
    ensures r == [] || r[|r| - 1] != c
    ensures forall i :: |r| <= i < |s| ==> s[i] == c
    decreases |s|
  {
    if s != [] && s[|s| - 1] == c then RStripChar(s[..|s| - 1], c) else s
  }

  predicate AllSpace(s: string) {
    forall i :: 0 <= i < |s| ==> IsSpace(s[i])
  }

  lemma LStripAllSpace(s: string)
    ensures LStrip(s) == [] <==> AllSpace(s)
  {
  }

  lemma RStripEmpty(s: string)
    ensures RStrip(s) == [] <==> AllSpace(s)
  {
  }

  /** `s.strip() == ""` holds exactly for whitespace-only strings. */
  lemma StripEmpty(s: string)
    ensures Strip(s) == [] <==> AllSpace(s)
  {
    LStripAllSpace(s);
    var l := LStrip(s);
    if |l| > 0 {
      assert !IsSpace(l[0]);
      assert IsSpace(l[0]) || |RStrip(l)| > 0;
    }
  }

  /** Leading whitespace does not change what `lstrip` leaves. */
  lemma {:induction false} LStripSpacePrefix(u: string, n: nat)
    requires n <= |u|
    requires forall i :: 0 <= i < n ==> IsSpace(u[i])
    ensures LStrip(u) == LStrip(u[n..])
    decreases n
  {
    if n > 0 {
      assert u[1..][n - 1..] == u[n..];
      LStripSpacePrefix(u[1..], n - 1);
    }
  }

  /** Leading whitespace does not change what `strip` leaves. */
  lemma StripSpacePrefix(u: string, n: nat)
    requires n <= |u|
    requires forall i :: 0 <= i < n ==> IsSpace(u[i])
    ensures Strip(u) == Strip(u[n..])
  {
    LStripSpacePrefix(u, n);
  }

  /** A stretch of whitespace characters, taken as a slice, is all whitespace. */
  lemma AllSpaceBetween(s: string, lo: nat, hi: nat)
    requires lo <= hi <= |s|
    requires forall k :: lo <= k < hi ==> IsSpace(s[k])
    ensures AllSpace(s[lo..hi])
  {
  }

  /** Stripping a slice that starts with whitespace. */
  lemma {:induction false} StripFromSpaces(s: string, a: nat, b: nat, e: nat)
    requires a <= b <= e <= |s|
    requires forall k :: a <= k < b ==> IsSpace(s[k])
    ensures Strip(s[a..e]) == Strip(s[b..e])
    decreases b - a
  {
    if a < b {
      var u := s[a..e];
      assert u[0] == s[a] && u[1..] == s[a + 1..e];
      assert LStrip(u) == LStrip(s[a + 1..e]);
      StripFromSpaces(s, a + 1, b, e);
    }
  }

  /** The characters of a string that occur nowhere in its strip. */
  lemma StripNoNewline(s: string)
    ensures '\n' !in s ==> '\n' !in Strip(s)
  {
    var r := Strip(s);
    var a := |s| - |LStrip(s)|;
    forall i | 0 <= i < |r| ensures r[i] == s[a + i] { }
  }

  lemma Associative<T>(a: seq<T>, b: seq<T>, c: seq<T>)
    ensures a + b + c == a + (b + c)
  {
  }

  // ------------------------------------------------------------------
  // Splitting and joining

  /** `str.split(d)` for a one-character separator: always at least one part. */
  function Split(s: string, d: char): (r: seq<string>)
    ensures |r| >= 1
    ensures forall i :: 0 <= i < |r| ==> d !in r[i]
    decreases |s|
  {
    if s == [] then [[]]
    else
      var rest := Split(s[1..], d);
      if s[0] == d then [[]] + rest
      else [[s[0]] + rest[0]] + rest[1..]
  }

  /** `sep.join(parts)`. */
  function Join(parts: seq<string>, sep: string): (r: string)
    decreases |parts|
  {
    if |parts| == 0 then []
    else if |parts| == 1 then parts[0]
    else parts[0] + sep + Join(parts[1..], sep)
  }

  /** Joining pieces free of `c` with a separator free of `c` gives a text free of `c`. */
  lemma {:induction false} JoinFree(parts: seq<string>, sep: string, c: char)
    requires c !in sep
    requires forall i :: 0 <= i < |parts| ==> c !in parts[i]
    ensures c !in Join(parts, sep)
    decreases |parts|
  {
    if |parts| > 1 {
      JoinFree(parts[1..], sep, c);
    }
  }

  /** `"\n".join(s.split("\n")) == s`. */
  lemma {:induction false} JoinSplit(s: string, d: char)
    ensures Join(Split(s, d), [d]) == s
    decreases |s|
  {
    if s != [] {
      var rest := Split(s[1..], d);
      JoinSplit(s[1..], d);
      if s[0] == d {
        assert Split(s, d) == [[]] + rest;
        assert ([[]] + rest)[1..] == rest;
      } else {
        var parts := [[s[0]] + rest[0]] + rest[1..];
        assert Split(s, d) == parts;
        if |rest| == 1 {
          assert Join(parts, [d]) == [s[0]] + rest[0];
        } else {
          assert parts[1..] == rest[1..];
          assert Join(rest, [d]) == rest[0] + [d] + Join(rest[1..], [d]);
          assert Join(parts, [d]) == [s[0]] + rest[0] + [d] + Join(rest[1..], [d]);
        }
        assert s == [s[0]] + s[1..];
      }
    }
  }

  lemma {:induction false} SplitNoSep(a: string, d: char)
    requires d !in a
    ensures Split(a, d) == [a]
    decreases |a|
  {
    if a != [] {
      SplitNoSep(a[1..], d);
      assert a == [a[0]] + a[1..];
    }
  }

  lemma {:induction false} SplitSepAfter(a: string, d: char, b: string)
    requires d !in a
    ensures Split(a + [d] + b, d) == [a] + Split(b, d)
    decreases |a|
  {
    if a == [] {
      assert a + [d] + b == [d] + b;
      assert ([d] + b)[1..] == b;
    } else {
      SplitSepAfter(a[1..], d, b);
      assert (a + [d] + b)[1..] == a[1..] + [d] + b;
      assert a == [a[0]] + a[1..];
    }
  }

  /** Splitting a join of separator-free parts gives the parts back. */
  lemma {:induction false} SplitJoin(parts: seq<string>, d: char)
    requires |parts| >= 1
    requires forall i :: 0 <= i < |parts| ==> d !in parts[i]
    ensures Split(Join(parts, [d]), d) == parts
    decreases |parts|
  {
    if |parts| == 1 {
      SplitNoSep(parts[0], d);
    } else {
      SplitJoin(parts[1..], d);
      SplitSepAfter(parts[0], d, Join(parts[1..], [d]));
      assert parts == [parts[0]] + parts[1..];
    }
  }

  /** Splitting at a separator between two texts splits each of them. */
  lemma {:induction false} SplitConcat(a: string, d: char, b: string)
    ensures Split(a + [d] + b, d) == Split(a, d) + Split(b, d)
    decreases |a|
  {
    if a == [] {
      assert a + [d] + b == [d] + b;
      assert ([d] + b)[1..] == b;
    } else {
      SplitConcat(a[1..], d, b);
      SplitCons(a[0], a[1..] + [d] + b, a[1..], d, Split(b, d));
      assert a + [d] + b == [a[0]] + (a[1..] + [d] + b);
      assert a == [a[0]] + a[1..];
    }
  }

  /** Putting the same character in front of two texts keeps a common tail
      of their splits. */
  lemma SplitCons(c: char, u: string, v: string, d: char, tail: seq<string>)
    requires Split(u, d) == Split(v, d) + tail
    ensures Split([c] + u, d) == Split([c] + v, d) + tail
  {
    SplitFront(c, u, d);
    SplitFront(c, v, d);
    ConsTail(if c == d then [] else [c], Split(u, d), Split(v, d), tail);
  }

  /** What a first character does to a split. */
  lemma SplitFront(c: char, u: string, d: char)
    ensures var su := Split(u, d);
            Split([c] + u, d) == if c == d then [[]] + su else [[c] + su[0]] + su[1..]
  {
    assert ([c] + u)[1..] == u;
  }

  /** Extending the first part of two sequences of parts that share a tail. */
  lemma ConsTail(p: string, su: seq<string>, sv: seq<string>, tail: seq<string>)
    requires |sv| >= 1 && su == sv + tail
    ensures [p + su[0]] + su[1..] == ([p + sv[0]] + sv[1..]) + tail
    ensures [[]] + su == ([[]] + sv) + tail
  {
    assert su[0] == sv[0];
    assert su[1..] == sv[1..] + tail;
  }

  /** `str.splitlines()` on text whose only line break is `\n`:
      no final empty part after a trailing newline, and no part at all for "". */
  function SplitLines(s: string): (r: seq<string>)
    ensures forall i :: 0 <= i < |r| ==> '\n' !in r[i]
  {
    var parts := Split(s, '\n');
    if parts[|parts| - 1] == [] then parts[..|parts| - 1] else parts
  }

  /** `x.rsplit(maxsplit=1)[0]`: `x` without its last whitespace-separated
      word and the whitespace before that word, or the word itself when only
      whitespace precedes it.  Python raises `IndexError` when `x` is all
      whitespace, so callers must rule that out. */
  function RSplitHead(x: string): (r: string)
    requires !AllSpace(x)
    ensures r != [] && !IsSpace(r[|r| - 1])
  {
    RStripEmpty(x);
    var y := RStrip(x);
    var w := match LastWhere(y, 0, |y|, IsSpace) case None => 0 case Some(k) => k + 1;
    var h := RStrip(y[..w]);
    if h == [] then y[w..] else h
  }

  /** The pieces `rsplit(maxsplit=1)[0]` is built from: the text without
      trailing whitespace, the start of its last word, and what precedes that
      word without trailing whitespace. */
  lemma RSplitHeadParts(x: string) returns (y: string, w: nat, h: string)
    requires !AllSpace(x)
    ensures y == RStrip(x) && y != [] && |y| <= |x| && y == x[..|y|] && !IsSpace(y[|y| - 1])
    ensures forall i :: |y| <= i < |x| ==> IsSpace(x[i])
    ensures w < |y| && (w == 0 || IsSpace(y[w - 1])) && forall i :: w <= i < |y| ==> !IsSpace(y[i])
    ensures h == RStrip(y[..w]) && |h| <= w && h == y[..|h|] && forall i :: |h| <= i < w ==> IsSpace(y[i])
    ensures RSplitHead(x) == if h == [] then y[w..] else h
  {
    RStripEmpty(x);
    y := RStrip(x);
    w := match LastWhere(y, 0, |y|, IsSpace) case None => 0 case Some(k) => k + 1;
    h := RStrip(y[..w]);
    forall i | |h| <= i < w ensures IsSpace(y[i]) {
      assert y[..w][i] == y[i];
    }
  }

  /** Facts about `rsplit(maxsplit=1)[0]` on text that does not start with
      whitespace: the result is a prefix of the text. */
  lemma RSplitHeadPrefix(x: string)
    requires !AllSpace(x)
    ensures !IsSpace(x[0]) ==> RSplitHead(x) == x[..|RSplitHead(x)|]
  {
    var y, w, h := RSplitHeadParts(x);
    if !IsSpace(x[0]) {
      if w > 0 {
        assert y[..w][0] == y[0] == x[0];
        RStripEmpty(y[..w]);
        assert h != [];
      }
      if h == [] {
        assert y[w..] == y;
        assert RSplitHead(x) == y;
      } else {
        assert RSplitHead(x) == h;
      }
    }
  }

  lemma RSplitHeadLength(x: string)
    requires !AllSpace(x)
    ensures |RSplitHead(x)| <= |x|
  {
    var y, w, h := RSplitHeadParts(x);
  }

  /** When the text holds whitespace followed by more text, the last word
      and the whitespace before it are dropped: at least two characters go,
      and the cut is right before whitespace. */
  lemma RSplitHeadCut(x: string, k: nat, l: nat)
    requires k < l < |x| && !IsSpace(x[0]) && IsSpace(x[k]) && !IsSpace(x[l])
    ensures |RSplitHead(x)| + 2 <= |x|
    ensures RSplitHead(x) == x[..|RSplitHead(x)|]
    ensures IsSpace(x[|RSplitHead(x)|])
  {
    var y, w, h := RSplitHeadParts(x);
    assert l < |y|;
    assert y[k] == x[k];
    assert k < w;
    assert y[0] == x[0];
    assert h != [] by {
      assert y[..w][0] == y[0];
      RStripEmpty(y[..w]);
    }
    assert RSplitHead(x) == h;
    assert IsSpace(y[|h|]);
  }

  /** Text without any whitespace is returned whole. */
  lemma RSplitHeadOneWord(x: string)
    requires x != [] && forall k :: 0 <= k < |x| ==> !IsSpace(x[k])
    ensures !AllSpace(x) && RSplitHead(x) == x
  {
    var y := RStrip(x);
    assert |y| == |x|;
    assert LastWhere(y, 0, |y|, IsSpace).None?;
    assert y[0..] == x;
  }

  /** The `/`-separated pieces of a POSIX path. `PurePosixPath.parts` also
      drops empty pieces and `.` and adds the root, none of which is ever a
      directory name looked up in them. */
  function Components(p: string): (r: seq<string>)
  {
    Split(p, '/')
  }

  /** `PurePosixPath(p).name`: the last component that is neither empty nor `.`. */
  function BaseName(p: string): (r: string)
    ensures '/' !in r
  {
    LastProperPart(Split(p, '/'))
  }

  function LastProperPart(parts: seq<string>): (r: string)
    requires forall i :: 0 <= i < |parts| ==> '/' !in parts[i]
    ensures '/' !in r
    ensures r == [] || r in parts
    decreases |parts|
  {
    if parts == [] then []
    else
      var last := parts[|parts| - 1];
      if last == [] || last == "." then LastProperPart(parts[..|parts| - 1]) else last
  }

  // ------------------------------------------------------------------
  // Replacing and numbers

  /** `s.replace(pat, sub)`: leftmost, non-overlapping occurrences. */
  function Replace(s: string, pat: string, sub: string): (r: string)
    requires |pat| > 0
    decreases |s|
  {
    if |s| < |pat| then s
    else if s[..|pat|] == pat then sub + Replace(s[|pat|..], pat, sub)
    else [s[0]] + Replace(s[1..], pat, sub)
  }

  /** `s.replace("\n", " ")` keeps the length and leaves no newline. */
  lemma {:induction false} ReplaceNewlines(s: string)
    ensures |Replace(s, "\n", " ")| == |s|
    ensures '\n' !in Replace(s, "\n", " ")
    decreases |s|
  {
    if |s| >= 1 {
      ReplaceNewlines(s[1..]);
    }
  }

  /** Turning newlines into spaces keeps every other character, so the
      flattened text is all whitespace exactly when the original was. */
  lemma {:induction false} ReplaceNewlinesSpaces(s: string)
    ensures AllSpace(Replace(s, "\n", " ")) <==> AllSpace(s)
    decreases |s|
  {
    if |s| >= 1 {
      ReplaceNewlinesSpaces(s[1..]);
      var t := Replace(s, "\n", " ");
      var u := Replace(s[1..], "\n", " ");
      assert t == [if s[0] == '\n' then ' ' else s[0]] + u;
      if AllSpace(s) {
        forall k | 0 <= k < |s[1..]| ensures IsSpace(s[1..][k]) { assert s[1..][k] == s[k + 1]; }
        forall k | 0 <= k < |t| ensures IsSpace(t[k]) { if k > 0 { assert t[k] == u[k - 1]; } }
      }
      if AllSpace(t) {
        forall k | 0 <= k < |u| ensures IsSpace(u[k]) { assert u[k] == t[k + 1]; }
        assert AllSpace(u);
        assert AllSpace(s[1..]);
        assert IsSpace(t[0]);
        forall k | 0 <= k < |s| ensures IsSpace(s[k]) { if k > 0 { assert s[k] == s[1..][k - 1]; } }
      }
    }
  }

  function DigitChar(d: nat): (c: char)
    requires d < 10
    ensures IsDigit(c)
  {
    "0123456789"[d]
  }

  /** `str(n)` for a natural number. */
  function NatToString(n: nat): (r: string)
    ensures |r| >= 1
    ensures forall i :: 0 <= i < |r| ==> IsDigit(r[i])
  {
    if n < 10 then [DigitChar(n)] else NatToString(n / 10) + [DigitChar(n % 10)]
  }

  /** `int(s)` for a run of ASCII digits. */
  function DigitsValue(s: string): nat
    requires forall i :: 0 <= i < |s| ==> IsDigit(s[i])
  {
    if s == [] then 0
    else
      var c := s[|s| - 1];
      assert IsDigit(c);
      10 * DigitsValue(s[..|s| - 1]) + (c as int - '0' as int)
  }

  /** `int(str(n)) == n`. */
  lemma {:induction false} DigitsValueOfNat(n: nat)
    ensures DigitsValue(NatToString(n)) == n
  {
    var d := DigitChar(n % 10);
    assert d as int - '0' as int == n % 10;
    if n >= 10 {
      DigitsValueOfNat(n / 10);
      var r := NatToString(n);
      assert r[..|r| - 1] == NatToString(n / 10);
    }
  }

  // ------------------------------------------------------------------
  // Running a hand-written matcher like `re`

  predicate IsLineStart(s: string, p: nat) {
    p <= |s| && (p == 0 || s[p - 1] == '\n')
  }

  /** A position `re` tries: any position, or only line starts when the
      pattern begins with `^` under `re.MULTILINE`. */
  predicate Candidate(s: string, p: nat, anchored: bool) {
    p <= |s| && (!anchored || IsLineStart(s, p))
  }

  /** `re.search` from `from`: the first candidate position at which the
      matcher `at` succeeds, with what it found there. */
  function FirstMatch<T>(s: string, from: nat, at: (string, nat) -> Option<T>, anchored: bool)
    : (r: Option<(nat, T)>)
    requires from <= |s|
    ensures r.Some? ==> from <= r.value.0 <= |s| && Candidate(s, r.value.0, anchored)
                        && at(s, r.value.0) == Some(r.value.1)
    ensures r.Some? ==> forall q :: from <= q < r.value.0 && Candidate(s, q, anchored) ==> at(s, q).None?
    ensures r.None? ==> forall q :: from <= q <= |s| && Candidate(s, q, anchored) ==> at(s, q).None?
    decreases |s| - from
  {
    if Candidate(s, from, anchored) && at(s, from).Some? then Some((from, at(s, from).value))
    else if from == |s| then None
    else FirstMatch(s, from + 1, at, anchored)
  }

  /** The search stops at the first candidate where the matcher succeeds. */
  lemma FirstMatchAt<T>(s: string, from: nat, at: (string, nat) -> Option<T>, anchored: bool, q: nat)
    requires from <= q <= |s| && Candidate(s, q, anchored) && at(s, q).Some?
    requires forall q' :: from <= q' < q && Candidate(s, q', anchored) ==> at(s, q').None?
    ensures FirstMatch(s, from, at, anchored) == Some((q, at(s, q).value))
  {
  }

  /** A search over positions none of which is a candidate finds nothing. */
  lemma {:induction false} FirstMatchNoCandidate<T>(s: string, from: nat, at: (string, nat) -> Option<T>, anchored: bool)
    requires from <= |s|
    requires forall q :: from <= q <= |s| ==> !Candidate(s, q, anchored)
    ensures FirstMatch(s, from, at, anchored).None?
    decreases |s| - from
  {
    if from < |s| {
      FirstMatchNoCandidate(s, from + 1, at, anchored);
    }
  }

  /** A text starts with what it is prefixed by. */
  lemma OccursAtStart(p: string, t: string)
    ensures OccursAt(p + t, p, 0)
  {
    assert (p + t)[0..|p|] == p;
  }

  /** Every match the matcher reports is non-empty and inside the text. */
  ghost predicate Advances(at: (string, nat) -> Option<nat>) {
    forall s: string, p: nat :: at(s, p).Some? ==> p < at(s, p).value <= |s|
  }

  /** `len(re.findall(...))` from `from`, for a pattern without empty matches. */
  function CountMatches(s: string, from: nat, at: (string, nat) -> Option<nat>, anchored: bool): nat
    requires from <= |s| && Advances(at)
    decreases |s| - from
  {
    match FirstMatch(s, from, at, anchored)
    case None => 0
    case Some((q, e)) => 1 + CountMatches(s, e, at, anchored)
  }

  /** `re.sub(pattern, repl, s[from:])`, `repl` receiving the matched text. */
  function SubAll(s: string, from: nat, at: (string, nat) -> Option<nat>, anchored: bool,
                  repl: string -> string): string
    requires from <= |s| && Advances(at)
    decreases |s| - from
  {
    match FirstMatch(s, from, at, anchored)
    case None => s[from..]
    case Some((q, e)) => s[from..q] + repl(s[q..e]) + SubAll(s, e, at, anchored, repl)
  }

  /** Substituting every match by itself rebuilds the text: `re.sub` touches
      nothing outside the matches. */
  lemma {:induction false} SubAllIdentity(s: string, from: nat, at: (string, nat) -> Option<nat>,
                                          anchored: bool, repl: string -> string)
    requires from <= |s| && Advances(at)
    requires forall m :: repl(m) == m
    ensures SubAll(s, from, at, anchored, repl) == s[from..]
    decreases |s| - from
  {
    match FirstMatch(s, from, at, anchored)
    case None =>
    case Some((q, e)) =>
      SubAllIdentity(s, e, at, anchored, repl);
      assert s[from..] == s[from..q] + s[q..e] + s[e..];
  }

  /** With no match from `from` on, substitution leaves the text alone. */
  lemma SubAllNoMatch(s: string, from: nat, at: (string, nat) -> Option<nat>,
                      anchored: bool, repl: string -> string)
    requires from <= |s| && Advances(at)
    requires forall q :: from <= q <= |s| && Candidate(s, q, anchored) ==> at(s, q).None?
    ensures SubAll(s, from, at, anchored, repl) == s[from..]
  {
    var r := FirstMatch(s, from, at, anchored);
    assert r.None?;
  }

  /** Substituting with replacements no longer than the matches cannot make
      the text longer. */
  lemma {:induction false} SubAllShrinks(s: string, from: nat, at: (string, nat) -> Option<nat>,
                                         anchored: bool, repl: string -> string)
    requires from <= |s| && Advances(at)
    requires forall m :: |repl(m)| <= |m|
    ensures |SubAll(s, from, at, anchored, repl)| <= |s| - from
    decreases |s| - from
  {
    var fm := FirstMatch(s, from, at, anchored);
    if fm.Some? {
      var q, e := fm.value.0, fm.value.1;
      assert at(s, q) == Some(e);
      SubAllShrinks(s, e, at, anchored, repl);
    }
  }

  /** A run that stops inside `s` stops at the same place once `s` is
      extended. */
  lemma SkipWhileExtend<T>(s: seq<T>, t: seq<T>, i: nat, P: T -> bool)
    requires i <= |s| && SkipWhile(s, i, P) < |s|
    ensures SkipWhile(s + t, i, P) == SkipWhile(s, i, P)
  {
    var j := SkipWhile(s, i, P);
    assert forall k :: i <= k <= j ==> (s + t)[k] == s[k];
    SkipWhileExact(s + t, i, j, P);
  }

  /** Putting `a` in front of `b` moves the end of every run by `|a|`. */
  lemma {:induction false} SkipWhileShift<T>(a: seq<T>, b: seq<T>, i: nat, P: T -> bool)
    requires i <= |b|
    ensures SkipWhile(a + b, |a| + i, P) == |a| + SkipWhile(b, i, P)
    decreases |b| - i
  {
    if i < |b| {
      assert (a + b)[|a| + i] == b[i];
      if P(b[i]) {
        SkipWhileShift(a, b, i + 1, P);
      }
    }
  }

  /** Putting `a` in front of `b` moves the last position found by `|a|`. */
  lemma {:induction false} LastWhereShift(a: string, b: string, lo: nat, hi: nat, P: char -> bool)
    requires lo <= hi <= |b|
    ensures LastWhere(a + b, |a| + lo, |a| + hi, P) == ShiftBy(LastWhere(b, lo, hi, P), |a|)
    decreases hi - lo
  {
    if lo < hi {
      assert (a + b)[|a| + hi - 1] == b[hi - 1];
      if !P(b[hi - 1]) {
        LastWhereShift(a, b, lo, hi - 1, P);
      }
    }
  }

  /** A search over positions where nothing matches gets where it would
      from the end of those positions. */
  lemma {:induction false} FirstMatchSkip<T>(s: string, from: nat, upto: nat, at: (string, nat) -> Option<T>,
                                             anchored: bool)
    requires from <= upto <= |s|
    requires forall q :: from <= q < upto && Candidate(s, q, anchored) ==> at(s, q).None?
    ensures FirstMatch(s, from, at, anchored) == FirstMatch(s, upto, at, anchored)
    decreases upto - from
  {
    if from < upto {
      FirstMatchSkip(s, from + 1, upto, at, anchored);
    }
  }

  /** `re.findall` counts nothing in a stretch without matches. */
  lemma CountMatchesSkip(s: string, from: nat, upto: nat, at: (string, nat) -> Option<nat>, anchored: bool)
    requires from <= upto <= |s| && Advances(at)
    requires forall q :: from <= q < upto && Candidate(s, q, anchored) ==> at(s, q).None?
    ensures CountMatches(s, from, at, anchored) == CountMatches(s, upto, at, anchored)
  {
    FirstMatchSkip(s, from, upto, at, anchored);
  }

  /** `re.sub` of a `^` pattern that matches only at the start of the text. */
  lemma SubAllFirstOnly(s: string, at: (string, nat) -> Option<nat>, repl: string -> string, e: nat)
    requires Advances(at) && at(s, 0) == Some(e)
    requires forall q :: 0 < q <= |s| && IsLineStart(s, q) ==> at(s, q).None?
    ensures e <= |s| && SubAll(s, 0, at, true, repl) == repl(s[..e]) + s[e..]
  {
    FirstMatchAt(s, 0, at, true, 0);
    SubAllAt(s, 0, at, true, repl, 0, e);
    SubAllNoMatch(s, e, at, true, repl);
    assert s[0..0] == [] && s[0..e] == s[..e];
  }

  /** `re.sub` of a `^` pattern that matches at no line start. */
  lemma SubAllNone(s: string, at: (string, nat) -> Option<nat>, repl: string -> string)
    requires Advances(at)
    requires forall q :: 0 <= q <= |s| && IsLineStart(s, q) ==> at(s, q).None?
    ensures SubAll(s, 0, at, true, repl) == s
  {
    SubAllNoMatch(s, 0, at, true, repl);
    assert s[0..] == s;
  }

  /** A match end moved `n` positions on. */
  function ShiftBy(r: Option<nat>, n: nat): (m: Option<nat>)
    ensures m.Some? <==> r.Some?
    ensures m.Some? ==> m.value == r.value + n
  {
    match r
    case None => None
    case Some(e) => Some(e + n)
  }

  /** One step of `re.sub`: the text before the first match, the
      replacement of the match, then the rest. */
  lemma SubAllAt(s: string, from: nat, at: (string, nat) -> Option<nat>, anchored: bool,
                 repl: string -> string, q: nat, e: nat)
    requires from <= |s| && Advances(at) && FirstMatch(s, from, at, anchored) == Some((q, e))
    ensures from <= q < e <= |s|
    ensures SubAll(s, from, at, anchored, repl) == s[from..q] + repl(s[q..e]) + SubAll(s, e, at, anchored, repl)
  {
    assert at(s, q) == Some(e);
  }

  /** `re.findall` counts the match at a candidate position, then nothing in a
      stretch without matches after it. */
  lemma CountMatchesOne(s: string, from: nat, e: nat, upto: nat, at: (string, nat) -> Option<nat>, anchored: bool)
    requires Advances(at) && from < e <= upto <= |s|
    requires Candidate(s, from, anchored) && at(s, from) == Some(e)
    requires forall q :: e <= q < upto && Candidate(s, q, anchored) ==> at(s, q).None?
    ensures CountMatches(s, from, at, anchored) == 1 + CountMatches(s, upto, at, anchored)
  {
    FirstMatchAt(s, from, at, anchored, from);
    CountMatchesSkip(s, e, upto, at, anchored);
  }

  /** `re.findall` with a `^` pattern over one line: the match at the line
      start if there is one, then the count from the next line start. */
  lemma CountMatchesLine(s: string, from: nat, upto: nat, at: (string, nat) -> Option<nat>)
    requires Advances(at) && from <= upto <= |s| && IsLineStart(s, from)
    requires forall q :: from < q < upto ==> !IsLineStart(s, q)
    requires at(s, from).Some? ==> at(s, from).value <= upto
    ensures CountMatches(s, from, at, true) == (if at(s, from).Some? then 1 else 0) + CountMatches(s, upto, at, true)
  {
    if at(s, from).Some? {
      CountMatchesOne(s, from, at(s, from).value, upto, at, true);
    } else {
      CountMatchesSkip(s, from, upto, at, true);
    }
  }

  /** Inside a line there is no line start. */
  lemma NoLineStartInside(prefix: string, l: string, t: string)
    requires '\n' !in l
    ensures forall q :: |prefix| < q <= |prefix| + |l| ==> !IsLineStart(prefix + l + t, q)
  {
    var s := prefix + l + t;
    forall q | |prefix| < q <= |prefix| + |l| ensures !IsLineStart(s, q) {
      assert s[q - 1] == l[q - 1 - |prefix|];
    }
  }

  /** On lines accepted by `ok`, the matcher reads the line alone: placed
      after any text and followed by nothing or a newline, a line matches at
      its start exactly as it does on its own, and the match ends inside it. */
  ghost predicate ReadsWithinLine(at: (string, nat) -> Option<nat>, ok: string -> bool) {
    forall a: string, l: string, t: string ::
      ok(l) && '\n' !in l && (t == [] || t[0] == '\n') ==>
        at(Placed(a, l, t), |a|) == ShiftBy(at(l, 0), |a|) && (at(l, 0).Some? ==> at(l, 0).value <= |l|)
  }

  /** A line `l` placed after `a` and before `t`. */
  function Placed(a: string, l: string, t: string): string {
    a + l + t
  }

  /** The number of lines the matcher matches at their start. */
  function LineHits(lines: seq<string>, at: (string, nat) -> Option<nat>): (n: nat)
    ensures n <= |lines|
  {
    if lines == [] then 0 else (if at(lines[0], 0).Some? then 1 else 0) + LineHits(lines[1..], at)
  }

  /** The text after whole lines: the first line, then a newline and the
      rest joined when there is more. */
  lemma JoinFirst(prefix: string, lines: seq<string>)
    requires |lines| >= 1
    ensures |lines| == 1 ==> prefix + Join(lines, "\n") == prefix + lines[0] + []
    ensures |lines| >= 2 ==> prefix + Join(lines, "\n") == prefix + lines[0] + ("\n" + Join(lines[1..], "\n"))
    ensures |lines| >= 2 ==> prefix + Join(lines, "\n") == (prefix + lines[0] + "\n") + Join(lines[1..], "\n")
  {
    if |lines| == 1 {
      assert Join(lines, "\n") == lines[0];
      assert lines[0] + [] == lines[0];
    } else {
      var j := Join(lines[1..], "\n");
      assert Join(lines, "\n") == lines[0] + "\n" + j;
      Associative(prefix, lines[0], "\n" + j);
      Associative(lines[0], "\n", j);
      Associative(prefix + lines[0], "\n", j);
    }
  }

  /** `len(re.findall(...))` of a `^` pattern over lines joined by newlines,
      when the pattern reads each line alone: one per line it matches. */
  lemma {:induction false} CountMatchesLines(prefix: string, lines: seq<string>,
                                             at: (string, nat) -> Option<nat>, ok: string -> bool)
    requires Advances(at) && ReadsWithinLine(at, ok)
    requires prefix == [] || prefix[|prefix| - 1] == '\n'
    requires forall i :: 0 <= i < |lines| ==> '\n' !in lines[i] && ok(lines[i])
    ensures CountMatches(prefix + Join(lines, "\n"), |prefix|, at, true) == LineHits(lines, at)
    decreases |lines|
  {
    if lines == [] {
      assert prefix + Join(lines, "\n") == prefix;
      CountMatchesAt(prefix, |prefix|, at, true);
    } else if |lines| == 1 {
      LastLineCount(prefix, lines, at, ok);
    } else {
      forall i | 0 <= i < |lines| - 1 ensures '\n' !in lines[1..][i] && ok(lines[1..][i]) {
        assert lines[1..][i] == lines[i + 1];
      }
      CountMatchesLines(prefix + lines[0] + "\n", lines[1..], at, ok);
      FirstLineCount(prefix, lines, at, ok);
    }
  }

  /** The count over a single line. */
  lemma LastLineCount(prefix: string, lines: seq<string>, at: (string, nat) -> Option<nat>, ok: string -> bool)
    requires Advances(at) && ReadsWithinLine(at, ok)
    requires prefix == [] || prefix[|prefix| - 1] == '\n'
    requires |lines| == 1 && '\n' !in lines[0] && ok(lines[0])
    ensures CountMatches(prefix + Join(lines, "\n"), |prefix|, at, true) == LineHits(lines, at)
  {
    var s := prefix + Join(lines, "\n");
    JoinFirst(prefix, lines);
    PlacedLineCount(prefix, lines[0], [], at, ok);
    assert s == prefix + lines[0] + [];
    CountMatchesAt(s, |s|, at, true);
    assert lines[1..] == [];
  }

  /** The count over several lines: the first line's match, then the count
      over the others. */
  lemma FirstLineCount(prefix: string, lines: seq<string>, at: (string, nat) -> Option<nat>, ok: string -> bool)
    requires Advances(at) && ReadsWithinLine(at, ok)
    requires prefix == [] || prefix[|prefix| - 1] == '\n'
    requires |lines| >= 2 && '\n' !in lines[0] && ok(lines[0])
    requires CountMatches(prefix + lines[0] + "\n" + Join(lines[1..], "\n"), |prefix + lines[0] + "\n"|, at, true)
             == LineHits(lines[1..], at)
    ensures CountMatches(prefix + Join(lines, "\n"), |prefix|, at, true) == LineHits(lines, at)
  {
    var s := prefix + Join(lines, "\n");
    var rest := Join(lines[1..], "\n");
    JoinFirst(prefix, lines);
    assert s == prefix + lines[0] + ("\n" + rest) && s == prefix + lines[0] + "\n" + rest;
    PlacedLineCount(prefix, lines[0], "\n" + rest, at, ok);
  }

  /** A line placed after whole lines counts its own match, then the count
      goes on after the line break that ends it (or at the end). */
  lemma PlacedLineCount(prefix: string, l: string, t: string,
                        at: (string, nat) -> Option<nat>, ok: string -> bool)
    requires Advances(at) && ReadsWithinLine(at, ok)
    requires prefix == [] || prefix[|prefix| - 1] == '\n'
    requires '\n' !in l && ok(l) && (t == [] || t[0] == '\n')
    ensures CountMatches(prefix + l + t, |prefix|, at, true) ==
              (if at(l, 0).Some? then 1 else 0)
              + CountMatches(prefix + l + t, |prefix| + |l| + (if t == [] then 0 else 1), at, true)
  {
    var s := Placed(prefix, l, t);
    assert at(s, |prefix|) == ShiftBy(at(l, 0), |prefix|);
    assert IsLineStart(s, |prefix|) by {
      if prefix != [] { assert s[|prefix| - 1] == prefix[|prefix| - 1]; }
    }
    NoLineStartInside(prefix, l, t);
    CountMatchesLine(s, |prefix|, |prefix| + |l| + (if t == [] then 0 else 1), at);
  }

  /** One step of `re.findall`: the first match, then the count from its end. */
  lemma CountMatchesAt(s: string, from: nat, at: (string, nat) -> Option<nat>, anchored: bool)
    requires from <= |s| && Advances(at)
    ensures FirstMatch(s, from, at, anchored).None? ==> CountMatches(s, from, at, anchored) == 0
    ensures FirstMatch(s, from, at, anchored).Some? ==>
              var e := FirstMatch(s, from, at, anchored).value.1;
              from < e <= |s| && CountMatches(s, from, at, anchored) == 1 + CountMatches(s, e, at, anchored)
  {
    var fm := FirstMatch(s, from, at, anchored);
    if fm.Some? {
      assert at(s, fm.value.0) == Some(fm.value.1);
    }
  }
}
