/** Optional values and the handful of string operations the search engine
    borrows from the host language: ASCII lowercasing, whitespace and quote
    stripping, first-occurrence search and substring containment. */
module Text {

  datatype Option<+T> = None | Some(value: T)

  /** The characters a bare `strip()` removes: space, tab, newline,
      carriage return, vertical tab and form feed. */
  predicate IsWhitespace(c: char) {
    c == ' ' || c == '\t' || c == '\n' || c == '\r' || c as int == 11 || c as int == 12
  }

  predicate IsQuote(c: char) {
    c == '"'
  }

  predicate IsUpper(c: char) {
    'A' <= c <= 'Z'
  }

  function LowerChar(c: char): (r: char)
    ensures !IsUpper(r)
    ensures IsUpper(c) ==> r as int == c as int + 32
    ensures !IsUpper(c) ==> r == c
  {
    if IsUpper(c) then (c as int + 32) as char else c
  }

  /** ASCII lowercasing; every other character is kept as it is. */
  function Lower(s: string): (r: string)
    ensures |r| == |s|
    ensures forall i :: 0 <= i < |s| ==> r[i] == LowerChar(s[i])
  {
    seq(|s|, i requires 0 <= i < |s| => LowerChar(s[i]))
  }

  /** Lowercasing only when the search is case-insensitive. */
  function LowerIf(fold: bool, s: string): (r: string)
    ensures fold ==> r == Lower(s)
    ensures !fold ==> r == s
  {
    if fold then Lower(s) else s
  }

  /** Number of leading characters satisfying `p`. */
  function LeadingCount(s: string, p: char -> bool): (n: nat)
    ensures n <= |s|
    ensures forall k :: 0 <= k < n ==> p(s[k])
    ensures n < |s| ==> !p(s[n])
  {
    if s == [] || !p(s[0]) then 0 else 1 + LeadingCount(s[1..], p)
  }

  /** Number of trailing characters satisfying `p`. */
  function TrailingCount(s: string, p: char -> bool): (n: nat)
    ensures n <= |s|
    ensures forall k :: |s| - n <= k < |s| ==> p(s[k])
    ensures n < |s| ==> !p(s[|s| - n - 1])
  {
    if s == [] || !p(s[|s| - 1]) then 0 else 1 + TrailingCount(s[..|s| - 1], p)
  }

  /** `s` without its longest prefix and longest suffix made of characters
      satisfying `p`. */
  function Strip(s: string, p: char -> bool): (r: string)
    ensures LeadingCount(s, p) + |r| <= |s|
    ensures forall k :: 0 <= k < |r| ==> r[k] == s[LeadingCount(s, p) + k]
    ensures forall k :: 0 <= k < LeadingCount(s, p) ==> p(s[k])
    ensures forall k :: LeadingCount(s, p) + |r| <= k < |s| ==> p(s[k])
    ensures r != [] ==> !p(r[0]) && !p(r[|r| - 1])
    ensures (forall k :: 0 <= k < |s| ==> p(s[k])) ==> r == []
  {
    var lo := LeadingCount(s, p);
    var rest := s[lo..];
    var hi := |rest| - TrailingCount(rest, p);
    assert rest != [] ==> !p(rest[0]);
    rest[..hi]
  }

  /** The characters `Unquote` may remove from either end. */
  predicate IsBlankOrQuote(c: char) {
    IsWhitespace(c) || IsQuote(c)
  }

  /** `r` is the piece of `s` starting at `i`, and everything of `s` around
      it is whitespace or `"`. */
  predicate TrimmedTo(s: string, r: string, i: nat) {
    i + |r| <= |s|
    && (forall k :: 0 <= k < |r| ==> r[k] == s[i + k])
    && (forall k :: 0 <= k < i ==> IsBlankOrQuote(s[k]))
    && (forall k :: i + |r| <= k < |s| ==> IsBlankOrQuote(s[k]))
  }

  /** Text that neither starts nor ends with a stripped character is kept
      whole. */
  lemma StripKeeps(s: string, p: char -> bool)
    requires s != [] && !p(s[0]) && !p(s[|s| - 1])
    ensures Strip(s, p) == s
  {
    assert LeadingCount(s, p) == 0;
    assert TrailingCount(s, p) == 0;
  }

  /** Whitespace stripping followed by stripping every enclosing `"`: a
      piece of `s` from which only whitespace and quotes were cut away, and
      which neither starts nor ends with a quote. */
  function Unquote(s: string): (r: string)
    ensures r != [] ==> !IsQuote(r[0]) && !IsQuote(r[|r| - 1])
    ensures |r| <= |s|
    ensures exists i: nat :: TrimmedTo(s, r, i)
    ensures s != [] && !IsBlankOrQuote(s[0]) && !IsBlankOrQuote(s[|s| - 1]) ==> r == s
  {
    UnquotePiece(s);
    UnquoteWhole(s);
    Strip(Strip(s, IsWhitespace), IsQuote)
  }

  /** Whitespace is cut only outside the quotes: text that neither starts
      nor ends with whitespace, such as `" a "` with its quotes, loses only
      its enclosing quotes, and the blanks inside them stay. */
  lemma UnquoteInsideQuotes(s: string)
    requires s == [] || (!IsWhitespace(s[0]) && !IsWhitespace(s[|s| - 1]))
    ensures Unquote(s) == Strip(s, IsQuote)
  {
    if s != [] {
      StripKeeps(s, IsWhitespace);
    }
  }

  /** Text without quotes is only stripped of whitespace. */
  lemma UnquoteWithoutQuotes(s: string)
    requires forall k :: 0 <= k < |s| ==> !IsQuote(s[k])
    ensures Unquote(s) == Strip(s, IsWhitespace)
  {
    var w := Strip(s, IsWhitespace);
    if w != [] {
      assert w[0] == s[LeadingCount(s, IsWhitespace)];
      assert w[|w| - 1] == s[LeadingCount(s, IsWhitespace) + |w| - 1];
      StripKeeps(w, IsQuote);
    }
  }

  /** Text made of a core `m` that neither starts nor ends with whitespace,
      surrounded by whitespace: only the whitespace outside `m` is stripped,
      and then the quotes enclosing `m`, so ` "a" ` gives `a`. Every text
      with a non-blank character has this shape. */
  lemma UnquoteBlankAround(a: string, m: string, b: string)
    requires forall k :: 0 <= k < |a| ==> IsWhitespace(a[k])
    requires forall k :: 0 <= k < |b| ==> IsWhitespace(b[k])
    requires m != [] && !IsWhitespace(m[0]) && !IsWhitespace(m[|m| - 1])
    ensures Unquote(a + m + b) == Strip(m, IsQuote)
  {
    StripAround(a, m, b, IsWhitespace);
  }

  /** Text made only of whitespace unquotes to nothing. */
  lemma UnquoteAllBlank(s: string)
    requires forall k :: 0 <= k < |s| ==> IsWhitespace(s[k])
    ensures Unquote(s) == []
  {
    assert Strip(s, IsWhitespace) == [];
  }

  /** Stripping removes exactly the runs around a core that neither starts
      nor ends with a stripped character. */
  lemma StripAround(a: string, m: string, b: string, p: char -> bool)
    requires forall k :: 0 <= k < |a| ==> p(a[k])
    requires forall k :: 0 <= k < |b| ==> p(b[k])
    requires m != [] && !p(m[0]) && !p(m[|m| - 1])
    ensures Strip(a + m + b, p) == m
  {
    var s := a + m + b;
    ConcatMiddle(a, m, b);
    assert s[|a|..|a| + |m|] == m;
    StripFrom(s, |a|, |m|, p);
  }

  /** Stripping keeps exactly the piece `s[lo..lo + len]` when everything
      before and after it is stripped and it neither starts nor ends with a
      stripped character. */
  lemma StripFrom(s: string, lo: nat, len: nat, p: char -> bool)
    requires 0 < len && lo + len <= |s|
    requires forall k :: 0 <= k < lo ==> p(s[k])
    requires forall k :: lo + len <= k < |s| ==> p(s[k])
    requires !p(s[lo]) && !p(s[lo + len - 1])
    ensures Strip(s, p) == s[lo..lo + len]
  {
    LeadingAt(s, lo, p);
    var r := Strip(s, p);
    StripAroundLength(s, r, lo, len, p);
    SliceAt(s, r, lo, len);
  }

  lemma LeadingAt(s: string, lo: nat, p: char -> bool)
    requires lo < |s| && !p(s[lo])
    requires forall k :: 0 <= k < lo ==> p(s[k])
    ensures LeadingCount(s, p) == lo
  {
  }

  lemma SliceAt(s: string, r: string, lo: nat, len: nat)
    requires lo + len <= |s| && |r| == len
    requires forall k :: 0 <= k < |r| ==> r[k] == s[lo + k]
    ensures r == s[lo..lo + len]
  {
  }

  /** The positions of `a + m + b` hold `a`, then `m`, then `b`. */
  lemma ConcatMiddle(a: string, m: string, b: string)
    ensures forall k :: 0 <= k < |a| ==> (a + m + b)[k] == a[k]
    ensures forall k :: 0 <= k < |m| ==> (a + m + b)[|a| + k] == m[k]
    ensures forall k :: |a| + |m| <= k < |a + m + b| ==> (a + m + b)[k] == b[k - |a| - |m|]
  {
  }

  /** The piece `r` that stripping keeps ends where the core of length `len`
      starting at `lo` ends, since a stripped character follows the core
      and the core's last character is kept. */
  lemma StripAroundLength(s: string, r: string, lo: nat, len: nat, p: char -> bool)
    requires 0 < len && lo + len <= |s| && !p(s[lo + len - 1])
    requires forall k :: lo + len <= k < |s| ==> p(s[k])
    requires lo + |r| <= |s| && forall k :: 0 <= k < |r| ==> r[k] == s[lo + k]
    requires forall k :: lo + |r| <= k < |s| ==> p(s[k])
    requires r != [] ==> !p(r[|r| - 1])
    ensures |r| == len
  {
    if r != [] {
      assert r[|r| - 1] == s[lo + |r| - 1];
    }
  }

  lemma UnquotePiece(s: string)
    ensures exists i: nat :: TrimmedTo(s, Strip(Strip(s, IsWhitespace), IsQuote), i)
  {
    var w := Strip(s, IsWhitespace);
    UnquoteTrims(s, w, Strip(w, IsQuote), LeadingCount(s, IsWhitespace), LeadingCount(w, IsQuote));
  }

  lemma UnquoteWhole(s: string)
    ensures s != [] && !IsBlankOrQuote(s[0]) && !IsBlankOrQuote(s[|s| - 1])
        ==> Strip(Strip(s, IsWhitespace), IsQuote) == s
  {
    if s != [] && !IsBlankOrQuote(s[0]) && !IsBlankOrQuote(s[|s| - 1]) {
      StripKeeps(s, IsWhitespace);
      StripKeeps(s, IsQuote);
    }
  }

  lemma UnquoteTrims(s: string, w: string, r: string, lo1: nat, lo2: nat)
    requires lo1 + |w| <= |s| && forall k :: 0 <= k < |w| ==> w[k] == s[lo1 + k]
    requires forall k :: 0 <= k < lo1 ==> IsWhitespace(s[k])
    requires forall k :: lo1 + |w| <= k < |s| ==> IsWhitespace(s[k])
    requires lo2 + |r| <= |w| && forall k :: 0 <= k < |r| ==> r[k] == w[lo2 + k]
    requires forall k :: 0 <= k < lo2 ==> IsQuote(w[k])
    requires forall k :: lo2 + |r| <= k < |w| ==> IsQuote(w[k])
    ensures TrimmedTo(s, r, lo1 + lo2)
  {
    forall k | 0 <= k < lo1 + lo2 ensures IsBlankOrQuote(s[k]) {
      if k >= lo1 { assert s[k] == w[k - lo1]; }
    }
    forall k | lo1 + lo2 + |r| <= k < |s| ensures IsBlankOrQuote(s[k]) {
      if k < lo1 + |w| { assert s[k] == w[k - lo1]; }
    }
  }

  predicate OccursAt(s: string, pat: string, i: nat) {
    i + |pat| <= |s| && s[i..i + |pat|] == pat
  }

  /** Index of the first occurrence of `pat` in `s` at or after `from`. */
  function FindFrom(s: string, pat: string, from: nat): (r: Option<nat>)
    decreases |s| - from
    ensures r.Some? ==> from <= r.value && OccursAt(s, pat, r.value)
    ensures r.Some? ==> forall j :: from <= j < r.value ==> !OccursAt(s, pat, j)
    ensures r.None? ==> forall j :: from <= j ==> !OccursAt(s, pat, j)
  {
    if from + |pat| > |s| then None
    else if s[from..from + |pat|] == pat then Some(from)
    else FindFrom(s, pat, from + 1)
  }

  /** Index of the first occurrence of `pat` in `s`. */
  function Find(s: string, pat: string): (r: Option<nat>)
    ensures r.Some? ==> OccursAt(s, pat, r.value)
    ensures r.Some? ==> forall j :: 0 <= j < r.value ==> !OccursAt(s, pat, j)
    ensures r.None? ==> forall j :: 0 <= j ==> !OccursAt(s, pat, j)
  {
    FindFrom(s, pat, 0)
  }

  /** Whether `part` occurs somewhere in `s` (the host language's `in` on strings). */
  function Contains(s: string, part: string): (r: bool)
    ensures r <==> exists i :: 0 <= i && OccursAt(s, part, i)
  {
    Find(s, part).Some?
  }

  /** A pattern whose first character does not occur in `s` never occurs in
      it. */
  lemma AbsentHead(s: string, pat: string)
    requires pat != [] && pat[0] !in s
    ensures Find(s, pat) == None && !Contains(s, pat)
  {
    assert forall j :: 0 <= j && j + |pat| <= |s| ==> s[j..j + |pat|][0] == s[j];
  }

  lemma ConsSplit<T>(a: seq<T>, b: seq<T>)
    requires a != []
    ensures (a + b)[0] == a[0] && (a + b)[1..] == a[1..] + b
  {
  }

  lemma ConsJoin<T>(a: seq<T>, b: seq<T>)
    requires a != []
    ensures [a[0]] + (a[1..] + b) == a + b
  {
    Uncons(a);
  }

  lemma Assoc<T>(a: seq<T>, b: seq<T>, c: seq<T>)
    ensures a + (b + c) == (a + b) + c
  {
  }

  lemma PrefixTrans<T>(a: seq<T>, b: seq<T>, c: seq<T>)
    requires |a| <= |b| <= |c| && c[..|b|] == b && b[..|a|] == a
    ensures c[..|a|] == a
  {
    assert c[..|a|] == c[..|b|][..|a|];
  }

  lemma Uncons<T>(s: seq<T>)
    requires s != []
    ensures s == [s[0]] + s[1..]
  {
  }

  /** When `pre` has no occurrence of its own that starts inside it, the first
      occurrence in `pre + pat + rest` is the one right after `pre`. */
  lemma {:induction false} FindAfterPrefix(pre: string, pat: string, rest: string)
    requires forall j :: 0 <= j < |pre| ==> !OccursAt(pre + pat + rest, pat, j)
    ensures Find(pre + pat + rest, pat) == Some(|pre|)
  {
    var s := pre + pat + rest;
    assert s[|pre|..|pre| + |pat|] == pat;
    assert OccursAt(s, pat, |pre|);
  }
}
