/** The query tokenizer of `TracksMatcher`: the query is padded with one space
    on each side and scanned character by character. A backslash copies the
    next character into the current token, a double quote toggles quoting
    (and is dropped), an unquoted space ends the current token, and every other
    character, the operators `( ) ! |` included, is appended to the current
    token. The token still being built when the input ends is never emitted. */
module Tokenizer {
  import opened Text

  const PAD: char := ' '
  const ESCAPE: char := '\\'
  const QUOTE: char := '"'

  /** The tokens completed while scanning `s`, starting with `cur` as the
      token under construction and `quoted` as the quoting state. */
  function Scan(s: string, cur: string, quoted: bool): (r: seq<string>)
    decreases |s|
    ensures |r| <= |s|
  {
    if s == [] then []
    else if s[0] == ESCAPE then
      // the escaped character is copied whatever it is; a backslash in
      // last position has nothing to copy and ends the scan
      if |s| == 1 then [] else Scan(s[2..], cur + [s[1]], quoted)
    else if quoted && s[0] != QUOTE then Scan(s[1..], cur + [s[0]], quoted)
    else if s[0] == QUOTE then Scan(s[1..], cur, !quoted)
    else if s[0] == PAD then [cur] + Scan(s[1..], "", quoted)
    else Scan(s[1..], cur + [s[0]], quoted)
  }

  function Tokenize(query: string): (r: seq<string>)
    ensures |r| >= 1 && r[0] == ""
  {
    var padded := [PAD] + query + [PAD];
    assert padded[1..] == query + [PAD];
    Scan(padded, "", false)
  }

  /** Input in which neither escapes nor quotes occur. */
  predicate Plain(s: string) {
    ESCAPE !in s && QUOTE !in s
  }

  /** Reference splitting: the pieces of `s` between single spaces, empty
      pieces included. */
  function Split(s: string): (r: seq<string>)
    decreases |s|
    ensures |r| >= 1
  {
    match Find(s, [PAD])
    case None => [s]
    case Some(i) => [s[..i]] + Split(s[i + 1..])
  }

  function AllButLast(ts: seq<string>): seq<string>
    requires |ts| >= 1
  {
    ts[..|ts| - 1]
  }

  lemma SplitNoSpace(s: string)
    requires PAD !in s
    ensures Split(s) == [s]
  {
    forall j | 0 <= j
      ensures !OccursAt(s, [PAD], j)
    {
      if j + 1 <= |s| {
        assert s[j..j + 1][0] == s[j];
      }
    }
  }

  lemma SplitAtSpace(cur: string, rest: string)
    requires PAD !in cur
    ensures Split(cur + [PAD] + rest) == [cur] + Split(rest)
  {
    var s := cur + [PAD] + rest;
    forall j | 0 <= j < |cur|
      ensures !OccursAt(s, [PAD], j)
    {
      assert s[j..j + 1][0] == s[j] == cur[j];
    }
    FindAfterPrefix(cur, [PAD], rest);
    assert s[..|cur|] == cur;
    assert s[|cur| + 1..] == rest;
  }

  function Last(ts: seq<string>): string
    requires |ts| >= 1
  {
    ts[|ts| - 1]
  }

  /** Scanning the plain prefix `p` outside quotes, from `cur`, completes
      every piece of `cur + p` but the last, which is still under
      construction afterwards. */
  predicate PrefixScans(p: string, rest: string, cur: string) {
    Scan(p + rest, cur, false) == AllButLast(Split(cur + p)) + Scan(rest, Last(Split(cur + p)), false)
  }

  lemma ScanAtPad(p: string, rest: string, cur: string)
    requires p != [] && p[0] == PAD
    ensures Scan(p + rest, cur, false) == [cur] + Scan(p[1..] + rest, "", false)
  {
    ConsSplit(p, rest);
  }

  lemma SplitAtPad(p: string, cur: string)
    requires p != [] && p[0] == PAD && PAD !in cur
    ensures Split(cur + p) == [cur] + Split(p[1..]) && "" + p[1..] == p[1..]
  {
    assert cur + p == cur + [PAD] + p[1..];
    SplitAtSpace(cur, p[1..]);
  }

  lemma ScanPadStep(p: string, rest: string, cur: string)
    requires p != [] && p[0] == PAD && PAD !in cur && PrefixScans(p[1..], rest, "")
    ensures PrefixScans(p, rest, cur)
  {
    var sp := Split(p[1..]);
    ScanAtPad(p, rest, cur);
    SplitAtPad(p, cur);
    var tail := Scan(rest, Last(sp), false);
    ConsLast(cur, sp);
    assert [cur] + (AllButLast(sp) + tail) == ([cur] + AllButLast(sp)) + tail;
  }

  lemma ConsLast(x: string, ts: seq<string>)
    requires |ts| >= 1
    ensures AllButLast([x] + ts) == [x] + AllButLast(ts) && Last([x] + ts) == Last(ts)
  {
  }

  lemma ScanCharStep(p: string, rest: string, cur: string)
    requires p != [] && p[0] != PAD && p[0] != ESCAPE && p[0] != QUOTE
    requires PrefixScans(p[1..], rest, cur + [p[0]])
    ensures PrefixScans(p, rest, cur)
  {
    ConsSplit(p, rest);
    assert Scan(p + rest, cur, false) == Scan(p[1..] + rest, cur + [p[0]], false);
    assert cur + [p[0]] + p[1..] == cur + p;
  }

  lemma {:induction false} ScanPlainPrefix(p: string, rest: string, cur: string)
    requires Plain(p) && PAD !in cur
    ensures PrefixScans(p, rest, cur)
    decreases |p|
  {
    if p == [] {
      assert p + rest == rest;
      assert cur + p == cur;
      SplitNoSpace(cur);
    } else {
      assert Plain(p[1..]) by {
        assert forall x :: x in p[1..] ==> x in p;
      }
      if p[0] == PAD {
        ScanPlainPrefix(p[1..], rest, "");
        ScanPadStep(p, rest, cur);
      } else {
        assert p[0] in p;
        ScanPlainPrefix(p[1..], rest, cur + [p[0]]);
        ScanCharStep(p, rest, cur);
      }
    }
  }

  /** The padded query, up to whatever follows the plain part `p`: the pad
      space completes the empty first token, and the pieces of `p` but its
      last are completed after it. */
  lemma PaddedPrefix(p: string, rest: string)
    requires Plain(p)
    ensures Scan([PAD] + p + rest, "", false)
         == AllButLast([""] + Split(p)) + Scan(rest, Last(Split(p)), false)
  {
    assert Plain([PAD] + p) by { assert forall x :: x in [PAD] + p ==> x == PAD || x in p; }
    ScanPlainPrefix([PAD] + p, rest, "");
    assert "" + ([PAD] + p) == "" + [PAD] + p;
    SplitAtSpace("", p);
    var sp := Split(p);
    assert Last([""] + sp) == Last(sp);
  }

  /** Without escapes or quotes the tokenizer is the reference split, after
      the empty token produced by the leading pad space. */
  lemma TokenizePlain(s: string)
    requires Plain(s)
    ensures Tokenize(s) == [""] + Split(s)
  {
    PaddedPrefix(s, [PAD]);
    var sp := [""] + Split(s);
    assert Scan([PAD], Last(Split(s)), false) == [Last(sp)];
    assert AllButLast(sp) + [Last(sp)] == sp;
  }

  /** A quote opened and never closed swallows the rest of the input: nothing
      more is emitted. */
  lemma {:induction false} UnclosedQuoteEmitsNothing(s: string, cur: string)
    requires QUOTE !in s
    ensures Scan(s, cur, true) == []
    decreases |s|
  {
    if s != [] {
      if s[0] == ESCAPE && |s| > 1 {
        assert QUOTE !in s[2..] by { assert forall x :: x in s[2..] ==> x in s; }
        UnclosedQuoteEmitsNothing(s[2..], cur + [s[1]]);
      } else if s[0] != ESCAPE {
        assert QUOTE !in s[1..] by { assert forall x :: x in s[1..] ==> x in s; }
        UnclosedQuoteEmitsNothing(s[1..], cur + [s[0]]);
      }
    }
  }

  /** The text after an unclosed quote, and the piece it was appended to, are
      dropped; the pieces completed before it are kept. */
  lemma UnclosedQuote(p: string, q: string)
    requires Plain(p) && QUOTE !in q
    ensures Tokenize(p + [QUOTE] + q) == AllButLast(Tokenize(p))
  {
    assert [PAD] + (p + [QUOTE] + q) + [PAD] == [PAD] + p + ([QUOTE] + q + [PAD]);
    PaddedPrefix(p, [QUOTE] + q + [PAD]);
    assert ([QUOTE] + q + [PAD])[1..] == q + [PAD];
    assert QUOTE !in q + [PAD];
    UnclosedQuoteEmitsNothing(q + [PAD], Last(Split(p)));
    TokenizePlain(p);
  }

  /** A trailing backslash escapes the closing pad space, so the last piece is
      never completed. */
  lemma TrailingEscape(p: string)
    requires Plain(p)
    ensures Tokenize(p + [ESCAPE]) == AllButLast(Tokenize(p))
  {
    assert [PAD] + (p + [ESCAPE]) + [PAD] == [PAD] + p + [ESCAPE, PAD];
    PaddedPrefix(p, [ESCAPE, PAD]);
    assert Scan([ESCAPE, PAD], Last(Split(p)), false) == [];
    TokenizePlain(p);
  }

  /** Every character written with a backslash in front of it. */
  function Escape(t: string): (r: string)
    ensures |r| == 2 * |t|
  {
    if t == [] then [] else [ESCAPE, t[0]] + Escape(t[1..])
  }

  lemma {:induction false} ScanEscaped(t: string, rest: string, cur: string, quoted: bool)
    ensures Scan(Escape(t) + rest, cur, quoted) == Scan(rest, cur + t, quoted)
    decreases |t|
  {
    if t == [] {
      assert Escape(t) + rest == rest;
      assert cur + t == cur;
    } else {
      var s := Escape(t) + rest;
      assert s == [ESCAPE, t[0]] + (Escape(t[1..]) + rest);
      assert s[2..] == Escape(t[1..]) + rest;
      ScanEscaped(t[1..], rest, cur + [t[0]], quoted);
      assert cur + [t[0]] + t[1..] == cur + t;
    }
  }

  /** Escaping every character of a text turns it into exactly one token. */
  lemma EscapeRoundTrip(t: string)
    ensures Tokenize(Escape(t)) == ["", t]
  {
    var padded := [PAD] + Escape(t) + [PAD];
    assert padded[1..] == Escape(t) + [PAD];
    ScanEscaped(t, [PAD], "", false);
    assert "" + t == t;
  }

  lemma {:induction false} ScanQuoted(t: string, rest: string, cur: string)
    requires Plain(t)
    ensures Scan(t + [QUOTE] + rest, cur, true) == Scan(rest, cur + t, false)
    decreases |t|
  {
    if t == [] {
      assert t + [QUOTE] + rest == [QUOTE] + rest;
      assert cur + t == cur;
    } else {
      assert (t + [QUOTE] + rest)[1..] == t[1..] + [QUOTE] + rest;
      assert Plain(t[1..]) by { assert forall x :: x in t[1..] ==> x in t; }
      ScanQuoted(t[1..], rest, cur + [t[0]]);
      assert cur + [t[0]] + t[1..] == cur + t;
    }
  }

  /** A quoted text without escapes or quotes of its own, spaces and operators
      included, becomes exactly one token. */
  lemma QuoteRoundTrip(t: string)
    requires Plain(t)
    ensures Tokenize([QUOTE] + t + [QUOTE]) == ["", t]
  {
    var padded := [PAD] + ([QUOTE] + t + [QUOTE]) + [PAD];
    assert padded[1..] == [QUOTE] + (t + [QUOTE] + [PAD]);
    assert padded[2..] == t + [QUOTE] + [PAD];
    ScanQuoted(t, [PAD], "");
    assert "" + t == t;
    assert Scan(padded, "", false) == [""] + Scan(padded[1..], "", false);
    assert Scan(padded[1..], "", false) == Scan(padded[2..], "", true);
    assert Scan([PAD], t, false) == [t];
  }

  lemma {:induction false} ScanDropsQuotes(s: string, cur: string, quoted: bool)
    requires ESCAPE !in s && QUOTE !in cur
    ensures forall k :: 0 <= k < |Scan(s, cur, quoted)| ==> QUOTE !in Scan(s, cur, quoted)[k]
    decreases |s|
  {
    if s != [] {
      assert ESCAPE !in s[1..] by { assert forall x :: x in s[1..] ==> x in s; }
      if s[0] == QUOTE {
        ScanDropsQuotes(s[1..], cur, !quoted);
      } else if s[0] == PAD && !quoted {
        ScanDropsQuotes(s[1..], "", quoted);
      } else {
        ScanDropsQuotes(s[1..], cur + [s[0]], quoted);
      }
    }
  }

  /** Without escapes, a double quote never reaches a token. */
  lemma QuotesNeverEmitted(s: string)
    requires ESCAPE !in s
    ensures forall k :: 0 <= k < |Tokenize(s)| ==> QUOTE !in Tokenize(s)[k]
  {
    var padded := [PAD] + s + [PAD];
    assert ESCAPE !in padded;
    ScanDropsQuotes(padded, "", false);
  }
}
