/** Matching records against compiled queries (`TracksMatcher.match`) and
    filtering a sequence of records (`search_tracks`,
    `search_tracks_from_string`).

    A record being searched is wrapped in a search result that collects, in
    `onTags`, the tags through which the query's matchers matched it.
    `TracksMatcher.match` runs the top-level matchers in order, stops at the
    first that does not match, and credits the tags of every matcher that
    did match before that point, each tag at most once. */
module Search {
  import opened Text
  import opened Structurer
  import opened Optimizer
  import opened Tokenizer
  import opened Matchers
  import opened Compiler

  /** `SearchResultTrack`: a record and the tags it was matched on. */
  datatype SearchResult = SearchResult(track: Track, onTags: seq<string>)

  /** What `search_tracks` is given: a bare record, or one already wrapped
      by an earlier search, whose tags are kept and added to. */
  datatype Candidate = Raw(track: Track) | Wrapped(result: SearchResult)

  function Wrap(c: Candidate): SearchResult {
    match c
    case Raw(t) => SearchResult(t, [])
    case Wrapped(r) => r
  }

  function TrackOf(c: Candidate): Track {
    match c
    case Raw(t) => t
    case Wrapped(r) => r.track
  }

  predicate NoDup(s: seq<string>) {
    forall i, j :: 0 <= i < j < |s| ==> s[i] != s[j]
  }

  // ----- on_tags -----

  /** The tags of `more`, in order, appended to `tags` unless already there. */
  function AddNew(tags: seq<string>, more: seq<string>): (r: seq<string>)
    decreases |more|
    ensures |tags| <= |r| && r[..|tags|] == tags
    ensures forall x :: x in r <==> x in tags || x in more
    ensures NoDup(tags) ==> NoDup(r)
  {
    if more == [] then tags
    else
      var next := if more[0] in tags then tags else tags + [more[0]];
      var r := AddNew(next, more[1..]);
      assert forall x :: x in more <==> x == more[0] || x in more[1..];
      PrefixTrans(tags, next, r);
      r
  }

  /** Matcher `i` of `ms` is reached (all before it match), matches, and
      credits `x`. */
  predicate Credits(ms: seq<Matcher>, t: Track, i: nat, x: string) {
    i < |ms| && AllMatch(ms[..i], t) && Matches(ms[i], t) && x in Provenance(ms[i], t)
  }

  /** `TracksMatcher.match`: the verdict, and the tags collected so far
      (`tags` on entry). */
  function MatchAll(ms: seq<Matcher>, t: Track, tags: seq<string>): (r: (bool, seq<string>))
    ensures r.0 <==> AllMatch(ms, t)
    ensures |tags| <= |r.1| && r.1[..|tags|] == tags
    ensures NoDup(tags) ==> NoDup(r.1)
  {
    if ms == [] then (true, tags)
    else if !Matches(ms[0], t) then (false, tags)
    else
      var next := AddNew(tags, Provenance(ms[0], t));
      var r := MatchAll(ms[1..], t, next);
      PrefixTrans(tags, next, r.1);
      r
  }

  lemma CreditsShift(ms: seq<Matcher>, t: Track, i: nat, x: string)
    requires ms != [] && Matches(ms[0], t)
    ensures Credits(ms[1..], t, i, x) <==> Credits(ms, t, i + 1, x)
  {
    if i < |ms| - 1 {
      assert ms[1..][i] == ms[i + 1];
      assert ms[..i + 1] == [ms[0]] + ms[1..][..i];
      AllMatchConcat([ms[0]], ms[1..][..i], t);
    }
  }

  /** Past a first matcher that matches, the credits are its own tags and
      those of the rest of the list. */
  lemma CreditsStep(ms: seq<Matcher>, t: Track, x: string)
    requires ms != [] && Matches(ms[0], t)
    ensures (exists i: nat :: Credits(ms, t, i, x))
        <==> x in Provenance(ms[0], t) || exists i: nat :: Credits(ms[1..], t, i, x)
  {
    assert ms[..0] == [];
    assert Credits(ms, t, 0, x) <==> x in Provenance(ms[0], t);
    if exists i: nat :: Credits(ms, t, i, x) {
      var i: nat :| Credits(ms, t, i, x);
      if i > 0 {
        CreditsShift(ms, t, i - 1, x);
      }
    }
    if exists i: nat :: Credits(ms[1..], t, i, x) {
      var i: nat :| Credits(ms[1..], t, i, x);
      CreditsShift(ms, t, i, x);
    }
  }

  /** A first matcher that does not match credits nothing, and neither does
      any matcher after it. */
  lemma NoCreditsAfterFailure(ms: seq<Matcher>, t: Track, x: string)
    requires ms != [] && !Matches(ms[0], t)
    ensures !exists i: nat :: Credits(ms, t, i, x)
  {
    assert forall i: nat :: 0 < i <= |ms| ==> ms[..i][0] == ms[0];
  }

  /** The tags `match` collects are those it started with and those of the
      matchers that matched before the first one that did not. */
  lemma {:induction false} MatchAllCredits(ms: seq<Matcher>, t: Track, tags: seq<string>, x: string)
    ensures x in MatchAll(ms, t, tags).1 <==> x in tags || exists i: nat :: Credits(ms, t, i, x)
    decreases |ms|
  {
    if ms == [] {
    } else if !Matches(ms[0], t) {
      NoCreditsAfterFailure(ms, t, x);
    } else {
      var next := AddNew(tags, Provenance(ms[0], t));
      MatchAllCredits(ms[1..], t, next, x);
      CreditsStep(ms, t, x);
    }
  }

  // ----- search_tracks -----

  /** A record passes a list of queries when it matches every one. */
  predicate Passes(qs: seq<seq<Matcher>>, t: Track) {
    forall k :: 0 <= k < |qs| ==> AllMatch(qs[k], t)
  }

  /** The queries of `search_tracks`, run in order on one search result until
      one rejects it; every query run adds its tags. */
  function RunAll(qs: seq<seq<Matcher>>, r: SearchResult): (res: (bool, SearchResult))
    ensures res.0 <==> Passes(qs, r.track)
    ensures res.1.track == r.track
    ensures |r.onTags| <= |res.1.onTags| && res.1.onTags[..|r.onTags|] == r.onTags
    ensures NoDup(r.onTags) ==> NoDup(res.1.onTags)
  {
    if qs == [] then (true, r)
    else
      var m := MatchAll(qs[0], r.track, r.onTags);
      var next := SearchResult(r.track, m.1);
      if !m.0 then (false, next)
      else
        var res := RunAll(qs[1..], next);
        assert forall k :: 1 <= k < |qs| ==> qs[k] == qs[1..][k - 1];
        PrefixTrans(r.onTags, next.onTags, res.1.onTags);
        res
  }

  /** What one candidate contributes: its search result, if it passes. */
  function Kept(c: Candidate, qs: seq<seq<Matcher>>): (r: seq<SearchResult>)
    ensures |r| <= 1
    ensures r != [] <==> Passes(qs, TrackOf(c))
    ensures r != [] ==> r[0].track == TrackOf(c)
  {
    assert Wrap(c).track == TrackOf(c);
    var res := RunAll(qs, Wrap(c));
    if res.0 then [res.1] else []
  }

  /** `search_tracks`: the candidates that pass every query, wrapped, in
      their order. */
  function SearchTracks(cands: seq<Candidate>, qs: seq<seq<Matcher>>): (r: seq<SearchResult>)
    ensures |r| <= |cands|
    ensures forall i :: 0 <= i < |r| ==> Passes(qs, r[i].track)
  {
    if cands == [] then [] else Kept(cands[0], qs) + SearchTracks(cands[1..], qs)
  }

  /** One candidate: kept, with the tags the queries credit, iff it passes. */
  lemma SearchOne(c: Candidate, qs: seq<seq<Matcher>>)
    ensures SearchTracks([c], qs)
         == if Passes(qs, TrackOf(c)) then [RunAll(qs, Wrap(c)).1] else []
    ensures Passes(qs, TrackOf(c)) ==> SearchTracks([c], qs)[0].track == TrackOf(c)
  {
    assert [c][1..] == [];
  }

  /** Searching is filtering: it distributes over concatenation, so the
      results keep the candidates' order. */
  lemma {:induction false} SearchConcat(a: seq<Candidate>, b: seq<Candidate>, qs: seq<seq<Matcher>>)
    ensures SearchTracks(a + b, qs) == SearchTracks(a, qs) + SearchTracks(b, qs)
    decreases |a|
  {
    if a == [] {
      assert a + b == b;
    } else {
      ConsSplit(a, b);
      SearchConcat(a[1..], b, qs);
      Assoc(Kept(a[0], qs), SearchTracks(a[1..], qs), SearchTracks(b, qs));
    }
  }

  function TracksOf(rs: seq<SearchResult>): seq<Track> {
    if rs == [] then [] else [rs[0].track] + TracksOf(rs[1..])
  }

  function CandidateTracks(cands: seq<Candidate>): seq<Track> {
    if cands == [] then [] else [TrackOf(cands[0])] + CandidateTracks(cands[1..])
  }

  /** Reference filter: the records that pass every query, in order. */
  function Filter(ts: seq<Track>, qs: seq<seq<Matcher>>): seq<Track> {
    if ts == [] then [] else (if Passes(qs, ts[0]) then [ts[0]] else []) + Filter(ts[1..], qs)
  }

  lemma {:induction false} TracksOfConcat(a: seq<SearchResult>, b: seq<SearchResult>)
    ensures TracksOf(a + b) == TracksOf(a) + TracksOf(b)
    decreases |a|
  {
    if a == [] {
      assert a + b == b;
    } else {
      assert (a + b)[0] == a[0];
      ConsSplit(a, b);
      TracksOfConcat(a[1..], b);
    }
  }

  /** The records `search_tracks` yields are exactly the reference filter of
      the candidates' records. */
  lemma {:induction false} SearchIsFilter(cands: seq<Candidate>, qs: seq<seq<Matcher>>)
    ensures TracksOf(SearchTracks(cands, qs)) == Filter(CandidateTracks(cands), qs)
    decreases |cands|
  {
    if cands != [] {
      var head := Kept(cands[0], qs);
      SearchIsFilter(cands[1..], qs);
      TracksOfConcat(head, SearchTracks(cands[1..], qs));
      assert TracksOf(head) == if Passes(qs, TrackOf(cands[0])) then [TrackOf(cands[0])] else [];
    }
  }

  /** A record passes the reference filter iff it is a candidate and passes
      every query. */
  lemma {:induction false} FilterMembership(ts: seq<Track>, qs: seq<seq<Matcher>>, x: Track)
    ensures x in Filter(ts, qs) <==> x in ts && Passes(qs, x)
    decreases |ts|
  {
    if ts != [] {
      FilterMembership(ts[1..], qs, x);
      assert x in ts <==> x == ts[0] || x in ts[1..];
    }
  }

  /** A search result that started bare carries each tag at most once. */
  lemma {:induction false} RawResultsNoDup(cands: seq<Candidate>, qs: seq<seq<Matcher>>)
    requires forall i :: 0 <= i < |cands| ==> cands[i].Raw?
    ensures forall i :: 0 <= i < |SearchTracks(cands, qs)| ==> NoDup(SearchTracks(cands, qs)[i].onTags)
    decreases |cands|
  {
    if cands != [] {
      assert forall i :: 0 <= i < |cands[1..]| ==> cands[1..][i] == cands[i + 1];
      RawResultsNoDup(cands[1..], qs);
    }
  }

  /** With no queries, every candidate is kept as it is. */
  lemma {:induction false} SearchWithoutQueries(cands: seq<Candidate>)
    ensures |SearchTracks(cands, [])| == |cands|
    ensures forall i :: 0 <= i < |cands| ==> SearchTracks(cands, [])[i] == Wrap(cands[i])
    decreases |cands|
  {
    if cands != [] {
      SearchWithoutQueries(cands[1..]);
      assert forall i :: 1 <= i < |cands| ==> cands[1..][i - 1] == cands[i];
    }
  }

  // ----- TracksMatcher and search_tracks_from_string -----

  /** The `TracksMatcher` constructor: tokenize, structure, optimize and
      compile; `None` where any stage raises. */
  function Compile(query: string, caseSensitive: bool, keys: seq<string>): (r: Option<seq<Matcher>>)
    ensures r.Some? ==> Red(Leaves(Tokenize(query))).Some?
  {
    var ts := Leaves(Tokenize(query));
    match Red(ts)
    case None => None
    case Some(red) =>
      RedShape(ts);
      SortKeepsShape(red);
      CompileList(Sort(red), Config(!caseSensitive, keys))
  }

  /** The optimizer is invisible in the verdict: the compiled query fails,
      and matches a record, exactly when the structured tokens compiled in
      their original order do. */
  lemma CompileIgnoresOrder(query: string, caseSensitive: bool, keys: seq<string>, t: Track)
    requires Red(Leaves(Tokenize(query))).Some?
    ensures AllReduced(Red(Leaves(Tokenize(query))).value)
    ensures var red := Red(Leaves(Tokenize(query))).value;
            var c := Config(!caseSensitive, keys);
            (Compile(query, caseSensitive, keys).Some? <==> CompileList(red, c).Some?)
            && (Compile(query, caseSensitive, keys).Some? ==>
                  AllMatch(Compile(query, caseSensitive, keys).value, t) == AllMatch(CompileList(red, c).value, t))
  {
    var ts := Leaves(Tokenize(query));
    RedShape(ts);
    var red := Red(ts).value;
    OptimizeKeepsVerdict(red, Config(!caseSensitive, keys), t);
  }

  lemma SingleWordTokens(w: string)
    requires Plain(w) && PAD !in w
    ensures Leaves(Tokenize(w)) == [Leaf(""), Leaf(w)]
  {
    TokenizePlain(w);
    SplitNoSpace(w);
  }

  lemma CompileTwoLeaves(w: string, c: Config)
    ensures AllReduced([Leaf(""), Leaf(w)])
    ensures CompileList([Leaf(""), Leaf(w)], c) == Some(CompileWord(w, c))
  {
    CompileWords("", w, c);
    assert CompileWord("", c) == [];
    assert [] + CompileWord(w, c) == CompileWord(w, c);
  }

  lemma CompileWords(a: string, b: string, c: Config)
    ensures AllReduced([Leaf(a), Leaf(b)])
    ensures CompileList([Leaf(a), Leaf(b)], c) == Some(CompileWord(a, c) + CompileWord(b, c))
  {
    assert [Leaf(a)] + [Leaf(b)] == [Leaf(a), Leaf(b)];
    CompileSingle(Leaf(a), c);
    CompileSingle(Leaf(b), c);
    CompileListConcat([Leaf(a)], [Leaf(b)], c);
  }

  /** A query of one word, with nothing in it the tokenizer acts on and not
      an operator, compiles to that word's matcher. */
  lemma SingleWordQuery(w: string, caseSensitive: bool, keys: seq<string>)
    requires Plain(w) && PAD !in w && !IsOp(Leaf(w))
    ensures Compile(w, caseSensitive, keys) == Some(CompileWord(w, Config(!caseSensitive, keys)))
  {
    SingleWordTokens(w);
    var ts := [Leaf(""), Leaf(w)];
    assert NoOps(ts);
    RedIdentity(ts);
    assert Sorted(ts);
    SortSorted(ts);
    CompileTwoLeaves(w, Config(!caseSensitive, keys));
  }

  /** A single `tag==value` query, with nothing in it the tokenizer acts on,
      is one exact matcher. */
  lemma ExactQuery(tag: string, value: string, caseSensitive: bool, keys: seq<string>)
    requires Plain(tag + "==" + value) && PAD !in tag + "==" + value && ExactTag(tag)
    ensures Compile(tag + "==" + value, caseSensitive, keys)
         == Some([Exact(tag, if value == NULL then None else Some(LowerIf(!caseSensitive, value)), !caseSensitive)])
  {
    var w := tag + "==" + value;
    assert |w| >= 2;
    SingleWordQuery(w, caseSensitive, keys);
    ExactWord(tag, value, Config(!caseSensitive, keys));
  }

  /** `search_tracks_from_string`: one query, compiled from text, run over
      the candidates; `None` where compiling raises. */
  function SearchFromString(cands: seq<Candidate>, query: string, caseSensitive: bool, keys: seq<string>)
    : (r: Option<seq<SearchResult>>)
    ensures r.None? <==> Compile(query, caseSensitive, keys).None?
    ensures r.Some? ==> |r.value| <= |cands|
    ensures r.Some? ==> forall i :: 0 <= i < |r.value| ==>
              AllMatch(Compile(query, caseSensitive, keys).value, r.value[i].track)
  {
    match Compile(query, caseSensitive, keys)
    case None => None
    case Some(ms) =>
      var r := SearchTracks(cands, [ms]);
      assert forall i :: 0 <= i < |r| ==> Passes([ms], r[i].track);
      Some(r)
  }
}
