/** The matchers a compiled query is made of, and how each one decides
    whether a record matches: `_ExactMatcher` and `_InMatcher` look at the
    values of one tag, `_ManyMultiMetaMatcher` (a bare keyword) looks for a
    substring in any of the keyword tags, and the NOT, OR and AND-group
    combinators combine the verdicts of their children. */
module Matchers {
  import opened Text

  /** The store's answer for one tag: one value, or an ordered list of
      values. The absent tag is answered with the single text `__null__`. */
  datatype TagValue = One(s: string) | Many(items: seq<string>)

  /** A record, seen only through its tags. */
  datatype Track = Track(tags: map<string, TagValue>)

  const NULL: string := "__null__"

  function TagSearch(t: Track, tag: string): TagValue {
    if tag in t.tags then t.tags[tag] else One(NULL)
  }

  /** The values a leaf matcher goes through: the sentinel is read as the
      single value `None`, a single value as a one-element list. */
  function Items(v: TagValue): (r: seq<Option<string>>)
    ensures None in r <==> v == One(NULL)
    ensures None in r ==> r == [None]
    ensures forall s :: Some(s) in r <==> (v.One? && v.s == s && s != NULL) || (v.Many? && s in v.items)
  {
    match v
    case One(s) => if s == NULL then [None] else [Some(s)]
    case Many(items) =>
      var r := seq(|items|, i requires 0 <= i < |items| => Some(items[i]));
      assert forall s :: s in items ==> Some(s) in r by {
        forall s | s in items ensures Some(s) in r {
          var i :| 0 <= i < |items| && items[i] == s;
          assert r[i] == Some(s);
        }
      }
      r
  }

  /** Lowercasing of one value when the search folds case; the absent value
      has nothing to lowercase and is kept as it is. */
  function FoldValue(fold: bool, x: Option<string>): (r: Option<string>)
    ensures r.None? <==> x.None?
    ensures !fold ==> r == x
    ensures x.Some? ==> |r.value| == |x.value|
    ensures fold && x.Some? ==> forall i :: 0 <= i < |x.value| ==> r.value[i] == LowerChar(x.value[i])
  {
    match x
    case None => None
    case Some(s) => Some(LowerIf(fold, s))
  }

  /** The values of `tag` on `t`, each folded when the search folds case. */
  function ValuesOf(t: Track, tag: string, fold: bool): (r: seq<Option<string>>)
    ensures |r| == |Items(TagSearch(t, tag))|
    ensures forall i :: 0 <= i < |r| ==> r[i] == FoldValue(fold, Items(TagSearch(t, tag))[i])
    ensures !fold ==> r == Items(TagSearch(t, tag))
  {
    var items := Items(TagSearch(t, tag));
    seq(|items|, i requires 0 <= i < |items| => FoldValue(fold, items[i]))
  }

  /** `_InMatcher.matches`: a missing or empty value never matches; any
      other value matches when the content occurs in it. */
  predicate Within(value: Option<string>, part: string) {
    value.Some? && value.value != [] && Contains(value.value, part)
  }

  /** The loop of `_Matcher.match` with the exact test: it stops at the
      first value equal to the content. */
  function AnyEqual(vals: seq<Option<string>>, want: Option<string>): (r: bool)
    ensures r <==> exists i :: 0 <= i < |vals| && vals[i] == want
  {
    if vals == [] then false
    else if vals[0] == want then true
    else
      assert forall i :: 1 <= i < |vals| ==> vals[i] == vals[1..][i - 1];
      AnyEqual(vals[1..], want)
  }

  /** The loop of `_Matcher.match` with the containment test. */
  function AnyWithin(vals: seq<Option<string>>, part: string): (r: bool)
    ensures r <==> exists i :: 0 <= i < |vals| && Within(vals[i], part)
  {
    if vals == [] then false
    else if Within(vals[0], part) then true
    else
      assert forall i :: 1 <= i < |vals| ==> vals[i] == vals[1..][i - 1];
      AnyWithin(vals[1..], part)
  }

  function ExactMatch(tag: string, want: Option<string>, fold: bool, t: Track): bool {
    AnyEqual(ValuesOf(t, tag, fold), want)
  }

  function SubstringMatch(tag: string, part: string, fold: bool, t: Track): bool {
    AnyWithin(ValuesOf(t, tag, fold), part)
  }

  /** A compiled condition. `fold` says whether the record's values are
      lowercased before the test. */
  datatype Matcher =
    | Exact(tag: string, want: Option<string>, fold: bool)      // _ExactMatcher
    | Substring(tag: string, part: string, fold: bool)         // _InMatcher
    | Keyword(keys: seq<string>, part: string, fold: bool)     // _ManyMultiMetaMatcher of _InMatchers
    | Negation(inner: Matcher)                                 // _NotMetaMatcher
    | Either(left: Matcher, right: Matcher)                    // _OrMetaMatcher
    | Group(ms: seq<Matcher>)                                  // _MultiMetaMatcher

  /** The tags of a keyword matcher that both are non-empty and hold the
      keyword, in the order of the keyword tags: the `tags` the matcher
      collects afresh on every call. */
  function Hits(keys: seq<string>, part: string, fold: bool, t: Track): (r: seq<string>)
    ensures forall x :: x in r <==> x in keys && x != "" && SubstringMatch(x, part, fold, t)
  {
    if keys == [] then []
    else
      var rest := Hits(keys[1..], part, fold, t);
      assert forall x :: x in keys <==> x == keys[0] || x in keys[1..];
      if keys[0] != "" && SubstringMatch(keys[0], part, fold, t) then [keys[0]] + rest else rest
  }

  function Matches(m: Matcher, t: Track): bool
    decreases m, 1
  {
    match m
    case Exact(tag, want, fold) => ExactMatch(tag, want, fold, t)
    case Substring(tag, part, fold) => SubstringMatch(tag, part, fold, t)
    case Keyword(keys, part, fold) => Hits(keys, part, fold, t) != []
    case Negation(inner) => !Matches(inner, t)
    case Either(l, r) => Matches(l, t) || Matches(r, t)
    case Group(ms) => AllMatch(ms, t)
  }

  /** The loop of `_MultiMetaMatcher.match`: it stops at the first child that
      does not match. */
  function AllMatch(ms: seq<Matcher>, t: Track): (r: bool)
    decreases ms, 0
    ensures r <==> forall i :: 0 <= i < |ms| ==> Matches(ms[i], t)
  {
    if ms == [] then true
    else if !Matches(ms[0], t) then false
    else
      assert forall i :: 1 <= i < |ms| ==> ms[i] == ms[1..][i - 1];
      AllMatch(ms[1..], t)
  }

  /** The tags a matched top-level matcher credits: its own tag for a leaf
      matcher (even the empty one), the tags it collected for a keyword
      matcher, and none for a combinator. */
  function Provenance(m: Matcher, t: Track): (r: seq<string>)
    ensures m.Exact? || m.Substring? ==> r == [m.tag]
    ensures m.Keyword? ==> forall x :: x in r <==> x in m.keys && x != "" && SubstringMatch(x, m.part, m.fold, t)
    ensures m.Negation? || m.Either? || m.Group? ==> r == []
  {
    match m
    case Exact(tag, _, _) => [tag]
    case Substring(tag, _, _) => [tag]
    case Keyword(keys, part, fold) => Hits(keys, part, fold, t)
    case _ => []
  }

  // ----- what the leaf and keyword matchers mean -----

  /** `tag==__null__` compiles to the exact matcher for `None`, which
      matches exactly the records on which the tag is absent (or holds the
      sentinel text itself), whatever the case folding. */
  lemma NullMeansAbsent(tag: string, fold: bool, t: Track)
    ensures Matches(Exact(tag, None, fold), t) <==> TagSearch(t, tag) == One(NULL)
    ensures tag !in t.tags ==> Matches(Exact(tag, None, fold), t)
  {
    var items := Items(TagSearch(t, tag));
    var vals := ValuesOf(t, tag, fold);
    if TagSearch(t, tag) == One(NULL) {
      assert vals[0] == None;
    } else {
      forall i | 0 <= i < |vals| ensures vals[i] != None {
        assert items[i] in items;
      }
    }
  }

  /** An exact matcher for a value matches iff some value of the tag, folded
      when the search folds case, equals it. */
  lemma ExactMeaning(tag: string, w: string, fold: bool, t: Track)
    ensures Matches(Exact(tag, Some(w), fold), t)
        <==> exists s :: Some(s) in Items(TagSearch(t, tag)) && LowerIf(fold, s) == w
  {
    var items := Items(TagSearch(t, tag));
    var vals := ValuesOf(t, tag, fold);
    if Matches(Exact(tag, Some(w), fold), t) {
      var i :| 0 <= i < |vals| && vals[i] == Some(w);
      assert items[i].Some? && Some(items[i].value) in items && LowerIf(fold, items[i].value) == w;
    }
    if exists s :: Some(s) in items && LowerIf(fold, s) == w {
      var s :| Some(s) in items && LowerIf(fold, s) == w;
      var i :| 0 <= i < |items| && items[i] == Some(s);
      assert vals[i] == Some(w);
    }
  }

  /** A tag whose value list is empty matches no leaf matcher. */
  lemma EmptyListNeverMatches(tag: string, w: Option<string>, part: string, fold: bool, t: Track)
    requires TagSearch(t, tag) == Many([])
    ensures !Matches(Exact(tag, w, fold), t)
    ensures !Matches(Substring(tag, part, fold), t)
  {
    assert ValuesOf(t, tag, fold) == [];
  }

  /** A containment matcher never matches an absent tag, even for empty
      content. */
  lemma SubstringNeedsValue(tag: string, part: string, fold: bool, t: Track)
    requires TagSearch(t, tag) == One(NULL)
    ensures !Matches(Substring(tag, part, fold), t)
  {
    assert ValuesOf(t, tag, fold) == [None];
  }

  /** Empty content (`tag=` or `tag=""`) matches the records on which the
      tag has some non-empty value. */
  lemma EmptyContentMatchesNonEmpty(tag: string, fold: bool, t: Track)
    ensures Matches(Substring(tag, "", fold), t)
        <==> exists s :: Some(s) in Items(TagSearch(t, tag)) && s != ""
  {
    var items := Items(TagSearch(t, tag));
    var vals := ValuesOf(t, tag, fold);
    if exists s :: Some(s) in items && s != "" {
      var s :| Some(s) in items && s != "";
      var i :| 0 <= i < |items| && items[i] == Some(s);
      assert vals[i].value[0..0] == "";
      assert OccursAt(vals[i].value, "", 0);
      assert Within(vals[i], "");
    }
    if Matches(Substring(tag, "", fold), t) {
      var i :| 0 <= i < |vals| && Within(vals[i], "");
      assert items[i] in items;
    }
  }

  /** A keyword matches iff it occurs in some value of some non-empty
      keyword tag; with no keyword tags it matches nothing. */
  lemma KeywordMeaning(keys: seq<string>, part: string, fold: bool, t: Track)
    ensures Matches(Keyword(keys, part, fold), t)
        <==> exists x :: x in keys && x != "" && Matches(Substring(x, part, fold), t)
    ensures keys == [] ==> !Matches(Keyword(keys, part, fold), t)
  {
    var h := Hits(keys, part, fold, t);
    if h != [] {
      assert h[0] in h;
    }
  }

  /** A negated group, the compiled form of `!`, matches iff some member of
      the group does not match; an empty group (nothing after the `!`) is
      always matched, so its negation never is. */
  lemma NegatedGroup(ms: seq<Matcher>, t: Track)
    ensures Matches(Negation(Group(ms)), t) <==> exists i :: 0 <= i < |ms| && !Matches(ms[i], t)
    ensures ms == [] ==> !Matches(Negation(Group(ms)), t)
  {
  }
}
