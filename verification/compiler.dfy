/** The query compiler (`__tokens_to_matchers`): each top-level token of the
    structured query becomes at most one matcher, and the matchers of a list
    are AND-ed by whoever evaluates them.

    A word becomes an exact matcher (`tag==value`), a containment matcher
    (`tag=value`) or a keyword matcher (anything else); the empty word
    becomes nothing. A `!` node becomes the negation of the group of its
    operand's matchers, an `|` node the disjunction of the groups of its two
    sides. A parenthesised group compiles the list `[inside]`, which treats
    the inside itself as one token: only an inside made of a single node
    compiles as written; other shapes reach the "bad search token" branch or
    fail earlier.

    `None` stands for the inputs on which the source raises: an empty group
    `( )`, a group holding only an empty word, a group holding one word that
    starts with `|`, and every group that reaches the "bad search token"
    branch, whose warning goes to a `logger` the module never defines (a
    group of several tokens, or of one word not starting with `!` or `(`). */
module Compiler {
  import opened Text
  import opened Structurer
  import opened Matchers
  import opened Optimizer

  /** The settings of a `TracksMatcher`: whether values and contents are
      lowercased (the search is case-insensitive), and the tags a bare
      keyword is looked for in. */
  datatype Config = Config(fold: bool, keys: seq<string>)

  // ----- words -----

  /** One word of the query, compiled: `tag==value` splits at the first
      `==` and keeps the value verbatim (`__null__` standing for the absent
      tag); otherwise `tag=value` splits at the first `=` and strips
      whitespace and then quotes from the value; otherwise the whole word,
      stripped the same way, is a keyword. The empty word compiles to
      nothing. */
  function CompileWord(w: string, c: Config): (r: seq<Matcher>)
    ensures |r| <= 1
    ensures r == [] <==> w == ""
    ensures r != [] && r[0].Exact? ==> Contains(w, "==")
    ensures r != [] && !r[0].Exact? ==> !Contains(w, "==")
    ensures r != [] && r[0].Substring? ==> Contains(w, "=")
    ensures r != [] && r[0].Keyword? ==> !Contains(w, "=") && r[0].keys == c.keys
    ensures forall k :: 0 <= k < |r| ==> r[k].Exact? || r[k].Substring? || r[k].Keyword?
  {
    if w == "" then []
    else
      match Find(w, "==")
      case Some(i) =>
        (var content := w[i + 2..];
         [Exact(w[..i], if content == NULL then None else Some(LowerIf(c.fold, content)), c.fold)])
      case None =>
        match Find(w, "=")
        case Some(i) => [Substring(w[..i], LowerIf(c.fold, Unquote(w[i + 1..])), c.fold)]
        case None => [Keyword(c.keys, LowerIf(c.fold, Unquote(w)), c.fold)]
  }

  lemma NoEqualsInTag(tag: string, sep: string, rest: string)
    requires '=' !in tag && |sep| >= 1 && sep[0] == '='
    ensures Find(tag + sep + rest, sep) == Some(|tag|)
    ensures Find(tag + sep + rest, "=") == Some(|tag|)
  {
    var s := tag + sep + rest;
    forall j | 0 <= j < |tag|
      ensures !OccursAt(s, sep, j) && !OccursAt(s, "=", j)
    {
      assert s[j] == tag[j];
      if j + |sep| <= |s| { assert s[j..j + |sep|][0] == s[j]; }
      if j + 1 <= |s| { assert s[j..j + 1][0] == s[j]; }
    }
    FindAfterPrefix(tag, sep, rest);
    assert tag + sep + rest == tag + "=" + (sep[1..] + rest);
    FindAfterPrefix(tag, "=", sep[1..] + rest);
  }

  /** The first `==` of `tag==value` is the one after `tag` exactly when
      `tag` holds no `==` and does not end with `=`. */
  predicate ExactTag(tag: string) {
    !Contains(tag, "==") && (tag == "" || tag[|tag| - 1] != '=')
  }

  lemma ExactSplit(tag: string, value: string)
    requires ExactTag(tag)
    ensures Find(tag + "==" + value, "==") == Some(|tag|)
  {
    var s := tag + "==" + value;
    forall j | 0 <= j < |tag| ensures !OccursAt(s, "==", j) {
      if j + 2 <= |tag| {
        assert s[j..j + 2] == tag[j..j + 2];
        assert !OccursAt(tag, "==", j);
      } else {
        assert s[j] == tag[|tag| - 1];
      }
    }
    FindAfterPrefix(tag, "==", value);
  }

  /** `tag==value` splits at the first `==`, giving back the tag and the
      value, the value lowercased when folding and `__null__` read as
      absent. */
  lemma ExactWord(tag: string, value: string, c: Config)
    requires ExactTag(tag)
    ensures CompileWord(tag + "==" + value, c)
         == [Exact(tag, if value == NULL then None else Some(LowerIf(c.fold, value)), c.fold)]
  {
    var w := tag + "==" + value;
    ExactSplit(tag, value);
    assert w[..|tag|] == tag;
    assert w[|tag| + 2..] == value;
  }

  /** A word without `==` splits at its first `=`: with no `=` in the tag it
      gives back the tag and the value, stripped of whitespace and then
      quotes. */
  lemma SubstringWord(tag: string, value: string, c: Config)
    requires '=' !in tag && !Contains(tag + "=" + value, "==")
    ensures CompileWord(tag + "=" + value, c)
         == [Substring(tag, LowerIf(c.fold, Unquote(value)), c.fold)]
  {
    var w := tag + "=" + value;
    NoEqualsInTag(tag, "=", value);
    assert w[..|tag|] == tag;
    assert w[|tag| + 1..] == value;
  }

  /** A non-empty word without `=` is a keyword, stripped like a value. */
  lemma KeywordWord(w: string, c: Config)
    requires w != "" && '=' !in w
    ensures CompileWord(w, c) == [Keyword(c.keys, LowerIf(c.fold, Unquote(w)), c.fold)]
  {
    AbsentHead(w, "=");
    AbsentHead(w, "==");
  }

  // ----- token lists -----

  /** One token of a list, compiled: the list `[t]`. */
  function CompileOne(t: Tok, c: Config): (r: Option<seq<Matcher>>)
    requires Reduced(t)
    decreases t, 1
    ensures t.Leaf? ==> r.Some? && r.value == CompileWord(t.text, c)
    ensures r.Some? && !t.Leaf? ==> |r.value| == 1
  {
    match t
    case Leaf(w) => Some(CompileWord(w, c))
    case Paren(inner) =>
      (match CompileInside(inner, c)
       case None => None
       case Some(ms) => Some([Group(ms)]))
    case Not(operand) =>
      (match CompileList(operand, c)
       case None => None
       case Some(ms) => Some([Negation(Group(ms))]))
    case Or(l, r) =>
      match CompileOne(l, c)
      case None => None
      case Some(lm) =>
        match CompileOne(r, c)
        case None => None
        case Some(rm) => Some([Either(Group(lm), Group(rm))])
  }

  /** The list `[inside]` of a parenthesised group, compiled. With one
      element, that element is the token; with more, the inside list itself
      is, and its first element, never an operator word, sends it to the
      bad-token branch, which raises. A single word is indexed like a node:
      its first character is taken for the operator and its second for the
      operand. */
  function CompileInside(inner: seq<Tok>, c: Config): (r: Option<seq<Matcher>>)
    requires NoOps(inner) && forall i :: 0 <= i < |inner| ==> Reduced(inner[i])
    decreases inner, 0
    ensures r.Some? ==> |inner| == 1 && |r.value| == 1
    ensures r.Some? && inner[0].Leaf? ==> |inner[0].text| >= 2 && (inner[0].text[0] == '!' || inner[0].text[0] == '(')
  {
    if |inner| == 0 then None
    else if |inner| >= 2 then None
    else
      match inner[0]
      case Leaf(w) =>
        if w == "" then None
        else if w[0] == '!' then
          (if |w| < 2 then None else Some([Negation(Group(CompileWord([w[1]], c)))]))
        else if w[0] == '|' then None
        else if w[0] == '(' then
          (if |w| < 2 then None else Some([Group(CompileWord([w[1]], c))]))
        else None
      case _ => CompileOne(inner[0], c)
  }

  /** A list of tokens, compiled token by token, left to right. */
  function CompileList(ts: seq<Tok>, c: Config): (r: Option<seq<Matcher>>)
    requires AllReduced(ts)
    decreases ts, 0
    ensures r.Some? ==> |r.value| <= |ts|
  {
    if ts == [] then Some([])
    else
      match CompileOne(ts[0], c)
      case None => None
      case Some(a) =>
        match CompileList(ts[1..], c)
        case None => None
        case Some(b) => Some(a + b)
  }

  /** Either list failing makes the concatenation fail. */
  function Both(x: Option<seq<Matcher>>, y: Option<seq<Matcher>>): Option<seq<Matcher>> {
    if x.Some? && y.Some? then Some(x.value + y.value) else None
  }

  /** Compiling is a homomorphism from token lists to matcher lists. */
  lemma {:induction false} CompileListConcat(a: seq<Tok>, b: seq<Tok>, c: Config)
    requires AllReduced(a) && AllReduced(b)
    ensures AllReduced(a + b)
    ensures CompileList(a + b, c) == Both(CompileList(a, c), CompileList(b, c))
    decreases |a|
  {
    AllReducedConcat(a, b);
    if a == [] {
      assert a + b == b;
      match CompileList(b, c)
      case None =>
      case Some(y) => assert [] + y == y;
    } else {
      ConsSplit(a, b);
      AllReducedTail(a);
      CompileListConcat(a[1..], b, c);
      CompileListCons(a + b, c);
      CompileListCons(a, c);
      BothAssoc(CompileOne(a[0], c), CompileList(a[1..], c), CompileList(b, c));
    }
  }

  lemma BothAssoc(x: Option<seq<Matcher>>, y: Option<seq<Matcher>>, z: Option<seq<Matcher>>)
    ensures Both(x, Both(y, z)) == Both(Both(x, y), z)
  {
    if x.Some? && y.Some? && z.Some? {
      assert x.value + (y.value + z.value) == (x.value + y.value) + z.value;
    }
  }

  lemma AllReducedConcat(a: seq<Tok>, b: seq<Tok>)
    requires AllReduced(a) && AllReduced(b)
    ensures AllReduced(a + b)
  {
    forall k | 0 <= k < |a + b| ensures Reduced((a + b)[k]) {
      if k < |a| { assert (a + b)[k] == a[k]; } else { assert (a + b)[k] == b[k - |a|]; }
    }
  }

  lemma AllReducedTail(a: seq<Tok>)
    requires a != [] && AllReduced(a)
    ensures Reduced(a[0]) && AllReduced(a[1..])
  {
    forall k | 0 <= k < |a| - 1 ensures Reduced(a[1..][k]) { assert a[1..][k] == a[k + 1]; }
  }

  /** The first token's matchers, then the rest's. */
  lemma CompileListCons(ts: seq<Tok>, c: Config)
    requires ts != [] && AllReduced(ts)
    ensures Reduced(ts[0]) && AllReduced(ts[1..])
    ensures CompileList(ts, c) == Both(CompileOne(ts[0], c), CompileList(ts[1..], c))
  {
    AllReducedTail(ts);
  }

  /** The list of one token compiles like the token. */
  lemma CompileSingle(t: Tok, c: Config)
    requires Reduced(t)
    ensures AllReduced([t]) && CompileList([t], c) == CompileOne(t, c)
  {
    assert [t][1..] == [];
    match CompileOne(t, c)
    case None =>
    case Some(a) => assert a + [] == a;
  }

  // ----- the parenthesised-group quirks -----

  /** A group whose inside holds several tokens, such as `( a b )`, reaches
      the bad-token branch and makes the compiler raise. */
  lemma GroupOfSeveral(inner: seq<Tok>, c: Config)
    requires |inner| >= 2 && Reduced(Paren(inner))
    ensures CompileOne(Paren(inner), c) == None
  {
  }

  /** A group holding one node compiles as intended: a group of that
      node's matcher. */
  lemma GroupOfNode(n: Tok, c: Config)
    requires !n.Leaf? && Reduced(n)
    ensures Reduced(Paren([n]))
    ensures CompileOne(Paren([n]), c)
         == (match CompileOne(n, c) case None => None case Some(ms) => Some([Group(ms)]))
  {
  }

  /** A group holding one ordinary word (`( artist=x )`) makes the compiler
      raise as well: the word's first character is read as an operator, is
      none, and sends it to the bad-token branch. */
  lemma GroupOfWord(w: string, c: Config)
    requires w != "" && w[0] != '!' && w[0] != '|' && w[0] != '('
    ensures Reduced(Paren([Leaf(w)]))
    ensures CompileOne(Paren([Leaf(w)]), c) == None
  {
    assert Leaf(w) != OPEN && Leaf(w) != BANG && Leaf(w) != BAR;
  }

  /** A group holding one word that starts with `!`, such as `( !ab )`,
      compiles as a negated group of the word's second character alone:
      the word is indexed like a `!` node, and the rest of it is dropped. */
  lemma GroupOfBangWord(w: string, c: Config)
    requires |w| >= 2 && w[0] == '!'
    ensures Reduced(Paren([Leaf(w)]))
    ensures CompileOne(Paren([Leaf(w)]), c) == Some([Group([Negation(Group(CompileWord([w[1]], c)))])])
  {
    assert Leaf(w) != OPEN && Leaf(w) != BANG && Leaf(w) != BAR;
  }

  /** A group holding one word that starts with `(`, such as `( (ab )`,
      compiles as a group of a group of the word's second character alone. */
  lemma GroupOfOpenWord(w: string, c: Config)
    requires |w| >= 2 && w[0] == '('
    ensures Reduced(Paren([Leaf(w)]))
    ensures CompileOne(Paren([Leaf(w)]), c) == Some([Group([Group(CompileWord([w[1]], c))])])
  {
    assert Leaf(w) != OPEN && Leaf(w) != BANG && Leaf(w) != BAR;
  }

  /** `( )` and `( "" )` make the compiler raise. */
  lemma GroupEmptyFails(c: Config)
    ensures CompileOne(Paren([]), c) == None
    ensures Reduced(Paren([Leaf("")])) && CompileOne(Paren([Leaf("")]), c) == None
  {
    assert Leaf("") != OPEN && Leaf("") != BANG && Leaf("") != BAR;
  }

  // ----- the verdict of a compiled list -----

  /** `None` when compiling fails, otherwise whether every compiled matcher
      matches the record. */
  function Verdict(ts: seq<Tok>, c: Config, t: Track): Option<bool>
    requires AllReduced(ts)
  {
    match CompileList(ts, c)
    case None => None
    case Some(ms) => Some(AllMatch(ms, t))
  }

  function And(x: Option<bool>, y: Option<bool>): Option<bool> {
    if x.Some? && y.Some? then Some(x.value && y.value) else None
  }

  lemma AllMatchConcat(x: seq<Matcher>, y: seq<Matcher>, t: Track)
    ensures AllMatch(x + y, t) == (AllMatch(x, t) && AllMatch(y, t))
  {
    if AllMatch(x, t) && AllMatch(y, t) {
      forall k | 0 <= k < |x + y| ensures Matches((x + y)[k], t) {
        if k < |x| { assert (x + y)[k] == x[k]; } else { assert (x + y)[k] == y[k - |x|]; }
      }
    }
    if AllMatch(x + y, t) {
      forall k | 0 <= k < |x| ensures Matches(x[k], t) { assert (x + y)[k] == x[k]; }
      forall k | 0 <= k < |y| ensures Matches(y[k], t) { assert (x + y)[|x| + k] == y[k]; }
    }
  }

  lemma VerdictConcat(a: seq<Tok>, b: seq<Tok>, c: Config, t: Track)
    requires AllReduced(a) && AllReduced(b)
    ensures AllReduced(a + b)
    ensures Verdict(a + b, c, t) == And(Verdict(a, c, t), Verdict(b, c, t))
  {
    CompileListConcat(a, b, c);
    match CompileList(a, c)
    case None =>
    case Some(x) =>
      match CompileList(b, c)
      case None =>
      case Some(y) => AllMatchConcat(x, y, t);
  }

  /** `None` when either side fails, otherwise whether either side holds. */
  function OrElse(x: Option<bool>, y: Option<bool>): Option<bool> {
    if x.Some? && y.Some? then Some(x.value || y.value) else None
  }

  lemma AllMatchOne(m: Matcher, t: Track)
    ensures AllMatch([m], t) == Matches(m, t)
  {
  }

  /** A one-token list: its verdict is that of its token's matchers. */
  lemma VerdictSingle(x: Tok, c: Config, t: Track)
    requires Reduced(x)
    ensures AllReduced([x])
    ensures Verdict([x], c, t)
         == if CompileOne(x, c).Some? then Some(AllMatch(CompileOne(x, c).value, t)) else None
  {
    CompileSingle(x, c);
  }

  /** `! x`: the record matches iff the operand's matchers, AND-ed, do not
      all match it; the node fails to compile iff its operand does. */
  lemma NotNodeVerdict(operand: seq<Tok>, c: Config, t: Track)
    requires AllReduced(operand)
    ensures Reduced(Not(operand)) && AllReduced([Not(operand)])
    ensures Verdict([Not(operand)], c, t)
         == (match Verdict(operand, c, t) case None => None case Some(b) => Some(!b))
  {
    VerdictSingle(Not(operand), c, t);
    match CompileList(operand, c)
    case None =>
    case Some(ms) => AllMatchOne(Negation(Group(ms)), t);
  }

  /** `x | y`: the record matches iff either side, compiled on its own,
      matches it; the node fails to compile iff either side does. */
  lemma OrNodeVerdict(l: Tok, r: Tok, c: Config, t: Track)
    requires Reduced(l) && Reduced(r)
    ensures Reduced(Or(l, r)) && AllReduced([l]) && AllReduced([r]) && AllReduced([Or(l, r)])
    ensures Verdict([Or(l, r)], c, t) == OrElse(Verdict([l], c, t), Verdict([r], c, t))
  {
    VerdictSingle(Or(l, r), c, t);
    VerdictSingle(l, c, t);
    VerdictSingle(r, c, t);
    var lm, rm := CompileOne(l, c), CompileOne(r, c);
    OrCompiles(l, r, c, lm, rm);
    OrVerdictAt(lm, rm, t, Verdict([Or(l, r)], c, t), Verdict([l], c, t), Verdict([r], c, t));
  }

  /** The verdict arithmetic behind OrNodeVerdict, over names for the compiled pieces. */
  lemma OrVerdictAt(lm: Option<seq<Matcher>>, rm: Option<seq<Matcher>>, t: Track,
                    v: Option<bool>, vl: Option<bool>, vr: Option<bool>)
    requires vl == (if lm.Some? then Some(AllMatch(lm.value, t)) else None)
    requires vr == (if rm.Some? then Some(AllMatch(rm.value, t)) else None)
    requires v == (if lm.Some? && rm.Some?
                   then Some(AllMatch([Either(Group(lm.value), Group(rm.value))], t)) else None)
    ensures v == OrElse(vl, vr)
  {
    if lm.Some? && rm.Some? {
      AllMatchOne(Either(Group(lm.value), Group(rm.value)), t);
    }
  }

  lemma OrCompiles(l: Tok, r: Tok, c: Config, lm: Option<seq<Matcher>>, rm: Option<seq<Matcher>>)
    requires Reduced(l) && Reduced(r) && lm == CompileOne(l, c) && rm == CompileOne(r, c)
    ensures Reduced(Or(l, r))
    ensures CompileOne(Or(l, r), c)
         == if lm.Some? && rm.Some? then Some([Either(Group(lm.value), Group(rm.value))]) else None
  {
  }

  /** `( x )` around a single node: the group matches iff the node does. */
  lemma GroupNodeVerdict(n: Tok, c: Config, t: Track)
    requires !n.Leaf? && Reduced(n)
    ensures Reduced(Paren([n])) && AllReduced([n]) && AllReduced([Paren([n])])
    ensures Verdict([Paren([n])], c, t) == Verdict([n], c, t)
  {
    GroupOfNode(n, c);
    VerdictSingle(Paren([n]), c, t);
    VerdictSingle(n, c, t);
    match CompileOne(n, c)
    case None =>
    case Some(ms) => AllMatchOne(Group(ms), t);
  }

  lemma AndSwap(a: Option<bool>, b: Option<bool>, d: Option<bool>)
    ensures And(a, And(b, d)) == And(b, And(a, d))
  {
  }

  lemma AllReducedCons(x: Tok, ys: seq<Tok>)
    ensures AllReduced([x] + ys) <==> Reduced(x) && AllReduced(ys)
  {
    assert ([x] + ys)[0] == x;
    assert forall k :: 0 <= k < |ys| ==> ([x] + ys)[k + 1] == ys[k];
  }

  lemma InsertReduced(x: Tok, ys: seq<Tok>)
    requires Reduced(x) && AllReduced(ys)
    ensures AllReduced([x] + ys) && AllReduced(Insert(x, ys))
  {
    AllReducedCons(x, ys);
    ReducedMembers(Insert(x, ys), [x] + ys);
  }

  /** Inserting a token somewhere else in the list leaves the verdict as it
      is when it stood first. */
  lemma {:induction false} InsertVerdict(x: Tok, ys: seq<Tok>, c: Config, t: Track)
    requires Reduced(x) && AllReduced(ys)
    ensures AllReduced([x] + ys) && AllReduced(Insert(x, ys))
    ensures Verdict(Insert(x, ys), c, t) == Verdict([x] + ys, c, t)
    decreases |ys|
  {
    InsertReduced(x, ys);
    if ys != [] && Key(ys[0]) < Key(x) {
      var y, rest := ys[0], ys[1..];
      Uncons(ys);
      AllReducedCons(y, rest);
      InsertReduced(x, rest);
      assert AllReduced([x]) && AllReduced([y]);
      InsertVerdict(x, rest, c, t);
      assert Insert(x, ys) == [y] + Insert(x, rest);
      VerdictConcat([y], Insert(x, rest), c, t);
      VerdictConcat([x], rest, c, t);
      VerdictConcat([y], rest, c, t);
      VerdictConcat([x], ys, c, t);
      AndSwap(Verdict([y], c, t), Verdict([x], c, t), Verdict(rest, c, t));
    }
  }

  /** Every element of `b` is an element of `a` (as a multiset), so the shape
      carries over. */
  lemma ReducedMembers(b: seq<Tok>, a: seq<Tok>)
    requires AllReduced(a) && multiset(b) == multiset(a)
    ensures AllReduced(b)
  {
    forall k | 0 <= k < |b| ensures Reduced(b[k]) {
      assert b[k] in multiset(b);
      assert b[k] in a;
    }
  }

  /** The optimizer reorders the top-level tokens, which changes the order in
      which matchers run (and so the order of `on_tags`) but never whether
      compiling fails nor whether a record matches. */
  lemma {:induction false} OptimizeKeepsVerdict(ts: seq<Tok>, c: Config, t: Track)
    requires AllReduced(ts)
    ensures AllReduced(Sort(ts))
    ensures Verdict(Sort(ts), c, t) == Verdict(ts, c, t)
    decreases |ts|
  {
    SortKeepsShape(ts);
    if ts != [] {
      assert AllReduced(ts[1..]) by {
        forall k | 0 <= k < |ts| - 1 ensures Reduced(ts[1..][k]) { assert ts[1..][k] == ts[k + 1]; }
      }
      OptimizeKeepsVerdict(ts[1..], c, t);
      SortKeepsShape(ts[1..]);
      InsertVerdict(ts[0], Sort(ts[1..]), c, t);
      assert AllReduced([ts[0]]);
      VerdictConcat([ts[0]], Sort(ts[1..]), c, t);
      VerdictConcat([ts[0]], ts[1..], c, t);
      Uncons(ts);
    }
  }
}
