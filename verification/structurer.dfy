/** The query structurer (`__red`): the flat token list is rewritten, one
    operator at a time, until no top-level token is `(`, `!` or `|`. The first
    parenthesised group is resolved first (its inside structured recursively),
    then the first `!` takes the next token as its operand, then the first `|`
    joins its two neighbours. Sibling tokens left at the end are AND-ed.

    `None` stands for the inputs on which the source raises or recurses
    without end: an unmatched `(`, a `)` met before the first `(`, and a `|`
    in first or last position when `|` operators are resolved. */
module Structurer {
  import opened Text

  /** A token of the structured query: a word of the query, or one of the
      nested lists `["(", inside]`, `["!", operand]` and `["|", [left, right]]`. */
  datatype Tok = Leaf(text: string) | Paren(inner: seq<Tok>) | Not(operand: seq<Tok>) | Or(left: Tok, right: Tok)

  const OPEN: Tok := Leaf("(")
  const CLOSE: Tok := Leaf(")")
  const BANG: Tok := Leaf("!")
  const BAR: Tok := Leaf("|")

  /** The words the structurer rewrites (a lone `)` is left alone). */
  predicate IsOp(t: Tok) {
    t == OPEN || t == BANG || t == BAR
  }

  predicate NoOps(ts: seq<Tok>) {
    forall i :: 0 <= i < |ts| ==> !IsOp(ts[i])
  }

  /** The shape the structurer leaves behind, at every depth: the inside of a
      group holds no operator word at its top level. */
  predicate Reduced(t: Tok)
    decreases t
  {
    match t
    case Leaf(_) => true
    case Paren(inner) => NoOps(inner) && forall i :: 0 <= i < |inner| ==> Reduced(inner[i])
    case Not(operand) => forall i :: 0 <= i < |operand| ==> Reduced(operand[i])
    case Or(l, r) => Reduced(l) && Reduced(r)
  }

  predicate AllReduced(ts: seq<Tok>) {
    forall i :: 0 <= i < |ts| ==> Reduced(ts[i])
  }

  function Leaves(words: seq<string>): (r: seq<Tok>)
    ensures |r| == |words| && AllReduced(r)
    ensures forall i :: 0 <= i < |words| ==> r[i] == Leaf(words[i])
  {
    seq(|words|, i requires 0 <= i < |words| => Leaf(words[i]))
  }

  /** Position of the first occurrence of `x`. */
  function IndexOf(ts: seq<Tok>, x: Tok): (r: nat)
    requires x in ts
    ensures r < |ts| && ts[r] == x
    ensures forall k :: 0 <= k < r ==> ts[k] != x
  {
    if ts[0] == x then 0 else 1 + IndexOf(ts[1..], x)
  }

  // ----- the number of operator words, the structurer's measure -----

  function OpCount(ts: seq<Tok>): nat {
    if ts == [] then 0 else (if IsOp(ts[0]) then 1 else 0) + OpCount(ts[1..])
  }

  lemma {:induction false} OpCountConcat(a: seq<Tok>, b: seq<Tok>)
    ensures OpCount(a + b) == OpCount(a) + OpCount(b)
    decreases |a|
  {
    if a != [] {
      ConsSplit(a, b);
      OpCountConcat(a[1..], b);
    } else {
      assert a + b == b;
    }
  }

  /** Replacing the slice `ts[i..j]`, which holds an operator word, by one
      token that is not an operator word lowers the count. */
  lemma OpCountReplace(ts: seq<Tok>, i: int, j: int, x: Tok)
    requires 0 <= i && 0 <= j
    requires i <= j <= |ts| && !IsOp(x)
    ensures OpCount(ts) == OpCount(ts[..i]) + OpCount(ts[i..j]) + OpCount(ts[j..])
    ensures OpCount(ts[..i] + [x] + ts[j..]) == OpCount(ts[..i]) + OpCount(ts[j..])
  {
    OpCountSplit(ts, i, j);
    OpCountSingle(x);
    OpCountThree(ts[..i], [x], ts[j..]);
  }

  lemma OpCountSplit(ts: seq<Tok>, i: int, j: int)
    requires 0 <= i <= j <= |ts|
    ensures OpCount(ts) == OpCount(ts[..i]) + OpCount(ts[i..j]) + OpCount(ts[j..])
  {
    assert ts == ts[..i] + ts[i..j] + ts[j..];
    OpCountThree(ts[..i], ts[i..j], ts[j..]);
  }

  lemma OpCountSingle(x: Tok)
    requires !IsOp(x)
    ensures OpCount([x]) == 0
  {
    assert [x][1..] == [];
  }

  lemma OpCountThree(a: seq<Tok>, b: seq<Tok>, c: seq<Tok>)
    ensures OpCount(a + b + c) == OpCount(a) + OpCount(b) + OpCount(c)
  {
    OpCountConcat(a + b, c);
    OpCountConcat(a, b);
  }

  lemma OpCountHead(ts: seq<Tok>, i: int, j: int)
    requires 0 <= i && 0 <= j
    requires i < j <= |ts| && IsOp(ts[i])
    ensures OpCount(ts[i..j]) == 1 + OpCount(ts[i + 1..j])
  {
    assert ts[i..j][1..] == ts[i + 1..j];
  }

  lemma OpCountMember(ts: seq<Tok>, k: int)
    requires 0 <= k
    requires k < |ts| && IsOp(ts[k])
    ensures OpCount(ts) >= 1
  {
    OpCountReplace(ts, k, |ts|, Paren([]));
    OpCountHead(ts, k, |ts|);
  }

  // ----- locating the first parenthesised group -----

  predicate Truthy(o: Option<nat>) {
    o.Some? && o.value != 0
  }

  /** The source's scan for the first `(` and its closing `)`, step by step:
      `depth` counts the `(` opened after the first one; a `)` ends the scan
      only while no end is known and `depth` is zero; the early exit tests
      both positions for truthiness, so a position 0 never stops the scan. */
  function ScanParens(ts: seq<Tok>, i: nat, start: Option<nat>, end: Option<nat>, depth: int)
    : (r: (Option<nat>, Option<nat>))
    requires i <= |ts|
    decreases |ts| - i
    ensures r.0 != start ==> r.0.Some? && i <= r.0.value < |ts| && ts[r.0.value] == OPEN
    ensures r.1 != end ==> r.1.Some? && i <= r.1.value < |ts| && ts[r.1.value] == CLOSE
  {
    if i == |ts| then (start, end)
    else
      var (start', end', depth') :=
        if ts[i] == OPEN then
          (if start.None? then (Some(i), end, depth) else (start, end, depth + 1))
        else if ts[i] == CLOSE then
          (if end.None? && depth == 0 then (start, Some(i), depth) else (start, end, depth - 1))
        else (start, end, depth);
      if Truthy(start') && Truthy(end') then (start', end')
      else ScanParens(ts, i + 1, start', end', depth')
  }

  function ParenBounds(ts: seq<Tok>): (Option<nat>, Option<nat>) {
    ScanParens(ts, 0, None, None, 0)
  }

  /** Position of the `)` closing a group whose inside starts at `i`, with
      `depth` groups opened inside it still unclosed. */
  function MatchingClose(ts: seq<Tok>, i: nat, depth: nat): (r: Option<nat>)
    requires i <= |ts|
    decreases |ts| - i
    ensures r.Some? ==> i <= r.value < |ts| && ts[r.value] == CLOSE
  {
    if i == |ts| then None
    else if ts[i] == CLOSE then (if depth == 0 then Some(i) else MatchingClose(ts, i + 1, depth - 1))
    else if ts[i] == OPEN then MatchingClose(ts, i + 1, depth + 1)
    else MatchingClose(ts, i + 1, depth)
  }

  lemma {:induction false} MatchingCloseShift(a: seq<Tok>, b: seq<Tok>, i: int, depth: int)
    requires 0 <= i && 0 <= depth
    requires i <= |b|
    ensures MatchingClose(a + b, |a| + i, depth)
         == (match MatchingClose(b, i, depth) case None => None case Some(e) => Some(|a| + e))
    decreases |b| - i
  {
    if i < |b| {
      assert (a + b)[|a| + i] == b[i];
      var next := i + 1;
      if b[i] == CLOSE && depth == 0 {
      } else if b[i] == CLOSE {
        MatchingCloseShift(a, b, next, depth - 1);
      } else if b[i] == OPEN {
        MatchingCloseShift(a, b, next, depth + 1);
      } else {
        MatchingCloseShift(a, b, next, depth);
      }
    }
  }

  lemma {:induction false} ScanSettled(ts: seq<Tok>, i: int, s: int, e: int, depth: int)
    requires 0 <= i && 0 <= s && 0 <= e
    requires i <= |ts|
    ensures ScanParens(ts, i, Some(s), Some(e), depth) == (Some(s), Some(e))
    decreases |ts| - i
  {
    if i < |ts| {
      var depth' := if ts[i] == OPEN then depth + 1 else if ts[i] == CLOSE then depth - 1 else depth;
      if !(Truthy(Some(s)) && Truthy(Some(e))) {
        ScanSettled(ts, i + 1, s, e, depth');
      }
    }
  }

  lemma {:induction false} ScanInside(ts: seq<Tok>, i: int, s: int, depth: int)
    requires 0 <= i && 0 <= s && 0 <= depth
    requires i <= |ts|
    ensures ScanParens(ts, i, Some(s), None, depth) == (Some(s), MatchingClose(ts, i, depth))
    decreases |ts| - i
  {
    if i < |ts| {
      if ts[i] == CLOSE && depth == 0 {
        if !Truthy(Some(s)) || !Truthy(Some(i)) {
          ScanSettled(ts, i + 1, s, i, depth);
        }
      } else if ts[i] == CLOSE {
        ScanInside(ts, i + 1, s, depth - 1);
      } else if ts[i] == OPEN {
        ScanInside(ts, i + 1, s, depth + 1);
      } else {
        ScanInside(ts, i + 1, s, depth);
      }
    }
  }

  lemma {:induction false} ScanAfterEarlyClose(ts: seq<Tok>, i: int, e: int, depth: int)
    requires 0 <= i && 0 <= e
    requires i <= |ts| && OPEN in ts[i..]
    requires forall k :: 0 <= k < i ==> ts[k] != OPEN
    ensures OPEN in ts
    ensures ScanParens(ts, i, None, Some(e), depth) == (Some(IndexOf(ts, OPEN)), Some(e))
    decreases |ts| - i
  {
    assert ts[i..][IndexOf(ts[i..], OPEN)] == ts[i + IndexOf(ts[i..], OPEN)];
    if ts[i] == OPEN {
      if !Truthy(Some(i)) || !Truthy(Some(e)) {
        ScanSettled(ts, i + 1, i, e, depth);
      }
    } else {
      assert ts[i..][0] == ts[i];
      assert OPEN in ts[i + 1..] by {
        var k := IndexOf(ts[i..], OPEN);
        assert k != 0;
        assert ts[i + 1..][k - 1] == ts[i..][k];
      }
      var depth' := if ts[i] == CLOSE then depth - 1 else depth;
      ScanAfterEarlyClose(ts, i + 1, e, depth');
    }
  }

  lemma {:induction false} ScanBeforeOpen(ts: seq<Tok>, i: int)
    requires 0 <= i
    requires OPEN in ts && i <= IndexOf(ts, OPEN)
    requires forall k :: 0 <= k < i ==> ts[k] != CLOSE
    ensures var s := IndexOf(ts, OPEN);
      ScanParens(ts, i, None, None, 0)
      == (Some(s), if CLOSE in ts[..s] then Some(IndexOf(ts, CLOSE)) else MatchingClose(ts, s + 1, 0))
    decreases |ts| - i
  {
    var s := IndexOf(ts, OPEN);
    if i == s {
      assert CLOSE !in ts[..s];
      ScanInside(ts, i + 1, s, 0);
    } else if ts[i] == CLOSE {
      assert ts[..s][i] == CLOSE;
      assert IndexOf(ts, CLOSE) == i;
      assert OPEN in ts[i + 1..] by { assert ts[i + 1..][s - i - 1] == ts[s]; }
      ScanAfterEarlyClose(ts, i + 1, i, 0);
    } else {
      ScanBeforeOpen(ts, i + 1);
    }
  }

  /** The source's scan finds the first `(`, and as its end either the first
      `)` when one comes before that `(`, or the `)` that closes it. */
  lemma ParenBoundsSpec(ts: seq<Tok>)
    requires OPEN in ts
    ensures var s := IndexOf(ts, OPEN);
      ParenBounds(ts)
      == (Some(s), if CLOSE in ts[..s] then Some(IndexOf(ts, CLOSE)) else MatchingClose(ts, s + 1, 0))
  {
    ScanBeforeOpen(ts, 0);
  }

  // ----- the structurer -----

  /** One rewriting step is applied to the first operator by priority, then
      the structurer starts over on the rewritten list. */
  function Red(ts: seq<Tok>): Option<seq<Tok>>
    decreases OpCount(ts), 2
  {
    if ts == [] then Some([])
    else if OPEN in ts then RedGroup(ts)
    else if BANG in ts then RedNot(ts)
    else if BAR in ts then RedOr(ts)
    else Some(ts)
  }

  /** Position of the `)` that ends the first group, or `None` where the
      source fails: no `)` is found (the position after the missing end cannot
      be computed, so the source raises), or a
      `)` comes before the first `(` (the list then only grows and the
      recursion never ends). `GroupEndIsScan` shows this is what the source's
      scan computes. */
  function GroupEnd(ts: seq<Tok>): (r: Option<nat>)
    requires OPEN in ts
    ensures r.Some? ==> IndexOf(ts, OPEN) < r.value < |ts| && ts[r.value] == CLOSE
  {
    if CLOSE in ts[..IndexOf(ts, OPEN)] then None
    else MatchingClose(ts, IndexOf(ts, OPEN) + 1, 0)
  }

  /** The source's scan, with its two failures (an end before the start, or
      no end at all) read as `None`, agrees with `GroupEnd`. */
  lemma GroupEndIsScan(ts: seq<Tok>)
    requires OPEN in ts
    ensures var end := ParenBounds(ts).1;
      GroupEnd(ts) == if end.None? || end.value < IndexOf(ts, OPEN) then None else end
  {
    ParenBoundsSpec(ts);
    if CLOSE in ts[..IndexOf(ts, OPEN)] {
      var k :| 0 <= k < IndexOf(ts, OPEN) && ts[..IndexOf(ts, OPEN)][k] == CLOSE;
      assert ts[k] == CLOSE;
    }
  }

  lemma GroupMeasure(ts: seq<Tok>, s: nat, e: nat, inside: seq<Tok>)
    requires s < e < |ts| && ts[s] == OPEN
    ensures OpCount(ts[s + 1..e]) < OpCount(ts)
    ensures OpCount(ts[..s] + [Paren(inside)] + ts[e + 1..]) < OpCount(ts)
  {
    var after := e + 1;
    SpliceMeasure(ts, s, after, Paren(inside));
    InsideMeasure(ts, s, e);
  }

  lemma SpliceMeasure(ts: seq<Tok>, s: int, e: int, x: Tok)
    requires 0 <= s && 0 <= e
    requires s < e <= |ts| && IsOp(ts[s]) && !IsOp(x)
    ensures OpCount(ts[..s] + [x] + ts[e..]) < OpCount(ts)
  {
    OpCountReplace(ts, s, e, x);
    OpCountHead(ts, s, e);
  }

  lemma InsideMeasure(ts: seq<Tok>, s: int, e: int)
    requires 0 <= s && 0 <= e
    requires s < e < |ts| && ts[s] == OPEN
    ensures OpCount(ts[s + 1..e]) < OpCount(ts)
  {
    OpCountReplace(ts, s + 1, e, Paren([]));
    assert ts[..s + 1][s] == OPEN;
    OpCountMember(ts[..s + 1], s);
  }

  lemma NotMeasure(ts: seq<Tok>, s: int, e: int)
    requires 0 <= s && 0 <= e
    requires s < e <= |ts| && ts[s] == BANG
    ensures OpCount(ts[..s] + [Not(ts[s + 1..e])] + ts[e..]) < OpCount(ts)
  {
    OpCountReplace(ts, s, e, Not(ts[s + 1..e]));
    OpCountHead(ts, s, e);
  }

  lemma OrMeasure(ts: seq<Tok>, s: int)
    requires 0 <= s
    requires 0 < s && s + 1 < |ts| && ts[s] == BAR
    ensures OpCount(ts[..s - 1] + [Or(ts[s - 1], ts[s + 1])] + ts[s + 2..]) < OpCount(ts)
  {
    OpCountReplace(ts, s - 1, s + 2, Or(ts[s - 1], ts[s + 1]));
    assert ts[s - 1..s + 2][1] == BAR;
    OpCountMember(ts[s - 1..s + 2], 1);
  }

  /** The first `(` and the tokens up to its `)` become one `Paren` node
      holding the structured inside. */
  function RedGroup(ts: seq<Tok>): Option<seq<Tok>>
    requires OPEN in ts
    decreases OpCount(ts), 1
  {
    match GroupEnd(ts)
    case None => None
    case Some(e) => RedGroupAt(ts, IndexOf(ts, OPEN), e)
  }

  /** The group from the `(` at `s` to the `)` at `e`. */
  function RedGroupAt(ts: seq<Tok>, s: nat, e: nat): Option<seq<Tok>>
    requires s < e < |ts| && ts[s] == OPEN
    decreases OpCount(ts), 0
  {
    GroupMeasure(ts, s, e, []);
    match Red(ts[s + 1..e])
    case None => None
    case Some(inside) =>
      GroupMeasure(ts, s, e, inside);
      Red(ts[..s] + [Paren(inside)] + ts[e + 1..])
  }

  /** The first `!` and the token after it (if any) become one `Not` node. */
  function RedNot(ts: seq<Tok>): Option<seq<Tok>>
    requires BANG in ts
    decreases OpCount(ts), 1
  {
    var s := IndexOf(ts, BANG);
    RedNotAt(ts, s, if s + 2 <= |ts| then s + 2 else |ts|)
  }

  /** The `!` at `s` with its operand `ts[s + 1..e]`. */
  function RedNotAt(ts: seq<Tok>, s: nat, e: nat): Option<seq<Tok>>
    requires s < e <= |ts| && ts[s] == BANG
    decreases OpCount(ts), 0
  {
    NotMeasure(ts, s, e);
    Red(ts[..s] + [Not(ts[s + 1..e])] + ts[e..])
  }

  /** The first `|` and its two neighbours become one `Or` node. */
  function RedOr(ts: seq<Tok>): Option<seq<Tok>>
    requires BAR in ts
    decreases OpCount(ts), 1
  {
    var s := IndexOf(ts, BAR);
    // first: the left neighbour wraps around to the last token and the
    // recursion never ends; last: the right neighbour does not exist
    if s == 0 || s + 1 == |ts| then None
    else RedOrAt(ts, s)
  }

  /** The `|` at `s` joining its two neighbours. */
  function RedOrAt(ts: seq<Tok>, s: nat): Option<seq<Tok>>
    requires 0 < s && s + 1 < |ts| && ts[s] == BAR
    decreases OpCount(ts), 0
  {
    OrMeasure(ts, s);
    Red(ts[..s - 1] + [Or(ts[s - 1], ts[s + 1])] + ts[s + 2..])
  }

  lemma RedOrUnfold(ts: seq<Tok>, s: nat)
    requires BAR in ts && s == IndexOf(ts, BAR) && 0 < s && s + 1 < |ts|
    ensures RedOr(ts) == Red(ts[..s - 1] + [Or(ts[s - 1], ts[s + 1])] + ts[s + 2..])
  {
    assert RedOr(ts) == RedOrAt(ts, s);
  }

  // ----- what the structurer leaves behind -----

  lemma AllReducedSlice(ts: seq<Tok>, i: int, j: int)
    requires 0 <= i && 0 <= j
    requires AllReduced(ts) && i <= j <= |ts|
    ensures AllReduced(ts[i..j])
  {
    forall k | 0 <= k < j - i
      ensures Reduced(ts[i..j][k])
    {
      assert ts[i..j][k] == ts[i + k];
    }
  }

  lemma AllReducedSplice(ts: seq<Tok>, i: int, j: int, x: Tok)
    requires 0 <= i && 0 <= j
    requires AllReduced(ts) && Reduced(x) && i <= j <= |ts|
    ensures AllReduced(ts[..i] + [x] + ts[j..])
  {
    var r := ts[..i] + [x] + ts[j..];
    forall k | 0 <= k < |r|
      ensures Reduced(r[k])
    {
      if k < i {
        assert r[k] == ts[k];
      } else if k > i {
        assert r[k] == ts[j + k - i - 1];
      }
    }
  }

  /** On success no top-level token is an operator word any more, and the
      inside of every group is itself free of them at every depth. */
  lemma {:induction false} RedShape(ts: seq<Tok>)
    ensures Red(ts).Some? ==> NoOps(Red(ts).value)
    ensures AllReduced(ts) && Red(ts).Some? ==> AllReduced(Red(ts).value)
    decreases OpCount(ts), 2
  {
    if ts == [] {
    } else if OPEN in ts {
      RedGroupShape(ts);
    } else if BANG in ts {
      RedNotShape(ts);
    } else if BAR in ts {
      RedOrShape(ts);
    } else {
      assert NoOps(ts) by {
        forall k | 0 <= k < |ts| ensures !IsOp(ts[k]) {
          assert ts[k] in ts;
        }
      }
    }
  }

  lemma {:induction false} RedGroupShape(ts: seq<Tok>)
    requires OPEN in ts
    ensures RedGroup(ts).Some? ==> NoOps(RedGroup(ts).value)
    ensures AllReduced(ts) && RedGroup(ts).Some? ==> AllReduced(RedGroup(ts).value)
    decreases OpCount(ts), 1
  {
    var s := IndexOf(ts, OPEN);
    var g := GroupEnd(ts);
    if g.Some? {
      var e := g.value;
      GroupMeasure(ts, s, e, []);
      RedShape(ts[s + 1..e]);
      var r := Red(ts[s + 1..e]);
      if r.Some? {
        var inside := r.value;
        RedGroupStep(ts, e, inside);
        var ts1 := ts[..s] + [Paren(inside)] + ts[e + 1..];
        RedShape(ts1);
        if AllReduced(ts) {
          AllReducedSlice(ts, s + 1, e);
          AllReducedSplice(ts, s, e + 1, Paren(inside));
        }
      }
    }
  }

  lemma {:induction false} RedNotShape(ts: seq<Tok>)
    requires BANG in ts
    ensures RedNot(ts).Some? ==> NoOps(RedNot(ts).value)
    ensures AllReduced(ts) && RedNot(ts).Some? ==> AllReduced(RedNot(ts).value)
    decreases OpCount(ts), 1
  {
    var s := IndexOf(ts, BANG);
    var e := if s + 2 <= |ts| then s + 2 else |ts|;
    NotMeasure(ts, s, e);
    var ts1 := ts[..s] + [Not(ts[s + 1..e])] + ts[e..];
    assert RedNot(ts) == Red(ts1);
    RedShape(ts1);
    if AllReduced(ts) {
      AllReducedSlice(ts, s + 1, e);
      AllReducedSplice(ts, s, e, Not(ts[s + 1..e]));
    }
  }

  lemma {:induction false} RedOrShape(ts: seq<Tok>)
    requires BAR in ts
    ensures RedOr(ts).Some? ==> NoOps(RedOr(ts).value)
    ensures AllReduced(ts) && RedOr(ts).Some? ==> AllReduced(RedOr(ts).value)
    decreases OpCount(ts), 1
  {
    var s := IndexOf(ts, BAR);
    if s != 0 && s + 1 != |ts| {
      OrMeasure(ts, s);
      var ts1 := ts[..s - 1] + [Or(ts[s - 1], ts[s + 1])] + ts[s + 2..];
      RedOrUnfold(ts, s);
      RedShape(ts1);
      if AllReduced(ts) {
        AllReducedSplice(ts, s - 1, s + 2, Or(ts[s - 1], ts[s + 1]));
      }
    }
  }

  /** A list without operator words is returned unchanged. */
  lemma RedIdentity(ts: seq<Tok>)
    requires NoOps(ts)
    ensures Red(ts) == Some(ts)
  {
    assert OPEN !in ts && BANG !in ts && BAR !in ts by {
      forall i | 0 <= i < |ts| ensures ts[i] != OPEN && ts[i] != BANG && ts[i] != BAR {
        assert !IsOp(ts[i]);
      }
    }
  }

  // ----- reference definitions: one pass per operator, by priority -----

  /** Every `!` takes the token right after it, if any, as its operand. */
  function NotPass(ts: seq<Tok>): (r: seq<Tok>)
    decreases |ts|
    ensures BANG !in r
    ensures OPEN !in ts ==> OPEN !in r
  {
    if ts == [] then []
    else if ts[0] == BANG then
      var e := if |ts| >= 2 then 2 else 1;
      [Not(ts[1..e])] + NotPass(ts[e..])
    else
      assert OPEN !in ts ==> OPEN !in ts[1..] by {
        assert forall x :: x in ts[1..] ==> x in ts;
      }
      [ts[0]] + NotPass(ts[1..])
  }

  /** The `|` operators, joined from left to right: `a | b | c` becomes
      `(a | b) | c`. A `|` with no left or no right neighbour fails. */
  function OrChain(ts: seq<Tok>): (r: Option<seq<Tok>>)
    decreases |ts|
    ensures r.Some? ==> BAR !in r.value
  {
    if ts == [] then Some([])
    else if ts[0] == BAR then None
    else if |ts| >= 2 && ts[1] == BAR then
      if |ts| == 2 then None else OrChain([Or(ts[0], ts[2])] + ts[3..])
    else
      match OrChain(ts[1..])
      case None => None
      case Some(rest) => Some([ts[0]] + rest)
  }

  /** `pre`, then a group holding the structured `inner`, then the pass
      over `after`; `None` when either fails. */
  function Grouped(pre: seq<Tok>, inner: seq<Tok>, after: seq<Tok>): Option<seq<Tok>>
    decreases |inner| + |after| + 1, 0
  {
    match Red(inner)
    case None => None
    case Some(inside) =>
      match ParenPass(after)
      case None => None
      case Some(rest) => Some(pre + [Paren(inside)] + rest)
  }

  /** Every top-level group, left to right, becomes one `Paren` node holding
      its structured inside; a `)` met before a `(`, or a `(` never closed,
      fails. Once no `(` is left, the rest is kept as it is. */
  function ParenPass(ts: seq<Tok>): (r: Option<seq<Tok>>)
    decreases |ts|, 1
  {
    if OPEN !in ts then Some(ts)
    else if ts[0] == CLOSE then None
    else if ts[0] == OPEN then
      match MatchingClose(ts, 1, 0)
      case None => None
      case Some(e) => Grouped([], ts[1..e], ts[e + 1..])
    else
      match ParenPass(ts[1..])
      case None => None
      case Some(rest) => Some([ts[0]] + rest)
  }

  lemma GroupedPrefix(a: seq<Tok>, inner: seq<Tok>, after: seq<Tok>)
    ensures Grouped(a, inner, after) == (match Grouped([], inner, after) case None => None case Some(x) => Some(a + x))
  {
    match Red(inner)
    case None =>
    case Some(inside) =>
      match ParenPass(after)
      case None =>
      case Some(rest) => assert a + ([] + [Paren(inside)] + rest) == a + [Paren(inside)] + rest;
  }

  lemma SuffixSlice(ts: seq<Tok>, s: int, i: int, j: int)
    requires 0 <= s && 0 <= i && 0 <= j
    requires s + i <= s + j <= |ts|
    ensures ts[s..][i..j] == ts[s + i..s + j]
    ensures ts[s..][j..] == ts[s + j..]
  {
  }

  lemma BeforeFirst(ts: seq<Tok>, x: Tok)
    requires x in ts
    ensures x !in ts[..IndexOf(ts, x)]
  {
    var s := IndexOf(ts, x);
    forall k | 0 <= k < s ensures ts[..s][k] != x { assert ts[..s][k] == ts[k]; }
  }

  lemma {:induction false} NotPassPrefix(a: seq<Tok>, b: seq<Tok>)
    requires BANG !in a
    ensures NotPass(a + b) == a + NotPass(b)
    decreases |a|
  {
    if a == [] {
      assert a + b == b;
    } else {
      assert (a + b)[0] == a[0];
      ConsSplit(a, b);
      assert BANG !in a[1..] by { assert forall x :: x in a[1..] ==> x in a; }
      NotPassPrefix(a[1..], b);
      ConsJoin(a, NotPass(b));
    }
  }

  lemma NotPassIdentity(ts: seq<Tok>)
    requires BANG !in ts
    ensures NotPass(ts) == ts
  {
    NotPassPrefix(ts, []);
    assert ts + [] == ts;
  }

  lemma {:induction false} OrChainPrefix(a: seq<Tok>, b: seq<Tok>)
    requires BAR !in a && (b == [] || b[0] != BAR)
    ensures OrChain(a + b) == (match OrChain(b) case None => None case Some(x) => Some(a + x))
    decreases |a|
  {
    if a == [] {
      assert a + b == b;
      match OrChain(b)
      case None =>
      case Some(x) => assert a + x == x;
    } else {
      var ab := a + b;
      assert ab[0] == a[0];
      assert |ab| >= 2 ==> ab[1] != BAR by {
        if |a| >= 2 { assert ab[1] == a[1]; } else if |ab| >= 2 { assert ab[1] == b[0]; }
      }
      ConsSplit(a, b);
      assert BAR !in a[1..] by { assert forall x :: x in a[1..] ==> x in a; }
      OrChainPrefix(a[1..], b);
      match OrChain(b)
      case None =>
      case Some(x) => ConsJoin(a, x);
    }
  }

  lemma OrChainIdentity(ts: seq<Tok>)
    requires BAR !in ts
    ensures OrChain(ts) == Some(ts)
  {
    OrChainPrefix(ts, []);
    assert ts + [] == ts;
  }

  lemma {:induction false} ParenPassPrefix(a: seq<Tok>, b: seq<Tok>)
    requires OPEN !in a && CLOSE !in a
    ensures ParenPass(a + b) == (match ParenPass(b) case None => None case Some(x) => Some(a + x))
    decreases |a|
  {
    if a == [] {
      assert a + b == b;
      match ParenPass(b)
      case None =>
      case Some(x) => assert a + x == x;
    } else {
      ConsSplit(a, b);
      assert OPEN !in a[1..] && CLOSE !in a[1..] by { assert forall x :: x in a[1..] ==> x in a; }
      if OPEN in b {
        assert OPEN in a + b;
        ParenPassCons(a + b);
        ParenPassPrefix(a[1..], b);
        match ParenPass(b)
        case None =>
        case Some(x) => ConsJoin(a, x);
      } else {
        assert OPEN !in a + b;
      }
    }
  }

  /** A first token other than `(` and `)` is kept as it is. */
  lemma ParenPassCons(ts: seq<Tok>)
    requires OPEN in ts && ts[0] != OPEN && ts[0] != CLOSE
    ensures ParenPass(ts) == (match ParenPass(ts[1..]) case None => None case Some(rest) => Some([ts[0]] + rest))
  {
  }

  lemma ParenPassAtOpen(b: seq<Tok>, e: nat, g: Option<seq<Tok>>)
    requires |b| > 0 && b[0] == OPEN && MatchingClose(b, 1, 0) == Some(e)
    requires g == Grouped([], b[1..e], b[e + 1..])
    ensures ParenPass(b) == g
  {
    assert OPEN in b;
  }

  /** The first `(` of `ts`, with no `)` before it and closed at `e`: the
      pass keeps what comes before it and resolves the group. */
  lemma ParenPassAfterPrefix(a: seq<Tok>, b: seq<Tok>, inner: seq<Tok>, after: seq<Tok>)
    requires OPEN !in a && CLOSE !in a && ParenPass(b) == Grouped([], inner, after)
    ensures ParenPass(a + b) == Grouped(a, inner, after)
  {
    ParenPassPrefix(a, b);
    GroupedPrefix(a, inner, after);
  }

  lemma ParenPassAt(ts: seq<Tok>, s: nat, e: nat)
    requires s < |ts| && ts[s] == OPEN && OPEN !in ts[..s] && CLOSE !in ts[..s]
    requires MatchingClose(ts, s + 1, 0) == Some(e)
    ensures ParenPass(ts) == Grouped(ts[..s], ts[s + 1..e], ts[e + 1..])
  {
    GroupSlices(ts, s, e);
    MatchingCloseSuffix(ts, s, 1, 0);
    var k := e - s;
    ParenPassOpenAfter(ts[..s], ts[s..], k, ts, ts[s + 1..e], ts[e + 1..]);
  }

  lemma GroupSlices(ts: seq<Tok>, s: int, e: int)
    requires 0 <= s && 0 <= e
    requires s < e < |ts|
    ensures ts == ts[..s] + ts[s..] && |ts[s..]| > 0 && ts[s..][0] == ts[s]
    ensures ts[s + 1..e] == ts[s..][1..e - s] && ts[e + 1..] == ts[s..][e - s + 1..]
  {
  }

  lemma ParenPassOpenAfter(a: seq<Tok>, b: seq<Tok>, e: nat, ts: seq<Tok>, inner: seq<Tok>, after: seq<Tok>)
    requires |b| > 0 && b[0] == OPEN && MatchingClose(b, 1, 0) == Some(e)
    requires OPEN !in a && CLOSE !in a
    requires ts == a + b && inner == b[1..e] && after == b[e + 1..]
    ensures ParenPass(ts) == Grouped(a, inner, after)
  {
    ParenPassAtOpen(b, e, Grouped([], inner, after));
    ParenPassAfterPrefix(a, b, inner, after);
  }

  /** The close found in `ts` from `s + i` on, seen from the suffix at `s`. */
  lemma {:induction false} MatchingCloseSuffix(ts: seq<Tok>, s: int, i: int, depth: int)
    requires 0 <= s && 0 <= i && 0 <= depth
    requires s + i <= |ts|
    ensures MatchingClose(ts[s..], i, depth)
         == (match MatchingClose(ts, s + i, depth) case None => None case Some(e) => Some(e - s))
    decreases |ts| - s - i
  {
    if s + i < |ts| {
      var x := ts[s + i];
      assert ts[s..][i] == x;
      var next := i + 1;
      if x == CLOSE && depth == 0 {
      } else if x == CLOSE {
        MatchingCloseSuffix(ts, s, next, depth - 1);
      } else if x == OPEN {
        MatchingCloseSuffix(ts, s, next, depth + 1);
      } else {
        MatchingCloseSuffix(ts, s, next, depth);
      }
    }
  }

  lemma ParenPassAtGroup(ts: seq<Tok>, e: nat)
    requires OPEN in ts && CLOSE !in ts[..IndexOf(ts, OPEN)]
    requires MatchingClose(ts, IndexOf(ts, OPEN) + 1, 0) == Some(e)
    ensures ParenPass(ts) == Grouped(ts[..IndexOf(ts, OPEN)], ts[IndexOf(ts, OPEN) + 1..e], ts[e + 1..])
  {
    BeforeFirst(ts, OPEN);
    ParenPassAt(ts, IndexOf(ts, OPEN), e);
  }

  /** A `)` before the first `(` makes the pass fail. */
  lemma ParenPassEarlyClose(ts: seq<Tok>)
    requires OPEN in ts && CLOSE in ts[..IndexOf(ts, OPEN)]
    ensures ParenPass(ts) == None
  {
    CloseBeforeOpen(ts);
    var c := IndexOf(ts, CLOSE);
    BeforeFirst(ts, CLOSE);
    NoneBefore(ts, OPEN, c);
    EarlyCloseAt(ts, c, IndexOf(ts, OPEN));
  }

  lemma CloseBeforeOpen(ts: seq<Tok>)
    requires OPEN in ts && CLOSE in ts[..IndexOf(ts, OPEN)]
    ensures IndexOf(ts, CLOSE) < IndexOf(ts, OPEN)
  {
    var s := IndexOf(ts, OPEN);
    var k :| 0 <= k < s && ts[..s][k] == CLOSE;
    assert ts[k] == CLOSE;
  }

  lemma EarlyCloseAt(ts: seq<Tok>, c: nat, s: nat)
    requires c < s < |ts| && ts[c] == CLOSE && ts[s] == OPEN
    requires OPEN !in ts[..c] && CLOSE !in ts[..c]
    ensures ParenPass(ts) == None
  {
    CloseSlices(ts, c, s);
    var k := s - c;
    ParenPassFails(ts[..c], ts[c..], ts, k);
  }

  lemma CloseSlices(ts: seq<Tok>, c: int, s: int)
    requires 0 <= c && 0 <= s
    requires c < s < |ts|
    ensures ts == ts[..c] + ts[c..] && |ts[c..]| > s - c
    ensures ts[c..][0] == ts[c] && ts[c..][s - c] == ts[s]
  {
  }

  lemma ParenPassFails(a: seq<Tok>, b: seq<Tok>, ts: seq<Tok>, k: nat)
    requires ts == a + b && OPEN !in a && CLOSE !in a
    requires b != [] && b[0] == CLOSE && k < |b| && b[k] == OPEN
    ensures ParenPass(ts) == None
  {
    assert OPEN in b;
    ParenPassPrefix(a, b);
  }

  /** A first `(` never closed makes the pass fail. */
  lemma ParenPassUnclosed(ts: seq<Tok>)
    requires OPEN in ts && CLOSE !in ts[..IndexOf(ts, OPEN)]
    requires MatchingClose(ts, IndexOf(ts, OPEN) + 1, 0).None?
    ensures ParenPass(ts) == None
  {
    var s := IndexOf(ts, OPEN);
    var a, b := ts[..s], ts[s..];
    assert ts == a + b;
    assert OPEN !in a by {
      forall k | 0 <= k < s ensures a[k] != OPEN { assert a[k] == ts[k]; }
    }
    ParenPassPrefix(a, b);
    MatchingCloseShift(a, b, 1, 0);
    assert b[0] == OPEN;
  }

  /** The three passes, by priority. */
  function Phases(ts: seq<Tok>): Option<seq<Tok>> {
    match ParenPass(ts)
    case None => None
    case Some(p) => OrChain(NotPass(p))
  }

  lemma SplitAt(ts: seq<Tok>, i: int)
    requires 0 <= i
    requires i <= |ts|
    ensures ts[..i] + ts[i..] == ts
  {
  }

  lemma Regroup(a: seq<Tok>, x: Tok, b: seq<Tok>)
    ensures a + [x] + b == (a + [x]) + b == a + ([x] + b)
  {
  }

  lemma NoneBefore(ts: seq<Tok>, x: Tok, s: int)
    requires 0 <= s
    requires s <= |ts| && forall k :: 0 <= k < s ==> ts[k] != x
    ensures x !in ts[..s]
  {
    forall k | 0 <= k < s ensures ts[..s][k] != x { assert ts[..s][k] == ts[k]; }
  }

  /** Precedence: the structurer resolves every parenthesised group first,
      then every `!`, then every `|`, each in one left-to-right pass. */
  lemma {:induction false} RedPhases(ts: seq<Tok>)
    ensures Red(ts) == Phases(ts)
    decreases OpCount(ts), 2
  {
    if ts == [] {
      assert NotPass(ts) == [];
    } else if OPEN in ts {
      RedPhasesGroup(ts);
    } else if BANG in ts {
      RedPhasesNot(ts);
    } else if BAR in ts {
      RedPhasesOr(ts);
    } else {
      NotPassIdentity(ts);
      OrChainIdentity(ts);
    }
  }

  /** Once the first group is resolved, the passes see the same list. */
  lemma ParenPassResolved(ts: seq<Tok>, s: nat, e: nat, inside: seq<Tok>)
    requires s < e < |ts| && OPEN !in ts[..s] && CLOSE !in ts[..s]
    requires ParenPass(ts) == Grouped(ts[..s], ts[s + 1..e], ts[e + 1..])
    requires Red(ts[s + 1..e]) == Some(inside)
    ensures ParenPass(ts) == ParenPass(ts[..s] + [Paren(inside)] + ts[e + 1..])
  {
    var pre := ts[..s] + [Paren(inside)];
    assert OPEN !in pre && CLOSE !in pre;
    Regroup(ts[..s], Paren(inside), ts[e + 1..]);
    ParenPassPrefix(pre, ts[e + 1..]);
  }

  lemma RedGroupStep(ts: seq<Tok>, e: nat, inside: seq<Tok>)
    requires OPEN in ts && GroupEnd(ts) == Some(e)
    requires Red(ts[IndexOf(ts, OPEN) + 1..e]) == Some(inside)
    ensures OpCount(ts[..IndexOf(ts, OPEN)] + [Paren(inside)] + ts[e + 1..]) < OpCount(ts)
    ensures RedGroup(ts) == Red(ts[..IndexOf(ts, OPEN)] + [Paren(inside)] + ts[e + 1..])
  {
    GroupMeasure(ts, IndexOf(ts, OPEN), e, inside);
    RedGroupUnfold(ts, e, inside);
  }

  lemma RedGroupUnfold(ts: seq<Tok>, e: nat, inside: seq<Tok>)
    requires OPEN in ts && GroupEnd(ts) == Some(e)
    requires Red(ts[IndexOf(ts, OPEN) + 1..e]) == Some(inside)
    ensures RedGroup(ts) == Red(ts[..IndexOf(ts, OPEN)] + [Paren(inside)] + ts[e + 1..])
  {
    var s := IndexOf(ts, OPEN);
    assert RedGroup(ts) == RedGroupAt(ts, s, e);
    RedGroupAtUnfold(ts, s, e, inside);
  }

  lemma RedGroupAtUnfold(ts: seq<Tok>, s: nat, e: nat, inside: seq<Tok>)
    requires s < e < |ts| && ts[s] == OPEN && Red(ts[s + 1..e]) == Some(inside)
    ensures RedGroupAt(ts, s, e) == Red(ts[..s] + [Paren(inside)] + ts[e + 1..])
  {
  }

  lemma {:induction false} RedPhasesGroup(ts: seq<Tok>)
    requires OPEN in ts
    ensures RedGroup(ts) == Phases(ts)
    decreases OpCount(ts), 1
  {
    var s := IndexOf(ts, OPEN);
    if CLOSE in ts[..s] {
      ParenPassEarlyClose(ts);
    } else if MatchingClose(ts, s + 1, 0).None? {
      ParenPassUnclosed(ts);
    } else {
      RedPhasesClosed(ts, s, MatchingClose(ts, s + 1, 0).value);
    }
  }

  /** The first group is closed at `e`. */
  lemma {:induction false} RedPhasesClosed(ts: seq<Tok>, s: nat, e: nat)
    requires OPEN in ts && s == IndexOf(ts, OPEN) && CLOSE !in ts[..s]
    requires MatchingClose(ts, s + 1, 0) == Some(e)
    ensures RedGroup(ts) == Phases(ts)
    decreases OpCount(ts), 0
  {
    ParenPassAtGroup(ts, e);
    var r := Red(ts[s + 1..e]);
    if r.Some? {
      var inside := r.value;
      RedGroupStep(ts, e, inside);
      var ts1 := ts[..s] + [Paren(inside)] + ts[e + 1..];
      RedPhases(ts1);
      BeforeFirst(ts, OPEN);
      ParenPassResolved(ts, s, e, inside);
    }
  }

  lemma NotPassAtBang(t: seq<Tok>, e: nat)
    requires |t| > 0 && t[0] == BANG && e == (if |t| >= 2 then 2 else 1)
    ensures NotPass(t) == [Not(t[1..e])] + NotPass(t[e..])
  {
  }

  /** The pass over `!`, seen from the first `!` of `ts`. */
  lemma NotPassAt(ts: seq<Tok>, s: nat, e: nat)
    requires s < |ts| && ts[s] == BANG && BANG !in ts[..s]
    requires e == if s + 2 <= |ts| then s + 2 else |ts|
    ensures NotPass(ts) == ts[..s] + [Not(ts[s + 1..e])] + NotPass(ts[e..])
  {
    BangSlices(ts, s, e);
    var k := e - s;
    NotPassAfter(ts[..s], ts[s..], k, ts, ts[s + 1..e], ts[e..]);
  }

  lemma BangSlices(ts: seq<Tok>, s: int, e: int)
    requires 0 <= s && 0 <= e
    requires s < e <= |ts|
    ensures ts == ts[..s] + ts[s..] && |ts[s..]| > 0 && ts[s..][0] == ts[s] && |ts[s..]| == |ts| - s
    ensures ts[s + 1..e] == ts[s..][1..e - s] && ts[e..] == ts[s..][e - s..]
  {
  }

  lemma NotPassAfter(a: seq<Tok>, b: seq<Tok>, e: nat, ts: seq<Tok>, operand: seq<Tok>, after: seq<Tok>)
    requires |b| > 0 && b[0] == BANG && BANG !in a && e == (if |b| >= 2 then 2 else 1)
    requires ts == a + b && operand == b[1..e] && after == b[e..]
    ensures NotPass(ts) == a + [Not(operand)] + NotPass(after)
  {
    NotPassPrefix(a, b);
    NotPassAtBang(b, e);
    Regroup(a, Not(operand), NotPass(after));
  }

  lemma NotPassSpliced(ts: seq<Tok>, s: int, e: int, x: Tok)
    requires 0 <= s && 0 <= e
    requires s <= e <= |ts| && BANG !in ts[..s] && x != BANG
    ensures NotPass(ts[..s] + [x] + ts[e..]) == ts[..s] + [x] + NotPass(ts[e..])
  {
    Regroup(ts[..s], x, ts[e..]);
    assert BANG !in ts[..s] + [x];
    NotPassPrefix(ts[..s] + [x], ts[e..]);
  }

  /** Replacing a stretch of `ts` by a token other than `y` brings no `y` in. */
  lemma SpliceAvoids(ts: seq<Tok>, s: int, e: int, x: Tok, y: Tok)
    requires 0 <= s && 0 <= e
    requires s <= e <= |ts| && y !in ts && x != y
    ensures y !in ts[..s] + [x] + ts[e..]
  {
    assert forall z :: z in ts[..s] + [x] + ts[e..] ==> z in ts || z == x;
  }

  lemma RedNotStep(ts: seq<Tok>)
    requires OPEN !in ts && BANG in ts
    ensures var s := IndexOf(ts, BANG);
      var e := if s + 2 <= |ts| then s + 2 else |ts|;
      var ts1 := ts[..s] + [Not(ts[s + 1..e])] + ts[e..];
      OpCount(ts1) < OpCount(ts) && RedNot(ts) == Red(ts1) && OPEN !in ts1
  {
    var s := IndexOf(ts, BANG);
    var e := if s + 2 <= |ts| then s + 2 else |ts|;
    NotMeasure(ts, s, e);
    SpliceAvoids(ts, s, e, Not(ts[s + 1..e]), OPEN);
  }

  lemma {:induction false} RedPhasesNot(ts: seq<Tok>)
    requires OPEN !in ts && BANG in ts
    ensures RedNot(ts) == Phases(ts)
    decreases OpCount(ts), 1
  {
    var s := IndexOf(ts, BANG);
    var e := if s + 2 <= |ts| then s + 2 else |ts|;
    var x := Not(ts[s + 1..e]);
    var ts1 := ts[..s] + [x] + ts[e..];
    RedNotStep(ts);
    RedPhases(ts1);
    BeforeFirst(ts, BANG);
    NotPassSpliced(ts, s, e, x);
    NotPassAt(ts, s, e);
  }

  lemma {:induction false} RedPhasesOr(ts: seq<Tok>)
    requires OPEN !in ts && BANG !in ts && BAR in ts
    ensures RedOr(ts) == Phases(ts)
    decreases OpCount(ts), 1
  {
    NotPassIdentity(ts);
    var s := IndexOf(ts, BAR);
    if s > 0 {
      BeforeFirst(ts, BAR);
      var tail := ts[s - 1..];
      assert tail[0] == ts[s - 1] && tail[1] == BAR;
      SplitAt(ts, s - 1);
      OrChainPrefix(ts[..s - 1], tail);
      if s + 1 < |ts| {
        OrMeasure(ts, s);
        var x := Or(ts[s - 1], ts[s + 1]);
        var ts1 := ts[..s - 1] + [x] + ts[s + 2..];
        RedOrUnfold(ts, s);
        RedPhases(ts1);
        SpliceAvoids(ts, s - 1, s + 2, x, OPEN);
        SpliceAvoids(ts, s - 1, s + 2, x, BANG);
        NotPassIdentity(ts1);
        Regroup(ts[..s - 1], x, ts[s + 2..]);
        OrChainPrefix(ts[..s - 1], [x] + ts[s + 2..]);
        SuffixSlice(ts, s - 1, 3, 3);
        assert tail[2] == ts[s + 1];
      }
    }
  }
}
