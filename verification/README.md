# Track search queries

A model of the search-query engine of a music player's track library
(`xl/trax/search.py`). A query such as `artist==Queen !(album=live) a | b`
is processed in four stages:

1. **Tokenizing** (`__tokenize_query`) splits the query on spaces. Backslash
   escapes and double-quoted stretches are honoured.
2. **Structuring** (`__red`) rewrites the flat token list. Parenthesised
   groups are resolved first, then `!` operators, then `|` operators.
3. **Optimizing** (`__optimize_tokens`) sorts the top-level tokens by length.
4. **Compiling** (`__tokens_to_matchers`) turns the tokens into matchers.

The matchers are the leaf matchers `_ExactMatcher` and `_InMatcher`, and the
combinators `_NotMetaMatcher`, `_OrMetaMatcher`, `_MultiMetaMatcher` and
`_ManyMultiMetaMatcher`. `TracksMatcher.match` runs the compiled matchers on
a record and records the tags the record matched on (`on_tags`).
`search_tracks` and `search_tracks_from_string` filter a sequence of records
with compiled queries.

The Dafny modules follow the stages:

| module | file | covers |
|---|---|---|
| `Text` | `text.dfy` | ASCII lowercasing, `strip`, substring search |
| `Tokenizer` | `tokenizer.dfy` | the tokenizer |
| `Structurer` | `structurer.dfy` | the structurer, plus a reference definition of it as three passes |
| `Optimizer` | `optimizer.dfy` | the stable length sort |
| `Matchers` | `matchers.dfy` | records, matchers and their meaning |
| `Compiler` | `compiler.dfy` | the compiler and the verdict of a compiled list |
| `Search` | `search.dfy` | `TracksMatcher` construction, `match`, `search_tracks` and `search_tracks_from_string` |

Where the source raises an exception, the model returns `None`. The same
holds where the source recurses without end (which ends in an error). These
inputs are:

- for the structurer, an unmatched `(`, a `)` before the first `(`, and a
  `|` in first or last position;
- for the compiler, a group `( )`, a group holding only the empty word, a
  group whose only word starts with `|`, and every group that reaches the
  "Bad search token" branch: a group of several tokens, or of one word not
  starting with `!` or `(`. That branch logs a warning through `logger`,
  which the module never defines or imports, so it raises `NameError`.

The main results:

- **Tokenizing.** Without escapes and quotes, tokenizing is splitting on
  single spaces, after one extra empty token. Escaped and quoted text
  becomes exactly one token. An unclosed quote and a trailing backslash both
  drop the last piece.
- **Structuring.** It is the same as three left-to-right passes: every
  group, then every `!`, then every `|` chained to the left. On success no
  top-level token is an operator word. The inside of every group is free of
  operator words too, at every depth.
- **Optimizing.** The sort is a stable permutation into ascending length.
  It never changes whether a query compiles, nor whether a record matches.
- **Compiling.** Word compilation follows the `==`, `=` and keyword rules.
  Compiling a list distributes over concatenation.
- **Parenthesised groups.** The compiler passes a group's inside as a single
  token. A group holding one node compiles like that node. A group holding
  several tokens, or one ordinary word, reaches the "Bad search token"
  branch and makes the compiler raise.
- **Verdicts of nodes.** A `!` node matches iff its operand does not, an `|`
  node iff either side does, and both fail to compile iff a part does.
- **`match` and `on_tags`.** A record is credited with exactly the tags of
  the matchers that matched before the first one that failed. Each tag is
  credited at most once.
- **Searching.** `search_tracks` is a filter: it keeps exactly the
  candidates that pass every query, in their order.

## Model

| member | source | states |
|---|---|---|
| `Text.Lower` | xl/trax/search.py:235-238 | lowercasing keeps the length and maps each character to its lowercase form; other characters are unchanged |
| `Text.Strip` | xl/trax/search.py:252 | the result is `s` without its maximal leading and trailing runs of the stripped characters; it neither starts nor ends with one |
| `Text.Unquote` | xl/trax/search.py:258 | `strip().strip('"')` returns a piece of `s` with only whitespace and quotes cut from its two ends, with no quote at either end; `s` is returned whole when it neither starts nor ends with whitespace or a quote; which characters are cut is fixed for every input by `Text.UnquoteBlankAround` and `Text.UnquoteAllBlank` |
| `Text.UnquoteBlankAround` | xl/trax/search.py:252-258 | for any text holding a non-blank character, written as blanks, a core that neither starts nor ends with whitespace, then blanks: the outer blanks are stripped and then only the quotes enclosing the core, so ` "a" ` gives `a` |
| `Text.UnquoteAllBlank` | xl/trax/search.py:252-258 | text made only of whitespace unquotes to the empty text |
| `Text.UnquoteInsideQuotes` | xl/trax/search.py:258 | whitespace is stripped before quotes, so text not starting or ending with whitespace loses only its enclosing quotes: `" a "` in quotes gives ` a ` |
| `Text.UnquoteWithoutQuotes` | xl/trax/search.py:258 | text with no quote in it is only stripped of whitespace |
| `Text.FindFrom` | xl/trax/search.py:241 | the result is the first occurrence at or after `from`; `None` iff there is none |
| `Text.Find` | xl/trax/search.py:240-241 | the result is the first occurrence of the separator, which `split(sep, 1)` splits at; `None` iff there is none |
| `Text.Contains` | xl/trax/search.py:84 | `part in value` holds iff `part` occurs at some position of `value` |
| `Text.AbsentHead` | xl/trax/search.py:240-250 | a pattern whose first character is absent from the text does not occur in it |
| `Tokenizer.Tokenize` | xl/trax/search.py:267-299 | the leading pad space always completes an empty first token |
| `Tokenizer.Scan` | xl/trax/search.py:277-297 | each completed token uses up a character, so there are never more tokens than characters; the meaning of the scan is stated by `Tokenizer.TokenizePlain`, `Tokenizer.EscapeRoundTrip`, `Tokenizer.QuoteRoundTrip`, `Tokenizer.UnclosedQuote` and `Tokenizer.TrailingEscape` |
| `Tokenizer.PaddedPrefix` | xl/trax/search.py:271-296 | scanning plain text after the pad space completes the empty token and every piece but the last, and carries the last piece on as the token being built |
| `Tokenizer.TokenizePlain` | xl/trax/search.py:267-299 | with no escapes or quotes, the tokens are `""` followed by the query split on single spaces, empty pieces included |
| `Tokenizer.UnclosedQuote` | xl/trax/search.py:285-299 | after an unclosed quote nothing more is emitted, and the piece before the quote is lost |
| `Tokenizer.TrailingEscape` | xl/trax/search.py:279-284 | a trailing backslash escapes the closing pad space, so the last piece is never emitted |
| `Tokenizer.EscapeRoundTrip` | xl/trax/search.py:279-282 | a text with every character escaped tokenizes to exactly that text, as one token |
| `Tokenizer.QuoteRoundTrip` | xl/trax/search.py:285-288 | a quoted text without quotes or escapes tokenizes to exactly that text, spaces and operators included |
| `Tokenizer.QuotesNeverEmitted` | xl/trax/search.py:287-289 | without escapes no token contains a double quote |
| `Structurer.Leaves` | xl/trax/search.py:170-171 | the tokenizer's words, as tokens, one per word in order, all in structured shape |
| `Structurer.IndexOf` | xl/trax/search.py:337 | `tokens.index(x)`: a position holding `x` with no earlier `x` |
| `Structurer.ScanParens` | xl/trax/search.py:316-329 | a start it records holds a `(` and an end it records a `)`, at or after the scan position; `Structurer.ParenBoundsSpec` and `Structurer.GroupEndIsScan` state which ones it finds |
| `Structurer.MatchingClose` | xl/trax/search.py:316-329 | a found end holds a `)` at or after the start of the scan |
| `Structurer.ParenBoundsSpec` | xl/trax/search.py:311-329 | the source's scan, with its truthiness early exit, finds the first `(` and either the first `)` when one precedes it or the `)` that closes it |
| `Structurer.GroupEnd` | xl/trax/search.py:311-333 | a found end is a `)` after the first `(` |
| `Structurer.GroupEndIsScan` | xl/trax/search.py:316-332 | `GroupEnd` is the end the scan finds, except where the source fails: no end, or an end before the start |
| `Structurer.Red` | xl/trax/search.py:301-356 | the structurer; `Structurer.RedPhases` proves it equals the three passes and `Structurer.RedShape` states the shape of its result |
| `Structurer.RedGroup` | xl/trax/search.py:311-333 | the first-group step; `Structurer.RedPhasesGroup` and `Structurer.RedGroupShape` state its meaning |
| `Structurer.RedNot` | xl/trax/search.py:336-342 | the first-`!` step; `Structurer.RedPhasesNot` and `Structurer.RedNotShape` state its meaning |
| `Structurer.RedOr` | xl/trax/search.py:345-350 | the first-bar step, failing on a bar in first or last position; `Structurer.RedPhasesOr` and `Structurer.RedOrShape` state its meaning |
| `Structurer.RedShape` | xl/trax/search.py:301-356 | on success no top-level token is an operator word (open paren, bang or bar); structured input stays structured at every depth |
| `Structurer.RedGroupShape` | xl/trax/search.py:311-333 | resolving the first group keeps the shape guarantees of `RedShape` |
| `Structurer.RedNotShape` | xl/trax/search.py:336-342 | resolving the first `!` keeps the shape guarantees of `RedShape` |
| `Structurer.RedOrShape` | xl/trax/search.py:345-350 | resolving the first bar operator keeps the shape guarantees of `RedShape` |
| `Structurer.RedIdentity` | xl/trax/search.py:352-354 | a list with no operator word is returned as it is |
| `Structurer.NotPass` | xl/trax/search.py:336-342 | the reference `!` pass leaves no `!` behind and introduces no `(` |
| `Structurer.OrChain` | xl/trax/search.py:345-350 | the reference bar pass, on success, leaves no bar behind |
| `Structurer.RedPhases` | xl/trax/search.py:301-356 | the structurer equals the group pass, then the `!` pass, then the bar pass, failures included |
| `Structurer.RedPhasesGroup` | xl/trax/search.py:311-333 | the first-group step agrees with the three passes |
| `Structurer.RedPhasesNot` | xl/trax/search.py:336-342 | the first-`!` step agrees with the three passes |
| `Structurer.RedPhasesOr` | xl/trax/search.py:345-350 | the first-bar step agrees with the three passes |
| `Optimizer.Insert` | xl/trax/search.py:364 | inserting adds exactly one element, as a multiset |
| `Optimizer.Sort` | xl/trax/search.py:358-365 | the result is a permutation of the tokens, sorted by ascending length (a node counts 2) |
| `Optimizer.InsertSorted` | xl/trax/search.py:364 | insertion keeps a sorted list sorted |
| `Optimizer.InsertStable` | xl/trax/search.py:364 | insertion keeps the relative order of the tokens of each length |
| `Optimizer.SortStable` | xl/trax/search.py:364 | the sort is stable: tokens of equal length keep their order |
| `Optimizer.SortSorted` | xl/trax/search.py:364 | an already sorted list is left unchanged |
| `Optimizer.EmptyWordsFirst` | xl/trax/search.py:362-364 | only empty words precede an empty word after sorting |
| `Optimizer.SortKeepsShape` | xl/trax/search.py:358-365 | sorting keeps the structured shape of the tokens |
| `Matchers.Items` | xl/trax/search.py:51-55 | the sentinel `__null__` becomes the single value `None`, a single value a one-element list, a list its elements |
| `Matchers.FoldValue` | xl/trax/search.py:57-60 | without folding the value is unchanged; with folding `None` stays `None` and a text is lowercased character by character |
| `Matchers.ValuesOf` | xl/trax/search.py:51-60 | the values looked at are the tag's items, one per item and in order: unchanged without folding, each lowercased character by character with it |
| `Matchers.AnyEqual` | xl/trax/search.py:56-74 | the exact matcher matches iff some value equals the content |
| `Matchers.AnyWithin` | xl/trax/search.py:56-86 | the containment matcher matches iff some non-empty value contains the content |
| `Matchers.Hits` | xl/trax/search.py:141-152 | the collected tags are exactly the non-empty keyword tags whose matcher matched |
| `Matchers.Matches` | xl/trax/search.py:50-152 | the `match` of every matcher class; `Matchers.ExactMeaning`, `Matchers.KeywordMeaning`, `Matchers.NegatedGroup` and `Matchers.AllMatch` state what each means |
| `Matchers.Provenance` | xl/trax/search.py:183-189 | a leaf matcher credits its own tag, a keyword matcher exactly the non-empty keyword tags that contain the keyword, a combinator nothing |
| `Matchers.AllMatch` | xl/trax/search.py:121-125 | an AND group matches iff every member matches |
| `Matchers.NullMeansAbsent` | xl/trax/search.py:51-53 | `tag==__null__` matches exactly when the tag's value is the absent sentinel, whatever the case folding |
| `Matchers.ExactMeaning` | xl/trax/search.py:50-74 | `tag==v` matches iff some value of the tag, lowercased when folding, equals `v` |
| `Matchers.EmptyListNeverMatches` | xl/trax/search.py:56-64 | a tag holding an empty list matches no leaf matcher |
| `Matchers.SubstringNeedsValue` | xl/trax/search.py:80-82 | a containment matcher never matches an absent tag |
| `Matchers.EmptyContentMatchesNonEmpty` | xl/trax/search.py:80-86 | empty content matches iff the tag has a non-empty value |
| `Matchers.KeywordMeaning` | xl/trax/search.py:141-152 | a keyword matches iff a non-empty keyword tag contains it; with no keyword tags it matches nothing |
| `Matchers.NegatedGroup` | xl/trax/search.py:97-98 | `!` over a group matches iff some member fails, so an empty operand never matches |
| `Compiler.CompileWord` | xl/trax/search.py:230-263 | the empty word compiles to nothing; `==` gives an exact matcher, otherwise `=` a containment matcher, otherwise a keyword over the keyword tags |
| `Compiler.ExactWord` | xl/trax/search.py:240-247 | `tag==value`, for any tag without `==` that does not end in `=`, splits at the `==` after the tag; `__null__` means absent, other values are lowercased when folding |
| `Compiler.SubstringWord` | xl/trax/search.py:250-254 | `tag=value` splits at the first `=`; the value is stripped of whitespace, then quotes |
| `Compiler.KeywordWord` | xl/trax/search.py:257-263 | a word without `=` is a keyword, stripped the same way and matched over the keyword tags |
| `Compiler.CompileOne` | xl/trax/search.py:207-228 | a word always compiles, as a word; a node that compiles gives exactly one matcher, whose meaning `Compiler.NotNodeVerdict`, `Compiler.OrNodeVerdict` and `Compiler.GroupNodeVerdict` state |
| `Compiler.CompileInside` | xl/trax/search.py:209-228 | a group's inside, passed as one token, compiles only when it is a single token, and then to exactly one matcher; a word compiles only when it starts with `!` or `(` and has a second character, and `Compiler.GroupOfBangWord` and `Compiler.GroupOfOpenWord` state what it compiles to |
| `Compiler.CompileList` | xl/trax/search.py:194-265 | each token yields at most one matcher |
| `Compiler.CompileListConcat` | xl/trax/search.py:194-265 | compiling a concatenation concatenates the compiled lists; it fails iff either part fails |
| `Compiler.CompileSingle` | xl/trax/search.py:202-205 | a one-token list compiles like its token |
| `Compiler.GroupOfSeveral` | xl/trax/search.py:222-228 | a group of several tokens reaches the "Bad search token" branch, whose undefined `logger` makes the compiler raise |
| `Compiler.GroupOfNode` | xl/trax/search.py:209-225 | a group holding one node compiles to a group of that node's matcher |
| `Compiler.GroupOfWord` | xl/trax/search.py:209-228 | a group holding one word not starting with `!`, `(` or bar reaches the "Bad search token" branch and makes the compiler raise |
| `Compiler.GroupOfBangWord` | xl/trax/search.py:209-225 | a group holding one word `!xy…` compiles to a group of the negated matcher of the word's second character alone; the rest of the word is dropped |
| `Compiler.GroupOfOpenWord` | xl/trax/search.py:209-225 | a group holding one word `(xy…` compiles to a group of a group of the matcher of the word's second character alone |
| `Compiler.GroupEmptyFails` | xl/trax/search.py:209-211 | `( )` and a group holding only the empty word make the compiler raise |
| `Compiler.VerdictSingle` | xl/trax/search.py:194-205 | the verdict of a one-token list is the AND of that token's matchers, and fails iff the token fails to compile |
| `Compiler.NotNodeVerdict` | xl/trax/search.py:213-215 | a `!` node's verdict is the negation of its operand's verdict, failing iff the operand fails |
| `Compiler.OrNodeVerdict` | xl/trax/search.py:216-221 | a bar node's verdict is the OR of its sides' verdicts, failing iff either side fails |
| `Compiler.GroupNodeVerdict` | xl/trax/search.py:222-225 | a group holding one node has the verdict of that node |
| `Compiler.AllMatchConcat` | xl/trax/search.py:121-125 | an AND of a concatenation is the AND of both parts |
| `Compiler.VerdictConcat` | xl/trax/search.py:194-265 | the verdict of a concatenation is the AND of the verdicts, failing iff either compile fails |
| `Compiler.InsertVerdict` | xl/trax/search.py:364 | moving a token by insertion changes neither failure nor verdict |
| `Compiler.OptimizeKeepsVerdict` | xl/trax/search.py:358-365 | the sorted tokens fail to compile, and match a record, exactly when the unsorted ones do |
| `Search.AddNew` | xl/trax/search.py:183-189 | tags already held keep their place; the new ones are added; no tag appears twice |
| `Search.MatchAll` | xl/trax/search.py:175-192 | `match` returns true iff every matcher matches; it only appends to `on_tags` and never duplicates a tag |
| `Search.NoCreditsAfterFailure` | xl/trax/search.py:180-182 | once a matcher fails, no matcher is credited |
| `Search.CreditsStep` | xl/trax/search.py:180-189 | past a matching first matcher, the credits are its tags plus those of the rest |
| `Search.MatchAllCredits` | xl/trax/search.py:175-192 | a tag ends up in `on_tags` iff it was there or a matcher reached before the first failure matched and carries it |
| `Search.RunAll` | xl/trax/search.py:378-382 | a record passes iff every query matches it; the record is kept and tags are only added |
| `Search.Kept` | xl/trax/search.py:375-382 | a candidate is yielded, with its own record, iff it passes every query |
| `Search.SearchTracks` | xl/trax/search.py:368-382 | every yielded result passes every query; never more results than candidates |
| `Search.SearchOne` | xl/trax/search.py:375-382 | one candidate is yielded, wrapped with its credited tags, iff it passes |
| `Search.SearchConcat` | xl/trax/search.py:368-382 | searching distributes over concatenation of the candidates, so their order is kept |
| `Search.SearchIsFilter` | xl/trax/search.py:368-382 | the yielded records are exactly the reference filter of the candidates' records |
| `Search.FilterMembership` | xl/trax/search.py:375-382 | a record is yielded iff it is a candidate and passes every query |
| `Search.RawResultsNoDup` | xl/trax/search.py:375-377 | results wrapped fresh by the search carry each tag at most once |
| `Search.SearchWithoutQueries` | xl/trax/search.py:378-382 | with no queries every candidate is yielded, wrapped |
| `Search.Compile` | xl/trax/search.py:160-173 | a query compiles only if the structurer succeeds on its tokens |
| `Search.CompileIgnoresOrder` | xl/trax/search.py:170-173 | the optimizer changes neither whether the query compiles nor whether a record matches |
| `Search.SingleWordQuery` | xl/trax/search.py:160-173 | a one-word query without escapes, quotes or operators compiles to that word's matcher |
| `Search.ExactQuery` | xl/trax/search.py:240-247 | a lone `tag==value` query, for any tag without `==` that does not end in `=`, compiles to the one exact matcher |
| `Search.SearchFromString` | xl/trax/search.py:384-395 | fails iff compiling fails; otherwise every yielded record matches the compiled query |

## Left out

- The record store is not part of the model; `massstoragedriver.py` is not
  part of this model either. A record is a map from tag to value, and
  `get_tag_search(tag, format=False)` is that map with the sentinel
  `__null__` for a missing tag. Formatting of values is not modelled.
- Lowercasing is ASCII-only. Python 2's `string.lower` depends on the
  locale and the string type.
- The bare `except` around lowercasing only catches non-text values. The
  model's values are always text or `None`, and `None` is left as it is.
- Logging is left out. The "Bad search token" warning cannot be logged:
  `logger` is undefined, so that branch raises and the model returns `None`.
  The tokenizer's `traceback.print_exc()` sits in a handler that the pad
  space makes unreachable (and `traceback` is not imported either).
- The backslash at the very end of the padded query, whose `IndexError` is
  caught, cannot occur: the pad space always follows. `Tokenizer.Scan`
  still ends the scan there.
- Laziness is left out. `search_tracks` is a generator; the model returns
  the whole list of results.
- Mutation of state is modelled by returning the new state. This covers
  `on_tags`, the `tags` of a keyword matcher, and the in-place sort.
- A candidate that is already a search result and fails a query has still
  had tags added by the queries it passed. The model computes those tags,
  but a rejected candidate is not returned, so the mutation is not visible.
- `Matchers.Hits` lists the collected tags of a keyword matcher in
  keyword-tag order. The source keeps them in a `set`, whose iteration order
  is unspecified, so contracts only speak of which tags are collected.
- `Text.Unquote` strips quotes with `strip('"')`; only `"` counts as a quote.
- `Optimizer.Key`, `Text.Unquote` and `Compiler.CompileInside` count and
  index characters. The source's Python 2 byte strings count and index
  bytes, so for non-ASCII text `len(token)` (the sort key) can be larger,
  and the `w[1]` a one-word group compiles from can be a single byte of a
  multi-byte character.
- `Structurer.GroupEnd` is defined by what the scan means (the `)` closing
  the first `(`). `Structurer.GroupEndIsScan` proves that the source's scan
  computes the same, and `Structurer.ParenBoundsSpec` covers its early exit
  on truthy positions.
- Failures are modelled as `None`. Exceptions and endless recursion are not
  told apart, and what the source would do after such an error (an
  unhandled exception reaching the caller) is not modelled.
- Structurer.MatchingClose: its own contract only says a found end is a `)`.
  Its meaning is stated by `Structurer.ParenBoundsSpec` and
  `Structurer.GroupEndIsScan`.
- Structurer.GroupEnd: its own contract only says a found end is a `)` after
  the first `(`. `Structurer.GroupEndIsScan` relates it to the scan.
- Structurer.NotPass: its own contract only says no `!` is left. Its meaning
  is stated by `Structurer.RedPhases`.
- Structurer.OrChain: its own contract only says no bar is left. Its meaning
  is stated by `Structurer.RedPhases`.
- Tokenizer.Tokenize: its own contract only states the empty first token.
  Its meaning is stated by the tokenizer lemmas listed above.
- Default arguments (`case_sensitive=True`, `keyword_tags=[]`) are not
  modelled; callers pass both explicitly.
