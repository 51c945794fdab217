# parsec.php parser combinators in Dafny

This project models the parser-combinator engine of `parsec.php`: the
primitives `_return`, `failure` and `item`; sequencing with `then`, `seq` and
`seq_s`; alternation with `orElse` and `choice`; repetition with `many`,
`many1`, `skipMany` and `skipMany1`; the predicate and lexical parsers (`sat`,
`char`, `str`, `lower`, `digit`, `alphanum`, `isSpace`, `nat`, `space`,
`token`, `ident`, `symbol`, `identifier`, `natural`); and the structural
combinators `between`, `sepBy`, `notFollowedBy` and `quoted_str`.

In the source every parser is a closure from the input string to a result
list. That list is either empty (failure) or holds one `[value, remainder]`
pair. The model keeps that shape:

- a parser is a Dafny arrow `seq<char> -> Option<(Val, seq<char>)>`;
- `None?` plays the role of `isEmpty`;
- a value is `Text(string)` or `Array(seq<Val>)`, mirroring PHP strings and
  nested PHP arrays.

The purely compositional combinators are functions that build such arrows.
The loops of the source are methods proved equal to those functions:

- the `foreach` of `to_s` is `Values.ToSLoop`;
- the run of `seq`, with its accumulator, is `Sequencing.RunSeq`;
- the `do … while` of `many1` is `Repetition.RunMany1`;
- the `for` of `str` is `Characters.StrParsers`;
- the `foreach` of `choice` is `Alternation.RunChoice`.

Repetition in the source has no progress check. The model therefore asks of
every repeated parser that a success leaves a strict suffix of its input
(`Values.Advances`). It proves that property for `item`, for everything
built from `sat`, and for the combinators that preserve it.

Modules, from the bottom up:

- `Values`: results, values, `to_s`;
- `Primitives`;
- `Alternation`;
- `Sequencing`;
- `Repetition`;
- `Characters`: `sat`, the character classes, `char`, `str`;
- `Lexical`: `space`, `token`, `nat`, `ident`, `symbol`, `identifier`, `natural`;
- `Structural`: `between`, `notFollowedBy`, `quoted_str`, `sepBy`.

Where a comment in the source and its code disagree, the model follows the
code. The comment above `sepBy` (parsec.php:348-354) says that parsing
"a,b,c" gives "abc". The code wraps every string item that has separators after
it in a one-element array; an item that is already an array passes through
unchanged. The last item is appended bare. So `sepBy(alphanum(), char(','))`
on "a,b,c" yields `[["a"], ["b"], "c"]` (`Structural.SepByExample`). The
example is stated with `char(',')` rather than the comment's `symbol(',')`:
`symbol` would also skip whitespace around each comma, which changes nothing
on "a,b,c" but adds the whitespace lemmas of `token` to the proof.

## Model

| member | source | states |
|---|---|---|
| Values.ToS | parsec.php:21-27 | definition of `to_s`: a left fold appending each string argument and recursing into array arguments; stated by `ToSAppendsFlatten` and run as `ToSLoop` |
| Values.Join | parsec.php:455 | definition of `join('', $str)`: an array is its items joined; a string argument never occurs, since `$str` is always `many1`'s array; stated by `JoinItemsOfTexts` |
| Values.JoinItems | parsec.php:455 | definition of joining array items, where a nested array becomes "Array"; stated by `JoinItemsOfTexts` |
| Values.ToSAppendsFlatten | parsec.php:21-27 | `to_s(acc, args)` appends exactly the depth-first, left-to-right text of `args` to `acc` |
| Values.ToSLoop | parsec.php:21-27 | the `foreach` loop, recursing into nested arrays, returns `acc` followed by the flattened text of the arguments |
| Values.FlattenAppend | parsec.php:21-27 | the flattened text of two concatenated argument lists is the concatenation of their texts |
| Values.FlattenChars | parsec.php:21-27 | flattening a list of one-character strings gives back the string they came from |
| Values.JoinItemsOfTexts | parsec.php:455 | on a list of strings, `join('', …)` agrees with the `to_s` flattening |
| Values.SuffixTransitive | parsec.php:89-91 | a remainder of a remainder is a remainder of the original input, and it is strictly shorter if either step consumed |
| Primitives.Return | parsec.php:36-41 | definition of `_return($s)`; stated by `ReturnSpec` |
| Primitives.Failure | parsec.php:46-51 | definition of `failure()`; stated by `FailureSpec` |
| Primitives.Item | parsec.php:55-66 | definition of `item()`; stated by `ItemSpec` |
| Primitives.Then | parsec.php:82-95 | definition of `then($p, $fp)`; stated by `ThenFailure`, `ThenSuccess` and the monad laws |
| Primitives.ReturnSpec | parsec.php:36-41 | `_return(v)` succeeds with `v` and leaves the input untouched |
| Primitives.ReturnConsumes | parsec.php:36-41 | `_return` only ever leaves a suffix of its input |
| Primitives.FailureSpec | parsec.php:46-51 | `failure()` fails on every input |
| Primitives.FailureAdvances | parsec.php:46-51 | `failure` vacuously makes progress, so it may be repeated |
| Primitives.ItemSpec | parsec.php:55-66 | `item` fails iff the input is empty; otherwise it yields the first character and a remainder exactly one shorter |
| Primitives.ItemAdvances | parsec.php:55-66 | every success of `item` leaves a strict suffix of the input |
| Primitives.ThenFailure | parsec.php:82-95 | when `p` fails, `then(p, fp)` fails and `fp` is not consulted |
| Primitives.ThenSuccess | parsec.php:82-95 | when `p` succeeds, `then(p, fp)` is the parser `fp` chooses from `p`'s value, run on `p`'s remainder |
| Primitives.ThenLeftIdentity | parsec.php:82-95 | `then(_return(v), f)` behaves as `f(v)` on every input |
| Primitives.ThenRightIdentity | parsec.php:82-95 | `then(p, _return)` behaves as `p` |
| Primitives.ThenAssociative | parsec.php:82-95 | nesting `then` on the left or on the right gives the same parser |
| Primitives.ThenConsumes | parsec.php:82-95 | `then` leaves a suffix when both stages do, and a strict suffix when, in addition, one stage always consumes |
| Alternation.OrElse | parsec.php:156-166 | definition of `orElse($p, $p2)`; stated by `OrElseLeftBiased` |
| Alternation.Choice | parsec.php:412-423 | definition of `choice($ps)` as the first success; stated by `FirstSuccess` and run as `RunChoice` |
| Alternation.OrElseLeftBiased | parsec.php:156-166 | `orElse(p, q)` returns `p`'s result whenever `p` succeeds, and otherwise `q` run on the same, unconsumed input |
| Alternation.OrElseFailureIdentity | parsec.php:156-166 | `failure` is a left and a right identity of `orElse` |
| Alternation.OrElseConsumes | parsec.php:156-166 | `orElse` preserves "leaves a suffix" and "makes progress" |
| Alternation.FirstSuccess | parsec.php:412-423 | the result is `None` iff every parser fails; otherwise it is the result of some parser all of whose predecessors fail |
| Alternation.RunChoice | parsec.php:414-422 | the `foreach` with early return computes exactly the first success in list order |
| Alternation.ChoiceUnfold | parsec.php:412-423 | `choice([])` is `failure`, and `choice(p :: ps)` is `orElse(p, choice(ps))` |
| Alternation.ChoiceConsumes | parsec.php:412-423 | `choice` preserves "leaves a suffix" and "makes progress" of its parsers |
| Sequencing.Chain | parsec.php:118-125 | definition of the nested `then` chain `seq` builds, one link per parser, the last link applying the reducer; stated by `ChainCollects` |
| Sequencing.Seq | parsec.php:105-134 | definition of `seq($final, ...$ps)` as the chain started with an empty accumulator; stated by `SeqCollects` and run as `RunSeq` |
| Sequencing.Concat | parsec.php:144-146 | definition of `seq_s`'s reducer `to_s('', $args)`; stated by `SeqSCollects` |
| Sequencing.SeqS | parsec.php:142-148 | definition of `seq_s(...$funcs)`; stated by `SeqSCollects` |
| Sequencing.Collect | parsec.php:100-104 | running the parsers in order, a success collects exactly one value per parser |
| Sequencing.ChainCollects | parsec.php:118-125 | each link of the nested `then` chain applies the reducer to the earlier values followed by everything the later links collect, and fails when any later parser fails |
| Sequencing.SeqCollects | parsec.php:105-134 | `seq(final, ps)` fails iff the left-to-right run fails; otherwise `final` receives the values in order and the remainder is the last parser's |
| Sequencing.CollectStep | parsec.php:119-122 | the k-th parser runs on its predecessors' remainder, and its value is appended after theirs |
| Sequencing.CollectFailsEarly | parsec.php:84-87 | once one parser fails, the whole sequence fails, whatever follows |
| Sequencing.CollectAppend | parsec.php:118-125 | running `ps + qs` runs `ps`, then `qs` on what `ps` left |
| Sequencing.CollectConsumes | parsec.php:105-134 | a sequence of suffix-leaving parsers leaves a suffix; it makes progress if any of its parsers does |
| Sequencing.SeqConsumes | parsec.php:105-134 | `seq` leaves a suffix when its parsers do, and a strict one when any of its parsers makes progress |
| Sequencing.RunSeq | parsec.php:105-134 | a run with an accumulator local to the call, reset for every call, returns exactly what `seq` returns |
| Sequencing.SeqSCollects | parsec.php:142-148 | `seq_s` fails iff the run fails; otherwise its value is the in-order concatenation of the flattened sub-values |
| Sequencing.CollectOne | parsec.php:105-134 | a run of one parser collects that parser's value |
| Sequencing.CollectTwo | parsec.php:105-134 | a run of two parsers threads the first's remainder into the second |
| Sequencing.CollectThree | parsec.php:105-134 | a run of three parsers threads each remainder into the next |
| Sequencing.SeqTwo | parsec.php:105-134 | `seq(final, a, b)` fails when `a` or `b` fails, and otherwise applies `final` to both values |
| Sequencing.SeqThree | parsec.php:105-134 | `seq(final, a, b, c)` fails when any part fails, and otherwise applies `final` to the three values |
| Sequencing.SeqSOne | parsec.php:142-148 | `seq_s(a)` yields the flattened text of `a`'s value |
| Sequencing.SeqSTwo | parsec.php:142-148 | `seq_s(a, b)` yields the text of both values, in order |
| Sequencing.SeqSThree | parsec.php:142-148 | `seq_s(a, b, c)` yields the text of the three values, in order |
| Repetition.Many1 | parsec.php:181-197 | definition of `many1($p)`; stated by `Many1Spec` and `Many1Unfold`, run as `RunMany1` |
| Repetition.Many | parsec.php:172-175 | definition of `many($p)` as `orElse(many1($p), _return([]))`; stated by `ManySpec` |
| Repetition.SkipMany1 | parsec.php:436-443 | definition of `skipMany1($p)`; stated by `SkipMany1Spec` |
| Repetition.SkipMany | parsec.php:428-431 | definition of `skipMany($p)`; stated by `SkipManySpec` |
| Repetition.Iterate | parsec.php:189-193 | repeating `p` stops where `p` fails, leaves a suffix, collects nothing iff `p` fails at once, and collects no more values than characters consumed |
| Repetition.IterateStep | parsec.php:189-193 | one turn of the loop: no value when `p` fails, otherwise `p`'s value followed by the values from where `p` stopped |
| Repetition.IterateTwice | parsec.php:189-193 | two successes followed by a failure collect exactly those two values |
| Repetition.RunMany1 | parsec.php:181-197 | the `do … while` loop returns exactly `many1`'s result: failure if `p` fails at once, otherwise all values in order and the remainder where `p` failed |
| Repetition.Many1Spec | parsec.php:181-197 | `many1(p)` fails iff `p` fails on the input; a success is a nonempty array and `p` fails on its remainder |
| Repetition.Many1Unfold | parsec.php:172-197 | `many1(p)` agrees with the recursive definition `p` then `many(p)`, with the first value put in front |
| Repetition.ManySpec | parsec.php:172-175 | `many(p)` never fails; it yields every value of the repetition in order, and `[]` with the input unchanged when `p` fails at once |
| Repetition.SkipMany1Spec | parsec.php:436-443 | `skipMany1(p)` fails iff `p` fails; otherwise it yields '' and stops where `many1` stops |
| Repetition.SkipManySpec | parsec.php:428-431 | `skipMany(p)` never fails, yields '' and stops where the repetition stops |
| Repetition.Many1Advances | parsec.php:181-197 | `many1` of a progressing parser makes progress |
| Repetition.ManyConsumes | parsec.php:172-175 | `many` only ever leaves a suffix |
| Repetition.SkipMany1Advances | parsec.php:436-443 | `skipMany1` of a progressing parser makes progress |
| Repetition.SkipManyConsumes | parsec.php:428-431 | `skipMany` only ever leaves a suffix |
| Characters.Sat | parsec.php:204-215 | definition of `sat($pred)` as `then(item(), …)`; stated by `SatSpec` |
| Characters.Matches | parsec.php:221-226 | definition of `match($rgx)` for a one-class pattern: some character of the string is in the class; stated by `MatchesOne` |
| Characters.Lower | parsec.php:231-234 | definition of `lower()`; stated by `ClassSpec` with the class `[a-z]` |
| Characters.Digit | parsec.php:238-242 | definition of `digit()`; stated by `ClassSpec` with the class `0-9` |
| Characters.Alphanum | parsec.php:246-249 | definition of `alphanum()`; stated by `ClassSpec` with letters, digits and `_` |
| Characters.IsSpace | parsec.php:253-256 | definition of `isSpace()`; stated by `ClassSpec` with the ASCII whitespace class |
| Characters.Char | parsec.php:307-314 | definition of `char($s)` for one character; stated by `CharSpec` |
| Characters.Equals | parsec.php:310-312 | definition of `char`'s predicate `$in == $s`; stated by `CharSpec` |
| Characters.CharParsers | parsec.php:322-326 | definition of the list of `char` parsers that `str` builds; its loop is `StrParsers`, its behaviour `CollectChars` |
| Characters.Str | parsec.php:319-328 | definition of `str($s)` as `seq_s` of those parsers; stated by `StrSpec` |
| Characters.SatSpec | parsec.php:204-215 | `sat(pred)` consumes the first character iff there is one and `pred` accepts it |
| Characters.SatAdvances | parsec.php:204-215 | every success of `sat` leaves a strict suffix |
| Characters.MatchesOne | parsec.php:221-226 | on a one-character string, the class predicate holds iff the character is in the class |
| Characters.ClassSpec | parsec.php:228-256 | `lower`, `digit`, `alphanum` and `isSpace` consume the first character iff it is in their class (`ClassStep`) |
| Characters.CharSpec | parsec.php:307-314 | `char(c)` consumes the first character iff it is `c` (`CharStep`) |
| Characters.StrParsers | parsec.php:322-326 | the `for` loop fills the list with one `char` parser per character, in order, and builds exactly the list `CharParsers` defines |
| Characters.CharParsersAdvance | parsec.php:322-326 | every parser in the list `str` builds makes progress |
| Characters.CollectChars | parsec.php:319-328 | running the `char` parsers of `t` succeeds iff the input starts with `t`, yielding its characters and the rest |
| Characters.StrSpec | parsec.php:319-328 | for nonempty `t`, `str(t)` succeeds iff the input starts with `t`; its value is `t` and it drops exactly `|t|` characters |
| Characters.StrAdvances | parsec.php:319-328 | `str(t)` makes progress |
| Lexical.Span | parsec.php:189-193 | the run of class characters at the head of the input is as long as possible |
| Lexical.ClassParses | parsec.php:228-256 | each class parser takes one character exactly when it is in its class, and makes progress |
| Lexical.IterateRun | parsec.php:189-193 | repeating a one-character class parser takes exactly the longest run of class characters, one string per character |
| Lexical.IterateClass | parsec.php:189-193 | the same, for the parsers built with `sat` |
| Lexical.Space | parsec.php:268-275 | definition of `space()`; stated by `SpaceSpec` |
| Lexical.Token | parsec.php:281-284 | definition of `token($p)`; stated by `TokenSpec` |
| Lexical.Nat | parsec.php:260-263 | definition of `nat()`; stated by `NatSpec` |
| Lexical.Ident | parsec.php:289-292 | definition of `ident()`; stated by `IdentSpec` |
| Lexical.Symbol | parsec.php:299-302 | definition of `symbol($s)`; stated by `SymbolSpec` |
| Lexical.Identifier | parsec.php:334-337 | definition of `identifier()`; stated by `IdentifierSpec` |
| Lexical.Natural | parsec.php:343-346 | definition of `natural()`; stated by `NaturalSpec` |
| Lexical.SpaceSpec | parsec.php:268-275 | `space` never fails, yields '' and drops all leading whitespace |
| Lexical.TokenSpec | parsec.php:281-284 | `token(p)` runs `p` after the leading whitespace, drops the whitespace after it and yields the text of `p`'s value; it fails iff `p` does there |
| Lexical.TokenConsumes | parsec.php:281-284 | `token` preserves "leaves a suffix" and "makes progress" |
| Lexical.SkipSpaceSuffix | parsec.php:268-275 | dropping whitespace leaves a suffix |
| Lexical.SeqSOfText | parsec.php:142-148 | `seq_s` of a single parser whose value is a string changes nothing |
| Lexical.NatSpec | parsec.php:260-263 | `nat` succeeds iff the input starts with a digit, and takes the whole run of digits as one string |
| Lexical.IdentRun | parsec.php:289-292 | for parsers that behave as `lower` and `many(alphanum())`, their `seq_s` takes a lower-case letter and the word characters after it |
| Lexical.IdentSpec | parsec.php:289-292 | `ident` succeeds iff the input starts with a lower-case letter, and takes that letter with the run of word characters after it |
| Lexical.TokenWrapped | parsec.php:299-302 | wrapping a token in `seq_s` changes nothing |
| Lexical.SymbolSpec | parsec.php:299-302 | `symbol(t)` succeeds iff `t` follows the leading whitespace; it yields `t` and drops the whitespace after it |
| Lexical.IdentifierSpec | parsec.php:334-337 | `identifier` is `ident` with whitespace skipped on both sides |
| Lexical.NaturalSpec | parsec.php:343-346 | `natural` is `nat` with whitespace skipped on both sides |
| Structural.Middle | parsec.php:398-400 | definition of `between`'s reducer, keeping the middle value; stated by `BetweenSpec` |
| Structural.Between | parsec.php:395-403 | definition of `between($open, $close, $p)`; stated by `BetweenSpec` |
| Structural.NotFollowedBy | parsec.php:376-389 | definition of `notFollowedBy($p)`; stated by `NotFollowedBySpec` |
| Structural.Unquote | parsec.php:454-456 | definition of `quoted_str`'s reducer `join('', $str)`; stated by `QuotedStrSpec` |
| Structural.QuotedStr | parsec.php:450-458 | definition of `quoted_str($q)`; stated by `QuotedStrSpec` |
| Structural.Wrap | parsec.php:357-359 | definition of `$fin`: an array item passes through, a string item is wrapped; stated by `ItemSepSpec` |
| Structural.ItemSep | parsec.php:360 | definition of `seq($fin, $p, skipMany1($sep))`; stated by `ItemSepSpec` |
| Structural.AppendLast | parsec.php:364-367 | definition of `$rss[] = $r`; stated by `SepBySpec` |
| Structural.SepBy | parsec.php:355-371 | definition of `sepBy($p, $sep)`; stated by `SepBySpec` |
| Structural.BetweenSpec | parsec.php:395-403 | `between(open, close, p)` fails if any part fails, and otherwise yields `p`'s value and the remainder after `close` |
| Structural.NotFollowedBySpec | parsec.php:376-389 | `notFollowedBy(p)` succeeds iff `p` fails, and then yields '' with the input unchanged |
| Structural.NotFollowedByConsumes | parsec.php:376-389 | `notFollowedBy` never consumes |
| Structural.QuotedRun | parsec.php:450-458 | for parsers that behave as `char(q)` and `many1(alphanum())`, the three-part sequence takes a quote, a nonempty word and a quote, and yields the word |
| Structural.QuotedStrSpec | parsec.php:450-458 | `quoted_str(q)` succeeds iff the input starts with `q`, then the whole (maximal, nonempty) run of word characters after it, then `q`; it yields that run. Since the run is greedy, a `q` that is itself a word character never succeeds |
| Structural.QuotedStrWordQuote | parsec.php:450-458 | `quoted_str(q)` fails on every input when `q` is a word character, because `many1(alphanum())` takes the closing quote too |
| Structural.QuotedStrAdvances | parsec.php:450-458 | `quoted_str` makes progress |
| Structural.ItemSepSpec | parsec.php:357-360 | item-and-separators fails unless an item is followed by at least one separator; it wraps a string item in an array and skips the whole run of separators |
| Structural.ItemSepOnce | parsec.php:357-360 | a string item followed by exactly one separator is wrapped and the separator dropped |
| Structural.ItemSepAdvances | parsec.php:357-360 | item-and-separators makes progress, so `many` may repeat it |
| Structural.SepBySpec | parsec.php:355-371 | `sepBy` repeats item-and-separators while it succeeds, then needs one bare item; the value is the wrapped items followed by the bare one |
| Structural.SepByNeedsItem | parsec.php:355-371 | `sepBy` fails when the input does not start with an item |
| Structural.SepBySingle | parsec.php:355-371 | one item with no separator after it gives a one-element array holding the bare item |
| Structural.SepByTrailingSeparator | parsec.php:355-371 | a separator that ends the input is rejected when the item parser fails on empty input |
| Structural.CommaSeparated | parsec.php:352 | definition of `sepBy(alphanum(), char(','))`, the comment's example with `char(',')` in place of `symbol(',')`; stated by `SepByExample` |
| Structural.CommaSteps | parsec.php:246-249 | a one-word-character item parser and a one-comma separator parser on each suffix of "a,b,c" |
| Structural.ItemSepCommas | parsec.php:357-360 | on "a,b,c", item-and-separators takes "a," and "b," and fails on "c" |
| Structural.IterateCommas | parsec.php:360 | so `many` over item-and-separators collects `[["a"], ["b"]]` and stops at "c" |
| Structural.SepByCommas | parsec.php:355-371 | for any one-word-character item parser and one-comma separator parser, `sepBy` on "a,b,c" yields `[["a"], ["b"], "c"]` and consumes everything |
| Structural.SepByExample | parsec.php:348-371 | `sepBy(alphanum(), char(','))` on "a,b,c" yields `[["a"], ["b"], "c"]`, not "abc" |
| Structural.SepByConsumes | parsec.php:355-371 | `sepBy` leaves a suffix, and makes progress when its item parser does |

## Left out

- The SQL foreign-key script at parsec.php:461-546 is not part of this model. It is a client of the combinators, and it ends in printed output.
- The regular-expression engine behind `match` (parsec.php:221-226) is replaced by explicit ASCII classes:
  - `[a-z]` for `lower`;
  - `0-9` for `digit`;
  - letters, digits and `_` for `alphanum`;
  - space, tab, line feed, vertical tab, form feed and carriage return for `isSpace`.

  Locale- or Unicode-dependent matching is not modelled.
- PHP strings are byte strings; the model works on `seq<char>` and does not model multi-byte characters.
- `to_ary` (parsec.php:14-17) and `parse` (parsec.php:71-74) are an identity and an application; the model calls parsers directly.
- `isEmpty` (parsec.php:6-12) is `None?` on a result: results are never anything but empty or a one-pair list.
- `call_user_func_array` (parsec.php:112-114) is modelled as applying a reducer `seq<Val> --> Val` to the list of values. A reducer's precondition plays the role of a PHP closure's declared parameter count.
- `seq`'s by-reference `$acc` (parsec.php:107, 120-121, 129-133) is modelled as an accumulator local to each run. This is what it amounts to when one `seq` parser is not re-entered while it runs. The aliasing under recursive or re-entrant use is not modelled.
- The descending `for` loop that builds `seq`'s chain (parsec.php:118-125) is modelled by the recursive `Sequencing.Chain`, not as a loop of its own.
- `seq` and `seq_s` with no parsers call a null parser in the source. `Seq`, `SeqS` and `Str` therefore require at least one parser, and a nonempty string for `str`.
- Characters.Char: takes one character. `char` with a longer argument, and PHP's loose `==` on numeric strings, are not modelled.
- Repetition.Many1: requires a parser that consumes on every success. Over a parser that can succeed without consuming, the source loops forever, and that divergence is not modelled.
- Values.Join: the string case returns the string, where PHP's `join('', …)` on a string warns and returns null or throws a TypeError. The case is unreachable, because `quoted_str` only joins `many1`'s array, so it is a placeholder. Characters.Matches has the same kind of placeholder: its array case gives false, where `preg_match` rejects an array subject. It is unreachable too, because `sat` only ever tests the one-character string `item` yields.
- Structural.AppendLast: `many` always yields an array, so its string branch never runs. The model gives it a value without claiming PHP's behaviour for `$rss[] = …` on a string.
