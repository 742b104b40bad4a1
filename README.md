# Civic services assistant: query understanding, verified

This project is a Dafny model of the rule-based "assistant" behind a small
civic-services directory web page. The page's script (`app.js`) turns what a
resident types into one of these:

- a list of catalog entries;
- a short banner message;
- a few "did you mean" suggestions;
- sometimes a clarifying question.

It needs no language model. The model covers the query-understanding core of
that script:

- **Tokenizer and match explanation.** It lower-cases the text and splits it at
  every character outside `[a-z0-9]`. A result card says which query words it
  matched, drawing on the entry's tags, name and summary
  (`Tokenizer.dfy`).
- **Tag vocabulary.** The distinct lower-cased tags of all entries, in the order
  they are first met (`Catalog.dfy`).
- **Levenshtein distance.** The dynamic-programming table is proved equal to the
  recursive edit distance (`EditDistance.dfy`).
- **Intent detection.** The fixed table of six intents is scanned in order. The
  intent with the most trigger phrases contained in the query wins, and ties go
  to the earlier intent. The query is then expanded with the intent's missing
  terms (`Intents.dfy`).
- **Suggestions.** The model offers tags that contain the query or are within two
  edits of it. They appear only when the search found at most two results.
  When no tag qualifies, the quick chips are offered instead (`Suggest.dfy`).
- **Ranking.** Hits are joined with their entries and scored as hit score plus
  one hundredth of the entry's priority. They are then stably sorted by
  descending score and cut to twelve. The near-tie clarifier follows
  (`Ranking.dfy`).
- **Card helpers.** HTML escaping, the `tel:` link and the choice of an entry's
  primary link (`Cards.dfy`).
- **One round of the page.** The blank-query browse view, or the results view
  built from all of the above (`Pipeline.dfy`).

`Text.dfy` gives the JavaScript string and list primitives these rely on:
`toLowerCase`, `trim`, `includes`, `join`, `filter`, `slice` and
`[...new Set(xs)]`. `Wrappers.dfy` holds `Option`.

Where the script changes variables step by step, the model is imperative and
each method is proved against a specification function. These are the
Levenshtein table, the intent scan, the tag-pool loops and the primary-link
search. Where the script is a `map`/`filter`/`slice` chain, the model is a
function, and lemmas state what its result means.

## Model

| member | source | states |
|---|---|---|
| Text.Trim | app.js:339 | `trim()`: no white space at either end, a trimmed string is unchanged, and the result is what is left after a white-space prefix and suffix are cut off |
| Text.LowerStr | app.js:159 | `toLowerCase` on a string: same length, each ASCII capital lowered and every other character kept, no `A`-`Z` left |
| Text.TrimKeepsTrimmedPrefix | app.js:348 | trimming text that starts with a trimmed piece keeps that piece at its head |
| Text.TrimJoined | app.js:348 | trimming `q + " " + j` for trimmed `q` and non-empty trimmed `j` removes only the space, and only when `q` is empty |
| Text.ContainsIff | app.js:326 | `includes` holds exactly when the piece occurs at some position |
| Text.ContainsLower | app.js:343 | text containing a piece still contains it once both are lower-cased |
| Text.Contains | app.js:326 | `includes`: a prefix is always contained, and a contained piece is never longer than the text |
| Text.Join | app.js:348 | `join`: the first piece heads the joined text |
| Text.JoinContainsEach | app.js:348 | every piece occurs in the joined text |
| Text.Take | app.js:176 | `slice(0, n)`: a prefix of the list, `n` long or the whole list when it is shorter |
| Text.Filter | app.js:162 | `filter` keeps exactly the elements that pass, and no more than there were |
| Text.FilterAppend | app.js:162 | filtering a concatenation is concatenating the filtered parts |
| Text.Dedup | app.js:175 | `[...new Set(xs)]` is duplicate-free and has exactly the elements of `xs` |
| Text.DedupFirstSeen | app.js:257 | the deduplicated list keeps the order of first occurrence |
| Text.DedupSnoc | app.js:256 | adding an element to the set appends it when it is new and changes nothing otherwise |
| Text.DedupAppend | app.js:288 | deduplicating a concatenation lists the first part's distinct elements first, then only elements new to the first part |
| Tokenizer.Tokenize | app.js:157-163 | every token is non-empty and consists of `a`-`z` and `0`-`9` only |
| Tokenizer.TokenizeSeparated | app.js:160-162 | a separator character splits the text: the tokens are those of the left part followed by those of the right part |
| Tokenizer.TokenizeWord | app.js:158-162 | a non-empty run of letters and digits is exactly one token, its lower-cased self |
| Tokenizer.TokenizeEmpty | app.js:161-162 | there is no token exactly when every character of the text is a separator |
| Tokenizer.TokenIsLower | app.js:159-160 | a token is unchanged by lower-casing, so comparing it with lower-cased text is sound |
| Tokenizer.ComputeMatchedOn | app.js:165-177 | no tokens in the query gives `[]`; otherwise a prefix of the first-seen deduplication of the tag, name and summary hits (so every item is a hit of this entry, and the cut keeps the earliest ones), at most `limit` items with `limit` 4 by default, no duplicates, each lower-cased a query token, tag hits before name hits before summary hits, and every hit present unless the limit is reached |
| Tokenizer.LowerHitsAreTokens | app.js:169-173 | every tag, name or summary hit is, lower-cased, one of the query's tokens |
| Tokenizer.MatchCandidatesOrdered | app.js:175 | after removing duplicates the hits stay grouped: tags, then name, then summary |
| Catalog.AllTagsMembers | app.js:256 | a string is in the concatenated tag list exactly when it is the lower-cased form of some tag of some entry |
| Catalog.BuildTagPool | app.js:254-258 | the pool is the first-seen deduplication of all lower-cased tags: duplicate-free, its members are exactly the lower-cased tags of the entries, in order of first occurrence |
| Catalog.AddTags | app.js:256 | the inner loop over one entry's tags extends the deduplicated pool by exactly that entry's lower-cased tags |
| EditDistance.Levenshtein | app.js:260-274 | the value in the last cell of the table equals the recursive edit distance (insert, delete, substitute at cost 1) |
| EditDistance.TableCell | app.js:269-270 | each cell's recurrence (copy the diagonal on equal characters, else 1 + the least of the three neighbours) agrees with the recursive distance |
| EditDistance.DistanceBasics | app.js:264-265 | distance of a string to itself is 0, and to or from the empty string is the other's length |
| EditDistance.KittenSitting | app.js:260-274 | the distance from "kitten" to "sitting" is 3 |
| EditDistance.DistanceAtLeastLengthGap | app.js:260-274 | the distance is at least the difference of the lengths |
| EditDistance.MatchingLastCharacters | app.js:270 | equal last characters cost nothing |
| Suggest.PrefilterRedundant | app.js:283-287 | the `lenDiff > 3` pre-filter rejects no term the `<= 2` distance test would accept: the fuzzy test is exactly "distance at most 2" |
| Suggest.DirectMatches | app.js:281 | a term is kept exactly when it is in the pool and contains the query |
| Suggest.FuzzyMatches | app.js:282-286 | a term is kept exactly when it is in the pool and passes the length pre-filter and the distance test |
| Suggest.DirectMatchesAppend | app.js:281 | the direct matches of a concatenated pool are those of each part in order, so with the membership contract the filter keeps the pool order |
| Suggest.FuzzyMatchesAppend | app.js:282-286 | the fuzzy matches of a concatenated pool are those of each part in order, so the filter keeps the pool order |
| Suggest.Combined | app.js:288 | the combined list is duplicate-free and holds exactly the pool terms that qualify |
| Suggest.SuggestTerms | app.js:276-291 | blank query or more than two results gives `[]`; otherwise, when some term qualifies, a prefix of the combined list (so a direct match is never pushed out by a fuzzy one), at most five distinct terms, all from the pool and qualifying when any term qualifies, direct matches before fuzzy ones, and every qualifying term present unless five are shown |
| Suggest.TakeCombined | app.js:288-290 | the first five of the combined list are a prefix of it, distinct, qualifying, direct before fuzzy, and hold every qualifying term unless five are shown |
| Suggest.SuggestFallback | app.js:289 | when no pool term contains the query or is within two edits of it, the first five quick chips are offered |
| Suggest.CombinedEmptyIff | app.js:282-289 | the combined list is empty exactly when no pool term qualifies |
| Suggest.CombinedDirectFirst | app.js:282-288 | a term is in the combined list exactly when it is in the pool and qualifies, and contained terms come before merely fuzzy ones |
| Suggest.ChipsDistinct | app.js:18-27 | the five fallback chips are distinct |
| Intents.CountHits | app.js:324-327 | the inner loop counts exactly the triggers contained in the query |
| Intents.HitCount | app.js:324-327 | the number of contained triggers is at most the number of triggers, and zero exactly when no trigger is contained |
| Intents.ScanIntents | app.js:320-335 | the scan returns no intent when no trigger hits; otherwise an intent with a hit count no other intent exceeds, and every earlier intent has strictly fewer hits (ties go to the first declared) |
| Intents.DetectIntentIn | app.js:316-336 | a query blank after lower-casing and trimming detects nothing; otherwise the scan's result over the lower-cased query |
| Intents.DetectIntent | app.js:316-336 | the same over the six intents, scanned in their declared order |
| Intents.BestIsUnique | app.js:328-331 | at most one intent satisfies the best-intent condition |
| Intents.DetectsIsFunctional | app.js:316-336 | the detection condition has exactly one answer per query |
| Intents.IntentTermsWellFormed | app.js:35-78 | every expansion term of the table is lower-case and has no white space at its ends |
| Intents.BuildExpandedQuery | app.js:338-349 | with no intent, or with one whose every non-empty term the lower-cased query already contains, the result is the trimmed query; otherwise it starts with the trimmed query |
| Intents.Extras | app.js:343 | the missing terms are exactly the non-empty terms the lower-cased query does not contain, no more of them than terms |
| Intents.ExpandAppendsMissingTerms | app.js:343-348 | when at least one term is missing and the terms are well formed, the result is the trimmed query, a space when that is not empty, and exactly the missing terms joined by spaces |
| Intents.ExpandContainsMissingTerm | app.js:343-348 | a term missing from the query occurs in the lower-cased expansion |
| Intents.ExpandKeepsPresentTerm | app.js:339-348 | a term already in the lower-cased query still occurs in the lower-cased expansion |
| Intents.ContainsUnderPrefix | app.js:348 | a piece of the lower-cased query is a piece of the lower-cased expansion that starts with it |
| Intents.ExpandContainsEveryTerm | app.js:339-348 | after expansion every non-empty term of the intent occurs in the lower-cased result |
| Intents.NoExtrasIff | app.js:343-344 | no term is added exactly when every non-empty term is already contained in the query |
| Intents.ExpandIdempotent | app.js:338-349 | expanding an already expanded query with the same intent changes nothing |
| Ranking.FindEntry | app.js:381 | the first entry whose id equals the hit's id, and none exactly when no entry has that id |
| Ranking.ScoreHits | app.js:379-386 | exactly one scored result per known hit, so no more than hits |
| Ranking.ScoreHitsJoins | app.js:380-386 | scoring keeps exactly the hits whose id names an entry, in order, each joined with the first entry of that id and scored hit score + priority × 0.01, with priority 50 when the entry has no number |
| Ranking.ScoreHitsAt | app.js:380-386 | the k-th known hit becomes the k-th result: the first entry with its id, scored by `ScoreOf` |
| Ranking.KnownHits | app.js:380-386 | the hits the join keeps, written as `filter` on "some entry has this id": the kept hits are hits, no more of them than hits (order by `KnownHitsAppend`, membership by `KnownHitsMembers`) |
| Ranking.KnownHitsMembers | app.js:381-386 | a hit is kept exactly when some entry carries its id |
| Ranking.KnownHitsAppend | app.js:380-386 | the known hits of a concatenation are those of each part, so the kept hits stay in hit order |
| Ranking.Insert | app.js:387 | inserting one result adds exactly that result: one longer, same multiset plus it |
| Ranking.SortDesc | app.js:387 | the sort is a permutation of the scored results |
| Ranking.InsertSorted | app.js:387 | insertion keeps a descending list descending |
| Ranking.InsertStable | app.js:387 | inserting ahead of the first result that does not outscore it puts it before the results with its score |
| Ranking.SortDescSorted | app.js:387 | the sorted list is in non-increasing score order |
| Ranking.SortDescStable | app.js:387 | the sort is stable: the results of any one score keep their original order |
| Ranking.PriorityBreaksTies | app.js:383-387 | of two known hits with equal hit scores, the one whose entry has the higher priority scores higher and is sorted ahead of the other |
| Ranking.NudgeBreaksTie | app.js:383 | with equal hit scores, the higher priority gives the higher final score |
| Ranking.PriorityGapBounded | app.js:382-383 | a known hit that leads another by more than 0.01 times the difference of their priorities still scores higher after the nudge |
| Ranking.NudgeBounded | app.js:383 | two final scores keep their hit scores' order when the lead exceeds 0.01 times the priority difference |
| Ranking.Rank | app.js:379-389 | the top list is a prefix of the sorted results, at most twelve long |
| Ranking.RankProperties | app.js:379-389 | the top list has min(12, number of scored results) results, sorted by score, drawn from the scored results, and nothing left out scores above anything kept |
| Ranking.RankStable | app.js:387-389 | among the top results, those of equal score appear in hit order |
| Ranking.WithScorePrefix | app.js:389 | cutting the list keeps, for each score, a prefix of that score's results |
| Ranking.IsAmbiguous | app.js:406-407 | for a positive top score the ratio test means the second score exceeds 0.88 times the first; for a zero top score it means the second score is positive |
| Ranking.AmbiguityBoundary | app.js:407 | the threshold is exclusive: 88 after 100 is not a near tie, 88.01 is |
| Ranking.OptionFor | app.js:409-410 | a clarifier option shows the entry's name and runs the raw query, a space and that name |
| Ranking.Clarify | app.js:403-413 | a clarifier exactly when there are two results and the second is a near tie of the first; it then has the fixed prompt and exactly the two options for the first two results |
| Ranking.ClearWinnerNotQuestioned | app.js:404-407 | with a positive leader, a runner-up at or below 88% of it asks nothing |
| Ranking.TiesAreQuestioned | app.js:404-411 | with a positive leader, a runner-up above 88% of it (equal scores included) asks the question |
| Cards.ReplaceAllIsPerChar | app.js:81-86 | for any rule list where no later character occurs in an earlier entity, the replacement chain works character by character |
| Cards.EscapeHtml | app.js:80-87 | the chain of five `replaceAll` calls equals escaping each character on its own, because the ampersand is replaced first; the escaped text contains no `<`, `>`, `"` or `'` |
| Cards.UnescapeEscape | app.js:80-87 | escaping loses nothing: reading the entities back gives the original text |
| Cards.EscapesWellOrdered | app.js:82-86 | the five rules are well ordered: distinct characters, every entity starts with `&` and uses only letters, digits, `#` and `;` |
| Cards.FormatPhoneLink | app.js:89-92 | the link is `tel:` followed only by digits and `+` |
| Cards.DialChars | app.js:90 | only digits and `+` are left, and the result is no longer than the input |
| Cards.DialCharsSingle | app.js:90 | one character is kept when it is a digit or `+` and removed otherwise |
| Cards.DialCharsCounts | app.js:90 | every digit and `+` survives as often as it occurs, and every other character is removed |
| Cards.DialCharsAppend | app.js:90 | filtering the dial characters works piecewise, so characters keep their original order |
| Cards.DialCharsKeepsDialable | app.js:90 | text of digits and `+` is kept unchanged |
| Cards.DialCharsIdempotent | app.js:90 | filtering twice is filtering once |
| Cards.TypeRank | app.js:96 | the position of a type in the priority list, 5 exactly for types not in it |
| Cards.FindOfType | app.js:98 | the first link whose type (a missing type counting as `info`) is the given one, or none |
| Cards.BestPrimaryLink | app.js:94-102 | none exactly when no link's type (a missing type counting as `info`) is in the priority list; otherwise a link of the earliest listed type present, the first link of that type |
| Pipeline.MessageFor | app.js:368 | the detected intent's message when it has one, the fallback message otherwise, never empty |
| Pipeline.OptionsFor | app.js:372-376 | the intent's field boosts or the default ones, prefix search on, fuzziness 0.2 |
| Pipeline.RenderResults | app.js:355-414 | over the tag pool built from the loaded entries: a blank query browses the first eight entries with the greeting; otherwise the view holds the detected intent, its message, the expanded query, the top results of the search for it, the suggestions for that many results, and the clarifier |
| Pipeline.ResultsViewProperties | app.js:356-413 | in a results view the user's trimmed text heads the expanded query, at most twelve sorted results are shown, no suggestion appears with more than two results, and a clarifier only with a near tie of two results |

## Left out

- Rendering is left out: the DOM, event handlers, `innerHTML` writes, the status line, `renderEntryCard`, `renderSuggestions`, `showClarifier` and the banner's markdown. The model returns the data those functions would show.
- Loading is left out: `init` and the catalog `fetch`. The entry list is a parameter in the normalized form the loader leaves it in: strings default to `""` and tags are lower-cased.
- The full-text index is left out. `miniSearch.search` is a function parameter that returns (id, score) hits for the expanded query and its options; indexing, prefix matching and fuzziness inside the index are not modelled.
- Floating point is not modelled. Scores are exact reals, so rounding of `h.score + priority * 0.01` is not captured. The division in the clarifier follows JavaScript's rules for a zero top score: positive over zero is Infinity, zero over zero is NaN.
- Lower-casing covers ASCII only. Characters outside ASCII keep their case, so the few non-ASCII characters whose lower-case form is an ASCII letter (such as the Kelvin sign) become separators instead of letters.
- Strings are sequences of Unicode characters rather than UTF-16 code units. Lengths and distances of text outside the Basic Multilingual Plane differ from the script's.
- A priority that is not a number is `None` and scores as 50. A NaN priority, which JavaScript counts as a number, is not represented.
- The `html` variable at app.js:115 is computed and never used, so it is not modelled.
- Suggest.SuggestTerms: uses the recursive edit distance rather than calling the table method, since a function cannot call a method. `EditDistance.Levenshtein` is proved equal to it.
- Intents.BuildExpandedQuery: its own contract gives the exact result when nothing is missing, and otherwise only that the trimmed query comes first. When some term is missing, the exact shape of the result and idempotence are proved in the lemmas beside it for lower-case, trimmed expansion terms, and the six intents are proved to have only such terms.
