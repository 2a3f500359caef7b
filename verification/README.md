# conceptnet.py, modelled in Dafny

`get_conceptnet_facts_for_image` takes the object names detected in an
image and turns them into short sentences drawn from the ConceptNet
knowledge graph. The steps are:

1. Strip the object names and de-duplicate them case-insensitively, keeping
   the first occurrence and the input order.
2. Ask the service for the edges of each object, then for the edges joining
   every pair of objects.
3. Keep the edges whose relation is allowed and whose weight reaches the
   threshold.
4. Keep the largest weight seen per `(start, relation, end)` triple.
5. Sort the triples by weight, descending and stable, and keep the first
   `max_facts`.
6. Render each kept triple as a sentence through a per-relation template,
   with a crude a/an heuristic.

This project models that pure core as a set of Dafny modules. The service is
a parameter of the model, so no HTTP is involved:

| module | models |
|---|---|
| `Results` | `Option` and `Result` |
| `Text` | the `str` methods and `re.sub` calls the script relies on: `strip`, `lower`, `upper`, `replace`, `split(...)[-1]`, whitespace collapsing and character filtering, over ASCII |
| `Normalize` | `_norm` and `_to_en_uri` |
| `Edges` | edge records, `_as_label`, `keep_edge`, the key built in `add_edge_fact`, and the `relations or DEFAULT_RELATIONS` fallback |
| `Articles` | `_choose_article` and `_maybe_article` |
| `Sentences` | `REL_TEMPLATES` and `_edge_to_sentence` |
| `Facts` | the `best` dictionary, as an insertion-ordered table, and the edge loops that fill it |
| `Ranking` | `sorted(best.items(), key=weight, reverse=True)[:max_facts]` |
| `Objects` | the de-duplication loop over `objects` |
| `Pairs` | `combinations(objs, 2)` |
| `Pipeline` | the whole function, with the service as a parameter |

The service is a function `Request -> Option<seq<Edge>>`:

- `Some(es)` stands for `data.get("edges") or []`, with each weight already
  coerced as `_weight` does it.
- `None` stands for a request or a JSON decoding that raises.

Requests are tried in the order the script makes them. The first `None`
aborts the call with `Failure(ServiceFailed(request))`. A ranked fact whose
cleaned sentence is empty makes `sent[0]` raise `IndexError`; the model
reports it as `Failure(EmptySentence(key))`.

Some behaviours of the code that a reader might not expect, all of which
the model keeps:

- The fallback sentence puts `_maybe_article` on the subject
  (conceptnet.py:78), so `(hot, Antonym, cold)` renders as
  "A hot Antonym cold.".
- A key is stored only when its weight beats the `-1.0` default of
  `best.get` (conceptnet.py:127), including a key not yet present. This
  only matters when `min_weight <= -1.0`.
- An explicitly empty `relations` set falls back to the default relations
  (conceptnet.py:101).
- The result is cut with the slice `[:max_facts]` (conceptnet.py:151), so a
  negative `max_facts` drops that many facts from the end. The docstring
  promises "up to `max_facts`" facts (conceptnet.py:94); that bound holds
  for `max_facts >= 0`.
- Rendering raises `IndexError` at `sent[0]` (conceptnet.py:82) only for an
  allowed relation that has no template and whose name is all whitespace,
  between a subject and an object that are blank once underscores become
  blanks (conceptnet.py:73-80).

## Model

| member | source | states |
|---|---|---|
| Text.Lower | conceptnet.py:15 | lowercasing one character keeps whitespace as whitespace and never yields an upper-case letter |
| Text.Upper | conceptnet.py:82 | uppercasing one character keeps whitespace as whitespace |
| Text.LowerStr | conceptnet.py:15 | `lower()` keeps the length and lowers every character in place |
| Text.Replace | conceptnet.py:73-74 | `replace` keeps the length and swaps exactly the occurrences of one character |
| Text.TrimLeft | conceptnet.py:15 | `lstrip` leaves a suffix, removes only whitespace, and leaves no leading whitespace |
| Text.TrimRight | conceptnet.py:15 | `rstrip` leaves a prefix, removes only whitespace, and leaves no trailing whitespace |
| Text.Strip | conceptnet.py:15 | `strip()` leaves no whitespace at either end, changes nothing on a stripped string, and is empty exactly when the input is all whitespace |
| Text.StripKeeps | conceptnet.py:29 | every character of the stripped text occurs in the input |
| Text.StripHead | conceptnet.py:41-45 | the stripped text starts at the input's first non-whitespace character, and that position is unique |
| Text.StripIdempotent | conceptnet.py:107 | stripping twice is stripping once |
| Text.StripLower | conceptnet.py:15 | stripping and lowercasing commute |
| Text.LowerStrIdempotent | conceptnet.py:15 | lowercasing twice is lowercasing once |
| Text.Filter | conceptnet.py:17 | removing the characters outside a class leaves only characters of the class and never lengthens the text |
| Text.FilterAppend | conceptnet.py:17 | filtering distributes over concatenation |
| Text.FilterFilter | conceptnet.py:17 | filtering by a weaker class first changes nothing |
| Text.NonBlanks | conceptnet.py:80 | the non-whitespace characters of a text hold no whitespace |
| Text.CollapseNoSpace | conceptnet.py:16 | `re.sub(r"\s+", "_", s)` leaves no whitespace at all |
| Text.CollapseFilter | conceptnet.py:16-17 | collapsing whitespace runs changes no character that the later filter keeps |
| Text.CollapseSpaced | conceptnet.py:80 | `re.sub(r"\s+", " ", s)` leaves no two adjacent whitespace characters and no whitespace other than the blank |
| Text.CollapseOfNoSpace | conceptnet.py:16 | text without whitespace is left unchanged by collapsing |
| Text.TrimLeftRun | conceptnet.py:80 | `lstrip` removes exactly a leading whitespace run and nothing after it |
| Text.TrimRightRun | conceptnet.py:80 | `rstrip` removes exactly a trailing whitespace run and nothing before it |
| Text.CollapseRun | conceptnet.py:16 | a whitespace run of any length, followed by a non-whitespace character or the end, becomes exactly one separator |
| Text.CollapseLead | conceptnet.py:16 | a possibly empty whitespace run becomes one separator, or nothing when empty |
| Text.CollapseTail | conceptnet.py:16 | a word followed by a possibly empty whitespace run keeps the word and gains at most one separator |
| Text.CollapseWords | conceptnet.py:80 | two words with whitespace runs before, between and after them collapse to the words around one blank, with one blank at each end where a run was |
| Text.StripRuns | conceptnet.py:80 | stripping a stripped non-empty core wrapped in whitespace runs yields the core |
| Text.TidyWords | conceptnet.py:80 | the cleanup of two words with whitespace runs around and between them is the two words joined by one blank |
| Text.Tidy | conceptnet.py:80 | the sentence cleanup is stripped and single-spaced with blanks only, and keeps every non-whitespace character in order |
| Text.TidyOfTidy | conceptnet.py:80 | cleaning up a text that is already clean changes nothing |
| Text.AfterLast | conceptnet.py:29 | `split(c)[-1]` is the suffix after the last `c` and holds no `c` |
| Text.AfterLastOf | conceptnet.py:29 | whatever precedes a final separator, `split(c)[-1]` is the text after it |
| Normalize.Norm | conceptnet.py:14-18 | `_norm` yields an identifier over `[a-z0-9_]`, which holds no whitespace |
| Normalize.NormIdempotent | conceptnet.py:14-18 | normalising a normalised identifier changes nothing |
| Normalize.NormKeepsAlphanumerics | conceptnet.py:14-18 | apart from `_`, the identifier holds exactly the lowercased letters and digits of the input, in order |
| Normalize.NormIgnoresCase | conceptnet.py:14-18 | lowercasing the input first gives the same identifier |
| Normalize.NormOfIdentPrefix | conceptnet.py:17 | trailing characters outside the class, with no whitespace among them, vanish |
| Normalize.NormExampleWords | conceptnet.py:14-18 | "Golden Retriever" normalises to "golden_retriever" |
| Normalize.NormExampleAccent | conceptnet.py:17 | "café!!" normalises to "caf" |
| Normalize.ToEnUri | conceptnet.py:20-21 | the URI is `/c/en/` followed by one path segment that is an identifier |
| Normalize.UriLastSegment | conceptnet.py:20-21 | the last path segment of the URI is `_norm` of the concept |
| Edges.EffectiveRelations | conceptnet.py:101 | a given non-empty relation set is used as is; an absent or empty one becomes the nine defaults |
| Edges.IdLabel | conceptnet.py:29 | the label derived from `@id` is stripped and holds no `/` and no `_` |
| Edges.IdLabelOfPath | conceptnet.py:29 | the `@id` label is the last path segment, with underscores as blanks, stripped |
| Edges.AsLabel | conceptnet.py:23-30 | a non-empty `label` wins, stripped; otherwise a string `@id` gives its last segment; otherwise, and for a non-object, the label is empty |
| Edges.KeyOf | conceptnet.py:119-125 | an edge is filed under `(start, rel, end)` exactly when all three labels are non-empty |
| Facts.Get | conceptnet.py:127 | `best.get(key, -1.0)` is -1.0 for an absent key and the stored weight for a present one |
| Facts.Put | conceptnet.py:127-128 | after the update the key's weight is the larger of the old weight and the new one; every other key's weight is unchanged |
| Facts.PutKeys | conceptnet.py:127-128 | a new key goes to the end of the dictionary order; an existing key keeps its place; a weight not above -1.0 adds nothing |
| Facts.PutWeights | conceptnet.py:127-128 | an update of a table whose weights all beat -1.0 keeps every stored weight above -1.0 |
| Facts.PutInvariants | conceptnet.py:127-128 | an update keeps the keys distinct and every stored weight above -1.0 |
| Facts.PutDistinct | conceptnet.py:127-128 | an update keeps the keys distinct |
| Facts.AddEdge | conceptnet.py:112-114 | one edge raises its own key's weight to its weight when `keep_edge` accepts it and the key is complete, and touches no other key |
| Facts.AddEdgesAppend | conceptnet.py:131-148 | folding two edge lists one after the other equals folding their concatenation |
| Facts.Peak | conceptnet.py:131-148 | the peak bounds the weight of every edge that counts towards a key, and is attained by one of them when it beats -1.0 |
| Facts.AddEdgesPeak | conceptnet.py:131-148 | after the edge loops each key's weight is the larger of its old weight and the peak of the edges that count towards it |
| Facts.AddEdgesInvariants | conceptnet.py:131-148 | the edge loops keep the keys distinct and the weights above -1.0 |
| Facts.AddEdgesRels | conceptnet.py:112-114 | every stored fact carries an allowed relation |
| Facts.PresentAboveFloor | conceptnet.py:127 | a key is present exactly when its weight beats -1.0 |
| Facts.Accumulated | conceptnet.py:117-148 | from an empty `best`, the keys are distinct; a key is present exactly when the peak of its counting edges beats -1.0, and then its weight is that peak |
| Ranking.InsertDesc | conceptnet.py:151 | inserting one fact adds exactly that fact |
| Ranking.InsertDescSorted | conceptnet.py:151 | insertion keeps a table in descending weight order |
| Ranking.InsertDescStable | conceptnet.py:151 | the inserted fact goes ahead of every fact of equal weight |
| Ranking.SortDesc | conceptnet.py:151 | the sort is a permutation of the table |
| Ranking.SortDescCorrect | conceptnet.py:151 | the sort is descending by weight, keeps facts of equal weight in insertion order, and keeps keys distinct |
| Ranking.SliceLength | conceptnet.py:151 | `[:max_facts]` keeps `min(max_facts, n)` facts for a non-negative bound and drops `-max_facts` from the end for a negative one |
| Ranking.Rank | conceptnet.py:151 | the ranking holds `min(max_facts, n)` facts of a table of `n` for a non-negative bound (a negative one drops that many from the end), is in descending weight order, and is drawn from the table |
| Ranking.RankSorted | conceptnet.py:151 | the ranking is in descending weight order and its keys are distinct |
| Ranking.RankSplit | conceptnet.py:151 | the sorted table is the ranking followed by the facts that were cut off |
| Ranking.DroppedLighter | conceptnet.py:151 | no fact that was cut off weighs more than a fact that was kept |
| Ranking.RankHeaviest | conceptnet.py:151 | the ranking is drawn from the table, and no fact left out weighs more than any fact kept |
| Ranking.RankStable | conceptnet.py:151 | among facts of one weight, the ranking keeps the earliest inserted ones, in order |
| Objects.Cleaned | conceptnet.py:107 | each object is stripped |
| Objects.SeenMembers | conceptnet.py:108-109 | `seen` holds exactly the lowered non-empty objects met so far |
| Objects.FirstOccurrenceSeen | conceptnet.py:108 | the test `o2 and o2.lower() not in seen` holds exactly for the first non-empty occurrence of a name, ignoring case |
| Objects.SelectedSeen | conceptnet.py:104-110 | the lowered forms of `objs` are exactly `seen` |
| Objects.DedupObjects | conceptnet.py:104-110 | the loop computes the first non-empty occurrences, stripped, in input order |
| Objects.DedupStep | conceptnet.py:106-110 | one turn of the loop keeps `objs` and `seen` in step with the inputs scanned so far |
| Objects.SelectedFrom | conceptnet.py:104-110 | every kept object is a non-empty stripped input |
| Objects.SelectedDistinct | conceptnet.py:104-110 | no two kept objects are equal ignoring case |
| Objects.DedupFromInputs | conceptnet.py:104-110 | every entry of `objs` is non-empty, stripped, and the stripped form of some input |
| Objects.DedupDistinct | conceptnet.py:104-110 | no two entries of `objs` are equal ignoring case |
| Objects.DedupComplete | conceptnet.py:104-110 | every non-blank input is represented in `objs`, ignoring case |
| Objects.DedupIdempotent | conceptnet.py:104-110 | de-duplicating `objs` again changes nothing |
| Pairs.PairsFromMembers | conceptnet.py:141 | the rows from `i` on hold exactly the pairs `i <= a < b < n` |
| Pairs.PairsFromOrdered | conceptnet.py:141 | the rows from `i` on are in strictly lexicographic order |
| Pairs.PairsFromCount | conceptnet.py:141 | the rows from `i` on hold (n-i)(n-i-1)/2 pairs |
| Pairs.IndexPairsExact | conceptnet.py:141 | `combinations(range(n), 2)` holds every pair `i < j < n` once, in lexicographic order, n(n-1)/2 in all |
| Pairs.Combinations | conceptnet.py:141 | each combination is the pair of objects at an index pair |
| Articles.ChooseArticle | conceptnet.py:39-45 | the article is "a" or "an", and "an" exactly when the first non-blank character, lowered, is a vowel letter |
| Articles.ChooseArticleStripped | conceptnet.py:39-45 | for a stripped phrase, that character is its first one |
| Articles.Articled | conceptnet.py:58 | `f"{_choose_article(n)} {n}"` is "a " or "an " before the noun, "an " exactly for a vowel, and stripped |
| Articles.MaybeArticle | conceptnet.py:47-58 | the result is the stripped noun, bare exactly when it is empty, starts with a determiner, or looks plural; otherwise preceded by "an " exactly for a leading vowel, else by "a " |
| Articles.LeadingArticleIsBare | conceptnet.py:53 | a phrase that starts with "a " or "an " counts as already determined |
| Articles.MaybeArticleIdempotent | conceptnet.py:47-58 | an articled phrase is never articled again |
| Articles.ArticledWord | conceptnet.py:47-58 | a lowercase word with no whitespace and no final "s" gets the article its first letter chooses |
| Articles.MaybeArticleVowel | conceptnet.py:45 | "apple" becomes "an apple" |
| Articles.MaybeArticleConsonant | conceptnet.py:45 | "dog" becomes "a dog" |
| Articles.MaybeArticleBare | conceptnet.py:53-54 | "the park" is left as it is |
| Articles.MaybeArticlePlural | conceptnet.py:56-57 | "cats" is left as it is |
| Sentences.Shown | conceptnet.py:73-74 | a label as rendered is stripped and holds no underscore |
| Sentences.Capitalise | conceptnet.py:82 | sentence case uppercases the first character, keeps the rest, and adds a period |
| Sentences.EdgeToSentence | conceptnet.py:72-82 | a sentence exists exactly when the cleaned text is non-empty; it is single-spaced with blanks only, capitalised, and ends in a period right after a non-blank character |
| Sentences.CapitaliseSpaced | conceptnet.py:82 | sentence case keeps a clean text single-spaced, with no blank first or before the period |
| Sentences.IsAGuardRedundant | conceptnet.py:61 | the extra determiner guard of the `IsA` template gives the same object as `_maybe_article` alone |
| Sentences.FormsAreDefaults | conceptnet.py:8-12 | the templated relations are exactly the nine default relations |
| Sentences.TemplateForm | conceptnet.py:60-70 | each template is the articled subject, its connector, and the object, articled or bare as the template says |
| Sentences.SentenceTextShape | conceptnet.py:72-78 | every sentence, fallback included, is the articled subject, the connector, then the object |
| Sentences.SentenceFailsExactly | conceptnet.py:72-82 | rendering fails exactly for an untemplated all-whitespace relation between a blank subject and a blank object |
| Sentences.TextBlank | conceptnet.py:75-80 | the text is blank exactly when subject, connector and object all are |
| Sentences.TidyBlank | conceptnet.py:80 | the cleanup is empty exactly when the text holds no non-whitespace |
| Sentences.ConnectorBlank | conceptnet.py:60-78 | a template connector always holds a word; the fallback one is blank exactly when the relation name is |
| Sentences.TemplateConnectorWord | conceptnet.py:60-70 | every template connector holds a non-blank character |
| Sentences.KnownRelationRenders | conceptnet.py:72-82 | a fact with a templated relation always renders |
| Sentences.UnderscoresAreBlanks | conceptnet.py:73-74 | underscores and blanks in the labels are the same to the renderer |
| Pipeline.Lookups | conceptnet.py:131-134 | the per-object phase makes one lookup per object, in order, for the object's URI |
| Pipeline.PairQueries | conceptnet.py:141-145 | the pair phase makes one query per combination, in order, for the two URIs |
| Pipeline.RequestsShape | conceptnet.py:131-145 | the requests are the n lookups followed by the n(n-1)/2 pair queries, each pair of positions `i < j` once, in lexicographic order |
| Pipeline.AllEdges | conceptnet.py:134-146 | the first answer's edges come first, followed by those of the rest; an edge is gathered exactly when some answer holds it |
| Pipeline.GatherAnswered | conceptnet.py:131-148 | when every request is answered, the two phases fold all the edges, in order |
| Pipeline.GatherFails | conceptnet.py:131-145 | collection fails exactly when some request fails, and reports the first failing one |
| Pipeline.RenderEach | conceptnet.py:152 | rendering succeeds exactly when every ranked fact renders, and then gives one sentence per fact, in order |
| Pipeline.RenderEachFails | conceptnet.py:152 | a failed rendering reports the first fact that does not render |
| Pipeline.FactsForImageAnswered | conceptnet.py:84-153 | with every request answered, the result renders the ranking of `best`, and `best` holds per key the peak weight of the kept edges, exactly for the keys whose peak beats -1.0 |
| Pipeline.FactsForImageUnanswered | conceptnet.py:84-153 | if any request fails, the call fails with the first failing request |
| Pipeline.RankRels | conceptnet.py:151 | ranking keeps only allowed relations |
| Pipeline.RenderTemplated | conceptnet.py:152 | facts whose relations are all templated always render |
| Pipeline.TemplatedRelationsRender | conceptnet.py:84-153 | with templated relations only and every request answered, the call succeeds with one sentence per ranked fact, at most `max_facts` of them, most weighty first, with no key twice |
| Pipeline.FactsForImageAtMost | conceptnet.py:151-153 | a call that returns gives at most `max_facts` sentences when `max_facts` is not negative |
| Pipeline.DefaultsAreTemplated | conceptnet.py:8-12 | the default relations all have templates |
| Pipeline.NoObjects | conceptnet.py:104-153 | with no non-blank object the call makes no request and returns no sentence |

## Left out

- HTTP and JSON are not modelled. The service is a parameter. Its answer is
  the edge list (`data.get("edges") or []`), or a failure when the request
  or the decoding raises. URLs appear only as the `Request` values that
  carry the URI and the limit.
- The debug `print(requests.get(...))` before each lookup is not modelled.
  Its response is discarded, so it cannot change the sentences. Only its own
  network failure could raise, and that is I/O.
- `_weight` is not modelled. An edge's weight is the already-coerced value,
  and the service hands it over, because the coercion of JSON values is part
  of decoding.
- Floating point is not modelled: weights are exact reals.
- Unicode is not modelled. Case mapping touches only ASCII letters, and
  whitespace is ASCII whitespace. Python's `lower`, `upper`, `strip` and
  `\s` cover all of Unicode, and `upper` can lengthen a character.
- A `label` that is not a string is treated as missing. The source would
  render it with `str()`; the service is taken to hand over string labels
  only.
- The source crashes with `AttributeError` when an edge's `rel` is present
  but not a JSON object, or when the answer is not a JSON object. The model
  has no such edge: `rel` is a label or nothing. An answer that is not an
  object counts as a failed decoding.
- Three more shapes of JSON crash the source, and the model has no values
  for them. An edge that is not a JSON object makes `e.get` raise
  (conceptnet.py:113). A `rel` label that is a JSON array or object is
  unhashable, so `rel in rels` raises `TypeError` (conceptnet.py:114). A
  truthy `edges` value that is not a list is iterated as whatever it is
  (conceptnet.py:136). The service hands over edges as `Edge` values, labels
  as strings and the edge list as a sequence.
- `Text.Upper` and `Text.Lower`: only ASCII letters change case, for the
  Unicode reason above.
