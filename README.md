# IndWebIndex data loader, modelled in Dafny

IndWebIndex is a directory of independent websites. Each site is a post record
`{id, name, tags, web, state?}`. The page shows the posts and one button for
each tag. Selecting tags narrows the list to the posts that carry all of the
selected tags. A search box matches a query against names, URLs and tags, and
against their pinyin. `lib/dataLoader.js` holds that pipeline. This project
models it and proves what each step promises.

Modules:

- `Sequences`: the lodash list helpers the pipeline calls (`filter`, `uniqBy`,
  `uniq`, `difference`, `xor`), as recursive functions over `seq`. Their
  meaning is proved once: subsequence of the input, membership, occurrence
  counts, no duplicates.
- `Strings`: the lexicographic order in which lodash `sortBy` compares string
  keys (a total order, proved reflexive, total, transitive and
  antisymmetric), and `String.prototype.includes` proved equal to "occurs at
  some position".
- `Sorting`: lodash `sortBy` as a stable insertion sort. It is proved to
  return a permutation, ordered by key, that keeps elements of equal key in
  input order.
- `DataLoader`: the posts and the pure operations of `lib/dataLoader.js`:
  `unique`, `sortByAlphabetAndChinese`, `extractTags`, `filterPostsByTags` and
  `filterPostsBySearch`.
- `TagSelection`: the selection state `{onList, tags, filteredPosts}` as a
  class. `toggleTagButton` and `updateResults` are methods that overwrite its
  fields. This is where the source's React setter callbacks write.

Inputs the model takes as parameters:

- `String.prototype.toLowerCase` and `TinyPinyin.convertToPinyin` are foreign
  code. They are the two fields of `TextOps`, arbitrary total functions on
  strings, and every property proved holds whatever they compute.
- Strings are `seq<char>`, compared character by character.

Behaviour of the code worth knowing, each proved below:

- Classification. A tag goes in the second block exactly when it contains a
  character in U+4E00..U+9FA5 (lib/dataLoader.js:13-16). Every other tag,
  `"123"` and tags in other scripts included, goes in the first block,
  ordered by its lower-cased form; no tag is dropped.
- No re-sorting on selection. `toggleTagButton` and `updateResults` only
  filter and concatenate (lines 85-87 and 98-100): the unselected tags keep
  the order of the list they come from.
- Toggling twice. Toggling an unselected tag twice restores a duplicate-free
  `onList` exactly (`ToggleTwiceRestores`). Toggling a selected tag twice
  moves it to the end (`ToggleTwiceMovesToEnd`), so the selection changes
  unless the tag was already last (`ToggleTwiceChanges`).
- Empty query. `filterPostsBySearch` has no special case for the empty
  query. It still keeps every post, because every string includes the empty
  one, provided lower-casing maps `""` to `""` (`EmptyQueryKeepsAll`).
- Tag order from `extractTags`. The tags come out in the order they first
  occur on the visible posts, not sorted (see Findings).

## Model

| member | source | states |
|---|---|---|
| DataLoader.Unique | lib/dataLoader.js:8 | The result is an order-preserving subsequence of the posts. No two kept posts share a name. Every input name survives. Each kept post is the first input post with its name, and the kept posts come in the order their names first appear. |
| Sequences.UniqByFacts | lib/dataLoader.js:8 | `uniqBy(s, key)` keeps a subsequence with pairwise distinct keys, the same set of keys, the first element of each key, listed in the order the keys first appear, and all of `s` when its keys are already distinct. |
| Sequences.UniqBySubseq | lib/dataLoader.js:8 | `uniqBy` returns a subsequence of its input. |
| Sequences.UniqByKeys | lib/dataLoader.js:8 | `uniqBy` loses no key. |
| Sequences.UniqByDistinct | lib/dataLoader.js:8 | `uniqBy` keeps at most one element per key. |
| Sequences.UniqByFirst | lib/dataLoader.js:8 | Every kept element is the first input element with its key. |
| Sequences.UniqByUnchanged | lib/dataLoader.js:8 | Input whose keys are already distinct comes back unchanged. |
| Sequences.UniqByOrder | lib/dataLoader.js:8 | The kept elements come in the order in which their keys first appear in the input. |
| Sequences.FirstKeyIndexAppend | lib/dataLoader.js:8 | Appending an element moves no key's first position; a key first seen in the new element is found at its position. |
| DataLoader.SortByAlphabetAndChineseOrder | lib/dataLoader.js:11-26 | The result is a permutation of the input. Tags without a U+4E00..U+9FA5 character all precede tags with one. The first block is non-decreasing by lower-cased form, the second by pinyin. |
| DataLoader.SortByAlphabetAndChineseStable | lib/dataLoader.js:11-26 | Tags of equal rank (same block, same sort key) keep their input order. |
| DataLoader.SortedBlocks | lib/dataLoader.js:13-22 | Each block is a permutation of its part of the partition, holds only tags of its kind, and is sorted by its own key. |
| DataLoader.TwoBlocks | lib/dataLoader.js:25 | Concatenating the two sorted blocks puts non-Chinese tags first, with each block ordered by its key. |
| DataLoader.StableAlphabetBlock | lib/dataLoader.js:19 | Sorting the non-Chinese block by lower-cased form keeps the input order of tags with equal lower-cased form. |
| DataLoader.StableChineseBlock | lib/dataLoader.js:20-22 | Sorting the Chinese block by pinyin keeps the input order of tags with equal pinyin. |
| DataLoader.BelowChineseRange | lib/dataLoader.js:15 | A tag whose characters all lie below U+4E00 falls in the first block. |
| Sequences.FilterSplit | lib/dataLoader.js:13-16 | `partition` by a predicate and its negation loses and invents no element: the two parts' multisets add up to the input's. |
| Sorting.SortByFacts | lib/dataLoader.js:19-22 | lodash `sortBy` returns a permutation of its input, sorted by key, in which the elements of each key keep their input order. |
| Sorting.SortByPermutes | lib/dataLoader.js:19-22 | `sortBy` returns a permutation of its input. |
| Sorting.SortBySorted | lib/dataLoader.js:19-22 | `sortBy` orders its result by key. |
| Sorting.SortByStable | lib/dataLoader.js:19-22 | `sortBy` keeps the elements of each key in input order. |
| Sorting.InsertPermutes | lib/dataLoader.js:19-22 | Inserting one element adds exactly that element. |
| Sorting.InsertSorted | lib/dataLoader.js:19-22 | Inserting into a sorted list keeps it sorted. |
| Sorting.InsertStable | lib/dataLoader.js:19-22 | The inserted element goes after every element of its key, and nothing else moves relative to its key. |
| Strings.LexLeTotal | lib/dataLoader.js:19-22 | Any two sort keys are comparable. |
| Strings.LexLeTrans | lib/dataLoader.js:19-22 | The key order is transitive. |
| Strings.LexLeRefl | lib/dataLoader.js:19-22 | The key order is reflexive. |
| Strings.LexLeAntisym | lib/dataLoader.js:19-22 | Keys that are each at most the other are equal. |
| DataLoader.FlatTags | lib/dataLoader.js:32 | The flattened tag list holds exactly the tags of the given posts. |
| DataLoader.ExtractTags | lib/dataLoader.js:29-34 | The result repeats no tag. Its members are exactly the tags of posts whose state is not `隐藏`, so a tag carried only by hidden posts is absent. It is a subsequence of the flattened tags of the visible posts, listed in the order the tags first occur there. |
| DataLoader.ExtractTagsOfOne | lib/dataLoader.js:29-34 | A single visible post with distinct tags yields its tags in their own order. |
| DataLoader.ExtractTagsUnsorted | lib/dataLoader.js:35 | For one visible post tagged `苹果` then `zebra`, the extracted list puts a Chinese tag before a non-Chinese one. |
| DataLoader.SortedTags | lib/dataLoader.js:35 | The extracted tags in `sortByAlphabetAndChinese` order: no duplicates, the same members as `extractTags`, non-Chinese block first, each block ordered by its key. |
| Sequences.Uniq | lib/dataLoader.js:33 | `uniq` returns a duplicate-free subsequence with the same members, listed in the order of their first occurrence in the input, and leaves duplicate-free input unchanged. |
| DataLoader.FilterPostsByTags | lib/dataLoader.js:39-41 | Keeps exactly the posts that carry every given tag, each occurrence, in input order. An empty tag list keeps every post. |
| DataLoader.FilterPostsByTagsNarrows | lib/dataLoader.js:39-41 | Requiring more tags yields a subsequence of the previous result. |
| Sequences.FilterFacts | lib/dataLoader.js:40 | `filter` returns a subsequence holding exactly the elements that satisfy the predicate, with every occurrence of each. |
| Sequences.FilterMembers | lib/dataLoader.js:40 | An element is in the filtered list exactly when it is in the input and satisfies the predicate. |
| Sequences.FilterSubseq | lib/dataLoader.js:40 | `filter` returns a subsequence of its input. |
| Sequences.FilterCount | lib/dataLoader.js:40 | `filter` keeps every occurrence of each accepted element and none of the others. |
| Sequences.FilterAll | lib/dataLoader.js:40 | A predicate that every element satisfies filters nothing out. |
| Sequences.FilterMonotone | lib/dataLoader.js:40 | A stronger predicate keeps a subsequence of what a weaker one keeps. |
| Sequences.FilterNoDup | lib/dataLoader.js:86 | Filtering a duplicate-free list gives a duplicate-free list. |
| DataLoader.FilterPostsBySearch | lib/dataLoader.js:44-65 | The query `隐藏` returns the posts unchanged. Any other query keeps, in order and with every occurrence, exactly the posts whose lower-cased name, URL or some tag, or the lower-cased pinyin of the name or of some tag, contains the lower-cased query. The state plays no part. |
| DataLoader.MatchesMentions | lib/dataLoader.js:55-63 | The five `includes` tests on a post hold exactly when the lower-cased query occurs in one of the five candidates. |
| DataLoader.EmptyQueryKeepsAll | lib/dataLoader.js:48-64 | If lower-casing maps `""` to `""`, the empty query keeps every post. |
| Strings.Includes | lib/dataLoader.js:56-61 | `s.includes(q)` holds exactly when `q` occurs in `s` at some position. |
| Strings.IncludesStep | lib/dataLoader.js:56-61 | Past the first position, the occurrences of `q` in `s` are those in `s[1..]`, shifted by one. |
| Sequences.Xor | lib/dataLoader.js:83 | `xor(s, [x])` repeats no element and flips only `x`'s membership. An absent `x` is appended after the deduplicated input. A present `x` is removed with every copy, leaving a subsequence of the input, and from duplicate-free input exactly `difference(s, [x])`. |
| Sequences.XorAbsent | lib/dataLoader.js:83 | With `x` absent, `uniq(difference(s,[x]) ++ difference([x],s))` is `uniq(s) ++ [x]`. |
| Sequences.XorPresent | lib/dataLoader.js:83 | With `x` present, that expression is `uniq(difference(s,[x]))`, a subsequence of `s`. |
| Sequences.UniqAppendFresh | lib/dataLoader.js:83 | Appending an element not yet present extends the result of `uniq` by that element. |
| Sequences.DifferenceOfOne | lib/dataLoader.js:83 | `difference([x], s)` is empty when `x` is in `s` and `[x]` otherwise. |
| Sequences.DifferenceOutside | lib/dataLoader.js:83 | Removing an absent element changes nothing. |
| Sequences.Difference | lib/dataLoader.js:86 | `a` minus the members of `b`: a subsequence holding the elements of `a` not in `b`, every occurrence of each, duplicate-free when `a` is, and `a` itself when they share nothing. |
| Sequences.DifferenceAppend | lib/dataLoader.js:86 | Appending one element to `a` appends it to `difference(a, b)` exactly when it is not in `b`. |
| Sequences.NoDupAppend | lib/dataLoader.js:85-87 | Two duplicate-free lists with no common element concatenate to a duplicate-free list. |
| TagSelection.SelectedFirst | lib/dataLoader.js:85-87 | The displayed list starts with `onList`. Its members are those of `onList` and of the rest. The part after `onList` is the rest without the selected tags, in the rest's order, with every occurrence of each unselected tag. It is duplicate-free when both inputs are. |
| TagSelection.Selection.ToggleTagButton | lib/dataLoader.js:82-89 | The new `onList` is `xor(onList, [tag])` and the new `tags` is the new `onList` followed by the old `tags` not in it. `filteredPosts` is untouched. From a valid state (no repeated tag in either list, `onList` heading `tags`) the new state is valid. |
| TagSelection.ToggleTwiceRestores | lib/dataLoader.js:83 | From a duplicate-free `onList` without the tag, toggling it twice restores `onList` exactly. |
| TagSelection.ToggleTwiceMovesToEnd | lib/dataLoader.js:83 | From a duplicate-free `onList` with the tag, toggling it twice moves the tag to the end. |
| TagSelection.ToggleTwiceChanges | lib/dataLoader.js:83 | Toggling twice a selected tag that is not last in a duplicate-free `onList` changes `onList`: toggling is not its own inverse. |
| TagSelection.ToggleOnFresh | lib/dataLoader.js:83 | Toggling a tag missing from a duplicate-free `onList` appends it. |
| TagSelection.AvailableTags | lib/dataLoader.js:97 | Exactly the tags carried by the filtered posts, each once, a subsequence of their flattened tags listed in the order the tags first occur there. |
| TagSelection.Selection.UpdateResults | lib/dataLoader.js:92-102 | `filteredPosts` becomes `filterPostsByTags(posts, onList)` and `tags` becomes `onList` followed by the unselected tags of the filtered posts. `onList` is unchanged. A displayed tag is a selected tag or one carried by a filtered post. A valid state stays valid. |
| TagSelection.UpdateResultsAgain | lib/dataLoader.js:92-102 | From a state that `updateResults` produced from the same posts and selection, a further `updateResults` leaves `onList`, `filteredPosts` and `tags` as they were. |
| TagSelection.OfferedTagKeepsResults | lib/dataLoader.js:93-100 | Any unselected tag that `updateResults` offers can be selected next without emptying the results. |
| Sequences.PermutationNoDup | lib/dataLoader.js:35 | A permutation of a duplicate-free list is duplicate-free. |

## Left out

- `randomSort` (lib/dataLoader.js:5) shuffles with a random source, so it is nondeterministic.
- `renderTags` (lib/dataLoader.js:68-79) is JSX rendering.
- lib/notion.js is not part of this model. It is the network client that fetches and projects the posts.
- pages/index.js, contexts/ThemeContext.js and components/Titles.js are not part of this model. They are framework glue, DOM theme state and static markup.
- The page component that creates the selection state and calls `updateResults` after each toggle is not part of this model. `Selection.constructor` starts from nothing selected, every post shown and `ExtractTags` on display.
- Lower-casing and pinyin transliteration are parameters (`TextOps`), not models of `toLowerCase` and TinyPinyin.
- Strings are sequences of characters. JavaScript compares UTF-16 code units, which differs from this only for characters outside the Basic Multilingual Plane.
- The order produced by `.sort(sortByAlphabetAndChinese)` at lib/dataLoader.js:35 is taken as the identity. The comparator returns an array, which JavaScript turns into a non-zero number only for a tag that is a single digit 1-9. `ExtractTags` therefore omits that call.
- The React setters `setOnList`, `setTags` and `setFilteredPosts` are plain field assignments. Batching and deferred re-rendering are not modelled.
- TagSelection.Selection.UpdateResults reads `onList` from the state, where the source receives it as an argument. In the page the caller passes the current `onList`.
- TagSelection.Selection.ToggleTagButton requires a valid state (no repeated tag in `onList` or `tags`). Every state the constructor, `ToggleTagButton` and `UpdateResults` produce is valid.
- A post's `web` is always a string here. lib/notion.js fills it from a link property that can be absent, and then `post.web.toLowerCase()` at lib/dataLoader.js:57 would throw; that failure is not modelled.

## Findings

| source | as written | input that shows it | evidently intended | confidence | as-written member | corrected member |
|---|---|---|---|---|---|---|
| lib/dataLoader.js:35 | `.sort(sortByAlphabetAndChinese)` passes the list-sorting function as a pairwise comparator. Its array result coerces to NaN, so the tags stay in first-occurrence order. | One visible post tagged `["苹果", "zebra"]`: `extractTags` returns `["苹果", "zebra"]`, a Chinese tag before a non-Chinese one. | `sortByAlphabetAndChinese(uniqueTags)`: non-Chinese tags first by lower-cased form, then Chinese tags by pinyin. | not executed | DataLoader.ExtractTagsUnsorted | DataLoader.SortedTags |
