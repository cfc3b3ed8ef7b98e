# eureka: edit distance, word suggestions and dictionary loading in Dafny

eureka is a small dictionary service. This project models its algorithmic core, all of which is in `src/main.rs`:

- **`edit_distance`.** The Levenshtein distance between two strings, taken over their UTF-8 bytes. It is computed by a top-down recursion over prefix lengths `(i, j)`, memoised in a map that lives for one call.
  - `Distance.Dist` transcribes the recurrence of `inner` as written.
  - `Distance.Lev` is an independent textbook definition. `Distance.DistIsLevenshtein` proves the two equal.
  - `Distance.Inner` and `Distance.EditDistance` are the memoised computation. They thread the memo as a `map<(nat, nat), nat>` and keep the invariant `MemoSound`: every entry holds the recurrence's value.
- **`suggest_words`.** Scans the dictionary's keys in the map's iteration order and accepts a key `k` when `edit_distance(k, word) <= 1` or `k` starts with `word`.
  - The test `words.len() >= limit` comes first in every iteration, so the collection stops growing at `limit`. The collection is sorted before it is returned.
  - A Rust `HashMap` iterates in an unspecified order, so the order is a parameter: a sequence listing every key exactly once (`Suggest.IterationOrder`).
  - `Suggest.Suggestions` states the result without a loop: the first `limit` qualifying keys in iteration order, sorted. `Suggest.SuggestWords` is the loop, proved equal to it.
- **The insertion loop of `load_dictionary`.** A record is stored only when its word is not yet a key, so the first record carrying a word wins.
  - `Dictionary.Load` is this loop as a left fold over records.
  - `Dictionary.LoadDictionary` walks the rows the CSV reader yields and stops with an error at the first row that does not deserialise, as the `?` on each row does.

Strings are `seq<byte>` throughout (`Words.Word`). This one type covers three operations of the source:
- `edit_distance` works on `as_bytes`;
- `starts_with` is a byte prefix test (Dafny's `<=` on sequences);
- `Ord for String` compares bytes lexicographically (`Words.Less`).

Sorting is specified by its result, not by Rust's algorithm. `Words.Sort` is an insertion sort. `Words.StrictlySortedUnique` shows that two strictly sorted sequences of the same distinct words are equal, so any correct sort of the collected keys gives the same list.

`Examples` works through concrete cases on byte-encoded words.

## Model

| member | source | states |
|---|---|---|
| `Distance.DistBounds` | src/main.rs:67-75 | the distance of `(i, j)` lies between `abs(i - j)` and `max(i, j)`, and equals `max(i, j)` when either prefix is empty |
| `Distance.DistIsLevenshtein` | src/main.rs:67-75 | the recurrence of `inner` equals the textbook Levenshtein recurrence, which takes the cheapest of delete, insert and substitute even when the last bytes agree |
| `Distance.LevenshteinStep` | src/main.rs:69-75 | when the code's and the textbook recurrences agree on the three smaller pairs, they agree on `(i, j)` |
| `Distance.DistSteps` | src/main.rs:67-75 | adding or removing one byte at the end of either prefix changes the distance by at most one |
| `Distance.DistZeroIffEqual` | src/main.rs:67-75 | the distance of two prefixes is zero exactly when the prefixes are equal |
| `Distance.DistSymmetric` | src/main.rs:67-75 | swapping the two strings does not change the distance |
| `Distance.EditDistanceFacts` | src/main.rs:57-81 | `edit_distance(a, b)` is 0 exactly when `a == b`, `edit_distance(a, a) == 0`, the result never exceeds `max(|a|, |b|)`, and against the empty string it is the other string's length |
| `Distance.Inner` | src/main.rs:62-79 | `inner` returns the recurrence's value for `(i, j)` whether it answers from the memo or recurses; the memo stays sound, keeps its keys and gains `(i, j)` |
| `Distance.MemoInsert` | src/main.rs:77 | storing the recurrence's own value at `(i, j)` keeps every memo entry equal to the recurrence |
| `Distance.EditDistance` | src/main.rs:57-81 | starting `inner` at the full byte lengths with an empty memo yields the Levenshtein distance of the two strings |
| `Suggest.Matches` | src/main.rs:44-51 | the keys the scan accepts are exactly the iterated keys meeting the match condition, without repeats when the order has none |
| `Suggest.MatchesPrefix` | src/main.rs:44-51 | what a partial scan has accepted is a prefix of what the full scan accepts |
| `Suggest.SuggestWords` | src/main.rs:41-55 | the result is the first `limit` accepted keys in iteration order, sorted ascending without repeats; it holds at most `limit` words (none when `limit` is 0), each a dictionary key within one edit of `word` or starting with it |
| `Suggest.SuggestionsProperties` | src/main.rs:44-54 | every suggestion is a qualifying key; the list is strictly ascending; its length is `limit` or the number of qualifying keys, whichever is smaller |
| `Suggest.SuggestionsComplete` | src/main.rs:44-54 | when at most `limit` keys qualify, a word is suggested if and only if it is a qualifying key |
| `Suggest.SuggestionsOrderIndependent` | src/main.rs:44-54 | when at most `limit` keys qualify, every iteration order of the same map gives the same list |
| `Words.Insert` | src/main.rs:46 | inserting into a sorted list keeps it sorted, adds exactly the one word to its multiset, and keeps it free of repeats when the word was new |
| `Words.Sort` | src/main.rs:53 | the sorted list is ascending, a permutation of the input, and free of repeats when the input was |
| `Words.StrictlySortedUnique` | src/main.rs:53 | two strictly ascending lists with the same words are equal, so the result does not depend on the sorting algorithm or the input order |
| `Words.LessTotal` | src/main.rs:53 | byte-lexicographic order relates any two distinct strings |
| `Words.LessTransitive` | src/main.rs:53 | byte-lexicographic order is transitive |
| `Words.PrefixIsLess` | src/main.rs:53 | a proper prefix sorts before the longer string |
| `Dictionary.LoadKeys` | src/main.rs:30-38 | the keys of the loaded map are exactly the words of the records |
| `Dictionary.LoadFirstWins` | src/main.rs:34-35 | each word maps to the first record that carries it |
| `Dictionary.LoadAbsent` | src/main.rs:34-35 | a word that no record carries is not a key |
| `Dictionary.LoadKeepsFirst` | src/main.rs:32-37 | records that come later never change or remove an entry made by earlier ones |
| `Dictionary.LoadIgnoresDuplicate` | src/main.rs:34-35 | a record whose word is already present leaves the map unchanged |
| `Dictionary.LoadDictionary` | src/main.rs:29-39 | loading fails exactly when some row does not deserialise, and then reports the first such row; otherwise every row is a record and the map is the first-wins fold over them in order |
| `Examples.KittenSitting` | src/main.rs:67-75 | "kitten" and "sitting" are three edits apart |
| `Examples.FlawLawn` | src/main.rs:67-75 | "flaw" and "lawn" are two edits apart |
| `Examples.BatNearCat` | src/main.rs:49 | "bat" is accepted for the query "cat" (one substitution) |
| `Examples.DogFarFromCat` | src/main.rs:49 | "dog" is rejected for the query "cat": three edits away and not an extension |
| `Examples.CatSuggestions` | src/main.rs:41-55 | for {cat, cats, bat, dog} and limit 10, the query "cat" gives [bat, cat, cats] in every iteration order |
| `Examples.FirstFoundWins` | src/main.rs:44-48 | with limit 1 and both bat and cat qualifying, the key met first is the one returned, so the result depends on the iteration order |

## Left out

- The HTTP layer: the `lookup` handler, axum routing, JSON responses, `State`, `Arc` and `tokio::main` (src/main.rs:83-119). This is plumbing with no algorithmic content, and it includes the `to_ascii_lowercase` of the requested word (src/main.rs:94).
- Opening the CSV file and deserialising its rows with serde (src/main.rs:31-33) are foreign library calls.
  - Each row is abstracted as either `Parsed(record)` or `Malformed`.
  - A failure to open the file is not modelled.
  - The error a failing row carries is reduced to the row's index.
- Hashing: a `HashMap` is a Dafny `map`. Its unspecified iteration order is a parameter of `Suggest.SuggestWords`, and the dictionary's order is not derived from any hash function.
- `usize` width: every value the distance takes is at most the longer byte length, and the collection never exceeds the number of keys, so no computation here overflows. Integers are unbounded.
- Rust's sorting algorithm: `Vec::sort` is specified by its result. For distinct keys, `Words.StrictlySortedUnique` makes that result unique.
- Call-stack depth: `inner` recurses up to `|a| + |b|` deep, and a very long string can overflow the thread's stack. The model has no stack.
- The triangle inequality of edit distance: the code does not depend on it, and it is not stated.
- Record fields other than `word` are carried along without being inspected.
