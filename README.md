# JsonGoDB engine, modelled in Dafny

JsonGoDB is a single PHP class. It keeps one collection of documents (JSON objects) in memory, mirrors it to a JSON file, and offers:

- `insert`, `find`, `findOne`, `update`, `remove` and `count`
- `ensureIndex`, a per-field index that nothing reads

This project models the in-memory engine of that class:

- **`Documents`**: JSON values, documents, queries, and what it means for a document to match a query. A field the document lacks reads as null.
- **`Sequences`**: order-preserving selection over a sequence, and models of the two PHP builtins `remove` relies on (`array_search` and `array_splice`). Everything here is generic in the element type.
- **`Queries`**: what `find` returns, what `remove` keeps, and the per-document match loop of `find`.
- **`Index`**: the per-field grouping that `ensureIndex` builds.
- **`Store`**: the class itself. `data` is the collection and `indexes` the built indexes. The ghost field `disk` is the collection as last written to the file.

Every method that changes the collection writes the file and ends with `disk == data`. `ensureIndex` changes only the indexes and does not write the file.

Points where the code's behaviour is easy to misread:

- **Missing fields.** `$doc[$key]` on a missing key yields null, so the query `{f: null}` matches a document without `f` (`Documents.Field`, `Documents.MissingFieldReadsNull`). A reader might expect a missing field never to match.
- **Removal.** `remove` locates each match by full-value equality (`array_search`), so of two equal documents it cuts the first one still present. The model proves the outcome: exactly the non-matching documents remain, in order.
- **`update`.** As written, `update` changes no stored document: the patch goes into the loop variable of a by-value `foreach`. The model keeps that behaviour and records it under Findings.
- **Index keys.** The model turns field values into index keys by this rule (`Index.BucketKey`): null becomes `""`, booleans become `0`/`1`, integers stay integers and strings stay strings, and lists and objects get a key of their own where PHP aborts. PHP also turns decimal-integer strings such as `"5"` into the integer key `5`; the model does not (see "## Left out").

## Model

| member | source | states |
|---|---|---|
| Documents.Stamp | jsonGoDB.php:28-32 | the stored document has the caller's fields plus `_id`, `_id` holds the generated id, and every other field is unchanged |
| Documents.MissingFieldReadsNull | jsonGoDB.php:47-48 | reading a missing field (`Documents.Field`) gives null: a document lacking a field matches a query on that field exactly when the queried value is null |
| Queries.MatchDoc | jsonGoDB.php:46-52 | the inner loop of `find`, which stops at the first mismatch, answers true exactly when the document matches the query |
| Queries.FilterExact | jsonGoDB.php:42-58 | the result of `find` holds exactly the matching documents of the collection, each of them matches, and they appear in collection order (a subsequence) |
| Queries.FilterEmptyQuery | jsonGoDB.php:42-58 | the empty query selects the whole collection and leaves nothing unselected |
| Queries.RejectExact | jsonGoDB.php:82-92 | what `remove` keeps is exactly the non-matching documents, in order, \|find(q)\| fewer than before, and as a multiset the collection minus the matches |
| Queries.RemoveDone | jsonGoDB.php:86-89 | when no match is left ahead of the removal loop, what it holds is the non-matching part of the original collection, of size \|data\| - \|find(q)\| |
| Sequences.ArraySearch | jsonGoDB.php:87 | `array_search` returns none exactly when the needle is absent; otherwise it returns the first position holding the needle |
| Sequences.Splice | jsonGoDB.php:88 | `array_splice(s, offset, 1)` removes exactly the element at `offset`, keeps the parts before and after, and changes nothing when `offset` is past the end |
| Sequences.FirstMatch | jsonGoDB.php:108-110 | the first position whose element is selected: it passes, and nothing before it does |
| Sequences.FirstMatchSplit | jsonGoDB.php:108-110 | the first selected element sits at FirstMatch, and what is selected after it is the rest of the selection |
| Sequences.SearchRound | jsonGoDB.php:86-87 | in each round of the removal loop, `array_search` for the next match succeeds (it never returns false) at a position computed from the documents already processed |
| Sequences.SpliceRound | jsonGoDB.php:86-88 | splicing at that position removes exactly that match, and the matches still ahead are the remaining ones |
| Sequences.RemoveRound | jsonGoDB.php:86-89 | one whole round of the removal loop (search, then splice) keeps the loop invariant |
| Sequences.FilterPartition | jsonGoDB.php:82-92 | every document lands in exactly one of the matched and the kept parts, by count and by multiset |
| Sequences.FilterIsSubsequence | jsonGoDB.php:42-58 | both the matched part and the kept part keep collection order |
| Sequences.FilterMembership | jsonGoDB.php:42-58 | an element is selected exactly when it occurs and passes the test, and is kept exactly when it occurs and fails it |
| Store.JsonGoDB.constructor | jsonGoDB.php:14-22 | opening loads the stored collection, or the empty one when there is no file; there are no indexes; the file holds the loaded collection |
| Store.JsonGoDB.UpdateFile | jsonGoDB.php:143-145 | the file afterwards holds exactly the in-memory collection |
| Store.JsonGoDB.Insert | jsonGoDB.php:28-35 | the collection grows by one at the end, with the earlier documents unchanged and the last one being the document stamped with the fresh `_id`; indexes are not touched; the file is written |
| Store.JsonGoDB.Find | jsonGoDB.php:42-58 | returns the matching documents of the collection in order; the result does not depend on any index |
| Store.JsonGoDB.Update | jsonGoDB.php:65-76 | as written, the collection and the indexes are unchanged and the file is rewritten with the same collection |
| Store.JsonGoDB.UpdateInPlace | jsonGoDB.php:65-76 | intended update: the collection becomes Patched(old collection), and the file is written |
| Store.PatchedEffect | jsonGoDB.php:65-76 | the intended update keeps size and order; every document that matched has exactly its own fields plus the patch's, holds the patch values and keeps its other fields; every other document is unchanged |
| Store.UpdateLostExample | jsonGoDB.php:69-73 | for documents aged 5 and 6 and an update of age 5 to 10, the as-written update leaves no document with age 10, where the intended update leaves exactly one |
| Store.JsonGoDB.Remove | jsonGoDB.php:82-92 | the collection becomes exactly its non-matching documents in order, \|find(q)\| fewer; indexes are untouched; the file is written |
| Store.JsonGoDB.Count | jsonGoDB.php:98-100 | the count equals the size of `find` with the empty query |
| Store.JsonGoDB.FindOne | jsonGoDB.php:107-114 | returns none exactly when no document matches; otherwise returns the document at the first matching position |
| Store.JsonGoDB.EnsureIndex | jsonGoDB.php:119-131 | an existing index on the field is kept as it is, however stale; otherwise the index built from the current collection is added; the collection and the file are untouched |
| Store.JsonGoDB.BuildIndex | jsonGoDB.php:122-128 | the build loop yields the grouping of the whole collection by the field's key |
| Index.KeyCollisions | jsonGoDB.php:123-127 | the array key a value is filed under (`Index.BucketKey`): two values share a bucket exactly when they are equal or are null and `""`, `false` and `0`, or `true` and `1` |
| Index.GroupByAppend | jsonGoDB.php:123-127 | one step of the build loop appends the document to the bucket of its key, creating the bucket when the key is new |
| Index.GroupByBuckets | jsonGoDB.php:119-131 | the index has a bucket for exactly the keys some document has, and each bucket is the documents with that key, in collection order |
| Index.EveryDocIndexed | jsonGoDB.php:119-131 | every document is in the bucket of its own key |
| Index.GroupBySizes | jsonGoDB.php:119-131 | the bucket sizes sum to the size of the collection |
| Index.IndexGoesStale | jsonGoDB.php:28-35 | an index built before an insert differs from the one the new collection would give, and describes one document fewer |

## Left out

- File I/O. The file's contents and `json_encode`/`json_decode` are left out. The file is the ghost field `disk`, and opening takes the decoded collection (or none, when there is no file) as a parameter.
- `drop` (`unlink` of the file) is not part of this model. It only touches the file system.
- A corrupt or non-array file (`json_decode` returning null) is not modelled. The constructor receives an already decoded collection.
- `uniqid` is not modelled. The generated id is a parameter of `Insert`, so nothing is proved about uniqueness.
- PHP's loose comparison (`!=`), in the query loop and in `array_search`, is modelled as structural equality. Under loose comparison, for example, a missing field (null) also equals `0`, `""` and `false`.
- Floating-point numbers are not modelled: JSON numbers are integers.
- JSON objects (`JObj`) and lists (`JArr`) are distinct values in the model. `json_decode(..., true)` turns both into PHP arrays, so PHP cannot tell an empty object from an empty list, or an object keyed "0".."n-1" from a list; in the query loop and in `array_search` such values compare equal in PHP and unequal in the model.
- Index keys for lists and objects: the model files such a value under a bucket of its own (`ValueKey`) and goes on. In the source, `array_key_exists` with a list or object key aborts `ensureIndex` with a TypeError in PHP 8 (PHP 7 warns and skips that document). By then `$this->indexes[$field]` already exists and holds the buckets of the earlier documents; this partial index stays, and every later call keeps it.
- Numeric strings are not converted to integer keys (PHP files `"5"` under the integer key `5`).
- Store.JsonGoDB.EnsureIndex: the loop builds the buckets in a local map and stores it once the loop ends, where the source writes into `$this->indexes[$field]` at each step. The two differ only when the loop is aborted part-way, which the model does not capture (see the line above).
- Reading a missing field with `$doc[$key]` (lines 48 and 124) also emits a PHP notice or warning; the model reads null silently.
- Store.JsonGoDB.FindOne: modelled as a function over `find`'s specification rather than as a call of the `Find` method.
- Concurrency and failures of file writes are out of scope. Every call runs to completion.

## Findings

| source | as written | input that shows it | evidently intended | confidence | as-written member | corrected member |
|---|---|---|---|---|---|---|
| jsonGoDB.php:69-73 | `update` writes the patch into `$match`, the by-value loop variable over the array `find` returned, so no stored document changes | documents `{age: 5}` and `{age: 6}`, query `{age: 5}`, patch `{age: 10}`: afterwards no document has age 10 | every matching document in the collection gets the patch fields | not executed | Store.JsonGoDB.Update, Store.UpdateLostExample | Store.JsonGoDB.UpdateInPlace, Store.PatchedEffect |
