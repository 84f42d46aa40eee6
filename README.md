# Game of Thrones character pipeline, in Dafny

GameOfThronesWiki is an Express server. It builds one list of characters out of two public
sources: the Thrones API, a single list, and the Ice & Fire API, paginated. It normalises the
records of each source into one character shape and merges the two lists, with Thrones records
taking priority. It numbers the result 1..N, caches it in a module-level variable, and serves
search, lookup by id and next/previous navigation over that list.

The repository holds three variants of the server:

- `app.js` makes one request per source (only page 1 of Ice & Fire, 50 records). It merges through an insertion-ordered `Map` keyed
  by the lower-cased full name, without trimming.
- `backend/app.js` and `pruebas/app.js` fetch a fixed number of Ice & Fire pages in order. They
  drop every Ice & Fire record whose lower-cased, trimmed name is already a Thrones name. Their
  core code is the same, so one module models both.

The model has five modules:

- `Js` (js.dfy) models the JavaScript semantics the pipeline relies on:
  - `||` on possibly absent strings;
  - template literals that print an absent property as "undefined";
  - `toLowerCase`, `trim`, `split`, `join`, `includes`;
  - `parseInt` without a radix, and `String(n)`.
- `Characters` (characters.dfy) holds the raw record shapes of both sources and the normalised
  `Character`. It also holds the list operations the routes use: renumbering, `findIndex`,
  `find`, `filter`, lookup with `===` (NaN is `None`, and it equals nothing), and the
  wrap-around index arithmetic.
- `GalleryApp` (gallery.dfy) models `app.js`:
  - the two normalisers;
  - the `Map` as a class filled in place by two loops (`MergeCharacters`);
  - a reference description of the merge result, as the Thrones keys and then the new Ice & Fire
    keys, each once, with the winner for each key;
  - the cache as a class;
  - the substring search and the navigation route.
- `PagedApp` (paged.dfy) models the paginated variants:
  - the normalisers;
  - the page loop as a method proved against a recursive definition of the fetched pages;
  - the Set-based merge;
  - the cache class, which assigns `mergedCharacters` twice;
  - lookup by `String(id)` (backend) and exact-name search (pruebas);
  - navigation that validates the direction.
- `Variants` (variants.dfy) proves where the two families answer differently for the same list.

In the model, each HTTP request is an input:

- `Option<seq<…>>` for a single request, where `None` is a rejected request;
- a function `int -> Option<seq<RawIce>>` from page number to answer for the paginated source.

## Model

| member | source | states |
|---|---|---|
| Js.TrimStart | app.js:52 | drops exactly the leading JavaScript white space: the result is a suffix of the input, everything removed is white space, and the result does not start with white space |
| Js.TrimEnd | app.js:52 | drops exactly the trailing white space: the result is a prefix, everything removed is white space, and the result does not end with white space |
| Js.Trim | app.js:52 | `trim()` gives a string no longer than its input that neither starts nor ends with white space |
| Js.TrimIsSlice | app.js:52 | the trimmed string is a slice of the input with only white space before it and after it |
| Js.TrimIdempotent | app.js:52 | trimming a trimmed string changes nothing |
| Js.TrimTrailingBlank | pruebas/app.js:152-153 | a trailing blank makes no difference once trimmed, for a string that does not start with white space |
| Js.ToLower | app.js:205 | `toLowerCase()` keeps the length, leaves no capital A-Z, turns each capital into its small letter and keeps every other character |
| Js.ToLowerTrailingBlank | app.js:205 | lower-casing keeps the length, keeps a trailing blank, and never turns a first character into white space |
| Js.Split | backend/app.js:109-110 | `split` gives at least one piece, and no piece contains the separator |
| Js.JoinSplit | backend/app.js:110 | joining the pieces of a split with the separator gives the original string |
| Js.SplitJoin | backend/app.js:110 | splitting a join of separator-free pieces gives those pieces back |
| Js.SplitConcat | backend/app.js:109-110 | splitting at a separator splits the two sides independently |
| Js.SplitNoSeparator | backend/app.js:110 | a string without the separator splits into itself alone |
| Js.JoinEnds | backend/app.js:116 | a join starts with its first piece and ends with its last piece |
| Js.SplitLast | backend/app.js:109 | the last piece of a split is the suffix after the last separator, and the whole string when there is no separator |
| Js.LastSegment | backend/app.js:109 | `split('/').pop()` is a suffix without '/'; when it is shorter than the input the character before it is '/' |
| Js.LastSegmentAfter | backend/app.js:109 | `split('/').pop()` of `prefix + "/" + seg` is `seg` when `seg` has no '/' |
| Js.IndexOfChar | backend/app.js:110 | the position of the first occurrence of a character, with no occurrence before it |
| Js.SplitAtFirst | backend/app.js:115-116 | the first piece is everything before the first separator, and the rest rejoined is everything after it |
| Js.DigitPrefix | backend/app.js:113 | `parseInt` reads the longest prefix of digits: a prefix made of digits of the base, followed by the end of the input or by a character that is not such a digit |
| Js.NatToString | backend/app.js:32 | `String(n)` of a non-negative number is a non-empty string of decimal digits |
| Js.NatToStringValue | backend/app.js:32 | the digits of `String(n)` have the value n |
| Js.DigitPrefixAll | backend/app.js:113 | a string of decimal digits is its own digit prefix |
| Js.ParseInt | app.js:103 | `parseInt` gives a number only when the input holds a decimal digit; an input that starts with something other than white space, a sign or a digit is NaN |
| Js.ParseNatToString | app.js:103 | `parseInt(String(n)) === n` |
| Js.NatToStringInjective | backend/app.js:32 | distinct ids print as distinct strings |
| Js.Includes | app.js:59 | `includes`: an included term is no longer than the string; the empty term and the string itself are always included |
| Characters.Renumber | app.js:215-218 | the same number of characters; the i-th carries id i + 1 and is otherwise the i-th input character |
| Characters.RenumberIds | app.js:215-218 | after renumbering the ids are exactly 1..N in list order, whatever they were, and every other property is kept |
| Characters.RenumberConcat | backend/app.js:158-164 | renumbering a concatenation numbers its second part on from the length of the first |
| Characters.RenumberIgnoresIds | backend/app.js:161-164 | renumbering ignores the incoming ids and is idempotent |
| Characters.IndexWhere | app.js:142 | `findIndex`: -1 exactly when nothing matches, otherwise the first matching index |
| Characters.Find | app.js:105 | `find`: undefined exactly when no element satisfies the predicate; otherwise an element of the list satisfying it, with none satisfying it before |
| Characters.Filter | app.js:199 | `filter` keeps only elements satisfying the predicate, and keeps every one of them |
| Characters.FilterConcat | backend/app.js:153-155 | filtering keeps relative order: it distributes over concatenation |
| Characters.FilterAll | app.js:58-60 | a filter whose predicate always holds keeps the whole list |
| Characters.FilterNone | backend/app.js:153-155 | a filter whose predicate never holds keeps nothing |
| Characters.FilterSingle | app.js:58-60 | when the filter keeps a single element, every element satisfying the predicate is that element |
| Characters.JoinOr | backend/app.js:120-121 | the filtered join with a fallback is the fallback exactly when no entry is non-empty; otherwise it is the non-empty entries joined, and never empty |
| Characters.IndexOfId | app.js:142 | `findIndex(char => char.id === id)`: -1 exactly when no id equals `id`, otherwise the first index whose id does; NaN is never found |
| Characters.FindByIdParam | app.js:103-105 | no character exactly when no id equals the parsed parameter; a found character is in the list and has that id; a parameter that is not a number finds nothing |
| Characters.IndexOfIdRenumbered | app.js:142 | in a renumbered list the id k sits at index k - 1; an id outside 1..N, or NaN, is not found |
| Characters.FindByIdParamRenumbered | app.js:103-105 | looking up the text of k with `parseInt` in a renumbered list finds its k-th character, and finds nothing outside 1..N |
| Characters.NextIndex | app.js:149 | `(i + 1) % n` stays in [0, n) and wraps from the last index to 0 |
| Characters.PrevIndexWrap | app.js:150 | `(i - 1 + n) % n` stays in [0, n) and wraps from 0 to the last index |
| Characters.PrevIndex | backend/app.js:193 | `i === 0 ? n - 1 : i - 1` stays in [0, n) |
| Characters.StepsInverse | backend/app.js:190-194 | both backward steps agree, and a step forward and a step back undo each other |
| GalleryApp.MapThronesCharacter | app.js:164-172 | a truthy `fullName` is kept, otherwise it is the interpolated first and last names, so it is never empty; a truthy `imageUrl` is the image, otherwise null; a truthy title is kept, otherwise "Sin títulos"; the family is `family` or "Casa desconocida", `born` or "Desconocido", `died` or "N/A"; aliases are "N/A"; no id, source, crest, first or last name |
| GalleryApp.MapIceFireCharacter | app.js:175-183 | the full name is the record's name; titles are the non-empty titles joined with ", " or "Sin títulos", aliases the non-empty aliases joined or "Sin alias", both never empty; the family is "N/A" and the image null; `born` or "Desconocido", `died` or "N/A"; no id, source, crest, first or last name |
| GalleryApp.ThronesChars | app.js:198 | one normalised character per raw Thrones record, in order |
| GalleryApp.IceFireChars | app.js:199 | no more characters than records, and none with an empty name |
| GalleryApp.IceFireCharsNamed | app.js:199 | each character comes from a record with a truthy name, and each such record is normalised: nameless records never reach the merge |
| GalleryApp.IceFireCharSource | app.js:199 | each normalised Ice & Fire character is the normalisation of a record with a truthy name |
| GalleryApp.IceFireCharsComplete | app.js:199 | every record with a truthy name is normalised into the list |
| GalleryApp.IceFireCharsConcat | app.js:199 | normalisation keeps response order: the characters of two runs of records are those of the first run followed by those of the second |
| GalleryApp.IceFireCharsSingle | app.js:199 | one record gives exactly its normalisation when its name is truthy, and nothing otherwise |
| GalleryApp.Key | app.js:205 | the app.js merge key is exactly as long as the full name: it is lower-cased but not trimmed |
| GalleryApp.InsertionMap.Put | app.js:205 | `map.set` keeps the keys distinct and stores the value under its key |
| GalleryApp.InsertionMap.Values | app.js:215 | `Array.from(map.values())` has one value per key |
| GalleryApp.CharacterMap.constructor | app.js:202 | `new Map()` is empty |
| GalleryApp.CharacterMap.Has | app.js:209 | `map.has(k)` holds exactly when k has been set |
| GalleryApp.CharacterMap.Set | app.js:205 | `map.set(k, v)` in place: a new key goes last, an existing key keeps its place and takes the new value |
| GalleryApp.CharacterMap.SetEach | app.js:205 | the first `forEach` leaves the Map as `SetAll` of the records over the Map it started from |
| GalleryApp.CharacterMap.AddEachAbsent | app.js:208-212 | the second `forEach` leaves the Map as `AddAbsent` of the records over the Map it started from |
| GalleryApp.SetAll | app.js:205 | after the first `forEach` the Map is still well formed (distinct keys, exactly the stored ones) and has gained at most one key per record |
| GalleryApp.AddAbsent | app.js:208-212 | after the guarded `forEach` the Map is still well formed and has gained at most one key per record |
| GalleryApp.AddAbsentKeeps | app.js:209-211 | the guarded loop never overwrites: a key already in the Map keeps its value, and every key added is the key of one of the records |
| GalleryApp.GalleryMerge | app.js:201-218 | the cached list has at most one character per record of the two sources, numbered 1..N |
| GalleryApp.MergeCharacters | app.js:202-218 | the two `forEach` loops over a fresh Map, then numbering from 1, produce exactly `GalleryMerge` |
| GalleryApp.Dedup | app.js:205-212 | each key once, in order of first occurrence: same membership, pairwise distinct |
| GalleryApp.LastWithKey | app.js:205 | the last record with a key exists exactly when the key occurs, and has that key |
| GalleryApp.FirstWithKey | app.js:208-211 | the first record with a key exists exactly when the key occurs, and has that key |
| GalleryApp.Winner | app.js:204-212 | the record that ends up under a key has that key |
| GalleryApp.SetAllContents | app.js:204-205 | after the Thrones loop the Map holds each key once, in order of first occurrence, with the value of its last occurrence |
| GalleryApp.AddAbsentContents | app.js:207-212 | after the Ice & Fire loop the keys are those of both sources, once each, in order of first occurrence; a Thrones key keeps its last Thrones record, a new key gets its first Ice & Fire record |
| GalleryApp.MergedMap | app.js:202-212 | after both loops the Map holds each key of the two sources once, in order of first occurrence, with its winning record |
| GalleryApp.RenumberValues | app.js:215-218 | numbering the Map values gives one character per key, in key order, the i-th carrying id i + 1 |
| GalleryApp.GalleryMergeContents | app.js:201-218 | the i-th merged character is the winner of the i-th distinct key, numbered i + 1 |
| GalleryApp.GalleryKeysDistinct | app.js:201-212 | merged characters have pairwise-distinct lower-cased names |
| GalleryApp.GalleryKeysPresent | app.js:204-212 | a lower-cased name occurs in the output exactly when some record of either source has it |
| GalleryApp.GalleryThronesWins | app.js:207-212 | a Thrones and an Ice & Fire record with the same lower-cased name give the Thrones record alone |
| GalleryApp.GalleryThronesPriority | app.js:204-212 | every merged character whose key some Thrones record has is the last such Thrones record, renumbered; any other is the first Ice & Fire record with its key, renumbered |
| GalleryApp.DedupPrefix | app.js:205-212 | the distinct keys of a prefix are a prefix of the distinct keys of the whole |
| GalleryApp.GalleryThronesFirst | app.js:204-215 | the output starts with the Thrones keys in order of first occurrence, and no later character has a Thrones key |
| GalleryApp.Gallery.constructor | app.js:22 | the cache starts empty |
| GalleryApp.Gallery.GetMergedCharacters | app.js:185-227 | a cached list is returned unchanged; with both answers it merges and caches the result, an empty one included; a failed request gives [] and leaves the cache unset |
| GalleryApp.TwoRequests | app.js:186-188 | after a successful first call the second returns the same list whatever the sources answer; after a failure the first gets [] and the second fetches again |
| GalleryApp.Matches | app.js:58-60 | the matches are exactly the characters whose lower-cased name contains the term; none matches exactly when the result is empty |
| GalleryApp.Search | app.js:49-87 | the search term is the lower-cased, trimmed name; several matches, one match (then it is the only one), or none exactly when no name contains the term |
| GalleryApp.SearchBlankMatchesAll | app.js:52-60 | a blank search term matches every character: the whole list when there are several, the only character when there is one, no match for an empty list |
| GalleryApp.Navigate | app.js:137-152 | 404 exactly when no character has the parsed id; otherwise some character of the list; never a 400 |
| GalleryApp.NavigateFromRank | app.js:142-150 | on a numbered list an id that parses to k is found at position k - 1, and the route steps forwards or backwards from there |
| GalleryApp.NavigateNextRenumbered | app.js:142-150 | on a numbered list "next" from character k reaches k + 1, and the last wraps to the first |
| GalleryApp.NavigateBackRenumbered | app.js:142-150 | on a numbered list any direction other than "next" from character k reaches k - 1, and the first wraps to the last |
| GalleryApp.NavigatePrevUndoesNext | app.js:142-150 | on a numbered list "prev" from the character after k (the first one, after the last) comes back to k |
| PagedApp.MapThrones | backend/app.js:75-88 | a truthy `fullName` is kept, otherwise it is "first last" interpolated, never empty; the id is the record's and the source "thrones"; the first name is `firstName` or "Unknown", the last name `lastName` or ""; the image is `imageUrl`, else `image`, else null; the crest is `imageUrl` or null; the titles follow `ThronesTitles`; `born` or "Unknown", `died` or "N/A", `aliases` or "No aliases", `family` or "Unknown" |
| PagedApp.ThronesTitles | backend/app.js:83 | an array title is joined with ", "; a non-empty string is kept; an absent or empty title becomes "No title" |
| PagedApp.ThronesNameFallback | backend/app.js:78-80 | without a full name it is "first last"; with no names at all the first name is "Unknown" but the full name is "undefined undefined" |
| PagedApp.ThronesTitleCases | backend/app.js:83 | an array title is joined with ", " (an empty array gives ""); an empty scalar title gives "No title" |
| PagedApp.MapIce | backend/app.js:108-125 | the full name is the record's name; the source is "iceandfire" with no image or crest; titles are the non-empty titles joined with ", " or "No title", aliases likewise or "No aliases", both never empty; `born` or "Unknown", `died` or "N/A"; the family is "See allegiances" when there are allegiances and "Unknown" otherwise |
| PagedApp.IceNameSplit | backend/app.js:110-116 | a name without a space is all first name; otherwise the first name is the text before the first space ("Unknown" if that is empty) and the last name is all the text after it |
| PagedApp.IceIdFromUrl | backend/app.js:109-113 | a url ending in "/" followed by the digits of n gives id n; a url ending in "/" gives NaN |
| PagedApp.ThronesCharacters | pruebas/app.js:121-129 | a failed request gives []; otherwise one normalised character per record, in order |
| PagedApp.NamedIce | pruebas/app.js:137-141 | no more characters than records; every one has a non-empty name and the source "iceandfire" |
| PagedApp.NamedIceNamed | pruebas/app.js:137-141 | each output is the normalisation of a record with a truthy name, and every such record is normalised into the output |
| PagedApp.NamedIceSource | pruebas/app.js:141 | each output is the normalisation of a record with a truthy name |
| PagedApp.NamedIceComplete | pruebas/app.js:141 | every record with a truthy name is normalised into the output |
| PagedApp.NamedIceConcat | pruebas/app.js:137-141 | normalisation keeps page order: the characters of two runs of records are those of the first run followed by those of the second |
| PagedApp.NamedIceSingle | pruebas/app.js:137-141 | one record gives exactly its normalisation when its name is truthy, and nothing otherwise |
| PagedApp.FetchedPages | backend/app.js:101-104 | no pages give no records; records are only returned when every requested page answered |
| PagedApp.FailureSticks | backend/app.js:127-130 | once a page fails, every longer run of pages fails |
| PagedApp.FetchedPagesSucceed | pruebas/app.js:133-136 | fetching pages 1..n succeeds exactly when every one of those pages answers |
| PagedApp.FetchedPagesInOrder | backend/app.js:101-104 | pages are appended in page order: the records of the first m pages are a prefix of those of the first n, followed by page m + 1's records |
| PagedApp.FetchedPagesCount | pruebas/app.js:130-136 | with `size` records on every page, n pages give n * size records |
| PagedApp.GetIceAndFireCharacters | pruebas/app.js:130-146 | requests pages 1, 2, … in order; on success exactly `pages` requests and the normalised named records; on the first failure it stops after that page and returns [] |
| PagedApp.IceCharacters | pruebas/app.js:130-146 | a failed page gives []; otherwise at most one character per fetched record, each with a non-empty name and the source "iceandfire" |
| PagedApp.IceCharactersStep | pruebas/app.js:132-141 | the characters of page n + 1 come right after those of pages 1..n, in page order |
| PagedApp.MergeKey | backend/app.js:149 | the trimmed, lower-cased key is no longer than the name and neither starts nor ends with white space |
| PagedApp.ThronesNames | backend/app.js:148-150 | the name set holds exactly the trimmed, lower-cased Thrones names |
| PagedApp.UniqueIce | backend/app.js:153-155 | no more survivors than Ice & Fire records; each survivor is one of them, and its key is not a Thrones name |
| PagedApp.SetMerge | backend/app.js:158-164 | all Thrones records come first, in order, numbered from 1; at most one character per record; ids are 1..N |
| PagedApp.UniqueIceIff | backend/app.js:153-155 | an Ice & Fire record survives exactly when its trimmed, lower-cased name is not a Thrones name |
| PagedApp.SetMergeContents | backend/app.js:148-164 | the output is all Thrones records in order, numbered from 1, then the surviving Ice & Fire records in order, numbered on, none with a Thrones name |
| PagedApp.SetMergeThronesWin | pruebas/app.js:152-155 | a merged character with a Thrones name is the Thrones record at that position |
| PagedApp.UniqueIceInOrder | pruebas/app.js:153 | the filter keeps Ice & Fire order: it distributes over concatenation |
| PagedApp.SetMergeNoClash | backend/app.js:148-158 | with no shared names every record of both sources is kept, repeated names within a source included |
| PagedApp.SetMergeAllClash | backend/app.js:153-158 | when every Ice & Fire name is already a Thrones name the output is the Thrones list alone |
| PagedApp.PagedGallery.constructor | pruebas/app.js:25 | the cache starts empty |
| PagedApp.PagedGallery.GetMergedCharacters | pruebas/app.js:147-158 | a cached list is returned unchanged; otherwise the 10-page fetch is merged, and the result is cached even when it is [] |
| PagedApp.TwoRequests | backend/app.js:135-137 | the second call returns the first call's list; if both sources fail, that list is [] |
| PagedApp.FindByIdText | backend/app.js:32 | no character exactly when no printed id equals the text; a found character is in the list and its printed id is the text |
| PagedApp.FindByIdTextSome | backend/app.js:32 | on a numbered list the text of any k in 1..N finds some character |
| PagedApp.FindByIdTextPosition | backend/app.js:32 | on a numbered list whatever a text finds is the character at the position whose number that text is |
| PagedApp.FindByIdTextRenumbered | backend/app.js:32 | on a numbered list the text of k finds the k-th character; whatever is found is found under the text of some 1..N; a text containing a non-digit finds nothing |
| PagedApp.CountRouteShadowed | backend/app.js:27-32 | the id route, registered first, answers "count" with no character |
| PagedApp.SearchByName | pruebas/app.js:53-57 | the first character whose trimmed, lower-cased name equals the trimmed, lower-cased query, or none exactly when no name equals it |
| PagedApp.NavigatePaged | pruebas/app.js:167-183 | 404 exactly when no character has the parsed id; otherwise 400 exactly when the direction is neither "next" nor "prev"; a move reaches a character of the list |
| PagedApp.BackendNavigate | backend/app.js:172-220 | the same outcome as `NavigatePaged`: each move goes to the character `NavigatePaged` reaches, with its `source` left out |
| PagedApp.NavigatePagedFrom | backend/app.js:178-199 | on a numbered list an id that parses to k is found at position k - 1; "next" and "prev" step from there and every other direction is a 400 |
| PagedApp.NavigatePagedRenumbered | backend/app.js:178-199 | on a numbered list "next" from k reaches k + 1, "prev" from k + 1 reaches k (both wrapping), and any other direction is a 400 |
| Variants.NavigationAgrees | app.js:148-150 | for "next" and "prev" both route families move to the same character; for any other direction app.js steps back, and the paginated variants answer 400 exactly when app.js does not answer 404 |
| Variants.IdLookupDiffers | backend/app.js:32 | "12abc" finds character 12 through `parseInt` but nothing through `String(id)` |
| Variants.GalleryKeepsBoth | app.js:205-211 | app.js keeps a Thrones and an Ice & Fire record whose lower-cased names differ as two characters |
| Variants.TrailingBlankKeys | pruebas/app.js:152-153 | a name and the same name with a trailing blank have different app.js keys and equal trimmed keys |
| Variants.ClashesWithThrones | pruebas/app.js:152-153 | a record whose trimmed, lower-cased name equals a Thrones record's is in the Thrones name set |
| Variants.PagedMergesOne | pruebas/app.js:152-155 | two records with the same trimmed, lower-cased name merge into the Thrones record alone |
| Variants.MergeKeyDiffers | pruebas/app.js:152-153 | a name such as "Jon Snow" and the same name with a trailing blank are two characters in app.js, which does not trim the key, and one in the paginated variants, which do |

## Left out

- HTTP: `axios.get`, `Promise.all`, `res.render`, `res.json` and status codes. Each answer is an input, and each route outcome is a small datatype: `NavResult` and `SearchOutcome`.
- `console.log` and `console.error`; the startup preload in `app.listen` (app.js:231-234); the client-side scripts.
- `decodeURIComponent`: the search functions take the decoded name as their input.
- `toLowerCase` folds only the ASCII letters A-Z, because Unicode case mapping is out of scope.
- `parseInt` reads digits into an unbounded integer. Precision loss beyond 2^53, `Infinity` and exponent forms are not modelled.
- backend/app.js cannot run as written. It uses `app` at line 12 before declaring it at line 18, its page loop reads an undeclared `pages` (line 101), `mergedCharacters` is never declared (line 135), and its id and count routes call a missing `getAllCharacters` (lines 30 and 57). The model makes the page count the parameter, as pruebas/app.js:130 has it. It declares the cache as a field, and gives the id route the merged list.
- The count route of both paginated variants only returns the length of the list, so it is not modelled. The shadowing of the backend count route by its id route is modelled (`PagedApp.CountRouteShadowed`).
- A missing `titles`, `aliases`, `allegiances` or `url` would make the JavaScript throw a `TypeError`. The raw types give those fields as always present, so these crashes are not modelled.
- A property that is absent, `null` or `undefined` is `None` in every case. The model does not tell them apart: a `None` name always interpolates as "undefined", where a JavaScript `null` would print "null".
- The merge key of app.js is not trimmed and the paginated variants keep duplicate names within one source. The model follows that code. It also stops after a fixed number of pages rather than at the first empty page.
- Requests are modelled one after another. Two overlapping first requests would both find the cache empty and both fetch (app.js:186, pruebas/app.js:148), and the later assignment would win. The cache classes do not model that interleaving.
