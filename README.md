# Earth View data: a model of `app.ts` in Dafny

`app.ts` is a browser script for the Earth View with Google site. It
starts at the API path in the `data-photo-api` attribute of the page's
"Next image" element, follows the site's chain of `nextApi` links and
collects every photo record until the chain loops back to a record it
already has. It projects each photo to a reduced record: the country and
region, the coordinates, and the title without its " – Earth View from
Google" suffix. It groups the reduced photos by their trimmed country name
into an insertion-ordered dictionary of `CountryPhotos` groups, then builds
two more dictionaries from the same groups:

- one whose keys are sorted alphabetically;
- one whose keys are sorted by decreasing group size, through
  `count||name` labels.

Each of the three dictionaries is rendered as a KML document: one folder
per country, one placemark per photo.

The project models each part in the form the script gives it:

- `Crawl.Crawl` is the `while` loop. The site is a map (`Catalog`) from API
  path to parsed response.
- `Photos` holds the photo records and the title cleaning, as pure functions.
- `Country.CountryPhotos` is a class whose methods update its fields.
- A JavaScript object used as a dictionary is an `OrderedDict.Dict`: its
  keys in insertion order, plus a map.
- `Grouping.GroupByCountry` is the `reduce` over photos. Its callback is
  `FileUnder`, which mutates existing groups and adds new ones.
- `Views` holds the two rebuilding loops and the two key orders.
- `Kml` holds the templates. They have the script's exact tabs and line
  feeds, and come with readers that take a document, folder or placemark
  apart again.
- `Export` states what the three exported documents are in terms of the
  crawled photos alone.

The JavaScript string operations the script uses are modelled in `Text`:

- `indexOf`;
- `replace` with a string pattern, which replaces the first occurrence only;
- `split` and `join`;
- `trim`, over the full ECMAScript white-space and line-terminator set;
- a count rendered in a template literal, and `Number` applied to it;
- the default `sort` order.

`Array.prototype.sort` is modelled as one fixed algorithm, an insertion
sort (`Sorting.Sort`).

## Model

| member | source | states |
|---|---|---|
| `Text.IndexOf` | app.ts:43 | `indexOf` finds the first index at which the pattern occurs, and gives -1 (None) exactly when the pattern does not occur |
| `Text.ReplaceFirst` | app.ts:44 | `replace` with a string pattern leaves a text without the pattern unchanged, and otherwise replaces only the first occurrence |
| `Text.Cut` | app.ts:206-211 | the step `split` repeats: the text before the first separator and the whole rest after it, with nothing of the separator found earlier; None exactly when the separator does not occur |
| `Text.Split` | app.ts:206-211 | `split` always yields at least one piece, and the first piece is a prefix of the text |
| `Text.FirstPieceFree` | app.ts:206-207 | the first piece of `split`, which the comparator reads as a count, holds no separator |
| `Text.SecondPieceFree` | app.ts:211 | the second piece of `split`, which the `map` reads as a name, holds no separator |
| `Text.Join` | app.ts:92 | `join`, as the document and folder templates use it, starts with the first piece |
| `Text.SplitJoin` | app.ts:206-211 | joining the pieces of a split with the same separator gives back the text |
| `Text.SplitOfJoin` | app.ts:206-211 | `split` undoes `join` in general: pieces none of which holds the separator's first character are split back into exactly the same pieces |
| `Text.Trim` | app.ts:169 | `trim` never lengthens a text, and its result neither starts nor ends with white space |
| `Text.TrimSpec` | app.ts:169 | `trim` yields the contiguous middle of the text; everything dropped before and after it is white space, and the result neither starts nor ends with white space |
| `Text.TrimStartSpec` | app.ts:169 | the leading part `trim` drops is all white space, and what remains does not start with white space |
| `Text.TrimEndSpec` | app.ts:169 | the trailing part `trim` drops is all white space, and what remains does not end with white space |
| `Text.TrimIdempotent` | app.ts:169 | trimming a trimmed name changes nothing, so a group key is its own trimmed form |
| `Text.NatToString` | app.ts:198 | a count printed in a template literal is a non-empty string of decimal digits |
| `Text.NumberOfNatToString` | app.ts:206-207 | `Number` applied to a printed count gives the count back |
| `Text.CodeUnitLessIsStrict` | app.ts:182 | the default sort order on strings, by UTF-16 code units, is irreflexive and transitive |
| `Text.CodeUnitLessTotal` | app.ts:182 | of two different strings, one comes before the other in the default sort order |
| `Text.CodeUnitsInjective` | app.ts:182 | two strings with the same UTF-16 code units are the same string |
| `Text.LexLessTotal` | app.ts:182 | of two different code-unit sequences, one comes before the other |
| `Text.LexLessTransitive` | app.ts:182 | lexicographic order on code-unit sequences is transitive |
| `Text.LexLessIrreflexive` | app.ts:182 | no code-unit sequence comes before itself |
| `Sorting.Insert` | app.ts:182 | inserting an element into a list adds exactly that element to its multiset |
| `Sorting.Sort` | app.ts:205-209 | sorting permutes its input |
| `Sorting.InsertSorted` | app.ts:182 | inserting into a sorted list keeps it sorted under a strict order |
| `Sorting.SortSorted` | app.ts:182 | under a strict order, no element of the sorted list goes before an earlier one |
| `Sorting.SortThree` | app.ts:205-209 | with `a` before `b`, and `c` tied with both, `[a, b, c]` sorts to `[c, a, b]`: a later tied element ends first |
| `Seqs.MapPreservesPermutation` | app.ts:210-212 | mapping two permutations of each other with `map` gives two permutations of each other |
| `Seqs.PermutationOfDistinct` | app.ts:215-219 | a permutation of a list of distinct keys has no repeated key |
| `Seqs.DedupDistinct` | app.ts:165-176 | the keys of an insertion-ordered dictionary built key by key are distinct |
| `Seqs.DedupSameElements` | app.ts:165-176 | a value is a key of the dictionary exactly when it was inserted |
| `Seqs.DedupFirstAppearance` | app.ts:165-176 | keys are enumerated in order of first insertion |
| `Photos.CleanTitle` | app.ts:41-47 | a title without the suffix is kept as it is; otherwise the first occurrence of the suffix is removed |
| `Photos.CleanTitleStripsTrailingSuffix` | app.ts:41-47 | a title that ends in the suffix, and holds it nowhere else, loses exactly the suffix |
| `Photos.NewReducedPhoto` | app.ts:35-48 | the constructor stores each argument in its field and stores the cleaned title |
| `Photos.Reduce` | app.ts:167 | the call passes the photo's `lat` as the constructor's `lng` argument and its `lng` as `lat`, so the reduced photo's `lat` holds the original `lng` and its `lng` the original `lat` |
| `Photos.ReduceAll` | app.ts:166-167 | the `map` projects every photo in order |
| `Crawl.Fetch` | app.ts:138 | a request yields the parsed response for a known path, and aborts exactly when the path is unknown |
| `Crawl.Following` | app.ts:147-151 | after a new record is appended, the loop examines the response at its `nextApi`, or the same record again when it has none; with a `nextApi`, it succeeds exactly when that path answers with a record, and yields that record; a `null` response or a failing request aborts with that path, because the script reads the response's `lat` |
| `Crawl.Crawl` | app.ts:138-158 | on success, the photos form the walk from the start: the first record, then each record its predecessor leads to, with no repeated id, up to a response that is `null` (first response only) or whose id was already collected; on failure, the failing path is reached by such a walk |
| `Crawl.WalksAgree` | app.ts:142-158 | two walks from the same start agree on their common length |
| `Crawl.CompleteWalkUnique` | app.ts:142-158 | the crawl's outcome is determined: two complete walks from the same start are equal |
| `Crawl.WalkContinues` | app.ts:142-158 | a longer walk extends a shorter one with the very response the loop examines next, whose id is new |
| `Crawl.Overrun` | app.ts:153-157 | no walk goes past a point where the loop stops |
| `Crawl.SuccessExcludesFailure` | app.ts:138-158 | success and failure exclude each other: once a walk from the start ends where the loop stops, no walk from that start meets a failing or `null` response |
| `Crawl.NoNextIsLast` | app.ts:147 | a record without `nextApi` is the last one collected |
| `Crawl.RingOfThree` | app.ts:153-157 | three records linked in a ring are crawled once each, in link order |
| `Crawl.ChainWithoutLink` | app.ts:147 | a record without `nextApi` ends the crawl without being collected twice |
| `Country.CountryPhotos.constructor` | app.ts:56-60 | a new group holds just its first photo, with count 1 |
| `Country.CountryPhotos.AddPhoto` | app.ts:62-68 | adding a photo appends it and increments the count, and the count stays the number of photos |
| `OrderedDict.Dict.Put` | app.ts:173 | assigning a key of an object binds the value, and appends the key to the enumeration order only when it is new |
| `OrderedDict.Empty` | app.ts:176 | the reduce starts from an empty object with no keys |
| `Grouping.KeyList` | app.ts:169 | each photo's key is its trimmed country name |
| `Grouping.CountriesAreTheKeys` | app.ts:165-176 | the keys are distinct; they are exactly the trimmed country names that occur; they come in order of first appearance |
| `Grouping.MembersBelong` | app.ts:169-173 | every photo of a group has the group's key and comes from the input |
| `Grouping.MembersNonEmpty` | app.ts:170-173 | a group is non-empty exactly when some photo has its key |
| `Grouping.MembersSnoc` | app.ts:170-173 | the next photo joins the end of its own group and leaves the other groups alone |
| `Grouping.MembersOfUnknownKey` | app.ts:172-173 | a name that is not yet a key has no photos |
| `Grouping.CountriesSnoc` | app.ts:170-173 | the next photo adds its key at the end when, and only when, the key is new |
| `Grouping.GroupSizesSum` | app.ts:165-176 | the group sizes add up to the number of photos |
| `Grouping.FileUnder` | app.ts:168-176 | the reduce callback turns the dictionary of the photos seen so far into the dictionary of those photos plus the current one |
| `Grouping.JoinGroup` | app.ts:170-171 | a photo with a known key is appended to that key's own group object, and no other group changes |
| `Grouping.StartGroup` | app.ts:172-173 | a photo with a new key gets a fresh group, and the key is appended to the keys |
| `Grouping.GroupByCountry` | app.ts:165-176 | `photosByCountry` has the trimmed country names as keys, in order of first appearance; each is bound to its own fresh group holding exactly its photos, in input order, with a count equal to their number |
| `Views.Rebuild` | app.ts:185-189 | copying key by key in a given order yields exactly the listed keys, enumerated in order of first mention, each bound to the source's value |
| `Views.SortedByName` | app.ts:179-189 | `sortedPhotosByCountry` binds the same keys to the same group objects, with keys enumerated in ascending order: a permutation of the original keys in which each key comes strictly before every later one by code units |
| `Views.LabelReadsBack` | app.ts:198-211 | every label of a count and a name reads back as that count, and as the name up to the name's own first separator |
| `Views.LabelPieces` | app.ts:205-211 | any text read as a label gives the count of the text before its first separator and the name up to the next separator; without a separator, the count of the whole text and the name "undefined" |
| `Views.LabelNameFree` | app.ts:211 | a name read back from a label never holds the separator |
| `Views.CountBefore` | app.ts:205-209 | two labels with the same count, or a NaN count, never go before each other |
| `Views.NamesByCount` | app.ts:205-212 | the names mapped from the sorted labels are a permutation of the names read from the labels |
| `Views.CountBeforeIsStrict` | app.ts:205-209 | the comparator `countA > countB ? -1 : 1`, read as "goes first", is a strict order |
| `Views.SplitWithoutSeparator` | app.ts:206-211 | splitting a text without the separator gives the text alone |
| `Views.LabelRoundTrip` | app.ts:198-211 | the label of a count and a name without the separator splits back into the count and the name |
| `Views.LabelLosesSeparatedName` | app.ts:198-211 | a name `a||b`, where `a` holds no `|`, comes back from its label as `a` alone, whatever `b` is |
| `Views.Labels` | app.ts:195-200 | every key yields its label (its count, the separator, the key), in enumeration order |
| `Views.LabelsReadBack` | app.ts:195-212 | when no key holds the separator, the labels map back to the keys and read back as their counts |
| `Views.ByCountOrderIsPermutation` | app.ts:205-212 | when no key holds the separator, the by-count order lists each key exactly once |
| `Views.SortedLabelsReadBack` | app.ts:205-212 | when no key holds the separator, every sorted label carries the count of the name it maps back to |
| `Views.ByCountOrderNonIncreasing` | app.ts:205-212 | when no key holds the separator, the counts never increase along the by-count order |
| `Views.ByCountOrderOfDict` | app.ts:205-219 | when no key holds the separator, the by-count order of a dictionary's keys names every key exactly once, with non-increasing counts |
| `Views.ThreeLabels` | app.ts:198-209 | labels with a larger count go first, labels with equal counts do not, and each label reads back as its name |
| `Views.TiesInReverseDiscoveryOrder` | app.ts:205-212 | groups of equal size end in reverse order of discovery: for keys `x`, `y`, `z` with `x` and `z` of equal size and `y` smaller, the order is `z`, `x`, `y` |
| `Views.Counts` | app.ts:198 | the count read for each key is its group's `count` field |
| `Views.CountLabels` | app.ts:195-200 | the loop builds the label of every key, in enumeration order |
| `Views.SortedByCount` | app.ts:191-219 | `sortedPhotosByCount` binds the same keys to the same group objects, with the keys a permutation of the original keys in non-increasing order of count |
| `Kml.Placemarks` | app.ts:104-106 | one placemark per photo of a group, in group order |
| `Kml.KmlFileString` | app.ts:86-95 | a document holds its folders, joined by line feeds, between the fixed header and footer, and reads back as them |
| `Kml.KmlPlacemark` | app.ts:123-131 | a placemark whose title opens no tag reads back as its title and the coordinates `lat,lng,0` |
| `Kml.PlacemarkOf` | app.ts:104-106 | the placemark of a reduced photo reads back as its title at `lat,lng,0`, its `lat` field first |
| `Kml.KmlFolder` | app.ts:115-121 | a folder whose name opens no tag reads back as the number of its placemarks, its name and its placemarks joined by line feeds |
| `Kml.ExportedCoordinates` | app.ts:105 | a crawled photo's placemark reads back as its cleaned title at `lng,lat,0`: the call at app.ts:167 swaps the coordinates and the placemark swaps them back |
| `Kml.KmlFoldersFromPhotos` | app.ts:97-113 | one folder per key, in enumeration order, each named by its key and holding the placemarks of the key's photos |
| `Export.FoldersOf` | app.ts:97-113 | the folders of a key order, each holding the placemarks of that key's group |
| `Export.FoldersOfGroups` | app.ts:97-113 | for a dictionary that holds the grouping, the folder loop yields the folders of its key order |
| `Export.CountsOfGrouping` | app.ts:165-176 | every group's count equals the size of the group |
| `Export.ExportKml` | app.ts:165-228 | the three documents hold the groups in order of discovery, in alphabetical order, and in by-count order |

## Left out

- `download` (app.ts:71-77) is left out. It only hands a text to the browser as a file, so the model returns the three documents instead.
- The JSON download at app.ts:162 is left out, for the same reason.
- `get` (app.ts:79-84) and `JSON.parse` are left out. They become the `Catalog` map from API path to parsed response. A path missing from the map stands for a request or parse that throws, which aborts the script.
- The parsed response is either `null` or a photo record. Other JSON values (numbers, strings, arrays, `false`) are not modelled.
- A photo's `nextApi` is "" when it is missing or empty, which is when the condition at app.ts:147 is false.
- The start endpoint (app.ts:133-137) is left out: it comes from the page's DOM, so it is a parameter.
- Coordinates are left out as numbers. They are modelled as the text they print as, so the `Number` coercions at app.ts:150-151 and the printing of numbers are not modelled.
- The early return in `addPhoto` (app.ts:63-65) is not modelled: it cannot be reached, since a group always has its photo list from construction on.
- The comparator at app.ts:205-209 is inconsistent when two counts are equal: it returns 1 in both directions. The order `Array.prototype.sort` then produces is implementation-defined. The model fixes one algorithm, an insertion sort. Its tie order (reverse order of discovery) is therefore one possible outcome, not a guarantee of every JavaScript engine.
- Views.SortedByCount: it requires that no key holds `||`. With such a key, the label's name reads back as the key's first piece only (`Views.LabelReadsBack`, `Views.LabelLosesSeparatedName`). The loop at app.ts:215-219 then looks that piece up in `photosByCountry`. If the piece is itself a key, its group is bound twice and the `||` key's group is dropped. Otherwise the piece is bound to `undefined`, and `getKmlFoldersFromPhotos` throws when it reads `photos[countryName].photos` (app.ts:104). The by-count document is then never produced, although the first two documents were already handed over at app.ts:222 and app.ts:225. Neither outcome is modelled.
- Export.ExportKml: it requires that no country name holds `||`, for the same reason.
- Views.Rebuild: it requires every listed key to be in the source. The script would otherwise bind the key to `undefined`, which only happens through the `||` case above.
- JavaScript objects enumerate integer-like keys ("10", "7") in numeric order before the other keys. The model enumerates every key in insertion order, which is what the script relies on. Country names are not integer-like.
- Inherited keys are not modelled. A country named like a property of `Object.prototype` ("constructor", "toString") would be treated as already present by the condition at app.ts:170.
- Text.Number: it reads only a run of decimal digits. JavaScript's `Number` at app.ts:206-207 also accepts surrounding white space, a sign, a fraction and an exponent, so for such text `Views.LabelPieces` gives None where the script gives a number. Labels built at app.ts:198 hold only digits before the first `||`, so the by-count view is not affected.
- Text.NatToString: it does not model the exponent notation JavaScript uses for numbers of 1e21 and above. No group can be that large.
- Text.Split: its own contract states only that there is at least one piece and that the first is a prefix of the text. The pieces themselves are pinned down by `Text.SplitJoin`, `Text.SplitOfJoin`, `Text.FirstPieceFree` and `Text.SecondPieceFree`.
- The document and folder readers (`Kml.ReadDocument`, `Kml.ReadFolder`) give back the joined text of the folders or placemarks, not the separate folders or placemarks: these hold line feeds themselves, so splitting the joined text at line feeds would not recover them.
- Kml.KmlPlacemark: its read-back holds for titles that open no tag (no `<`). The templates insert titles and names unescaped, so a title holding the placemark's closing markup would not read back.
- Kml.PlacemarkOf: its read-back holds only for titles that open no tag, for the same reason.
- Kml.KmlFolder: its read-back holds only for names that open no tag, for the same reason.
- Kml.ExportedCoordinates: it holds only for titles that open no tag, for the same reason.
- Strings are sequences of Unicode scalar values. The alphabetical order compares their UTF-16 code units, as JavaScript's default sort does. The script's own description speaks of alphabetical order; the model follows what `sort()` does.
- The crawl keeps going only when it gets a record. The loop condition `json_obj && loop` suggests a `null` response ends the crawl. In the code, only the first response can do that: a later `null` is dereferenced at app.ts:150 and aborts the script. The model follows the code (`Crawl.Following`).
