# Lady-Byron game extension: a Dafny model of its core

The extension adds a games section to a Flarum forum. Stored HTML games live
under `storage/games`, either as a directory `slug/index.html` with a
`slug/meta.json`, or as a single file `slug.html` with a `slug.json`. The
model covers six parts:

- **catalog** (`GamesListController`): the directory listing is split into
  directory and single-file candidates. Reserved names are dropped, and so
  are candidates the engine locator does not find or that have no usable
  metadata. A single-file game is dropped when a directory game with the
  same lower-cased slug was listed. Ids come from the metadata or from a
  counter shared by both passes. The items are sorted by id, then by
  `strcmp` of the title.
- **play route** (`PlayController`): the slug is percent-decoded, trimmed and
  validated. The directory form wins over the single file. Administrators
  get a debug view. The served page gets a `<base>` tag, the forum favicon
  and a script that carries the user and a CSRF token.
- **catalog page** (`GamesPageController`): the same base-tag and favicon
  splicing on `games/index.html`.
- **asset route** (`GamesAssetController`): path normalisation, `..`
  rejection, confinement to the games directory, and the extension allowlist
  with its content-type table.
- **save delete route** (`SaveDeleteController`): the parameter check, the
  delete scoped to the user's key, and the 400/404/200 outcome.
- **save table** (the migration): column constraints and the unique key
  `(user_id, game_slug, slot)`.

The file system, the engine locator chain, the metadata files and the asset
disk's URL generator are parameters of the model. Each is a function or
value passed in. Strings are `seq<char>`, and each `char` stands for one
byte, as in PHP. Paths are relative to `storage/games` and use `/` as the
directory separator.

Modules, one per file:

- `Prelude`: `Option`, `Result`.
- `Text`: ASCII case folding, the slug grammar, search, `trim`.
- `PercentCoding`: `rawurldecode`, with `rawurlencode` as its partner.
- `HtmlText`: `htmlspecialchars`, UTF-8 validity, and the unescaping partner.
- `Splice`: the three `preg_replace` splicing rules.
- `PageTags`: the base and favicon tags.
- `Http`: responses.
- `Locator`: the answer of the engine chain.
- `Meta`: decoded metadata and PHP casts.
- `Items`: `buildItem`.
- `CatalogOrder`: the sort.
- `Catalog`: `scanGames` and its reference description.
- `Play`, `GamesPage`, `Assets`, `Saves`.

The catalog is stated twice:

- as the scan loop itself, a fold over the candidates that threads the
  claimed slugs and the id counter;
- as a reference: the accepted "picks" of each pass and a closed form for
  their ids.

`Catalog.ScanMatchesReference` proves the two equal. The listing properties
are proved on the reference.

The scan is built on the corrected classification (see "## Findings").
`Catalog.ScanGamesAsWritten` is the scan with the patterns as written.
`Catalog.AsWrittenScanAgrees` proves the two catalogs equal whenever no
entry name ends in a newline.

The migration file is not valid PHP as it stands: it uses an undefined
`$schema` and mixes two migration shapes. The model follows the columns
and indexes its closure declares.

Some behaviour of the code is easy to misread:

- A metadata `id` counts as explicit when `(int)` of it is positive, not
  only when it is a positive integer. For example, `"7abc"` gives 7 and
  `true` gives 1.
- Metadata is usable when it decodes to a non-empty array. A JSON `{}`, a
  scalar or invalid JSON all exclude the game.
- The code needs PHP 8.0 or later (it uses constructor property promotion),
  where `usort` is stable. Two items with equal id and equal title therefore
  keep the order in which the scan listed them.
- A guest is not turned away by the delete route. Flarum's guest actor has
  id 0, so a guest's request deletes a save stored under user id 0.

## Model

| member | source | states |
|---|---|---|
| Text.Trim | src/Controllers/PlayController.php:31 | the result is the input with a prefix and a suffix removed, both made only of cut bytes, and neither end of a non-empty result is a cut byte |
| Text.TrimIdempotent | src/Controllers/PlayController.php:31 | trimming an already trimmed slug changes nothing |
| Text.TrimLeft | src/Games/GamesAssetController.php:58 | `ltrim` removes exactly the longest prefix of cut bytes |
| Text.TrimRight | src/Controllers/PlayController.php:67 | `rtrim` removes exactly the longest suffix of cut bytes |
| Text.TrimmedSlugPattern | src/Controllers/PlayController.php:31-33 | once no trailing newline is left, the PCRE slug pattern accepts exactly the strict slug grammar |
| Text.FindCI | src/Controllers/PlayController.php:78 | the leftmost case-insensitive occurrence at or after a position, or none anywhere after it |
| PercentCoding.DecodeEncode | src/Controllers/PlayController.php:31 | `rawurldecode` undoes `rawurlencode` on every byte string |
| PercentCoding.DecodeWithoutPercent | src/Games/GamesAssetController.php:58 | a string without `%` decodes to itself, so `+` is never a space |
| PercentCoding.PercentDecode | src/Games/GamesAssetController.php:58 | decoding never lengthens the string and keeps it a byte string |
| PercentCoding.DecodeWithoutEscapes | src/Games/GamesAssetController.php:58 | a string in which no `%` starts two hexadecimal digits decodes to itself: malformed escapes stay literal |
| PercentCoding.DecodeEscapeAll | src/Games/GamesAssetController.php:58 | `%hh` decodes to its byte whether the hexadecimal digits are upper or lower case, for every byte string |
| PercentCoding.LowerCaseDotsDecode | src/Games/GamesAssetController.php:58 | `%2e%2e` decodes to `..` |
| HtmlText.HtmlSpecialChars | src/Controllers/PlayController.php:68 | the escaped URL contains no quote or angle bracket, and every `&` in it starts one of the five entities; on well-formed UTF-8 unescaping gives the URL back; on malformed input the result is empty |
| HtmlText.EscapeAmpersands | src/Controllers/PlayController.php:68 | escaping leaves no bare `&`: each one begins `&amp;`, `&quot;`, `&#039;`, `&lt;` or `&gt;` |
| HtmlText.UnescapeEscape | src/Controllers/PlayController.php:120 | escaping the five special characters loses nothing |
| HtmlText.AsciiIsValidUtf8 | src/Controllers/PlayController.php:68 | an ASCII URL is well-formed UTF-8, so its escape is never emptied |
| Splice.FindHeadTag | src/Controllers/PlayController.php:70 | the leftmost match of `<head[^>]*>` (which also matches `<header>`) or that there is none |
| Splice.InsertAfterHeadTag | src/Controllers/PlayController.php:70-73 | the base tag goes right after the first opening head tag, or in front when there is none; exactly its length is added |
| Splice.ReplaceFirstCI | src/Controllers/PlayController.php:78 | `preg_replace` with limit 1 replaces the leftmost match only; the count is 0 exactly when there is no match, and then nothing changes |
| Splice.InsertBeforeHeadClose | src/Games/GamesPageController.php:45 | the favicon goes before the first `</head>`, and the document is unchanged without one |
| Splice.InsertScript | src/Controllers/PlayController.php:101-106 | the script goes before the first `</body>`, else before the first `</head>`, else in front; it occurs in the result, and exactly its length is added |
| Splice.BeforeHeadOrFront | src/Controllers/PlayController.php:103-105 | the script goes before the first `</head>`, or in front when there is none; it occurs in the result, and exactly its length is added |
| Splice.InsertKeepsMatches | src/Controllers/PlayController.php:70-78 | inserting the base tag after a `>` neither creates nor destroys a closing-tag match; the matches only shift |
| Splice.FirstMatchAfterInsert | src/Controllers/PlayController.php:70-78 | after the base tag is inserted, the first `</head>` is the same one as before, shifted when it lay after the tag |
| PageTags.BaseHref | src/Games/GamesPageController.php:35 | all trailing `/` are removed and exactly one is appended |
| PageTags.BaseHrefIdempotent | src/Controllers/PlayController.php:67 | normalising the base href again changes nothing |
| PageTags.BaseTag | src/Controllers/PlayController.php:67-68 | `<base href="…">` around the escaped href, which unescapes to the normalised URL; the tag cannot form a closing head or body tag |
| PageTags.AttrTag | src/Controllers/PlayController.php:68 | an opening tag closed by `">` around escaped text holds the text intact and has no `<` after its first byte |
| PageTags.FaviconTag | src/Controllers/PlayController.php:112-121 | no tag exactly when the setting is missing or falsy; otherwise `<link rel="icon" href="…">` whose attribute unescapes to the disk URL |
| PageTags.PageHtmlPlacesTags | src/Controllers/PlayController.php:66-79 | the page is the stored document with the base tag after the first opening head tag (in front without one) and the favicon before the first closing head tag, in every case of their relative order; nothing else changes except that the closing tag is spelled in lower case |
| GamesPage.Handle | src/Games/GamesPageController.php:23-48 | 404 exactly when the index is not a readable file, 500 exactly when reading it fails, otherwise 200 with the page carrying the games base tag and favicon |
| GamesPage.PageKeepsDocument | src/Games/GamesPageController.php:35-46 | the served page is the stored document with exactly the two tags placed |
| Play.Slug | src/Controllers/PlayController.php:29-31 | the slug is the decoded parameter with leading and trailing whitespace, NUL and `/` removed, and none left at either end |
| Play.ServedPath | src/Controllers/PlayController.php:41-43 | the directory entry point when it is a file, otherwise the single file |
| Play.Shape | src/Controllers/PlayController.php:49 | "dir", "legacy" or "none" exactly according to which file exists |
| Play.EngineLabel | src/Controllers/PlayController.php:123-133 | the located engine, or "unknown" when it is empty or "0"; never falsy |
| Play.ScriptFor | src/Controllers/PlayController.php:82-99 | no script exactly when `noinject` is non-empty |
| Play.Handle | src/Controllers/PlayController.php:26-110 | 400 exactly for an invalid slug; the debug text only for administrators asking for it; 404 exactly when the chosen file is missing or unreadable; 500 exactly when its read fails; otherwise the page with base tag, favicon and script |
| Play.DebugShapeAgreesWithServing | src/Controllers/PlayController.php:43-58 | shape "dir" exactly when the directory form would be served, and shape "none" means a normal request gets 404 |
| Play.DebugIgnoresFiles | src/Controllers/PlayController.php:46-55 | the debug view reads no file contents: it depends only on file existence and the locator |
| Play.PlayKeepsDocument | src/Controllers/PlayController.php:66-107 | the played page is the stored game with the two tags placed, plus the script exactly once unless `noinject` is given |
| Assets.AllowedHaveMime | src/Games/GamesAssetController.php:16-48 | every allowed extension has its own content type, so the octet-stream fallback is never sent |
| Assets.NormalisePath | src/Games/GamesAssetController.php:58 | the normalised path has no backslash, does not start with `/` and is no longer than the decoded path |
| Assets.NormalisePathExact | src/Games/GamesAssetController.php:58 | the normalised path is the decoded path, with backslashes turned into slashes, less its longest run of leading slashes |
| Assets.EncodedDotsRejected | src/Games/GamesAssetController.php:58-62 | `%2e%2e` is decoded before the `..` test, so it is answered 400 `Invalid path` |
| Assets.EncodedDotsNormalised | src/Games/GamesAssetController.php:58 | `%2e%2e` normalises to a bare `..` |
| Assets.DotsRejected | src/Games/GamesAssetController.php:58-62 | a request whose path normalises to `..` is answered 400 `Invalid path`, whatever the file system holds |
| Assets.EncodedPathRoundTrip | src/Games/GamesAssetController.php:56-58 | a percent-encoded relative path normalises back to itself |
| Assets.Basename | src/Games/GamesAssetController.php:74 | the last component is a suffix of the path with no `/` in it, and a `/` stands right before it unless it is the whole path |
| Assets.Extension | src/Games/GamesAssetController.php:74 | the extension is a suffix of the path with no `/` or `.` in it |
| Assets.ExtensionAfterLastDot | src/Games/GamesAssetController.php:74 | when the last component has a `.`, the extension is preceded by a `.`, so it is what follows the last one |
| Assets.ExtensionWithoutDot | src/Games/GamesAssetController.php:74 | a last component without a `.` gives the extension "" |
| Assets.DotlessNotServed | src/Games/GamesAssetController.php:74-77 | a file whose last component has no `.` is refused, even when it is named like an allowed extension |
| Assets.ExtensionOfFileName | src/Games/GamesAssetController.php:74 | the extension of `dir/name.ext` is `ext`, whatever the directory and the rest of the name hold |
| Assets.AssetHeaders | src/Games/GamesAssetController.php:79-87 | the content type from the table, with the fallback, plus the immutable cache header and `nosniff` |
| Assets.Serve | src/Games/GamesAssetController.php:69-89 | a file is served exactly when its real path lies strictly inside the games directory, is a readable file and has an allowed extension; it gets that extension's table type |
| Assets.Handle | src/Games/GamesAssetController.php:54-90 | 400 exactly for an empty path or one containing `..`; any served file lies inside the resolved games directory; every other failure is 404 |
| Meta.LoadMeta | src/Games/GamesListController.php:139-152 | a missing, unreadable or non-array metadata file gives the empty array; otherwise the decoded array |
| Meta.Lookup | src/Games/GamesListController.php:159-185 | `isset`/`??`: a stored value other than null under the key, or none when the key is absent or null |
| Meta.TrailingTextIgnored | src/Games/GamesListController.php:159 | `(int)` of "7abc" reads the leading digits only and is 7 |
| Meta.NoLeadingDigits | src/Games/GamesListController.php:159 | `(int)` of a string with no leading digit, "abc", is 0 |
| Meta.SignAfterWhitespace | src/Games/GamesListController.php:159 | `(int)` of " -12px" skips the space, keeps the sign and is -12 |
| Meta.IntCast | src/Games/GamesListController.php:159 | `(int)` keeps integers, maps null, false and `[]` to 0, and maps true and non-empty arrays to 1 |
| Meta.StringToIntAfterWhitespace | src/Games/GamesListController.php:164 | `(int)` on a string skips leading whitespace: the string reads as it does without it |
| Meta.StringToIntWithoutDigits | src/Games/GamesListController.php:164 | `(int)` on a string whose optional sign is not followed by a digit gives 0 |
| Meta.StrCast | src/Games/GamesListController.php:173-182 | `(string)` keeps strings, maps null and false to "", true to "1" and arrays to "Array" |
| Meta.IntStringRoundTrip | src/Games/GamesListController.php:159 | `(int)(string)` is the identity on integers |
| Items.ExplicitId | src/Games/GamesListController.php:159 | 0 without an `id`; the integer itself for an integer `id`; the `(int)` reading of the leading sign and digits for a string `id`; 1 for `true` and 0 for `false` |
| Items.ExplicitIdOfText | src/Games/GamesListController.php:159 | a string `id` keeps only its leading number: "7abc" is 7, "abc" is 0, " -12px" is -12 |
| Items.Clamp | src/Games/GamesListController.php:164 | always in 1..5, and the identity inside that range |
| Items.StrField | src/Games/GamesListController.php:173-182 | the default when the key is absent or null, the string cast otherwise |
| Items.Tags | src/Games/GamesListController.php:180 | the values of an array `tags` in order, otherwise none |
| Items.BuildItem | src/Games/GamesListController.php:157-187 | a positive metadata id is kept and the counter is left alone; otherwise the item takes the counter, which moves on by one; length in 1..5, 3 when missing, and otherwise the clamped `(int)` cast of whatever value is stored; tags are the metadata's list values; engine and shape from the locator |
| Items.BuildItemDefaults | src/Games/GamesListController.php:173-182 | each absent text field takes its default: the slug for the title, "Unknown" for the author, the two amber classes for the colours, the empty string otherwise |
| Items.BuildItemFields | src/Games/GamesListController.php:173-182 | each present text field is the PHP string cast of its metadata value |
| CatalogOrder.Strcmp | src/Games/GamesListController.php:130 | the sign of `strcmp`: zero exactly for equal strings |
| CatalogOrder.StrcmpAntisymmetric | src/Games/GamesListController.php:130 | swapping the operands flips the sign |
| CatalogOrder.StrcmpTransitive | src/Games/GamesListController.php:130 | the byte order is transitive |
| CatalogOrder.ItemLeTotal | src/Games/GamesListController.php:128-131 | any two items are comparable |
| CatalogOrder.ItemLeTransitive | src/Games/GamesListController.php:128-131 | the comparator's order is transitive |
| CatalogOrder.Insert | src/Games/GamesListController.php:128-131 | inserting into a sorted list keeps it sorted and adds exactly the element |
| CatalogOrder.SortItems | src/Games/GamesListController.php:128-131 | the result is sorted by id, then title, and is a permutation of the input |
| CatalogOrder.InsertKeepsKeyOrder | src/Games/GamesListController.php:128-131 | an inserted item goes in front of every item with its id and title |
| CatalogOrder.SortItemsStable | src/Games/GamesListController.php:128-131 | the sort is stable, as `usort` is since PHP 8.0: items with equal id and title keep their input order |
| Catalog.Classify | src/Games/GamesListController.php:65-79 | `.` and `..` are never games; a directory is a candidate exactly when its whole name is a slug; a file is exactly when it is a slug plus `.html` in any case, and the candidate is the name without it |
| Catalog.ClassifyAsWritten | src/Games/GamesListController.php:74-79 | with PCRE's `$`, a directory matches exactly the lenient slug pattern and a file exactly the lenient `.html` pattern |
| Catalog.AsWrittenAgreesWithoutNewline | src/Games/GamesListController.php:74-79 | on names not ending in a newline the lenient and strict readings agree |
| Catalog.AsWrittenAcceptsTrailingNewline | src/Games/GamesListController.php:74-79 | the directory pattern as written accepts "assets\n", which is no slug and escapes the reserved names; the strict reading rejects it |
| Catalog.AsWrittenListsTrailingNewlineFile | src/Games/GamesListController.php:74-79 | the file pattern as written lists "a.html\n" as game "a"; the strict reading rejects it |
| Catalog.CandidatesAgreeWithoutNewline | src/Games/GamesListController.php:61-80 | on a listing with no name ending in a newline the as-written and strict classifications give the same candidates |
| Catalog.CandidatesExactly | src/Games/GamesListController.php:61-80 | the directory and single-file candidates are exactly the classified games of the listing |
| Catalog.PicksExactly | src/Games/GamesListController.php:83-125 | a pass lists a candidate exactly when it is not reserved, not claimed (single files), found by the locator and has non-empty metadata |
| Catalog.PicksSound | src/Games/GamesListController.php:83-125 | every pick of a pass is one of its candidates and passed all of the pass's tests |
| Catalog.PickSoundAt | src/Games/GamesListController.php:83-125 | the pick at any position is an accepted candidate |
| Catalog.PickedWhenAccepted | src/Games/GamesListController.php:83-125 | a candidate that passes all of the pass's tests is picked |
| Catalog.PickOfTail | src/Games/GamesListController.php:83-125 | a later candidate's pick stays a pick when an earlier candidate is considered first |
| Catalog.PicksAreOf | src/Games/GamesListController.php:89-95 | each listed candidate carries its own metadata, locator answer and metadata id |
| Catalog.LowerSlugs | src/Games/GamesListController.php:101 | the claimed slugs are exactly the lower-cased slugs of the listed directory games |
| Catalog.AutoCountAppend | src/Games/GamesListController.php:57 | the counter is shared: the auto-id items of two passes add up |
| Catalog.BuiltAppend | src/Games/GamesListController.php:100-124 | the items of two passes in a row are the first pass's items followed by the second's, numbered on from where the first stopped |
| Catalog.BuiltAt | src/Games/GamesListController.php:157-162 | the k-th item meets the counter's start plus the number of auto-id items before it |
| Catalog.StepIsPick | src/Games/GamesListController.php:83-102 | one loop step appends the candidate's item and moves the counter exactly when the candidate is accepted, and otherwise changes nothing |
| Catalog.PassMatchesReference | src/Games/GamesListController.php:83-125 | a pass yields exactly the reference items, counter and claimed slugs |
| Catalog.ScanMatchesReference | src/Games/GamesListController.php:55-125 | the unsorted scan equals the reference items of all picks, numbered from 1 |
| Catalog.ScanGames | src/Games/GamesListController.php:48-134 | the catalog is sorted and is a permutation of the scanned items |
| Catalog.ListGames | src/Games/GamesListController.php:27-43 | no games directory gives an empty catalog; otherwise the sorted scan |
| Catalog.ScanGamesAsWritten | src/Games/GamesListController.php:48-134 | the scan with the patterns as written: sorted and a permutation of its unsorted items |
| Catalog.AsWrittenScanAgrees | src/Games/GamesListController.php:48-134 | on a listing with no name ending in a newline the scan as written gives the same catalog as the corrected scan |
| Catalog.AsWrittenScanListsNewlineDir | src/Games/GamesListController.php:74-101 | the scan as written lists a found directory "assets\n" with metadata as one game with that slug; the corrected scan lists nothing |
| Catalog.DirListedExactly | src/Games/GamesListController.php:83-98 | a directory candidate is listed exactly when it is not reserved, is found and has non-empty `slug/meta.json` |
| Catalog.LegacyListedOnly | src/Games/GamesListController.php:105-122 | a listed single file passes the same tests with `slug.json`, and no listed directory game has its lower-cased slug |
| Catalog.LegacyListedWhenUnclaimed | src/Games/GamesListController.php:101-124 | a single file that passes the tests and whose slug no listed directory claimed is listed, even when a same-named directory was dropped |
| Catalog.MakeItemFields | src/Games/GamesListController.php:157-187 | the item keeps the pick's slug, engine and shape, a length in 1..5, and its id by the explicit or counter rule |
| Catalog.AllPicksAreGames | src/Games/GamesListController.php:61-125 | every listed pick is a classified, unreserved, found slug with its own metadata id |
| Catalog.GamePickItem | src/Games/GamesListController.php:157-187 | the item of a game pick has its slug, the locator's engine and shape and a length in 1..5, whatever the counter |
| Catalog.BuiltAreGames | src/Games/GamesListController.php:100-124 | the items built from game picks, with their counter values, are listed games |
| Catalog.BuiltGameAt | src/Games/GamesListController.php:100-124 | the item at any position of the built sequence is a listed game |
| Catalog.ListedAreGames | src/Games/GamesListController.php:61-134 | every catalog item is a strict, unreserved slug from the listing that the locator found, with its engine and shape and a length in 1..5 |
| Catalog.CatalogIds | src/Games/GamesListController.php:57-162 | positive metadata ids are kept; the other items carry 1 plus the number of earlier auto-id items, so their ids strictly increase and cover 1..K |
| Catalog.CounterIds | src/Games/GamesListController.php:157-162 | counter numbering from 1 gives increasing ids that cover 1..K |
| Saves.Count | src/Saves/SaveDeleteController.php:25-29 | the number of rows with a key is zero exactly when no row has it |
| Saves.UniqueCountAtMostOne | migrations/2025_09_20_000000_create_game_saves_table.php:19 | with the unique key a key matches at most one row, and one exactly when it is present |
| Saves.DeleteKey | src/Saves/SaveDeleteController.php:25-29 | the deleted count is the number of rows with the key, the remaining rows make up the rest, and none of them has the key |
| Saves.DeleteKeyRows | src/Saves/SaveDeleteController.php:25-29 | a row remains exactly when it was there and has another key |
| Saves.DeleteKeepsUnique | migrations/2025_09_20_000000_create_game_saves_table.php:19 | deleting keeps the unique key |
| Saves.DeleteKeepsValid | migrations/2025_09_20_000000_create_game_saves_table.php:9-19 | deleting keeps every column constraint and the unique key |
| Saves.Insert | migrations/2025_09_20_000000_create_game_saves_table.php:9-19 | an insert succeeds exactly when the state is given, the columns fit and the key is new; `rev` defaults to 0 |
| Saves.InsertKeepsValid | migrations/2025_09_20_000000_create_game_saves_table.php:10-19 | a successful insert keeps every column constraint and the unique key |
| Saves.Param | src/Saves/SaveDeleteController.php:18-19 | a missing route parameter reads as the empty string |
| Saves.HandleDelete | src/Saves/SaveDeleteController.php:14-35 | 400 `invalid_parameters` exactly for an empty slug or slot, with the table unchanged; 404 `not_found` exactly when nothing matched, also unchanged; otherwise 200 `{"ok":true}` with the actor's rows removed |
| Saves.GuestDeletesUserZero | src/Saves/SaveDeleteController.php:16-35 | a guest's request (actor id 0) deletes a save stored under user id 0 and answers 200 |
| Saves.NothingDeleted | src/Saves/SaveDeleteController.php:25-33 | a delete that matches nothing leaves the table as it was |
| Saves.DeleteKeepsOthers | src/Saves/SaveDeleteController.php:25-29 | every row with another key survives the delete |
| Saves.OtherUserKept | src/Saves/SaveDeleteController.php:26-28 | another user's save of the same game and slot survives |
| Saves.DeleteTwice | src/Saves/SaveDeleteController.php:25-35 | on a valid table a successful delete removes one row, the table stays valid, and the same delete again answers 404 |

## Left out

- File-system access (`scandir`, `is_dir`, `is_file`, `is_readable`, `realpath`, `file_get_contents`, the response stream) is passed in as functions and values. `realpath` canonicalisation is opaque, and only the prefix check on its result is modelled.
- The engine chain (`EngineChain`, `InkEngine`, `TwineEngine`) is not part of this model. Its answer for a slug is a parameter (`Locator.Located`).
- The list route's cache (key `ladybyron_game_list`, 300-second lifetime) is not modelled. `Catalog.ListGames` is the uncached answer, and a cached answer may be up to 300 seconds older.
- `json_decode` and `json_encode` are not modelled. Metadata arrives decoded, and the user and auth scripts arrive already JSON-encoded. JSON floats are not modelled either.
- Catalog.ScanGames, Catalog.ListGames: built on the corrected `Catalog.Classify`, and so are the listing lemmas. The scan as written is `Catalog.ScanGamesAsWritten`, equal to `Catalog.ScanGames` when no entry name ends in a newline.
- Meta.Lookup: a decoded array is taken to have distinct keys. `json_decode` keeps the last of duplicate object keys, while `Meta.Lookup` returns the first.
- Meta.IntCast: strings in exponent or fraction form (`"1e3"`, `"2.5"`), which PHP 8 converts through a float, are read by their leading integer digits only. Integer overflow beyond 64 bits is not modelled.
- URL generation (the forum route URL and the asset disk's `url()`) is passed in as functions.
- The actor, session and CSRF token lookup are not modelled. The play route receives the admin flag and the encoded user data. The delete route receives the actor's id, which is 0 for a guest.
- The `Last-Modified` and `ETag` headers need the clock, `filemtime` and an MD5 of the file, so they are left out. The headers the code fixes are modelled.
- `preg_replace` treats `$n` and `\n` in a replacement string as back-references. The model splices the base, favicon and script text literally, so a URL or user name containing such a sequence is not modelled.
- The query parameters `debug` and `noinject` are modelled as optional strings. Array-valued parameters are left out.
- `DIRECTORY_SEPARATOR` is taken to be `/`, and `\` in asset paths is rewritten to it as the code does.
- Save upsert and listing, and the revision compare-and-increment, are not part of this model. The `Saves.Insert` statement stands for any insert.
- The auto-increment `id` column, the timestamps and the secondary index on `(user_id, game_slug)` carry no behaviour the routes depend on, so they are left out.
- Database collation is not modelled: keys compare as exact strings. A case-insensitive collation would also match keys that differ only in case.
- Saves.Insert: over-long strings and out-of-range numbers are rejected, as in strict SQL mode. Silent truncation in non-strict mode is not modelled. Lengths are counted in chars, not in multi-byte characters.
- The route table (`extend.php`) and the symlink set-up in `GameServiceProvider` are boot-time glue and are not modelled.

## Findings

| source | as written | input that shows it | evidently intended | confidence | as-written member | corrected member |
|---|---|---|---|---|---|---|
| src/Games/GamesListController.php:74-79 | the patterns `~^[a-z0-9_-]+$~i` and `~^([a-z0-9_-]+)\.html$~i` have no `D` modifier, so `$` also matches before a final newline | a directory named "assets\n" is listed under the slug "assets\n", which escapes the reserved names; a file "a.html\n" is listed as game "a" | the whole name is a slug, or a slug plus `.html` | not executed | Catalog.ClassifyAsWritten, Catalog.AsWrittenAcceptsTrailingNewline, Catalog.AsWrittenListsTrailingNewlineFile, Catalog.ScanGamesAsWritten, Catalog.AsWrittenScanListsNewlineDir | Catalog.Classify, Catalog.ScanGames |
