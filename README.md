# PicoTags, modelled in Dafny

This project models the Pico CMS plugin `PicoTags`. A page's meta block can carry two comma-separated headers:

- "Tags" lists the tags of the page.
- "Filter" lists the tags whose pages a listing on that page should show.

The model covers the plugin's core:

- the tag parser `parseTags` (`explode(',', …)` followed by `trim` on every segment);
- the page filter `applyTagFilter`, which keeps the pages that share at least one tag with the current page's filter;
- the hook `onPagesLoaded` with its reader `getAllTags`, which collect every tag seen on loaded pages into the plugin's `allTags` field, without duplicates;
- the hooks `onMetaHeaders` and `onMetaParsed`, which register the two headers and replace their raw values by parsed lists.

There are three modules:

- `PhpStrings` models the string built-ins the parser is made of: `explode`, its inverse `implode`, and `trim` with its default character list. It proves that `explode` and `implode` are inverses. It also characterises `trim` exactly: the result neither starts nor ends with a trim character, and only trim characters were removed around it.
- `PhpArrays` models the array built-ins on lists: `array_unique` (first occurrences, in order), `array_intersect`, repeated `array_merge`, and `array_filter`. `array_filter` is modelled as the entries at the kept keys, in increasing key order.
- `TagsPlugin` holds the plugin itself. It has the datatypes `Value` and `Page`, the functions `ParseTags` and `ApplyTagFilter`, and the class `PicoTags`. The class's field `allTags` is updated in place by `OnPagesLoaded`, a loop proved against `ArrayUnique(old(allTags) + PagesTags(pages))`.

A meta value is a `Value`:

- a string (`Str`);
- an already-parsed list of strings (`List`);
- anything else (`Other`): null, a missing key, a number or a boolean.

`parseTags` turns only a non-empty string into tags. An already-parsed list gives no tags, exactly as `is_string` decides in the code.

The code never resets `allTags` (PicoTags.php:62-72): each `onPagesLoaded` call merges into what earlier calls on the same object left. `OnPagesLoaded` models that, and `AccumulatesAcrossLoads` states what two calls on one object collect.

## Model

| member | source | states |
|---|---|---|
| PhpStrings.Trim | PicoTags.php:126 | `trim` never lengthens a string; what it keeps is stated exactly by TrimSpec and TrimUnique below |
| PhpStrings.TrimLeftSpec | PicoTags.php:126 | the left half of `trim`: what is kept is a suffix of the input that does not start with a trim character, and everything dropped is a trim character |
| PhpStrings.TrimRightSpec | PicoTags.php:126 | the right half of `trim`: what is kept is a prefix of the input that does not end with a trim character, and everything dropped is a trim character |
| PhpStrings.TrimSpec | PicoTags.php:126 | `trim(s)` neither starts nor ends with a trim character and occurs in `s` with only trim characters before and after it |
| PhpStrings.TrimKeeps | PicoTags.php:126 | trimming adds no character: every character of `trim(s)` is a character of `s` |
| PhpStrings.TrimUnique | PicoTags.php:126 | `trim` is characterised uniquely: a trimmed string padded with trim characters on both sides trims back to itself |
| PhpStrings.TrimEmpty | PicoTags.php:126 | `trim(s)` is empty exactly when every character of `s` is one of " \t\n\r\0\x0B" |
| PhpStrings.TrimIdempotent | PicoTags.php:126 | trimming twice is trimming once |
| PhpStrings.Explode | PicoTags.php:124 | `explode(',', s)` has one more segment than `s` has commas, and no segment holds a comma |
| PhpStrings.ImplodeExplode | PicoTags.php:124 | joining the segments of `explode(',', s)` with commas gives `s` back |
| PhpStrings.ExplodeImplode | PicoTags.php:124 | `explode` undoes `implode` on any non-empty list of comma-free segments, empty segments included |
| PhpArrays.ArrayUnique | PicoTags.php:71 | `array_unique` leaves no value twice, keeps exactly the values of its input and never grows the list |
| PhpArrays.ArrayUniqueOrder | PicoTags.php:71 | `array_unique` keeps first occurrences in order: of two kept values, the one that first occurs earlier in the input comes first |
| PhpArrays.ArrayUniqueNoDuplicates | PicoTags.php:71 | on a list without duplicates `array_unique` changes nothing |
| PhpArrays.ArrayUniqueAbsorbs | PicoTags.php:67-71 | de-duplicating an accumulated list before merging more into it does not change the final de-duplication |
| PhpArrays.MergeAll | PicoTags.php:64-69 | the lists of the entries, merged one after the other by `array_merge`; its contents are stated by MergeAllHas and MergeAllAppend |
| PhpArrays.MergeAllHas | PicoTags.php:64-69 | a value is in the merged lists exactly when the list of some entry holds it |
| PhpArrays.MergeAllAppend | PicoTags.php:64-69 | merging over two lists of entries, one after the other, is merging over their concatenation |
| PhpArrays.MergeAllTwice | PicoTags.php:64-71 | merging and de-duplicating in two rounds gives what one round over both lists gives |
| PhpArrays.ArrayIntersect | PicoTags.php:88 | `array_intersect(a, b)` holds a value exactly when both `a` and `b` do, and is never longer than `a` |
| PhpArrays.ArrayFilter | PicoTags.php:86 | `array_filter` never lengthens the list; which entries it keeps, and in which order, is stated by FilterKeys, ArrayFilterMembers and ArrayFilterSnoc |
| PhpArrays.FilterKeys | PicoTags.php:86-89 | the keys `array_filter` keeps are increasing valid keys, and a key is kept exactly when its entry passes the callback |
| PhpArrays.ArrayFilterMembers | PicoTags.php:86-89 | `array_filter` keeps a value exactly when it is in the input and passes the callback |
| PhpArrays.ArrayFilterSnoc | PicoTags.php:86-89 | filtering a list with one more entry keeps what filtering the shorter list kept, followed by that entry exactly when it passes |
| PhpArrays.ArrayFilterIdempotent | PicoTags.php:86-89 | filtering twice with the same callback is filtering once |
| PhpArrays.ArrayFilterKeepsOuter | PicoTags.php:86-89 | of three entries where only the middle one fails the callback, the first and the third are kept, in that order |
| TagsPlugin.PageTags | PicoTags.php:65 | the tags of a page are `parseTags($page['meta']['tags'])`: a page whose "tags" value is missing or is not a string (for instance a list parsed earlier) has no tags; the exact tags are given by the ParseTags lemmas |
| TagsPlugin.ParseTags | PicoTags.php:118-122 | a value that is not a string, or is the empty string, parses to no tags |
| TagsPlugin.ParseTagsCount | PicoTags.php:124-126 | a non-empty string parses to one more tag than it has commas |
| TagsPlugin.ParseTagsClean | PicoTags.php:124-126 | no parsed tag holds a comma, and none starts or ends with a trim character |
| TagsPlugin.ParseTagsSegments | PicoTags.php:124-126 | tag i of a non-empty comma-join of comma-free segments is segment i, trimmed |
| TagsPlugin.ParseTagsEmptyTag | PicoTags.php:124-126 | a parsed tag is "" exactly when its segment is empty or made of trim characters only, and it is kept, not dropped |
| TagsPlugin.ParseTagsRoundTrip | PicoTags.php:118-127 | joining trimmed, comma-free tags with commas and parsing the result gives the same tags, whenever the join is non-empty |
| TagsPlugin.ParseTagsKeepsEmptySegment | PicoTags.php:124-126 | "a,,b" parses to ["a", "", "b"] |
| TagsPlugin.ParseTagsTrailingComma | PicoTags.php:124-126 | a tag followed by a trailing comma parses to that tag and an empty tag |
| TagsPlugin.Matches | PicoTags.php:87-88 | the callback's test `count(array_intersect(...)) > 0`: a page can only match when the filter and the page's tags are both non-empty; MatchesShared states exactly when it holds |
| TagsPlugin.MatchesShared | PicoTags.php:87-88 | a page passes the filter callback exactly when some filter tag is equal to one of its parsed tags |
| TagsPlugin.NothingMatchesEmptyFilter | PicoTags.php:84-88 | with no filter tags no page passes the callback |
| TagsPlugin.Keep | PicoTags.php:86-89 | the callback handed to `array_filter` holds for a page exactly when some filter tag is one of the page's tags |
| TagsPlugin.ApplyTagFilter | PicoTags.php:81-93 | an empty filter gives the pages back unchanged; any filter gives a result no longer than the input and holding only pages of the input |
| TagsPlugin.ApplyTagFilterMembers | PicoTags.php:84-89 | with a non-empty filter a page is in the result exactly when it is one of the pages and shares a tag with the filter |
| TagsPlugin.ApplyTagFilterKeys | PicoTags.php:84-92 | with a non-empty filter the result is the pages at an increasing list of original keys, and a key is on that list exactly when its page matches: an order-keeping subsequence |
| TagsPlugin.ApplyTagFilterIdempotent | PicoTags.php:81-93 | applying the filter twice is applying it once |
| TagsPlugin.ApplyTagFilterSnoc | PicoTags.php:86-89 | one more page at the end is kept after the earlier result exactly when it matches |
| TagsPlugin.ApplyTagFilterExample | PicoTags.php:15-17 | pages tagged [foo, bar], [baz] and [foo], filtered by [foo], leave the first and the third, in order |
| TagsPlugin.EmptyTagMatchesEmptyTag | PicoTags.php:84-89 | a filter "x," and a page tagged "y," both carry the empty tag, so the page passes the filter whatever x and y are |
| TagsPlugin.PagesTags | PicoTags.php:64-69 | the tags the loop merges, every page's parsed tags in page order; PagesTagsHas states which tags they are |
| TagsPlugin.PagesTagsHas | PicoTags.php:64-69 | a tag is among the merged page tags exactly when some page carries it |
| TagsPlugin.ArrayUniqueKeepsPrefix | PicoTags.php:67-71 | de-duplicating after merging into a list without duplicates keeps that list as a prefix |
| TagsPlugin.AccumulatesAcrossLoads | PicoTags.php:62-72 | since `allTags` is never reset, two loads in a row collect what one load of both page lists collects, in the same order |
| TagsPlugin.PicoTags.constructor | PicoTags.php:31 | the plugin starts with no tags collected |
| TagsPlugin.PicoTags.OnMetaHeaders | PicoTags.php:40-44 | the headers gain exactly the keys "tags" and "filter", mapped to "Tags" and "Filter", and every other header is unchanged |
| TagsPlugin.PicoTags.OnMetaParsed | PicoTags.php:53-57 | the meta gains or replaces exactly "tags" and "filter", each by the parsed list of its old value; a missing key reads as null and so becomes the empty list; every other key is unchanged |
| TagsPlugin.PicoTags.OnPagesLoaded | PicoTags.php:62-72 | `allTags` becomes `array_unique` of its old value merged with every page's tags: no tag twice, exactly the old tags and the pages' tags, and the earlier tags kept as a prefix in their order |
| TagsPlugin.PicoTags.GetAllTags | PicoTags.php:107-110 | returns the collected tags, none of them twice |

## Left out

- `onTwigRegistration` (PicoTags.php:100-105) is left out. It only registers `getAllTags` and `applyTagFilter` with the template engine, which is not part of this model.
- ApplyTagFilter: the host call that fetches the current page (PicoTags.php:83) becomes the parameter `filter`, the current page's parsed filter list. A missing current page, or one whose filter is empty, is the empty list.
- ApplyTagFilter: the callback handed to `array_filter` re-parses `$page['meta']['tags']`. The model does the same: a page whose tags were already replaced by a list yields no tags.
- ApplyTagFilter: `array_filter` keeps the original keys of the array. The result is modelled as a list, and `ApplyTagFilterKeys` states which original keys were kept.
- ApplyTagFilterKeys: keys are modelled as positions 0, 1, 2, … in the page list. The host's `$pages` array may use other keys (page identifiers), and the model does not carry them.
- ArrayUnique: the keys `array_unique` leaves behind, with gaps, are not modelled. Only the values and their order are.
- PicoTags.OnPagesLoaded: PHP truthiness of `$page` (PicoTags.php:66) is not modelled. Every page record counts as truthy, and a page without tags adds nothing either way.
- PicoTags.OnPagesLoaded: the by-reference parameters `$currentPage`, `$previousPage` and `$nextPage` are not modelled, because the hook does not use them.
- PicoTags.OnMetaHeaders, PicoTags.OnMetaParsed: these by-reference array updates are modelled as methods that return the updated map. The insertion order of PHP array keys is not modelled, because Dafny maps are unordered.
- ParseTags: `mb_strlen` (PicoTags.php:120) is modelled as the length of the character sequence. Multibyte encodings are not modelled. The test only asks whether the length is zero, and the two agree on that.
- ParseTags: the `is_array` fallback (PicoTags.php:126) is not a separate path, because `explode` with a non-empty separator always returns an array.
- Strings are sequences of characters, compared by plain equality. That is what `array_intersect` and `array_unique` do with strings under their default string comparison. Other value types never reach them here, because every tag is a string.
- The `AbstractPicoPlugin` base class, plugin enabling and the host's event dispatch are not part of this model.
