// The PicoTags plugin for Pico CMS: "Tags" and "Filter" page-meta headers,
// parsed into lists of tags, a filter that narrows a page list to the pages
// sharing a tag with the current page's filter, and a collection of every
// tag seen on loaded pages.

module TagsPlugin {
  import opened PhpStrings
  import opened PhpArrays

  /** A meta value as the host hands it over: a string, an array of strings
      (a list that has already been parsed), or anything else (null, which is
      also what PHP reads for a missing key, a number, a boolean). */
  datatype Value = Str(s: string) | List(items: seq<string>) | Other

  /** A page record of the host; only its meta block is used here. */
  datatype Page = Page(id: string, meta: map<string, Value>)

  /** `$meta[$key]`, where a missing key reads as null. */
  function Field(meta: map<string, Value>, key: string): Value {
    if key in meta then meta[key] else Other
  }

  // ---------------------------------------------------------------------
  // parseTags

  /** `parseTags`: a non-string or zero-length value gives no tags; any other
      string gives one tag per comma-separated segment, each trimmed, with
      empty segments kept as "". */
  function ParseTags(v: Value): (tags: seq<string>)
    ensures !v.Str? || |v.s| == 0 ==> tags == []
  {
    match v
    case Str(s) =>
      if |s| == 0 then []
      else
        var parts := Explode(s);
        seq(|parts|, i requires 0 <= i < |parts| => Trim(parts[i]))
    case _ => []
  }

  /** A non-empty string gives one tag more than it has commas. */
  lemma ParseTagsCount(s: string)
    requires |s| > 0
    ensures |ParseTags(Str(s))| == Commas(s) + 1
  {
  }

  /** No tag holds a comma, and none starts or ends with a trim character. */
  lemma ParseTagsClean(v: Value, i: nat)
    requires i < |ParseTags(v)|
    ensures ',' !in ParseTags(v)[i] && IsTrimmed(ParseTags(v)[i])
  {
    var parts := Explode(v.s);
    TrimSpec(parts[i]);
    if ',' in ParseTags(v)[i] {
      TrimKeeps(parts[i], ',');
    }
  }

  /** Tag i of a non-empty string is the i-th comma-free segment, trimmed:
      whatever comma-free segments the string is the comma-join of, those
      are the segments that get trimmed. */
  lemma ParseTagsSegments(parts: seq<string>)
    requires |parts| >= 1
    requires forall i :: 0 <= i < |parts| ==> ',' !in parts[i]
    requires |Implode(parts)| > 0
    ensures var tags := ParseTags(Str(Implode(parts)));
      |tags| == |parts| && forall i :: 0 <= i < |parts| ==> tags[i] == Trim(parts[i])
  {
    ExplodeImplode(parts);
  }

  /** A tag comes out empty exactly when its segment is empty or made of
      trim characters only; such tags are kept, not dropped. */
  lemma ParseTagsEmptyTag(s: string, i: nat)
    requires |s| > 0 && i < |Explode(s)|
    ensures i < |ParseTags(Str(s))|
    ensures ParseTags(Str(s))[i] == "" <==> AllTrimChars(Explode(s)[i])
  {
    TrimEmpty(Explode(s)[i]);
  }

  /** Round trip: joining trimmed, comma-free tags with commas and parsing
      the result gives the tags back (unless the join is the empty string,
      which parses to no tags at all). */
  lemma ParseTagsRoundTrip(tags: seq<string>)
    requires |tags| >= 1
    requires forall i :: 0 <= i < |tags| ==> ',' !in tags[i] && IsTrimmed(tags[i])
    requires |Implode(tags)| > 0
    ensures ParseTags(Str(Implode(tags))) == tags
  {
    ParseTagsSegments(tags);
    forall i | 0 <= i < |tags| ensures Trim(tags[i]) == tags[i] {
      TrimUnique([], tags[i], []);
      assert [] + tags[i] + [] == tags[i];
    }
  }

  /** "a,,b" keeps its empty middle segment: [a, "", b]. */
  lemma ParseTagsKeepsEmptySegment()
    ensures ParseTags(Str("a,,b")) == ["a", "", "b"]
  {
    assert "a,,b" == Implode(["a", "", "b"]);
    ParseTagsRoundTrip(["a", "", "b"]);
  }

  // ---------------------------------------------------------------------
  // applyTagFilter

  /** The tags of a page, parsed from its "tags" meta value. */
  function PageTags(p: Page): (tags: seq<string>)
    ensures !Field(p.meta, "tags").Str? ==> tags == []
  {
    ParseTags(Field(p.meta, "tags"))
  }

  /** The closure handed to `array_filter`:
      `count(array_intersect($tagsToShow, $tags)) > 0`, which holds exactly
      when some filter tag is equal to some tag of the page. */
  predicate Matches(p: Page, filter: seq<string>): (b: bool)
    ensures b ==> |filter| > 0 && |PageTags(p)| > 0
  {
    var common := ArrayIntersect(filter, PageTags(p));
    if |common| > 0 then
      assert common[0] in filter && common[0] in PageTags(p);
      true
    else false
  }

  /** A page matches exactly when one of the filter tags is one of its tags. */
  lemma MatchesShared(p: Page, filter: seq<string>)
    ensures Matches(p, filter) <==> exists t :: t in filter && t in PageTags(p)
  {
    var common := ArrayIntersect(filter, PageTags(p));
    if |common| > 0 {
      assert common[0] in common;
    }
  }

  /** With no filter tags nothing matches, which is why the plugin tests for
      an empty filter before filtering at all. */
  lemma NothingMatchesEmptyFilter(p: Page)
    ensures !Matches(p, [])
  {
  }

  /** The closure `applyTagFilter` hands to `array_filter`: it holds for a
      page exactly when one of the filter tags is one of the page's tags. */
  function Keep(filter: seq<string>): (keep: Page -> bool)
    ensures forall p :: keep(p) == Matches(p, filter)
    ensures forall p :: keep(p) <==> exists t :: t in filter && t in PageTags(p)
  {
    assert forall p :: Matches(p, filter) <==> exists t :: t in filter && t in PageTags(p) by {
      forall p ensures Matches(p, filter) <==> exists t :: t in filter && t in PageTags(p) {
        MatchesShared(p, filter);
      }
    }
    p => Matches(p, filter)
  }

  /** `applyTagFilter`, with the current page's filter list as a parameter:
      an empty filter gives the pages back unchanged, any other filter never
      adds a page. */
  function ApplyTagFilter(pages: seq<Page>, filter: seq<string>): (r: seq<Page>)
    ensures |filter| == 0 ==> r == pages
    ensures |r| <= |pages|
    ensures forall q :: q in r ==> q in pages
  {
    if |filter| == 0 then pages
    else
      var r := ArrayFilter(pages, Keep(filter));
      assert forall q :: q in r ==> q in pages by {
        forall q | q in r ensures q in pages {
          ArrayFilterMembers(pages, Keep(filter), q);
        }
      }
      r
  }

  /** With a non-empty filter a page is in the result exactly when it is one
      of the pages and it shares a tag with the filter. */
  lemma ApplyTagFilterMembers(pages: seq<Page>, filter: seq<string>, p: Page)
    requires |filter| > 0
    ensures p in ApplyTagFilter(pages, filter)
        <==> p in pages && exists t :: t in filter && t in PageTags(p)
  {
    ArrayFilterMembers(pages, Keep(filter), p);
    MatchesShared(p, filter);
  }

  /** The filtered pages are the input's pages at exactly the matching keys,
      in their original order: a subsequence that keeps the original keys. */
  lemma ApplyTagFilterKeys(pages: seq<Page>, filter: seq<string>)
    requires |filter| > 0
    ensures exists keys: seq<nat> ::
      IsKeySequence(pages, keys) &&
      (forall k: nat :: k in keys <==> k < |pages| && Matches(pages[k], filter)) &&
      ApplyTagFilter(pages, filter) == Pick(pages, keys)
  {
    var keys := FilterKeys(pages, Keep(filter));
    assert ApplyTagFilter(pages, filter) == Pick(pages, keys);
  }

  /** Filtering twice with the same filter is filtering once. */
  lemma ApplyTagFilterIdempotent(pages: seq<Page>, filter: seq<string>)
    ensures ApplyTagFilter(ApplyTagFilter(pages, filter), filter) == ApplyTagFilter(pages, filter)
  {
    if |filter| > 0 {
      ArrayFilterIdempotent(pages, Keep(filter));
    }
  }

  /** Filtering pages one more page long: the earlier pages filter as
      before, and the new page follows them exactly when it matches. */
  lemma ApplyTagFilterSnoc(pages: seq<Page>, p: Page, filter: seq<string>)
    requires |filter| > 0
    ensures ApplyTagFilter(pages + [p], filter)
         == ApplyTagFilter(pages, filter) + (if Matches(p, filter) then [p] else [])
  {
    ArrayFilterSnoc(pages, p, Keep(filter));
  }

  /** Pages tagged [foo, bar], [baz] and [foo], filtered by [foo]: the first
      and the third remain, in that order. */
  lemma ApplyTagFilterExample(p1: Page, p2: Page, p3: Page)
    requires PageTags(p1) == ["foo", "bar"]
    requires PageTags(p2) == ["baz"]
    requires PageTags(p3) == ["foo"]
    ensures ApplyTagFilter([p1, p2, p3], ["foo"]) == [p1, p3]
  {
    var filter := ["foo"];
    assert Keep(filter)(p1) && !Keep(filter)(p2) && Keep(filter)(p3) by {
      MatchesShared(p1, filter);
      MatchesShared(p2, filter);
      MatchesShared(p3, filter);
      assert "foo" in PageTags(p1) && "foo" in PageTags(p3);
    }
    ArrayFilterKeepsOuter(p1, p2, p3, Keep(filter));
  }

  /** "foo," parses to a tag "foo" and an empty tag. */
  lemma ParseTagsTrailingComma(tag: string)
    requires ',' !in tag && IsTrimmed(tag)
    ensures ParseTags(Str(tag + ",")) == [tag, ""]
  {
    assert tag + "," == Implode([tag, ""]);
    ParseTagsRoundTrip([tag, ""]);
  }

  /** Because empty segments are kept, a filter such as "foo," and a page
      tagged, say, "bar," share the tag "" and the page passes the filter,
      though "foo" and "bar" differ. */
  lemma EmptyTagMatchesEmptyTag(p: Page, wanted: string, tag: string)
    requires ',' !in wanted && IsTrimmed(wanted)
    requires ',' !in tag && IsTrimmed(tag)
    requires Field(p.meta, "tags") == Str(tag + ",")
    ensures ApplyTagFilter([p], ParseTags(Str(wanted + ","))) == [p]
  {
    ParseTagsTrailingComma(wanted);
    ParseTagsTrailingComma(tag);
    var filter := [wanted, ""];
    assert "" in filter && "" in PageTags(p);
    assert Keep(filter)(p);
    assert [p][..0] == [];
    assert FilterKeys([p], Keep(filter)) == [0];
  }

  // ---------------------------------------------------------------------
  // onPagesLoaded / getAllTags

  /** Every tag of every page, in page order: what `onPagesLoaded` merges. */
  function PagesTags(pages: seq<Page>): seq<string> {
    MergeAll(pages, PageTags)
  }

  /** A tag is among the merged tags exactly when some page carries it. */
  lemma PagesTagsHas(pages: seq<Page>, t: string)
    ensures t in PagesTags(pages) <==> exists i :: 0 <= i < |pages| && t in PageTags(pages[i])
  {
    MergeAllHas(pages, PageTags, t);
  }

  /** De-duplicating a list that already had no duplicates keeps that list as
      a prefix: tags collected earlier stay where they were, new ones follow. */
  lemma {:induction false} ArrayUniqueKeepsPrefix(a: seq<string>, x: seq<string>)
    requires NoDuplicates(a)
    ensures |ArrayUnique(a + x)| >= |a| && ArrayUnique(a + x)[..|a|] == a
  {
    if |x| == 0 {
      assert a + x == a;
      ArrayUniqueNoDuplicates(a);
    } else {
      var x' := x[..|x| - 1];
      ArrayUniqueKeepsPrefix(a, x');
      assert (a + x)[..|a + x| - 1] == a + x';
    }
  }

  /** `allTags` is never reset: two loads in a row collect the same tags, in
      the same order, as one load of both page lists. */
  lemma AccumulatesAcrossLoads(all: seq<string>, first: seq<Page>, second: seq<Page>)
    ensures ArrayUnique(ArrayUnique(all + PagesTags(first)) + PagesTags(second))
         == ArrayUnique(all + PagesTags(first + second))
  {
    MergeAllTwice(all, first, second, PageTags);
  }

  /** The plugin object: its one piece of state is the list of all tags
      seen on loaded pages. */
  class PicoTags {
    var allTags: seq<string>

    /** `allTags` never holds a tag twice. */
    ghost predicate Valid()
      reads this
    {
      NoDuplicates(allTags)
    }

    constructor ()
      ensures Valid() && allTags == []
    {
      allTags := [];
    }

    /** `onMetaHeaders`: registers the headers "Tags" and "Filter" under the
        keys "tags" and "filter", and leaves every other header as it was. */
    method OnMetaHeaders(headers: map<string, string>) returns (updated: map<string, string>)
      ensures updated.Keys == headers.Keys + {"tags", "filter"}
      ensures updated["tags"] == "Tags" && updated["filter"] == "Filter"
      ensures forall k :: k in headers && k != "tags" && k != "filter" ==> updated[k] == headers[k]
    {
      updated := headers;
      updated := updated["tags" := "Tags"];
      updated := updated["filter" := "Filter"];
    }

    /** `onMetaParsed`: replaces the "tags" and "filter" meta values by their
        parsed tag lists, and leaves every other meta value as it was. */
    method OnMetaParsed(meta: map<string, Value>) returns (updated: map<string, Value>)
      ensures updated.Keys == meta.Keys + {"tags", "filter"}
      ensures updated["tags"] == List(ParseTags(Field(meta, "tags")))
      ensures updated["filter"] == List(ParseTags(Field(meta, "filter")))
      ensures "tags" !in meta ==> updated["tags"] == List([])
      ensures "filter" !in meta ==> updated["filter"] == List([])
      ensures forall k :: k in meta && k != "tags" && k != "filter" ==> updated[k] == meta[k]
    {
      updated := meta;
      updated := updated["tags" := List(ParseTags(Field(meta, "tags")))];
      updated := updated["filter" := List(ParseTags(Field(meta, "filter")))];
    }

    /** `onPagesLoaded`: merges the tags of every page into `allTags`, then
        de-duplicates it, keeping first occurrences. */
    method OnPagesLoaded(pages: seq<Page>)
      modifies this
      ensures Valid()
      ensures allTags == ArrayUnique(old(allTags) + PagesTags(pages))
      ensures forall t :: t in allTags <==> t in old(allTags) || exists i :: 0 <= i < |pages| && t in PageTags(pages[i])
      ensures old(Valid()) ==> |allTags| >= |old(allTags)| && allTags[..|old(allTags)|] == old(allTags)
    {
      ghost var before := allTags;
      var i := 0;
      while i < |pages|
        invariant 0 <= i <= |pages|
        invariant allTags == before + PagesTags(pages[..i])
      {
        var tags := PageTags(pages[i]);
        if tags != [] {
          allTags := allTags + tags;
        }
        assert pages[..i + 1][..i] == pages[..i];
        i := i + 1;
      }
      assert pages[..i] == pages;
      allTags := ArrayUnique(allTags);
      forall t {
        PagesTagsHas(pages, t);
      }
      if NoDuplicates(before) {
        ArrayUniqueKeepsPrefix(before, PagesTags(pages));
      }
    }

    /** `getAllTags`: the collected tags, none of them twice. */
    function GetAllTags(): (tags: seq<string>)
      reads this
      ensures tags == allTags
      ensures Valid() ==> NoDuplicates(tags)
    {
      allTags
    }
  }
}
