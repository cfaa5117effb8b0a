/**
 * The blog page's progressive loader: it shows the filtered posts six at
 * a time, each load appending the next page, and a filter choice
 * replaces the filtered posts and starts again from the first page.
 * A load is split in two, as the page's timer splits it: `LoadPosts`
 * starts it and `FinishLoad` is the delayed step that renders the page.
 */
module InfiniteScroll {
  import opened JsArrays
  import opened BlogPosts

  /** The posts one load shows. */
  const PostsPerPage: nat := 6

  /** The filter keys that stand for a group of content tags, Norwegian keys first, then English ones. */
  const CategoryMappings: map<string, seq<string>> := map[
    "skulder" := ["skulder", "armsmerter", "albuesmerter", "håndleddsmerter", "skulder-og-arm"],
    "hoftesmerter" := ["hoftesmerter", "bekkensmerter", "lyskesmerter", "hofte"],
    "fotsmerter" := ["fotsmerter", "ankelsmerter", "hælsmerter", "fot", "fot-og-ankel"],
    "hodepine" := ["hodepine", "migrene"],
    "ryggsmerter" := ["ryggsmerter", "korsryggsmerter", "prolaps", "rygg"],
    "nakkesmerter" := ["nakkesmerter", "nakke", "stiv-nakke"],
    "kjevesmerter" := ["kjevesmerter", "kjeve", "tmd"],
    "andre-interesser" := ["andre-interesser", "boktips", "litteratur"],
    "kurs" := ["kurs", "foredrag", "undervisning"],
    "back-pain" := ["ryggsmerter", "korsryggsmerter", "prolaps", "rygg"],
    "neck-pain" := ["nakkesmerter", "nakke", "stiv-nakke"],
    "shoulder" := ["skulder", "armsmerter", "albuesmerter", "håndleddsmerter", "skulder-og-arm"],
    "hip-pain" := ["hoftesmerter", "bekkensmerter", "lyskesmerter", "hofte"],
    "knee-pain" := ["knesmerter", "menisk", "kne"],
    "foot-pain" := ["fotsmerter", "ankelsmerter", "hælsmerter", "fot", "fot-og-ankel"],
    "headache" := ["hodepine", "migrene"],
    "dizziness" := ["svimmelhet", "krystallsyke"],
    "jaw-pain" := ["kjevesmerter", "kjeve", "tmd"],
    "sports-injuries" := ["idrettsskader", "strekk"],
    "chiropractic" := ["kiropraktikk"],
    "research" := ["forskning"],
    "other-interests" := ["andre-interesser", "boktips", "litteratur"],
    "courses" := ["kurs", "foredrag", "undervisning"],
    "all" := ["alle"]
  ]

  /** The tags a filter key stands for: its mapping, or the key alone when it has none. */
  function TagVariations(mappings: map<string, seq<string>>, tag: string): seq<string>
  {
    if tag in mappings then mappings[tag] else [tag]
  }

  /** `postMatchesTag` over a given mapping: a category, clinical tag or related condition is one of the variations. */
  predicate MatchesTag(mappings: map<string, seq<string>>, post: Post, tag: string)
  {
    var variations := TagVariations(mappings, tag);
    AnyIn(post.categories, variations)
    || AnyIn(post.clinicalTags, variations)
    || AnyIn(post.relatedConditions, variations)
  }

  /** A post matches exactly when one of its categories, clinical tags or related conditions is a variation of the key. */
  lemma MatchesTagIff(mappings: map<string, seq<string>>, post: Post, tag: string)
    ensures MatchesTag(mappings, post, tag) <==>
      exists x :: x in TagVariations(mappings, tag)
        && (x in post.categories || x in post.clinicalTags || x in post.relatedConditions)
  {
    var variations := TagVariations(mappings, tag);
    AnyInIff(post.categories, variations);
    AnyInIff(post.clinicalTags, variations);
    AnyInIff(post.relatedConditions, variations);
  }

  /** A key without a mapping matches the posts that carry the key itself. */
  lemma UnmappedTagMatchesItself(mappings: map<string, seq<string>>, post: Post, tag: string)
    requires tag !in mappings
    ensures MatchesTag(mappings, post, tag) <==>
      tag in post.categories || tag in post.clinicalTags || tag in post.relatedConditions
  {
    MatchesTagIff(mappings, post, tag);
    assert tag in TagVariations(mappings, tag);
  }

  /** The Norwegian filter keys, which are content tags themselves. */
  const NorwegianKeys: set<string> := {
    "skulder", "hoftesmerter", "fotsmerter", "hodepine", "ryggsmerter",
    "nakkesmerter", "kjevesmerter", "andre-interesser", "kurs"
  }

  /** A Norwegian key stands for a group that holds the key itself. */
  lemma NorwegianKeyInOwnGroup(tag: string)
    requires tag in NorwegianKeys
    ensures tag in CategoryMappings && tag in CategoryMappings[tag]
  {
  }

  /** Filtering by a Norwegian key keeps every post of that category. */
  lemma NorwegianKeyKeepsCategory(post: Post, tag: string)
    requires tag in NorwegianKeys && tag in post.categories
    ensures MatchesTag(CategoryMappings, post, tag)
  {
    NorwegianKeyInOwnGroup(tag);
    MatchesTagIff(CategoryMappings, post, tag);
  }

  /** The test the filter keeps posts by. */
  function MatchingTag(mappings: map<string, seq<string>>, tag: string): Post -> bool
  {
    (post: Post) => MatchesTag(mappings, post, tag)
  }

  /**
   * The page after the first `page - 1` ones: it is empty exactly when the
   * earlier pages took every post; appended to them it gives the first
   * posts up to the end of the page, or all of them.
   */
  lemma NextPage(posts: seq<Post>, page: int)
    requires 1 <= page && (page - 1) * PostsPerPage <= |posts|
    ensures var start := (page - 1) * PostsPerPage;
            var next := Slice(posts, start, start + PostsPerPage);
            (page + 1 - 1) * PostsPerPage == start + PostsPerPage
            && (next == [] <==> start == |posts|)
            && (next == [] ==> posts[..start] == posts)
            && (start + PostsPerPage <= |posts| ==> posts[..start] + next == posts[..start + PostsPerPage])
            && (|posts| < start + PostsPerPage ==> posts[..start] + next == posts)
  {
    var start := (page - 1) * PostsPerPage;
    SliceWindow(posts, start, start + PostsPerPage);
    if start + PostsPerPage <= |posts| {
      assert posts[..start] + posts[start..start + PostsPerPage] == posts[..start + PostsPerPage];
    } else {
      assert posts[..start] + posts[start..] == posts;
    }
  }

  class InfiniteScrollBlog {
    var currentPage: int
    var isLoading: bool
    var hasMorePosts: bool
    var currentFilter: string
    var allPosts: seq<Post>
    var filteredPosts: seq<Post>
    const categoryMappings: map<string, seq<string>>
    /** The posts the blog container shows, in order. */
    var shown: seq<Post>

    /**
     * The container always shows a prefix of the filtered posts, with none
     * skipped and none twice: the pages loaded so far while more remain, all
     * of them once none remain. A
     * load is under way only while more posts remain.
     */
    ghost predicate Valid()
      reads this
    {
      currentPage >= 1
      && (isLoading ==> hasMorePosts)
      && (hasMorePosts ==>
            (currentPage - 1) * PostsPerPage <= |filteredPosts|
            && shown == filteredPosts[..(currentPage - 1) * PostsPerPage])
      && (!hasMorePosts ==> shown == filteredPosts)
    }

    constructor()
      ensures Valid()
      ensures currentPage == 1 && !isLoading && hasMorePosts && currentFilter == "alle"
      ensures allPosts == [] && filteredPosts == [] && shown == []
      ensures categoryMappings == CategoryMappings
    {
      currentPage := 1;
      isLoading := false;
      hasMorePosts := true;
      currentFilter := "alle";
      allPosts := [];
      filteredPosts := [];
      categoryMappings := CategoryMappings;
      shown := [];
    }

    /** `init` once the post list is available: every post is shown unfiltered, from the first page. */
    method Init(posts: seq<Post>)
      modifies this
      ensures Valid()
      ensures allPosts == posts && filteredPosts == posts
      ensures currentPage == 1 && hasMorePosts && isLoading && shown == []
      ensures currentFilter == old(currentFilter)
    {
      allPosts := posts;
      filteredPosts := posts;
      LoadInitialPosts();
    }

    /** `loadInitialPosts`: clears the container, goes back to the first page and starts a load. */
    method LoadInitialPosts()
      modifies this
      ensures Valid()
      ensures shown == [] && currentPage == 1 && hasMorePosts && isLoading
      ensures allPosts == old(allPosts) && filteredPosts == old(filteredPosts)
      ensures currentFilter == old(currentFilter)
    {
      shown := [];
      currentPage := 1;
      hasMorePosts := true;
      var _ := LoadPosts();
    }

    /**
     * `loadPosts`: does nothing while a load is under way or when no posts
     * remain; otherwise marks a load as under way, whose delayed step is
     * `FinishLoad`.
     */
    method LoadPosts() returns (started: bool)
      requires Valid()
      modifies this
      ensures Valid()
      ensures started <==> !old(isLoading) && old(hasMorePosts)
      ensures !started ==> isLoading == old(isLoading)
      ensures started ==> isLoading
      ensures currentPage == old(currentPage) && hasMorePosts == old(hasMorePosts) && shown == old(shown)
      ensures allPosts == old(allPosts) && filteredPosts == old(filteredPosts)
      ensures currentFilter == old(currentFilter)
    {
      if isLoading || !hasMorePosts {
        return false;
      }
      isLoading := true;
      started := true;
    }

    /**
     * The delayed step of a load: shows the current page of the filtered
     * posts. An empty page means no posts remain; otherwise the page number
     * moves on, and no posts remain once the page reached the end of the
     * list. The load is over afterwards.
     */
    method FinishLoad()
      requires Valid() && isLoading
      modifies this
      ensures Valid()
      ensures var start := (old(currentPage) - 1) * PostsPerPage;
              var page := Slice(filteredPosts, start, start + PostsPerPage);
              shown == old(shown) + page
              && (page == [] ==> currentPage == old(currentPage) && !hasMorePosts)
              && (page != [] ==> currentPage == old(currentPage) + 1
                                 && (hasMorePosts <==> start + PostsPerPage < |filteredPosts|))
      ensures !isLoading
      ensures allPosts == old(allPosts) && filteredPosts == old(filteredPosts)
      ensures currentFilter == old(currentFilter)
    {
      var startIndex := (currentPage - 1) * PostsPerPage;
      var endIndex := startIndex + PostsPerPage;
      var postsToLoad := Slice(filteredPosts, startIndex, endIndex);
      NextPage(filteredPosts, currentPage);
      if |postsToLoad| == 0 {
        hasMorePosts := false;
      } else {
        shown := shown + postsToLoad;
        currentPage := currentPage + 1;
        if endIndex >= |filteredPosts| {
          hasMorePosts := false;
        }
      }
      isLoading := false;
    }

    /** `postMatchesTag`: one of the post's categories, clinical tags or related conditions is a variation of the key. */
    function PostMatchesTag(post: Post, selectedTag: string): (r: bool)
      ensures r <==>
        exists x :: x in TagVariations(categoryMappings, selectedTag)
          && (x in post.categories || x in post.clinicalTags || x in post.relatedConditions)
    {
      MatchesTagIff(categoryMappings, post, selectedTag);
      MatchesTag(categoryMappings, post, selectedTag)
    }

    /**
     * `handleFilterChange`: "alle" or "all" restores every post; any other
     * key keeps exactly the posts that match it, in their order. Either way
     * the container starts again from the first page.
     */
    method HandleFilterChange(filterTag: string)
      modifies this
      ensures Valid()
      ensures currentFilter == filterTag
      ensures filterTag == "alle" || filterTag == "all" ==> filteredPosts == allPosts
      ensures filterTag != "alle" && filterTag != "all" ==>
        FilteredFrom(filteredPosts, allPosts, MatchingTag(categoryMappings, filterTag))
        && forall i :: 0 <= i < |filteredPosts| ==> PostMatchesTag(filteredPosts[i], filterTag)
      ensures allPosts == old(allPosts)
      ensures shown == [] && currentPage == 1 && hasMorePosts && isLoading
    {
      currentFilter := filterTag;
      if filterTag == "alle" || filterTag == "all" {
        filteredPosts := allPosts;
      } else {
        filteredPosts := Filter(allPosts, MatchingTag(categoryMappings, filterTag));
        FilterKeepsOrder(allPosts, MatchingTag(categoryMappings, filterTag));
      }
      LoadInitialPosts();
    }
  }
}
