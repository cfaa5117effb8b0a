/**
 * The blog's post queries: the most recent posts, the posts of a
 * category, the posts related to a given post, the posts of a diagnosis,
 * and the sorted list of every clinical tag in use. The post list is a
 * parameter; a post holds the fields the queries read, and a list the
 * post leaves out is empty.
 */
module BlogPosts {
  import opened JsArrays

  datatype Post = Post(
    id: string,
    categories: seq<string>,
    clinicalTags: seq<string>,
    relatedConditions: seq<string>)

  /** The number of posts `getRecentPosts` and `getRelatedPosts` return when no limit is given. */
  const DefaultLimit := 3

  /**
   * `getRecentPosts(limit)`: the first `limit` posts in list order, or all
   * of them; a negative limit drops that many posts from the end instead.
   */
  function RecentPosts(posts: seq<Post>, limit: int := DefaultLimit): (r: seq<Post>)
    ensures 0 <= limit <= |posts| ==> r == posts[..limit]
    ensures |posts| < limit ==> r == posts
    ensures limit < 0 && -limit <= |posts| ==> r == posts[..|posts| + limit]
    ensures limit < 0 && |posts| < -limit ==> r == []
  {
    Slice(posts, 0, limit)
  }

  /** The test `getPostsByTag` filters with. */
  function InCategory(tag: string): Post -> bool
  {
    (post: Post) => tag in post.categories
  }

  /** `getPostsByTag(tag)`: exactly the posts whose categories hold `tag`, in list order. */
  function PostsByTag(posts: seq<Post>, tag: string): (r: seq<Post>)
    ensures forall i :: 0 <= i < |r| ==> tag in r[i].categories
    ensures forall i :: 0 <= i < |posts| && tag in posts[i].categories ==> posts[i] in r
    ensures FilteredFrom(r, posts, InCategory(tag))
  {
    FilterKeepsOrder(posts, InCategory(tag));
    Filter(posts, InCategory(tag))
  }

  /**
   * The test `getRelatedPosts` filters with: another post that shares a
   * category or a clinical tag with the current one, or has a category the
   * current one lists among its related conditions.
   */
  predicate Related(current: Post, post: Post)
  {
    post.id != current.id
    && (AnyIn(post.categories, current.categories)
        || AnyIn(post.clinicalTags, current.clinicalTags)
        || AnyIn(post.categories, current.relatedConditions))
  }

  function RelatedTo(current: Post): Post -> bool
  {
    (post: Post) => Related(current, post)
  }

  /**
   * `getRelatedPosts(currentPost, limit)`: the first `limit` related
   * posts in list order. None has the current post's id, and each shares
   * a category or a clinical tag with it or has a category among its
   * related conditions.
   */
  function RelatedPosts(posts: seq<Post>, current: Post, limit: int := DefaultLimit): (r: seq<Post>)
    ensures forall i :: 0 <= i < |r| ==> r[i].id != current.id
    ensures 0 <= limit ==> |r| <= limit
    ensures forall i :: 0 <= i < |r| ==> SharesWith(current, r[i])
    ensures Subsequence(r, posts)
    ensures 0 <= limit ==> var related := Filter(posts, RelatedTo(current));
      r == related[..if limit <= |related| then limit else |related|]
  {
    var related := Filter(posts, RelatedTo(current));
    RelatedPrefix(posts, current, |Slice(related, 0, limit)|);
    Slice(related, 0, limit)
  }

  /** The first `k` related posts are related, and come from the list in its order. */
  lemma RelatedPrefix(posts: seq<Post>, current: Post, k: nat)
    requires k <= |Filter(posts, RelatedTo(current))|
    ensures var r := Filter(posts, RelatedTo(current))[..k];
            Subsequence(r, posts)
            && (forall i :: 0 <= i < |r| ==> r[i].id != current.id)
            && (forall i :: 0 <= i < |r| ==> SharesWith(current, r[i]))
  {
    var related := Filter(posts, RelatedTo(current));
    FilterKeepsOrder(posts, RelatedTo(current));
    SubsequencePrefix(related, posts, k);
    forall i | 0 <= i < k
      ensures related[i].id != current.id
      ensures SharesWith(current, related[i])
    {
      assert RelatedTo(current)(related[i]);
      RelatedShares(current, related[i]);
    }
  }

  /**
   * `post` shares a category or a clinical tag with `current`, or has a
   * category among the related conditions of `current`.
   */
  predicate SharesWith(current: Post, post: Post)
  {
    (exists c :: c in post.categories && c in current.categories)
    || (exists t :: t in post.clinicalTags && t in current.clinicalTags)
    || (exists c :: c in post.categories && c in current.relatedConditions)
  }

  /** The three `some` tests hold exactly when the posts share a category, a clinical tag or a related condition. */
  lemma RelatedShares(current: Post, post: Post)
    ensures Related(current, post) <==> post.id != current.id && SharesWith(current, post)
  {
    AnyInIff(post.categories, current.categories);
    AnyInIff(post.clinicalTags, current.clinicalTags);
    AnyInIff(post.categories, current.relatedConditions);
  }

  /** The test `getPostsByDiagnosis` filters with. */
  function HasDiagnosis(diagnosis: string): Post -> bool
  {
    (post: Post) => diagnosis in post.clinicalTags || diagnosis in post.categories
  }

  /** `getPostsByDiagnosis(d)`: exactly the posts with `d` among their clinical tags or categories, in list order. */
  function PostsByDiagnosis(posts: seq<Post>, diagnosis: string): (r: seq<Post>)
    ensures forall i :: 0 <= i < |r| ==> diagnosis in r[i].clinicalTags || diagnosis in r[i].categories
    ensures forall i :: 0 <= i < |posts| && (diagnosis in posts[i].clinicalTags || diagnosis in posts[i].categories) ==>
      posts[i] in r
    ensures FilteredFrom(r, posts, HasDiagnosis(diagnosis))
  {
    FilterKeepsOrder(posts, HasDiagnosis(diagnosis));
    Filter(posts, HasDiagnosis(diagnosis))
  }

  /** The clinical tags of one post, as a set. */
  function TagsOf(post: Post): set<string>
  {
    set t | t in post.clinicalTags
  }

  /** The clinical tags of all posts, gathered post by post. */
  function ClinicalTagSet(posts: seq<Post>): set<string>
  {
    if posts == [] then {}
    else ClinicalTagSet(posts[..|posts| - 1]) + TagsOf(posts[|posts| - 1])
  }

  /** A tag is gathered exactly when some post lists it. */
  lemma {:induction false} ClinicalTagSetIff(posts: seq<Post>, t: string)
    ensures t in ClinicalTagSet(posts) <==> exists i :: 0 <= i < |posts| && t in posts[i].clinicalTags
  {
    if posts != [] {
      var init := posts[..|posts| - 1];
      ClinicalTagSetIff(init, t);
      if exists i :: 0 <= i < |init| && t in init[i].clinicalTags {
        var i :| 0 <= i < |init| && t in init[i].clinicalTags;
        assert posts[i] == init[i];
      }
      if exists i :: 0 <= i < |posts| && t in posts[i].clinicalTags {
        var i :| 0 <= i < |posts| && t in posts[i].clinicalTags;
        if i < |init| {
          assert init[i] == posts[i];
        }
      }
    }
  }

  /**
   * `getAllClinicalTags()`: every clinical tag some post lists, each once,
   * in ascending order.
   */
  method AllClinicalTags(posts: seq<Post>) returns (tags: seq<string>)
    ensures StrictlyAscending(tags)
    ensures forall t :: t in tags <==> exists i :: 0 <= i < |posts| && t in posts[i].clinicalTags
  {
    var allTags: set<string> := {};
    for i := 0 to |posts|
      invariant allTags == ClinicalTagSet(posts[..i])
    {
      var post := posts[i];
      for j := 0 to |post.clinicalTags|
        invariant allTags == ClinicalTagSet(posts[..i]) + (set k | 0 <= k < j :: post.clinicalTags[k])
      {
        allTags := allTags + {post.clinicalTags[j]};
      }
      assert posts[..i + 1][..i] == posts[..i];
      assert (set k | 0 <= k < |post.clinicalTags| :: post.clinicalTags[k]) == TagsOf(post);
    }
    assert posts[..|posts|] == posts;
    tags := SortedFromSet(allTags);
    forall t
      ensures t in tags <==> exists i :: 0 <= i < |posts| && t in posts[i].clinicalTags
    {
      ClinicalTagSetIff(posts, t);
    }
  }
}
