/**
 * The tag filter of the blog index: the selected tags, the posts they let
 * through (a post passes when it carries any selected tag; no selection lets
 * every post through), the toggle and clear actions, and the summary line
 * naming the selection.
 */
module TagFilter {
  import opened Wrappers
  import opened Text
  import opened Sorting
  import opened Posts

  predicate HasAnyTag(p: PostMeta, selected: seq<string>) {
    exists t :: t in selected && t in p.tags
  }

  /** `filteredPosts`. */
  function FilterPosts(posts: seq<PostMeta>, selected: seq<string>): (r: seq<PostMeta>)
    ensures |r| <= |posts|
    decreases |posts|
  {
    if |selected| == 0 || |posts| == 0 then posts
    else
      var rest := FilterPosts(posts[1..], selected);
      if HasAnyTag(posts[0], selected) then [posts[0]] + rest else rest
  }

  /** `s` is `t` with some elements left out, the rest kept in order. */
  predicate IsSubsequence<T(==)>(s: seq<T>, t: seq<T>)
    decreases |t|
  {
    if |s| == 0 then true
    else if |t| == 0 then false
    else if s[0] == t[0] then IsSubsequence(s[1..], t[1..])
    else IsSubsequence(s, t[1..])
  }

  lemma {:induction false} SubsequenceOfSelf<T>(t: seq<T>)
    ensures IsSubsequence(t, t)
    decreases |t|
  {
    if |t| > 0 {
      SubsequenceOfSelf(t[1..]);
    }
  }

  /**
   * With no tag selected every post is shown; otherwise exactly the posts
   * carrying at least one selected tag are, in the index's order.
   */
  lemma {:induction false} FilterPostsSpec(posts: seq<PostMeta>, selected: seq<string>, p: PostMeta)
    ensures |selected| == 0 ==> FilterPosts(posts, selected) == posts
    ensures |selected| > 0 ==> (p in FilterPosts(posts, selected) <==> p in posts && HasAnyTag(p, selected))
    ensures IsSubsequence(FilterPosts(posts, selected), posts)
    decreases |posts|
  {
    if |selected| == 0 || |posts| == 0 {
      SubsequenceOfSelf(posts);
    } else {
      FilterPostsSpec(posts[1..], selected, p);
      var rest := FilterPosts(posts[1..], selected);
      if HasAnyTag(posts[0], selected) {
        assert ([posts[0]] + rest)[1..] == rest;
      } else if |rest| > 0 {
        FilterPostsSpec(posts[1..], selected, rest[0]);
        assert rest[0] in rest;
        assert rest[0] != posts[0];
      }
    }
  }

  /**
   * Selecting more tags never hides a post: with a non-empty selection, a
   * post shown for the smaller selection is shown for the larger one.
   */
  lemma SelectingMoreShowsMore(posts: seq<PostMeta>, small: seq<string>, large: seq<string>, p: PostMeta)
    requires |small| > 0
    requires forall t :: t in small ==> t in large
    ensures p in FilterPosts(posts, small) ==> p in FilterPosts(posts, large)
  {
    FilterPostsSpec(posts, small, p);
    FilterPostsSpec(posts, large, p);
  }

  // ---- selection ----

  /** `handleTagClick`: a selected tag is removed (every occurrence), an unselected one appended. */
  function Toggle(selected: seq<string>, tag: string): (r: seq<string>)
  {
    if tag in selected then Remove(selected, tag) else selected + [tag]
  }

  /** `current.filter(t => t !== tag)`. */
  function Remove(s: seq<string>, tag: string): (r: seq<string>)
    decreases |s|
  {
    if |s| == 0 then []
    else (if s[0] == tag then [] else [s[0]]) + Remove(s[1..], tag)
  }

  lemma {:induction false} RemoveSpec(s: seq<string>, tag: string, t: string)
    ensures t in Remove(s, tag) <==> t in s && t != tag
    ensures tag !in s ==> Remove(s, tag) == s
    ensures Distinct(s) ==> Distinct(Remove(s, tag))
    decreases |s|
  {
    if |s| > 0 {
      RemoveSpec(s[1..], tag, t);
      RemoveSpec(s[1..], tag, s[0]);
      assert s == [s[0]] + s[1..];
      if Distinct(s) {
        assert Distinct(s[1..]);
        var r := Remove(s, tag);
        var rest := Remove(s[1..], tag);
        if s[0] != tag {
          assert s[0] !in s[1..];
          forall i, j | 0 <= i < j < |r|
            ensures r[i] != r[j]
          {
            assert r[j] == rest[j - 1];
            if i > 0 {
              assert r[i] == rest[i - 1];
            } else {
              assert rest[j - 1] in rest;
            }
          }
        }
      }
    }
  }

  /**
   * Removal works piecewise and keeps the order of what stays: the
   * remaining tags of a concatenation are the remaining tags of each part.
   */
  lemma {:induction false} RemoveConcat(a: seq<string>, b: seq<string>, tag: string)
    ensures Remove(a + b, tag) == Remove(a, tag) + Remove(b, tag)
    ensures Remove([tag], tag) == [] && (forall x :: x != tag ==> Remove([x], tag) == [x])
    decreases |a|
  {
    if |a| > 0 {
      RemoveConcat(a[1..], b, tag);
      assert (a + b)[1..] == a[1..] + b;
    } else {
      assert a + b == b;
    }
    assert Remove([tag], tag) == [] + Remove([], tag);
    forall x | x != tag
      ensures Remove([x], tag) == [x]
    {
      assert Remove([x], tag) == [x] + Remove([], tag);
    }
  }

  /**
   * Clicking a tag flips whether it is selected and leaves every other tag
   * as it was; a selection without repeats stays without repeats.
   */
  lemma ToggleSpec(selected: seq<string>, tag: string, t: string)
    ensures tag in Toggle(selected, tag) <==> tag !in selected
    ensures t != tag ==> (t in Toggle(selected, tag) <==> t in selected)
    ensures Distinct(selected) ==> Distinct(Toggle(selected, tag))
    ensures tag !in selected ==> Toggle(selected, tag) == selected + [tag]
  {
    RemoveSpec(selected, tag, t);
    RemoveSpec(selected, tag, tag);
    if tag !in selected && Distinct(selected) {
      var r := selected + [tag];
      forall i, j | 0 <= i < j < |r|
        ensures r[i] != r[j]
      {
        if j == |selected| {
          assert r[i] in selected;
        }
      }
    }
  }

  /** Clicking an unselected tag twice restores the selection exactly. */
  lemma ToggleTwiceRestores(selected: seq<string>, tag: string)
    requires tag !in selected
    ensures Toggle(Toggle(selected, tag), tag) == selected
  {
    RemoveAppended(selected, tag);
  }

  lemma {:induction false} RemoveAppended(s: seq<string>, tag: string)
    requires tag !in s
    ensures Remove(s + [tag], tag) == s
    decreases |s|
  {
    if |s| == 0 {
      assert Remove([tag], tag) == [] + Remove([], tag);
    } else {
      RemoveAppended(s[1..], tag);
      assert (s + [tag])[1..] == s[1..] + [tag];
    }
  }

  /** `clearAllTags`. */
  const Cleared: seq<string> := []

  /** Clearing the selection shows the whole index. */
  lemma ClearShowsAll(posts: seq<PostMeta>)
    ensures FilterPosts(posts, Cleared) == posts
  {
    FilterPostsSpec(posts, Cleared, PostMeta("", "", "", "", [], Md));
  }

  // ---- summary line ----

  /** What follows the quoted tag at `index` of `count`: ", " between, " or " before the last, nothing after it. */
  function Separator(index: nat, count: nat): string {
    if index + 1 < count then (if index + 2 == count then " or " else ", ") else ""
  }

  function Quoted(tag: string): string {
    "\"" + tag + "\""
  }

  /** The rendered spans from position `i` on. */
  function SpansFrom(tags: seq<string>, i: nat): string
    requires i <= |tags|
    decreases |tags| - i
  {
    if i == |tags| then "" else Quoted(tags[i]) + Separator(i, |tags|) + SpansFrom(tags, i + 1)
  }

  /** An English list: `"a"`, `"a" or "b"`, `"a", "b" or "c"`. */
  function TagPhrase(tags: seq<string>): string
    decreases |tags|
  {
    if |tags| == 0 then ""
    else if |tags| == 1 then Quoted(tags[0])
    else if |tags| == 2 then Quoted(tags[0]) + " or " + Quoted(tags[1])
    else Quoted(tags[0]) + ", " + TagPhrase(tags[1..])
  }

  lemma {:induction false} SpansFromPhrase(tags: seq<string>, i: nat)
    requires i <= |tags|
    ensures SpansFrom(tags, i) == TagPhrase(tags[i..])
    decreases |tags| - i
  {
    if i < |tags| {
      SpansFromPhrase(tags, i + 1);
      assert tags[i..][1..] == tags[i + 1..];
      if i + 2 == |tags| {
        assert SpansFrom(tags, i + 2) == "";
      }
    }
  }

  /**
   * The summary line shown under a non-empty selection, `None` without one:
   * the count of shown posts, "post" made plural unless the count is 1, and
   * the selected tags as a list joined by commas and a final "or".
   */
  function SummaryLine(shown: nat, selected: seq<string>): (r: Option<string>)
  {
    if |selected| == 0 then None
    else Some("Showing " + NatToString(shown) + " post" + (if shown != 1 then "s" else "")
      + " tagged with " + SpansFrom(selected, 0))
  }

  lemma SummaryLineReads(shown: nat, selected: seq<string>)
    ensures SummaryLine(shown, selected).None? <==> |selected| == 0
    ensures |selected| > 0 ==>
      SummaryLine(shown, selected).value == "Showing " + NatToString(shown) + (if shown == 1 then " post" else " posts") + " tagged with " + TagPhrase(selected)
  {
    SpansFromPhrase(selected, 0);
    assert selected[0..] == selected;
  }

  lemma SummaryLineExamples()
    ensures TagPhrase(["a"]) == "\"a\""
    ensures TagPhrase(["a", "b"]) == "\"a\" or \"b\""
    ensures TagPhrase(["a", "b", "c"]) == "\"a\", \"b\" or \"c\""
  {
    assert ["a", "b", "c"][1..] == ["b", "c"];
  }

  // ---- what the list area shows ----

  datatype ListArea = PostList(posts: seq<PostMeta>) | NoMatches | ComingSoon

  /** The posts, or, with none to show, "No posts found" under a selection and "Coming Soon" without. */
  function ListAreaFor(posts: seq<PostMeta>, selected: seq<string>): ListArea {
    var shown := FilterPosts(posts, selected);
    if |shown| > 0 then PostList(shown)
    else if |selected| > 0 then NoMatches
    else ComingSoon
  }

  /** "Coming Soon" appears exactly when the index is empty; "No posts found" only under a selection. */
  lemma ListAreaCases(posts: seq<PostMeta>, selected: seq<string>)
    ensures ListAreaFor(posts, selected) == ComingSoon <==> |posts| == 0 && |selected| == 0
    ensures ListAreaFor(posts, selected) == NoMatches ==>
      |selected| > 0 && forall p :: p in posts ==> !HasAnyTag(p, selected)
  {
    if ListAreaFor(posts, selected) == NoMatches {
      forall p | p in posts
        ensures !HasAnyTag(p, selected)
      {
        FilterPostsSpec(posts, selected, p);
      }
    }
  }
}
