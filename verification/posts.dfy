/**
 * The post index behind the blog: `.md` files in the blog directory and
 * `.mdx` files in the MDX directory become post summaries, listed newest
 * first; a single post is looked up by slug, the MDX directory taking
 * precedence; and the tag list is every tag of every post, once, in
 * ascending order.
 *
 * The file system is a parameter: each directory is its listing (`None` when
 * the directory does not exist) with every file's parsed front matter. The
 * markdown/MDX rendering of a post's body is not modelled.
 */
module Posts {
  import opened Wrappers
  import opened Text
  import opened Sorting

  /** The front matter fields the index reads; `tags` is `None` when absent. */
  datatype Frontmatter = Frontmatter(title: string, date: string, excerpt: string, tags: Option<seq<string>>)

  datatype SourceFile = SourceFile(name: string, front: Frontmatter)

  /** A directory's listing, or `None` when it does not exist. */
  type Directory = Option<seq<SourceFile>>

  /** `content/blog` and `content/mdx`. */
  datatype ContentTree = ContentTree(blog: Directory, mdx: Directory)

  datatype PostType = Md | Mdx

  datatype PostMeta = PostMeta(slug: string, title: string, date: string, excerpt: string,
                               tags: seq<string>, postType: PostType)

  const MdExtension: string := ".md"
  const MdxExtension: string := ".mdx"

  function Extension(t: PostType): string {
    match t
    case Md => MdExtension
    case Mdx => MdxExtension
  }

  function Listing(dir: Directory): seq<SourceFile> {
    match dir
    case None => []
    case Some(files) => files
  }

  /** The summary of one file whose name ends in the extension of `t`. */
  function Summary(f: SourceFile, t: PostType): (p: PostMeta)
    requires EndsWith(f.name, Extension(t))
    ensures p.slug + Extension(t) == f.name
    ensures p.postType == t
  {
    PostMeta(DropSuffix(f.name, Extension(t)), f.front.title, f.front.date, f.front.excerpt,
      f.front.tags.GetOr([]), t)
  }

  /** The files of a listing with the extension of `t`, in listing order, as summaries. */
  function Collect(files: seq<SourceFile>, t: PostType): (r: seq<PostMeta>)
    ensures |r| <= |files|
    decreases |files|
  {
    if |files| == 0 then []
    else
      var rest := Collect(files[1..], t);
      if EndsWith(files[0].name, Extension(t)) then [Summary(files[0], t)] + rest else rest
  }

  /** A listing's file with the extension of `t` that summarizes to `p`. */
  predicate SummarizedBy(files: seq<SourceFile>, t: PostType, p: PostMeta) {
    exists f :: f in files && EndsWith(f.name, Extension(t)) && p == Summary(f, t)
  }

  /** The positions, from `k` on, of the listing's files with the extension of `t`. */
  function MatchingFrom(files: seq<SourceFile>, t: PostType, k: nat): set<int> {
    set i | k <= i < |files| && EndsWith(files[i].name, Extension(t))
  }

  /** One summary per file with the extension, counted from position `k` on. */
  lemma {:induction false} CollectCount(files: seq<SourceFile>, t: PostType, k: nat)
    requires k <= |files|
    ensures |Collect(files[k..], t)| == |MatchingFrom(files, t, k)|
    decreases |files| - k
  {
    if k == |files| {
      assert MatchingFrom(files, t, k) == {};
    } else {
      CollectCount(files, t, k + 1);
      CollectStep(files, t, k);
      MatchingStep(files, t, k);
    }
  }

  lemma CollectStep(files: seq<SourceFile>, t: PostType, k: nat)
    requires k < |files|
    ensures |Collect(files[k..], t)| ==
      (if EndsWith(files[k].name, Extension(t)) then 1 else 0) + |Collect(files[k + 1..], t)|
  {
    assert files[k..][1..] == files[k + 1..];
  }

  lemma MatchingStep(files: seq<SourceFile>, t: PostType, k: nat)
    requires k < |files|
    ensures |MatchingFrom(files, t, k)| ==
      (if EndsWith(files[k].name, Extension(t)) then 1 else 0) + |MatchingFrom(files, t, k + 1)|
  {
    var here, later := MatchingFrom(files, t, k), MatchingFrom(files, t, k + 1);
    var head: set<int> := if EndsWith(files[k].name, Extension(t)) then {k} else {};
    assert k !in later;
    forall i | i in here
      ensures i in head + later
    {
      if i != k {
        assert i in later;
      }
    }
    assert here == head + later;
  }

  /**
   * The summaries collected are exactly those of the listing's files with
   * the extension, one per such file.
   */
  lemma {:induction false} CollectMembers(files: seq<SourceFile>, t: PostType, p: PostMeta)
    ensures p in Collect(files, t) <==> SummarizedBy(files, t, p)
    ensures |Collect(files, t)| == |set i | 0 <= i < |files| && EndsWith(files[i].name, Extension(t))|
    decreases |files|
  {
    CollectCount(files, t, 0);
    assert files[0..] == files;
    assert MatchingFrom(files, t, 0) == set i | 0 <= i < |files| && EndsWith(files[i].name, Extension(t));
    if |files| > 0 {
      CollectMembers(files[1..], t, p);
      var f := files[0];
      if SummarizedBy(files, t, p) && !SummarizedBy(files[1..], t, p) {
        var g :| g in files && EndsWith(g.name, Extension(t)) && p == Summary(g, t);
        assert g == f;
      }
      if SummarizedBy(files[1..], t, p) {
        var g :| g in files[1..] && EndsWith(g.name, Extension(t)) && p == Summary(g, t);
        assert g in files;
      }
    }
  }

  /** Both listings' summaries, blog posts first, before sorting. */
  function Unsorted(c: ContentTree): seq<PostMeta> {
    Collect(Listing(c.blog), Md) + Collect(Listing(c.mdx), Mdx)
  }

  /**
   * The comparator of `getAllPosts` as a "goes strictly before" relation: a
   * post goes before another whose date string is smaller. The comparator
   * itself never answers 0, so posts with equal dates have no order of their
   * own; the sort here keeps them in listing order.
   */
  predicate NewerFirst(a: PostMeta, b: PostMeta) {
    LexLess(b.date, a.date)
  }

  function AllPosts(c: ContentTree): (r: seq<PostMeta>)
    ensures multiset(r) == multiset(Unsorted(c))
  {
    Sort(Unsorted(c), NewerFirst)
  }

  lemma NewerFirstIsStrictWeakOrder()
    ensures StrictWeakOrder(NewerFirst)
  {
    forall a: PostMeta, b: PostMeta | NewerFirst(a, b)
      ensures !NewerFirst(b, a)
    {
      LexLessAsymmetric(b.date, a.date);
    }
    forall a: PostMeta, b: PostMeta, c: PostMeta | NewerFirst(a, c)
      ensures NewerFirst(a, b) || NewerFirst(b, c)
    {
      if !NewerFirst(a, b) && b.date != a.date {
        LexLessTotal(a.date, b.date);
        LexLessTransitive(c.date, a.date, b.date);
      }
    }
  }

  /** The index is ordered by date, newest first: no post's date is smaller than a later post's. */
  lemma AllPostsNewestFirst(c: ContentTree)
    ensures forall i, j :: 0 <= i < j < |AllPosts(c)| ==> !LexLess(AllPosts(c)[i].date, AllPosts(c)[j].date)
  {
    NewerFirstIsStrictWeakOrder();
    SortSorted(Unsorted(c), NewerFirst);
  }

  /**
   * The index lists exactly the `.md` files of the blog directory and the
   * `.mdx` files of the MDX directory, each once per file, slug being the
   * file name without its extension and missing tags read as no tags.
   */
  lemma AllPostsListsEveryFile(c: ContentTree, p: PostMeta)
    ensures p in AllPosts(c) <==> SummarizedBy(Listing(c.blog), Md, p) || SummarizedBy(Listing(c.mdx), Mdx, p)
    ensures |AllPosts(c)| == |set i | 0 <= i < |Listing(c.blog)| && EndsWith(Listing(c.blog)[i].name, MdExtension)|
                           + |set i | 0 <= i < |Listing(c.mdx)| && EndsWith(Listing(c.mdx)[i].name, MdxExtension)|
  {
    assert p in AllPosts(c) <==> p in multiset(Unsorted(c));
    CollectMembers(Listing(c.blog), Md, p);
    CollectMembers(Listing(c.mdx), Mdx, p);
  }

  /** A missing directory contributes no posts. */
  lemma MissingDirectoriesGiveNoPosts(c: ContentTree, p: PostMeta)
    ensures c.blog.None? && c.mdx.None? ==> AllPosts(c) == []
    ensures c.blog.None? && p in AllPosts(c) ==> p.postType == Mdx
    ensures c.mdx.None? && p in AllPosts(c) ==> p.postType == Md
  {
    AllPostsListsEveryFile(c, p);
  }

  /** The tags of a summary are the front matter's, or none. */
  lemma SummaryTags(f: SourceFile, t: PostType)
    requires EndsWith(f.name, Extension(t))
    ensures f.front.tags.None? ==> Summary(f, t).tags == []
    ensures f.front.tags.Some? ==> Summary(f, t).tags == f.front.tags.value
  {
  }

  // ---- single post ----

  /** The first file of a listing with the given name. */
  function Find(files: seq<SourceFile>, name: string): (r: Option<SourceFile>)
    ensures r.Some? ==> r.value in files && r.value.name == name
    ensures r.None? <==> forall f :: f in files ==> f.name != name
    decreases |files|
  {
    if |files| == 0 then None
    else if files[0].name == name then Some(files[0])
    else Find(files[1..], name)
  }

  /**
   * `getPostBySlug` without the rendered body: the file `<slug>.mdx` of the
   * MDX directory if there is one, else `<slug>.md` of the blog directory,
   * else nothing.
   */
  function PostBySlug(c: ContentTree, slug: string): Option<PostMeta> {
    var mdxName := slug + MdxExtension;
    var mdName := slug + MdExtension;
    match Find(Listing(c.mdx), mdxName)
    case Some(f) =>
      assert EndsWith(f.name, MdxExtension) by { assert f.name[|f.name| - |MdxExtension|..] == MdxExtension; }
      Some(Summary(f, Mdx))
    case None =>
      match Find(Listing(c.blog), mdName)
      case Some(f) =>
        assert EndsWith(f.name, MdExtension) by { assert f.name[|f.name| - |MdExtension|..] == MdExtension; }
        Some(Summary(f, Md))
      case None => None
  }

  predicate HasFile(dir: Directory, name: string) {
    exists f :: f in Listing(dir) && f.name == name
  }

  /** The MDX file wins; the markdown file is used only without one; with neither there is no post. */
  lemma PostBySlugPrecedence(c: ContentTree, slug: string)
    ensures PostBySlug(c, slug).Some? ==> PostBySlug(c, slug).value.slug == slug
    ensures (PostBySlug(c, slug).Some? && PostBySlug(c, slug).value.postType == Mdx) <==> HasFile(c.mdx, slug + MdxExtension)
    ensures (PostBySlug(c, slug).Some? && PostBySlug(c, slug).value.postType == Md) <==>
      !HasFile(c.mdx, slug + MdxExtension) && HasFile(c.blog, slug + MdExtension)
    ensures PostBySlug(c, slug).None? <==>
      !HasFile(c.mdx, slug + MdxExtension) && !HasFile(c.blog, slug + MdExtension)
  {
    var r := PostBySlug(c, slug);
    if r.Some? {
      var t := r.value.postType;
      assert r.value.slug + Extension(t) == slug + Extension(t);
    }
  }

  /** Whatever a slug finds is in the index. */
  lemma PostBySlugIsListed(c: ContentTree, slug: string)
    ensures PostBySlug(c, slug).Some? ==> PostBySlug(c, slug).value in AllPosts(c)
  {
    var r := PostBySlug(c, slug);
    if r.Some? {
      var p := r.value;
      CollectMembers(Listing(c.mdx), Mdx, p);
      CollectMembers(Listing(c.blog), Md, p);
      if Find(Listing(c.mdx), slug + MdxExtension).Some? {
        var f := Find(Listing(c.mdx), slug + MdxExtension).value;
        assert EndsWith(f.name, MdxExtension) && p == Summary(f, Mdx);
      } else {
        var f := Find(Listing(c.blog), slug + MdExtension).value;
        assert EndsWith(f.name, MdExtension) && p == Summary(f, Md);
      }
      assert p in Unsorted(c);
      assert p in multiset(AllPosts(c));
    }
  }

  predicate UniqueNames(dir: Directory) {
    forall i, j :: 0 <= i < j < |Listing(dir)| ==> Listing(dir)[i].name != Listing(dir)[j].name
  }

  lemma FindUnique(files: seq<SourceFile>, f: SourceFile)
    requires f in files
    requires forall i, j :: 0 <= i < j < |files| ==> files[i].name != files[j].name
    ensures Find(files, f.name) == Some(f)
  {
    var g := Find(files, f.name).value;
    var i :| 0 <= i < |files| && files[i] == f;
    var j :| 0 <= j < |files| && files[j] == g;
    assert i == j;
  }

  /**
   * With file names unique per directory, every indexed MDX post is found by
   * its slug, and an indexed markdown post is found exactly when no MDX file
   * shares its slug.
   */
  lemma ListedPostsAreFound(c: ContentTree, p: PostMeta)
    requires UniqueNames(c.blog) && UniqueNames(c.mdx)
    requires p in AllPosts(c)
    ensures p.postType == Mdx ==> PostBySlug(c, p.slug) == Some(p)
    ensures p.postType == Md ==> (PostBySlug(c, p.slug) == Some(p) <==> !HasFile(c.mdx, p.slug + MdxExtension))
  {
    AllPostsListsEveryFile(c, p);
    if p.postType == Mdx {
      var f :| f in Listing(c.mdx) && EndsWith(f.name, MdxExtension) && p == Summary(f, Mdx);
      MdxFileIsFound(c, f);
    } else {
      var f :| f in Listing(c.blog) && EndsWith(f.name, MdExtension) && p == Summary(f, Md);
      MdFileIsFound(c, f);
    }
  }

  lemma MdxFileIsFound(c: ContentTree, f: SourceFile)
    requires UniqueNames(c.mdx) && f in Listing(c.mdx) && EndsWith(f.name, MdxExtension)
    ensures PostBySlug(c, Summary(f, Mdx).slug) == Some(Summary(f, Mdx))
  {
    assert Summary(f, Mdx).slug + MdxExtension == f.name;
    FindUnique(Listing(c.mdx), f);
  }

  lemma MdFileIsFound(c: ContentTree, f: SourceFile)
    requires UniqueNames(c.blog) && f in Listing(c.blog) && EndsWith(f.name, MdExtension)
    ensures var p := Summary(f, Md);
      PostBySlug(c, p.slug) == Some(p) <==> !HasFile(c.mdx, p.slug + MdxExtension)
  {
    var p := Summary(f, Md);
    assert p.slug + MdExtension == f.name;
    PostBySlugPrecedence(c, p.slug);
    if !HasFile(c.mdx, p.slug + MdxExtension) {
      FindUnique(Listing(c.blog), f);
    }
  }

  // ---- tags ----

  /** Every tag of every post, in order, with repetitions. */
  function AllTags(posts: seq<PostMeta>): seq<string>
    decreases |posts|
  {
    if |posts| == 0 then [] else posts[0].tags + AllTags(posts[1..])
  }

  predicate Tagged(posts: seq<PostMeta>, t: string) {
    exists p :: p in posts && t in p.tags
  }

  lemma {:induction false} AllTagsMembers(posts: seq<PostMeta>, t: string)
    ensures t in AllTags(posts) <==> Tagged(posts, t)
    decreases |posts|
  {
    if |posts| > 0 {
      AllTagsMembers(posts[1..], t);
      if Tagged(posts[1..], t) {
        var p :| p in posts[1..] && t in p.tags;
        assert p in posts;
      }
      if Tagged(posts, t) && t !in posts[0].tags {
        var p :| p in posts && t in p.tags;
        assert p in posts[1..];
      }
    }
  }

  /** The distinct elements in order of first occurrence, as a `Set` iterates them. */
  function Dedup(s: seq<string>): (r: seq<string>)
    ensures Distinct(r)
    ensures forall t :: t in r <==> t in s
    decreases |s|
  {
    if |s| == 0 then []
    else
      var init := Dedup(s[..|s| - 1]);
      assert forall t :: t in s <==> t in s[..|s| - 1] || t == s[|s| - 1];
      if s[|s| - 1] in init then init else init + [s[|s| - 1]]
  }

  /** `getAllUniqueTags`: the tag set of the index, as an array, sorted. */
  function UniqueTags(c: ContentTree): seq<string> {
    Sort(Dedup(AllTags(AllPosts(c))), LexLess)
  }

  lemma LexLessIsStrictWeakOrder()
    ensures StrictWeakOrder(LexLess)
  {
    forall a: string, b: string | LexLess(a, b)
      ensures !LexLess(b, a)
    {
      LexLessAsymmetric(a, b);
    }
    forall a: string, b: string, c: string | LexLess(a, c)
      ensures LexLess(a, b) || LexLess(b, c)
    {
      if !LexLess(a, b) && a != b {
        LexLessTotal(a, b);
        LexLessTransitive(b, a, c);
      }
    }
  }

  /** The tag list holds every tag some indexed post carries, and nothing else. */
  lemma UniqueTagsMembers(c: ContentTree, t: string)
    ensures t in UniqueTags(c) <==> Tagged(AllPosts(c), t)
  {
    var d := Dedup(AllTags(AllPosts(c)));
    assert t in UniqueTags(c) <==> t in multiset(d);
    AllTagsMembers(AllPosts(c), t);
  }

  /** The tag list is strictly ascending, so it holds each tag exactly once. */
  lemma UniqueTagsAscending(c: ContentTree)
    ensures forall i, j :: 0 <= i < j < |UniqueTags(c)| ==> LexLess(UniqueTags(c)[i], UniqueTags(c)[j])
  {
    var d := Dedup(AllTags(AllPosts(c)));
    var r := UniqueTags(c);
    LexLessIsStrictWeakOrder();
    SortSorted(d, LexLess);
    SortKeepsDistinct(d, LexLess);
    forall i, j | 0 <= i < j < |r|
      ensures LexLess(r[i], r[j])
    {
      LexLessTotal(r[i], r[j]);
    }
  }
}
