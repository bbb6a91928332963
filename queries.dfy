/** The read-only views of blog/views.py: the single-post gate and the three
    post listings (index, category, profile), each filtered, annotated with a
    comment count, ordered by publication date (newest first) and paged by 10. */
module Queries {

  import opened Wrappers
  import opened BlogModel
  import opened Seqs

  /** `paginate_by` of the three list views. */
  const PageSize: nat := 10

  /* ---------------------------------------------------------------- lookups */

  /** The row with primary key `pk`, as `get_object_or_404(Post, pk=pk)` fetches it. */
  function FindPost(posts: seq<Post>, pk: Id): (r: Option<Post>)
    ensures r.Some? ==> r.value in posts && r.value.id == pk
    ensures r.None? <==> forall p :: p in posts ==> p.id != pk
  {
    if posts == [] then None
    else if posts[0].id == pk then Some(posts[0])
    else FindPost(posts[1..], pk)
  }

  function FindCategory(categories: seq<Category>, id: Id): (r: Option<Category>)
    ensures r.Some? ==> r.value in categories && r.value.id == id
    ensures r.None? <==> forall c :: c in categories ==> c.id != id
  {
    if categories == [] then None
    else if categories[0].id == id then Some(categories[0])
    else FindCategory(categories[1..], id)
  }

  /** `get_object_or_404(Category, slug=slug, is_published=True)`. */
  function FindPublishedCategory(categories: seq<Category>, slug: string): (r: Option<Category>)
    ensures r.Some? ==> r.value in categories && r.value.slug == slug && r.value.isPublished
    ensures r.None? <==> forall c :: c in categories ==> !(c.slug == slug && c.isPublished)
  {
    if categories == [] then None
    else if categories[0].slug == slug && categories[0].isPublished then Some(categories[0])
    else FindPublishedCategory(categories[1..], slug)
  }

  /** `get_object_or_404(User, username=username)`. */
  function FindUser(users: seq<User>, username: string): (r: Option<User>)
    ensures r.Some? ==> r.value in users && r.value.username == username
    ensures r.None? <==> forall u :: u in users ==> u.username != username
  {
    if users == [] then None
    else if users[0].username == username then Some(users[0])
    else FindUser(users[1..], username)
  }

  /** The category row a post's foreign key points at; None when the key is
      null (or, in a store without referential integrity, dangling). */
  function CategoryOf(categories: seq<Category>, p: Post): Option<Category>
  {
    if p.category.None? then None else FindCategory(categories, p.category.value)
  }

  /** The filter the list views share: `is_published=True,
      category__is_published=True, pub_date__lte=now`.  The join through
      `category__` drops posts without a category. */
  predicate Visible(p: Post, categories: seq<Category>, now: Time)
  {
    && p.isPublished
    && CategoryOf(categories, p).Some?
    && CategoryOf(categories, p).value.isPublished
    && p.pubDate <= now
  }

  /** Distinct primary keys. */
  ghost predicate UniqueIds(posts: seq<Post>)
  {
    Distinct(posts, PostId)
  }

  /* ----------------------------------------------------------- detail page */

  /** `PostDetailView.get_object`: a missing post is 404; the author always
      sees it; anyone else gets 404 for a draft, and otherwise the view reads
      `post.category.is_published`, which raises on a null category before
      the remaining checks (unpublished category, future date) are made. */
  function PostDetail(posts: seq<Post>, categories: seq<Category>, viewer: Viewer, pk: Id, now: Time)
    : (r: Response<Post>)
    ensures r.Render? || r.NotFound? || r.ServerError?
    ensures FindPost(posts, pk).None? ==> r == NotFound
    ensures r.Render? ==> FindPost(posts, pk) == Some(r.body)
    ensures FindPost(posts, pk).Some? && IsUser(viewer, FindPost(posts, pk).value.author)
            ==> r == Render(FindPost(posts, pk).value)
    ensures r.ServerError? <==>
              && FindPost(posts, pk).Some?
              && !IsUser(viewer, FindPost(posts, pk).value.author)
              && FindPost(posts, pk).value.isPublished
              && CategoryOf(categories, FindPost(posts, pk).value).None?
  {
    match FindPost(posts, pk)
    case None => NotFound
    case Some(p) =>
      if IsUser(viewer, p.author) then Render(p)
      else if !p.isPublished then NotFound
      else match CategoryOf(categories, p)
        case None => ServerError
        case Some(c) => if !c.isPublished || p.pubDate > now then NotFound else Render(p)
  }

  /** Whatever its state, the author can open their own post. */
  lemma AuthorSeesOwnPost(posts: seq<Post>, categories: seq<Category>, p: Post, now: Time)
    requires UniqueIds(posts) && p in posts
    ensures PostDetail(posts, categories, Authenticated(AuthorUser(p)), p.id, now) == Render(p)
  {
  }

  /** A user record for the author of `p` (only its key matters for ownership). */
  function AuthorUser(p: Post): (u: User)
    ensures u.id == p.author
  {
    User(p.author, [], [], [], [])
  }

  /** For anyone but the author, the detail page shows exactly the posts the
      list filter lets through; a draft, an unpublished category or a future
      date is 404, and a published post without a category is a server error. */
  lemma DetailForOthers(posts: seq<Post>, categories: seq<Category>, viewer: Viewer, p: Post, now: Time)
    requires UniqueIds(posts) && p in posts && !IsUser(viewer, p.author)
    ensures PostDetail(posts, categories, viewer, p.id, now) == Render(p) <==> Visible(p, categories, now)
    ensures PostDetail(posts, categories, viewer, p.id, now).NotFound? <==>
              || !p.isPublished
              || (CategoryOf(categories, p).Some? && !CategoryOf(categories, p).value.isPublished)
              || (CategoryOf(categories, p).Some? && p.pubDate > now)
  {
  }

  /* ------------------------------------------------------------- listings */

  /** A listed post with its `comment_count` annotation. */
  datatype Entry = Entry(post: Post, commentCount: nat)

  /** The key of the post an entry lists. */
  function EntryPostId(e: Entry): Id { e.post.id }

  /** `Count('comments')`: the number of comments whose parent is post `pid`. */
  function CountComments(comments: seq<Comment>, pid: Id): nat
  {
    if comments == [] then 0
    else (if comments[0].post == pid then 1 else 0) + CountComments(comments[1..], pid)
  }

  /** The count grows by one exactly for the parent of an appended comment. */
  lemma {:induction false} CountCommentsAppend(comments: seq<Comment>, c: Comment, pid: Id)
    ensures CountComments(comments + [c], pid) == CountComments(comments, pid) + (if c.post == pid then 1 else 0)
  {
    if comments != [] {
      assert (comments + [c])[1..] == comments[1..] + [c];
      CountCommentsAppend(comments[1..], c, pid);
    }
  }

  /** The count is the number of positions that hold a child of `pid`. */
  lemma {:induction false} CountCommentsIsChildren(comments: seq<Comment>, pid: Id)
    ensures CountComments(comments, pid) == |set i | 0 <= i < |comments| && comments[i].post == pid|
    decreases |comments|
  {
    var all := set i | 0 <= i < |comments| && comments[i].post == pid;
    if comments == [] {
      assert all == {};
    } else {
      var n := |comments| - 1;
      var init := comments[..n];
      var before := set i | 0 <= i < |init| && init[i].post == pid;
      assert comments == init + [comments[n]];
      CountCommentsAppend(init, comments[n], pid);
      CountCommentsIsChildren(init, pid);
      if comments[n].post == pid {
        assert all == before + {n};
      } else {
        assert all == before;
      }
    }
  }

  /** `.annotate(comment_count=Count('comments'))`. */
  function Annotate(posts: seq<Post>, comments: seq<Comment>): (r: seq<Entry>)
    ensures |r| == |posts|
    ensures forall e :: e in r <==> e.post in posts && e.commentCount == CountComments(comments, e.post.id)
    ensures UniqueIds(posts) ==> Distinct(r, EntryPostId)
  {
    var r := seq(|posts|, i requires 0 <= i < |posts| => Entry(posts[i], CountComments(comments, posts[i].id)));
    assert forall e: Entry :: e.post in posts && e.commentCount == CountComments(comments, e.post.id) ==> e in r by {
      forall e: Entry | e.post in posts && e.commentCount == CountComments(comments, e.post.id)
        ensures e in r
      {
        var k :| 0 <= k < |posts| && posts[k] == e.post;
        assert r[k] == e;
      }
    }
    r
  }

  /** Non-increasing publication dates: `order_by('-pub_date')`. */
  predicate SortedByDateDesc(s: seq<Entry>)
  {
    forall i, j :: 0 <= i < j < |s| ==> s[i].post.pubDate >= s[j].post.pubDate
  }

  /** Places `e` before the first entry that is not newer than it. */
  function Insert(e: Entry, s: seq<Entry>): (r: seq<Entry>)
    ensures |r| == |s| + 1
    ensures multiset(r) == multiset(s) + multiset{e}
    ensures s != [] ==> r[0] == e || r[0] == s[0]
    ensures s == [] ==> r == [e]
    ensures SortedByDateDesc(s) ==> SortedByDateDesc(r)
  {
    if s == [] then [e]
    else if e.post.pubDate >= s[0].post.pubDate then [e] + s
    else
      var t := Insert(e, s[1..]);
      assert s == [s[0]] + s[1..];
      [s[0]] + t
  }

  /** A stable insertion sort on the publication date, newest first.  The
      database leaves the order of equal dates open; this keeps store order. */
  function SortByDateDesc(s: seq<Entry>): (r: seq<Entry>)
    ensures SortedByDateDesc(r)
    ensures multiset(r) == multiset(s)
    ensures |r| == |s|
  {
    if s == [] then []
    else
      assert s == [s[0]] + s[1..];
      Insert(s[0], SortByDateDesc(s[1..]))
  }

  /** Inserting an entry for a post not yet listed keeps each post listed once. */
  lemma {:induction false} InsertDistinct(e: Entry, s: seq<Entry>)
    requires Distinct(s, EntryPostId) && forall x :: x in s ==> x.post.id != e.post.id
    ensures Distinct(Insert(e, s), EntryPostId)
  {
    if s == [] {
    } else if e.post.pubDate >= s[0].post.pubDate {
      ConsDistinct(e, s, EntryPostId);
    } else {
      var t := Insert(e, s[1..]);
      ConsDistinct(s[0], s[1..], EntryPostId);
      assert s == [s[0]] + s[1..];
      InsertDistinct(e, s[1..]);
      forall y | y in t ensures y.post.id != s[0].post.id {
        assert y in multiset(s[1..]) + multiset{e};
      }
      ConsDistinct(s[0], t, EntryPostId);
    }
  }

  /** Sorting keeps each post listed once. */
  lemma {:induction false} SortDistinct(s: seq<Entry>)
    ensures Distinct(s, EntryPostId) ==> Distinct(SortByDateDesc(s), EntryPostId)
  {
    if s != [] && Distinct(s, EntryPostId) {
      var t := SortByDateDesc(s[1..]);
      assert s == [s[0]] + s[1..];
      ConsDistinct(s[0], s[1..], EntryPostId);
      SortDistinct(s[1..]);
      forall y | y in t ensures y.post.id != s[0].post.id {
        assert y in multiset(s[1..]);
      }
      InsertDistinct(s[0], t);
    }
  }

  /** The common tail of the three list queries: annotate, then order. */
  function Listing(posts: seq<Post>, comments: seq<Comment>): (r: seq<Entry>)
    ensures |r| == |posts|
    ensures multiset(r) == multiset(Annotate(posts, comments))
    ensures UniqueIds(posts) ==> Distinct(r, EntryPostId)
    ensures SortedByDateDesc(r)
    ensures forall e :: e in r <==> e.post in posts && e.commentCount == CountComments(comments, e.post.id)
  {
    var a := Annotate(posts, comments);
    var r := SortByDateDesc(a);
    SortDistinct(a);
    assert forall e: Entry :: e in r <==> e in a by {
      forall e: Entry ensures e in r <==> e in a {
        assert e in r <==> e in multiset(r);
        assert e in a <==> e in multiset(a);
      }
    }
    r
  }

  /** `Index.get_queryset`: the visible posts, newest first, with their comment counts. */
  function IndexPosts(posts: seq<Post>, categories: seq<Category>, comments: seq<Comment>, now: Time)
    : (r: seq<Entry>)
    ensures SortedByDateDesc(r)
    ensures |r| <= |posts|
    ensures forall e :: e in r <==>
              && e.post in posts
              && Visible(e.post, categories, now)
              && e.commentCount == CountComments(comments, e.post.id)
    ensures UniqueIds(posts) ==> Distinct(r, EntryPostId)
  {
    var keep := (p: Post) => Visible(p, categories, now);
    FilterDistinct(posts, keep, PostId);
    Listing(Filter(posts, keep), comments)
  }

  /** `CategoryView.get_queryset`: 404 unless a published category has the
      slug; otherwise that category's visible posts, newest first. */
  function CategoryPosts(posts: seq<Post>, categories: seq<Category>, comments: seq<Comment>, slug: string, now: Time)
    : (r: Response<seq<Entry>>)
    ensures r.Render? || r.NotFound?
    ensures r.NotFound? <==> forall c :: c in categories ==> !(c.slug == slug && c.isPublished)
    ensures r.Render? ==> SortedByDateDesc(r.body) && |r.body| <= |posts|
    ensures r.Render? ==>
              var c := FindPublishedCategory(categories, slug).value;
              forall e :: e in r.body <==>
                && e.post in posts
                && e.post.category == Some(c.id)
                && Visible(e.post, categories, now)
                && e.commentCount == CountComments(comments, e.post.id)
    ensures r.Render? && UniqueIds(posts) ==> Distinct(r.body, EntryPostId)
  {
    match FindPublishedCategory(categories, slug)
    case None => NotFound
    case Some(c) =>
      var keep := (p: Post) => p.category == Some(c.id) && Visible(p, categories, now);
      FilterDistinct(posts, keep, PostId);
      Render(Listing(Filter(posts, keep), comments))
  }

  /** `ProfileView.get_queryset`: 404 for an unknown username; otherwise the
      user's posts, newest first, restricted to visible ones unless the
      viewer is that user. */
  function ProfilePosts(
    posts: seq<Post>, categories: seq<Category>, comments: seq<Comment>, users: seq<User>,
    username: string, viewer: Viewer, now: Time)
    : (r: Response<seq<Entry>>)
    ensures r.Render? || r.NotFound?
    ensures r.NotFound? <==> forall u :: u in users ==> u.username != username
    ensures r.Render? ==> SortedByDateDesc(r.body) && |r.body| <= |posts|
    ensures r.Render? ==>
              var owner := FindUser(users, username).value;
              forall e :: e in r.body <==>
                && e.post in posts
                && e.post.author == owner.id
                && (IsUser(viewer, owner.id) || Visible(e.post, categories, now))
                && e.commentCount == CountComments(comments, e.post.id)
    ensures r.Render? && UniqueIds(posts) ==> Distinct(r.body, EntryPostId)
  {
    match FindUser(users, username)
    case None => NotFound
    case Some(owner) =>
      var mine := (p: Post) => p.author == owner.id;
      var visible := (p: Post) => Visible(p, categories, now);
      var own := Filter(posts, mine);
      var shown := if IsUser(viewer, owner.id) then own else Filter(own, visible);
      FilterDistinct(posts, mine, PostId);
      FilterDistinct(own, visible, PostId);
      Render(Listing(shown, comments))
  }

  /* ------------------------------------------------------------ pagination */

  /** Django's page count with `orphans=0` and an allowed empty first page. */
  function PageCount(n: nat): (k: nat)
    ensures n == 0 ==> k == 1
    ensures n > 0 ==> (k - 1) * PageSize < n <= k * PageSize
  {
    if n == 0 then 1 else (n + PageSize - 1) / PageSize
  }

  /** Page `number` (counted from 1) of a listing, or 404 when out of range. */
  function Paginate<T>(items: seq<T>, number: int): (r: Response<seq<T>>)
    ensures r.Render? || r.NotFound?
    ensures r.Render? <==> 1 <= number <= PageCount(|items|)
    ensures r.Render? ==> |r.body| <= PageSize && (number - 1) * PageSize + |r.body| <= |items|
    ensures r.Render? && number < PageCount(|items|) ==> |r.body| == PageSize
    ensures r.Render? ==> forall i :: 0 <= i < |r.body| ==> r.body[i] == items[(number - 1) * PageSize + i]
  {
    if 1 <= number <= PageCount(|items|) then
      var lo := (number - 1) * PageSize;
      var hi := if lo + PageSize < |items| then lo + PageSize else |items|;
      Render(items[lo..hi])
    else NotFound
  }

  /** Every item of a listing is on page k / 10 + 1, at position k % 10. */
  lemma ItemOnItsPage<T>(items: seq<T>, k: nat)
    requires k < |items|
    ensures var r := Paginate(items, k / PageSize + 1);
            r.Render? && k % PageSize < |r.body| && r.body[k % PageSize] == items[k]
  {
  }

  /* ---------------------------------------------- agreement between views */

  /** The index lists a post exactly when an anonymous visitor may open it. */
  lemma IndexAgreesWithDetail(posts: seq<Post>, categories: seq<Category>, comments: seq<Comment>, p: Post, now: Time)
    requires UniqueIds(posts) && p in posts
    ensures Entry(p, CountComments(comments, p.id)) in IndexPosts(posts, categories, comments, now)
            <==> PostDetail(posts, categories, Anonymous, p.id, now) == Render(p)
  {
  }

  /** What any other viewer sees on a profile is part of what its owner sees. */
  lemma ProfileOthersSeeLess(
    posts: seq<Post>, categories: seq<Category>, comments: seq<Comment>, users: seq<User>,
    username: string, viewer: Viewer, now: Time)
    requires FindUser(users, username).Some?
    ensures var owner := Authenticated(FindUser(users, username).value);
            var mine := ProfilePosts(posts, categories, comments, users, username, owner, now);
            var theirs := ProfilePosts(posts, categories, comments, users, username, viewer, now);
            mine.Render? && theirs.Render? && forall e :: e in theirs.body ==> e in mine.body
  {
  }
}
