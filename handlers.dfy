/** The state-changing views of blog/views.py over an in-memory store: post
    create, update and delete, comment add, edit and delete, and the profile
    edit.  Each handler maps the requester, the target key and the submitted
    form to a response, and changes the store only on success.  Submitted
    forms arrive already through Django's field validation: `None` stands for
    a submission that validation refused. */
module Handlers {

  import opened Wrappers
  import opened BlogModel
  import opened Seqs
  import opened Queries
  import opened Forms

  /** Handlers respond with a redirect, an error, or the form page shown
      again (`Render(())`). */
  type HandlerResponse = Response<()>

  /** `get_object_or_404(Comment, pk=pk)`. */
  function FindComment(comments: seq<Comment>, pk: Id): (r: Option<Comment>)
    ensures r.Some? ==> r.value in comments && r.value.id == pk
    ensures r.None? <==> forall c :: c in comments ==> c.id != pk
  {
    if comments == [] then None
    else if comments[0].id == pk then Some(comments[0])
    else FindComment(comments[1..], pk)
  }

  /** The position of the row that `FindPost` finds. */
  function PostIndex(posts: seq<Post>, pk: Id): (i: nat)
    requires FindPost(posts, pk).Some?
    ensures i < |posts| && posts[i] == FindPost(posts, pk).value
  {
    if posts[0].id == pk then 0 else 1 + PostIndex(posts[1..], pk)
  }

  /** The position of the row that `FindComment` finds. */
  function CommentIndex(comments: seq<Comment>, pk: Id): (i: nat)
    requires FindComment(comments, pk).Some?
    ensures i < |comments| && comments[i] == FindComment(comments, pk).value
  {
    if comments[0].id == pk then 0 else 1 + CommentIndex(comments[1..], pk)
  }

  /** A row inserted by `PostCreateView.form_valid`: the author is the
      requester, whatever was submitted; the other fields come from the form. */
  function NewPost(id: Id, author: Id, now: Time, f: PostFields): (p: Post)
    ensures p.id == id && p.author == author && p.createdAt == now
    ensures FieldsOf(p) == f
  {
    ApplyPostFields(Post(id, [], [], now, true, author, None, None, now), f)
  }

  /** The rows left when post `pk` is deleted. */
  function WithoutPost(posts: seq<Post>, pk: Id): (r: seq<Post>)
    ensures forall p :: p in r <==> p in posts && p.id != pk
  {
    Filter(posts, (p: Post) => p.id != pk)
  }

  /** The comments left when post `pk` and, by cascade, its comments are deleted. */
  function WithoutCommentsOf(comments: seq<Comment>, pk: Id): (r: seq<Comment>)
    ensures forall c :: c in r <==> c in comments && c.post != pk
  {
    Filter(comments, (c: Comment) => c.post != pk)
  }

  /** The comments left when comment `pk` is deleted. */
  function WithoutComment(comments: seq<Comment>, pk: Id): (r: seq<Comment>)
    ensures forall c :: c in r <==> c in comments && c.id != pk
  {
    Filter(comments, (c: Comment) => c.id != pk)
  }

  /** The user rows after user `id` saves a valid profile form. */
  function WithProfile(users: seq<User>, id: Id, first: string, last: string, email: string, username: string)
    : (r: seq<User>)
    ensures |r| == |users|
    ensures forall i :: 0 <= i < |r| && users[i].id == id ==>
              r[i] == User(id, username, first, last, email)
    ensures forall i :: 0 <= i < |r| && users[i].id != id ==> r[i] == users[i]
  {
    seq(|users|, i requires 0 <= i < |users| =>
      if users[i].id == id then User(id, username, first, last, email) else users[i])
  }

  class Store {
    var users: seq<User>
    const categories: seq<Category>
    var posts: seq<Post>
    var comments: seq<Comment>
    var nextPostId: Id
    var nextCommentId: Id

    /** Primary keys are distinct and below the next key to hand out, and
        every comment's parent post exists. */
    ghost predicate Valid()
      reads this
    {
      && UniqueIds(posts)
      && Distinct(comments, CommentId)
      && (forall p :: p in posts ==> p.id < nextPostId)
      && (forall c :: c in comments ==> c.id < nextCommentId)
      && (forall c :: c in comments ==> FindPost(posts, c.post).Some?)
    }

    constructor (users: seq<User>, categories: seq<Category>)
      ensures Valid()
      ensures this.users == users && this.categories == categories
      ensures posts == [] && comments == []
    {
      this.users := users;
      this.categories := categories;
      posts := [];
      comments := [];
      nextPostId := 1;
      nextCommentId := 1;
    }

    /** `PostCreateView` (login required): a valid submission inserts a post
        by the requester and redirects to the requester's profile. */
    method CreatePost(viewer: Viewer, form: Option<PostFields>, now: Time) returns (r: HandlerResponse)
      requires Valid()
      modifies this
      ensures Valid()
      ensures viewer.Anonymous? ==> r == LoginRedirect && unchanged(this)
      ensures viewer.Authenticated? && form.None? ==> r == Render(()) && unchanged(this)
      ensures viewer.Authenticated? && form.Some? ==>
                && r == Redirect(ProfilePage(viewer.user.username))
                && posts == old(posts) + [NewPost(old(nextPostId), viewer.user.id, now, form.value)]
                && nextPostId == old(nextPostId) + 1
                && comments == old(comments) && nextCommentId == old(nextCommentId) && users == old(users)
    {
      if viewer.Anonymous? {
        return LoginRedirect;
      }
      if form.None? {
        return Render(());
      }
      var p := NewPost(nextPostId, viewer.user.id, now, form.value);
      AppendDistinct(posts, p, PostId);
      PostStaysFound(posts, p);
      posts := posts + [p];
      nextPostId := nextPostId + 1;
      r := Redirect(ProfilePage(viewer.user.username));
    }

    /** `PostUpdateView`: the post is fetched first (404 if missing); anyone
        who is not its author, an anonymous visitor included, is sent to its
        detail page before the login check is reached; a valid submission by
        the author rewrites the submitted fields and redirects to the post. */
    method UpdatePost(viewer: Viewer, pk: Id, form: Option<PostFields>) returns (r: HandlerResponse)
      requires Valid()
      modifies this
      ensures Valid()
      ensures FindPost(old(posts), pk).None? ==> r == NotFound && unchanged(this)
      ensures FindPost(old(posts), pk).Some? && !IsUser(viewer, FindPost(old(posts), pk).value.author) ==>
                r == Redirect(PostDetailPage(pk)) && unchanged(this)
      ensures FindPost(old(posts), pk).Some? && IsUser(viewer, FindPost(old(posts), pk).value.author) ==>
                if form.None? then r == Render(()) && unchanged(this)
                else
                  && r == Redirect(PostDetailPage(pk))
                  && posts == old(posts)[PostIndex(old(posts), pk) := ApplyPostFields(FindPost(old(posts), pk).value, form.value)]
                  && comments == old(comments) && users == old(users)
                  && nextPostId == old(nextPostId) && nextCommentId == old(nextCommentId)
    {
      var found := FindPost(posts, pk);
      if found.None? {
        return NotFound;
      }
      var p := found.value;
      if !IsUser(viewer, p.author) {
        return Redirect(PostDetailPage(pk));
      }
      if form.None? {
        return Render(());
      }
      var i := PostIndex(posts, pk);
      var q := ApplyPostFields(p, form.value);
      ReplaceKeepsKeys(posts, i, q);
      posts := posts[i := q];
      r := Redirect(PostDetailPage(pk));
    }

    /** `PostDeleteView` (login required, then the author test): a missing
        post is 404, another user's post is forbidden, and the author's
        delete removes the post with its comments and redirects to the index. */
    method DeletePost(viewer: Viewer, pk: Id) returns (r: HandlerResponse)
      requires Valid()
      modifies this
      ensures Valid()
      ensures viewer.Anonymous? ==> r == LoginRedirect && unchanged(this)
      ensures viewer.Authenticated? && FindPost(old(posts), pk).None? ==> r == NotFound && unchanged(this)
      ensures viewer.Authenticated? && FindPost(old(posts), pk).Some? ==>
                if !IsUser(viewer, FindPost(old(posts), pk).value.author) then r == Forbidden && unchanged(this)
                else
                  && r == Redirect(IndexPage)
                  && posts == WithoutPost(old(posts), pk)
                  && comments == WithoutCommentsOf(old(comments), pk)
                  && users == old(users)
                  && nextPostId == old(nextPostId) && nextCommentId == old(nextCommentId)
    {
      if viewer.Anonymous? {
        return LoginRedirect;
      }
      var found := FindPost(posts, pk);
      if found.None? {
        return NotFound;
      }
      if !IsUser(viewer, found.value.author) {
        return Forbidden;
      }
      var remaining := WithoutPost(posts, pk);
      var kept := WithoutCommentsOf(comments, pk);
      FilterDistinct(posts, (p: Post) => p.id != pk, PostId);
      FilterDistinct(comments, (c: Comment) => c.post != pk, CommentId);
      forall c | c in kept ensures FindPost(remaining, c.post).Some? {
        var parent := FindPost(posts, c.post).value;
        assert parent in remaining;
      }
      posts := remaining;
      comments := kept;
      r := Redirect(IndexPage);
    }

    /** `add_comment` (login required): a missing post is 404; a valid
        submission appends one comment by the requester on that post; valid
        or not, the response is the post's detail page. */
    method AddComment(viewer: Viewer, pk: Id, form: Option<CommentFields>, now: Time) returns (r: HandlerResponse)
      requires Valid()
      modifies this
      ensures Valid()
      ensures viewer.Anonymous? ==> r == LoginRedirect && unchanged(this)
      ensures viewer.Authenticated? && FindPost(old(posts), pk).None? ==> r == NotFound && unchanged(this)
      ensures viewer.Authenticated? && FindPost(old(posts), pk).Some? ==>
                && r == Redirect(PostDetailPage(pk))
                && (form.None? ==> unchanged(this))
                && (form.Some? ==>
                      && comments == old(comments) + [Comment(old(nextCommentId), form.value.text, pk, viewer.user.id, now)]
                      && nextCommentId == old(nextCommentId) + 1
                      && posts == old(posts) && users == old(users) && nextPostId == old(nextPostId))
      ensures viewer.Authenticated? && FindPost(old(posts), pk).Some? ==>
                CountComments(comments, pk) == CountComments(old(comments), pk) + (if form.Some? then 1 else 0)
    {
      if viewer.Anonymous? {
        return LoginRedirect;
      }
      if FindPost(posts, pk).None? {
        return NotFound;
      }
      if form.Some? {
        var c := Comment(nextCommentId, form.value.text, pk, viewer.user.id, now);
        AppendDistinct(comments, c, CommentId);
        CountCommentsAppend(comments, c, pk);
        comments := comments + [c];
        nextCommentId := nextCommentId + 1;
      }
      r := Redirect(PostDetailPage(pk));
    }

    /** `CommentUpdateView` (login required, then the author test): the
        comment is fetched by its own key, the post key in the address
        plays no part; only its author may change its text, and success
        redirects to the detail page of the comment's own post. */
    method EditComment(viewer: Viewer, postId: Id, pk: Id, form: Option<CommentFields>) returns (r: HandlerResponse)
      requires Valid()
      modifies this
      ensures Valid()
      ensures viewer.Anonymous? ==> r == LoginRedirect && unchanged(this)
      ensures viewer.Authenticated? && FindComment(old(comments), pk).None? ==> r == NotFound && unchanged(this)
      ensures viewer.Authenticated? && FindComment(old(comments), pk).Some? ==>
                var c := FindComment(old(comments), pk).value;
                if !IsUser(viewer, c.author) then r == Forbidden && unchanged(this)
                else if form.None? then r == Render(()) && unchanged(this)
                else
                  && r == Redirect(PostDetailPage(c.post))
                  && comments == old(comments)[CommentIndex(old(comments), pk) := ApplyCommentFields(c, form.value)]
                  && posts == old(posts) && users == old(users)
                  && nextPostId == old(nextPostId) && nextCommentId == old(nextCommentId)
    {
      if viewer.Anonymous? {
        return LoginRedirect;
      }
      var found := FindComment(comments, pk);
      if found.None? {
        return NotFound;
      }
      var c := found.value;
      if !IsUser(viewer, c.author) {
        return Forbidden;
      }
      if form.None? {
        return Render(());
      }
      var i := CommentIndex(comments, pk);
      var d := ApplyCommentFields(c, form.value);
      ReplaceKeepsCommentKeys(comments, i, d);
      comments := comments[i := d];
      r := Redirect(PostDetailPage(c.post));
    }

    /** `CommentDeleteView` (login required, then the author test): only the
        comment's author may delete it; success redirects to the detail page
        of the comment's own post. */
    method DeleteComment(viewer: Viewer, postId: Id, pk: Id) returns (r: HandlerResponse)
      requires Valid()
      modifies this
      ensures Valid()
      ensures viewer.Anonymous? ==> r == LoginRedirect && unchanged(this)
      ensures viewer.Authenticated? && FindComment(old(comments), pk).None? ==> r == NotFound && unchanged(this)
      ensures viewer.Authenticated? && FindComment(old(comments), pk).Some? ==>
                var c := FindComment(old(comments), pk).value;
                if !IsUser(viewer, c.author) then r == Forbidden && unchanged(this)
                else
                  && r == Redirect(PostDetailPage(c.post))
                  && comments == WithoutComment(old(comments), pk)
                  && posts == old(posts) && users == old(users)
                  && nextPostId == old(nextPostId) && nextCommentId == old(nextCommentId)
    {
      if viewer.Anonymous? {
        return LoginRedirect;
      }
      var found := FindComment(comments, pk);
      if found.None? {
        return NotFound;
      }
      var c := found.value;
      if !IsUser(viewer, c.author) {
        return Forbidden;
      }
      FilterDistinct(comments, (d: Comment) => d.id != pk, CommentId);
      comments := WithoutComment(comments, pk);
      r := Redirect(PostDetailPage(c.post));
    }

    /** `UserUpdateView` with `UserForm` (login required): the requester edits
        their own row; a name guard crash is a server error, a refused form
        is shown again, and a saved form redirects to the profile under the
        username just saved. */
    method EditProfile(viewer: Viewer, form: UserFields) returns (r: HandlerResponse)
      requires Valid()
      modifies this
      ensures Valid()
      ensures viewer.Anonymous? ==> r == LoginRedirect && unchanged(this)
      ensures viewer.Authenticated? ==>
                match ValidateNames(form.firstName, form.lastName)
                case Crash => r == ServerError && unchanged(this)
                case Invalid(_) => r == Render(()) && unchanged(this)
                case Valid(first, last) =>
                  if form.email.None? || form.username.None? then r == Render(()) && unchanged(this)
                  else
                    && r == Redirect(ProfilePage(form.username.value))
                    && users == WithProfile(old(users), viewer.user.id, first, last, form.email.value, form.username.value)
                    && posts == old(posts) && comments == old(comments)
                    && nextPostId == old(nextPostId) && nextCommentId == old(nextCommentId)
    {
      if viewer.Anonymous? {
        return LoginRedirect;
      }
      match ValidateNames(form.firstName, form.lastName)
      case Crash => r := ServerError;
      case Invalid(_) => r := Render(());
      case Valid(first, last) =>
        if form.email.None? || form.username.None? {
          r := Render(());
        } else {
          users := WithProfile(users, viewer.user.id, first, last, form.email.value, form.username.value);
          r := Redirect(ProfilePage(form.username.value));
        }
    }
  }

  /** An appended post leaves every existing key findable. */
  lemma PostStaysFound(posts: seq<Post>, p: Post)
    ensures forall pk :: FindPost(posts, pk).Some? ==> FindPost(posts + [p], pk).Some?
  {
  }

  /** Rewriting a row in place without changing its key keeps keys distinct. */
  lemma ReplaceKeepsKeys(posts: seq<Post>, i: nat, q: Post)
    requires i < |posts| && q.id == posts[i].id && UniqueIds(posts)
    ensures UniqueIds(posts[i := q])
    ensures forall pk :: FindPost(posts, pk).Some? ==> FindPost(posts[i := q], pk).Some?
  {
    forall pk | FindPost(posts, pk).Some? ensures FindPost(posts[i := q], pk).Some? {
      var p := FindPost(posts, pk).value;
      var k :| 0 <= k < |posts| && posts[k] == p;
      assert posts[i := q][k].id == pk;
    }
  }

  lemma ReplaceKeepsCommentKeys(comments: seq<Comment>, i: nat, d: Comment)
    requires i < |comments| && d.id == comments[i].id && Distinct(comments, CommentId)
    ensures Distinct(comments[i := d], CommentId)
  {
  }
}
