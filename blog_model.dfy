/** The entities of the blog and the outcomes of its request handlers. */
module BlogModel {

  import opened Wrappers

  /** Primary keys of the store's rows. */
  type Id = nat

  /** Timestamps; the current time is always passed in as a parameter. */
  type Time = int

  datatype User = User(id: Id, username: string, firstName: string, lastName: string, email: string)

  /** The identity a request carries: Django's AnonymousUser or a logged-in user. */
  datatype Viewer = Anonymous | Authenticated(user: User)

  datatype Category = Category(id: Id, title: string, slug: string, isPublished: bool)

  /** A post; `category` and `location` are nullable foreign keys, `author` is
      the primary key of the user who created it. */
  datatype Post = Post(
    id: Id,
    title: string,
    text: string,
    pubDate: Time,
    isPublished: bool,
    author: Id,
    category: Option<Id>,
    location: Option<Id>,
    createdAt: Time)

  datatype Comment = Comment(id: Id, text: string, post: Id, author: Id, createdAt: Time)

  /** Primary keys as functions, for stating that keys are distinct. */
  function PostId(p: Post): Id { p.id }

  function CommentId(c: Comment): Id { c.id }

  /** The named pages a handler can redirect to. */
  datatype Target = IndexPage | PostDetailPage(pk: Id) | ProfilePage(username: string)

  /** What a request resolves to.  `Render` is a page with a body (a post, a
      page of a listing, or a form shown again with its errors); `ServerError`
      is an exception the view does not catch. */
  datatype Response<T> =
    | Render(body: T)
    | Redirect(to: Target)
    | NotFound
    | Forbidden
    | LoginRedirect
    | ServerError

  /** Django compares a model instance with `request.user` by primary key; an
      anonymous user is equal to no user. */
  predicate IsUser(viewer: Viewer, id: Id)
  {
    viewer.Authenticated? && viewer.user.id == id
  }
}
