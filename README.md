# Blogicum: visibility and ownership rules

A Dafny model of the rules of the Blogicum blog (a Django application) that
decide who sees a post and who may change it. Posts, categories, users and
comments sit in an in-memory store, and the current time `now` is passed in
as an integer. The model has two halves:

* **Read-only views** (`Queries`, pure functions). The single-post page gate
  and the three listings: the index, a category's page and a user's profile.
  Each listing filters the posts, annotates every post with its comment
  count, orders newest first and is paged by 10.
* **State-changing views** (`Handlers.Store`, a class whose methods modify
  the post, comment and user sequences). Create, update and delete a post;
  add, edit and delete a comment; edit one's own profile. Each handler maps
  (requester, target key, submitted form, store) to a `Response` and, on
  success, a new store.
* **Forms** (`Forms`, pure functions). The fields a post or comment
  submission can set, and the profile form's name guard: the first name is
  cut to its first word, and the full name is checked against a fixed
  four-name block-list.

The modules are `Wrappers` (Option), `BlogModel` (entities, requester
identity, response type), `Seqs` (order-preserving filter, distinct keys),
`Queries`, `Forms` and `Handlers`.

Outcomes are `Render(body)`, `Redirect(target)`, `NotFound` (404),
`Forbidden` (403), `LoginRedirect` and `ServerError` (an exception the view
does not catch). The failure modes differ between handlers, as they do in the
source:

* A non-author updating a post, anonymous requesters included, is silently
  redirected to the post's page. The ownership check runs before the login
  check.
* Deleting someone else's post is forbidden, and so is editing or deleting
  someone else's comment.
* Comment views find the comment by its own key. The post key in the address
  plays no part, and success redirects to the comment's own post.

Three behaviours of the code are easy to miss:

* A post without a category is not listed on the index, on a category page,
  or on a profile seen by anyone but its author, because the `category__`
  join drops it. Its author still sees it on their own profile.
* On its detail page, for anyone but the author, a published post without a
  category raises (`ServerError`) instead of being shown.
* A non-author's post delete is forbidden, not a redirect.

## Model

| member | source | states |
|---|---|---|
| `Queries.FindPost` | blogicum/blog/views.py:147 | returns a post of that key from the store, or None exactly when no post has that key |
| `Queries.FindPublishedCategory` | blogicum/blog/views.py:64-68 | returns a published category with the slug, or None exactly when none exists |
| `Queries.FindUser` | blogicum/blog/views.py:96 | returns a user with the username, or None exactly when none exists |
| `Queries.PostDetail` | blogicum/blog/views.py:40-48 | missing key is 404; the author always gets the post; a server error exactly when a non-author opens a published post with no category; a shown post is the one with that key |
| `Queries.AuthorSeesOwnPost` | blogicum/blog/views.py:43 | the author opens their post whatever its publication flag, category or date |
| `Queries.DetailForOthers` | blogicum/blog/views.py:43-47 | for a non-author the post is shown iff it passes the list filter; 404 iff it is a draft, its category is unpublished, or its date is in the future (with a category present) |
| `Queries.CountCommentsAppend` | blogicum/blog/views.py:29-30 | appending a comment raises the count of its own post by one and leaves every other post's count unchanged |
| `Queries.CountCommentsIsChildren` | blogicum/blog/views.py:30 | `comment_count` equals the number of comment rows whose parent is the post |
| `Queries.Annotate` | blogicum/blog/views.py:29-30 | one entry per post, each carrying that post's comment count |
| `Queries.Insert` | blogicum/blog/views.py:31 | inserting into a newest-first list keeps it newest first and adds exactly the one entry |
| `Queries.SortByDateDesc` | blogicum/blog/views.py:31 | the result is ordered by non-increasing `pub_date` and is a permutation of the input |
| `Queries.Listing` | blogicum/blog/views.py:29-31 | newest first, a permutation of the annotated posts, the entries exactly the given posts with their correct comment counts, each post once when keys are distinct |
| `Queries.SortDistinct` | blogicum/blog/views.py:31 | ordering by date lists no post twice |
| `Queries.IndexPosts` | blogicum/blog/views.py:22-31 | newest first; an entry is listed iff its post is in the store, is published, has a published category, is not future-dated, and carries the right count; each post is listed once |
| `Queries.CategoryPosts` | blogicum/blog/views.py:63-81 | 404 iff no published category has the slug; otherwise exactly that category's visible posts, each once, newest first, with counts |
| `Queries.ProfilePosts` | blogicum/blog/views.py:95-110 | 404 iff the username is unknown; otherwise exactly the user's posts, with drafts and future posts included only when the viewer is that user, each once, newest first, with counts |
| `Queries.ProfileOthersSeeLess` | blogicum/blog/views.py:103-108 | whatever another viewer sees on a profile, its owner sees too |
| `Queries.PageCount` | blogicum/blog/views.py:20 | exactly one page for an empty listing; with n > 0 items the last page starts below n and holds at most 10 |
| `Queries.Paginate` | blogicum/blog/views.py:20 | a page exists iff its number is in 1..page count; it holds at most 10 items, exactly 10 unless it is the last, the items at their places in the listing |
| `Queries.ItemOnItsPage` | blogicum/blog/views.py:20 | item k of a listing is on page k / 10 + 1 at position k % 10, so paging loses nothing |
| `Queries.IndexAgreesWithDetail` | blogicum/blog/views.py:22-48 | the index lists a post iff an anonymous visitor can open its detail page |
| `Forms.ApplyPostFields` | blogicum/blog/forms.py:43-47 | saving a post form keeps key, author and creation time, and sets every submitted field |
| `Forms.ResubmitUnchanged` | blogicum/blog/forms.py:47 | resubmitting a post's own fields leaves it unchanged |
| `Forms.ApplyCommentFields` | blogicum/blog/forms.py:37-40 | saving a comment form changes only the text; key, post, author and time are kept |
| `Forms.Word` | blogicum/blog/forms.py:17 | the longest whitespace-free prefix |
| `Forms.Split` | blogicum/blog/forms.py:17 | the tokens of `str.split()` are non-empty and whitespace-free, and there are none iff the string is all whitespace (the first token, the only one read, is pinned by `FirstTokenAfterSpace`) |
| `Forms.SplitOfJoin` | blogicum/blog/forms.py:17 | tokens are maximal: splitting words joined by single spaces gives back exactly those words |
| `Forms.SplitKeepsText` | blogicum/blog/forms.py:17 | concatenating the tokens gives back the input minus its whitespace |
| `Forms.CleanFirstName` | blogicum/blog/forms.py:15-17 | raises IndexError iff the name is blank; otherwise returns the first word, i.e. the whitespace-free run right after the leading whitespace |
| `Forms.FirstTokenAfterSpace` | blogicum/blog/forms.py:17 | the first token of a non-blank string is the word after its leading whitespace |
| `Forms.Clean` | blogicum/blog/forms.py:19-34 | a mail is attempted iff the form is rejected; a rejection carries the fixed message and the mail goes to the admin address |
| `Forms.RejectedExactlyTheBeatles` | blogicum/blog/forms.py:7-23 | `clean` rejects iff (first name, last name) is one of the four block-listed pairs |
| `Forms.ValidateNames` | blogicum/blog/forms.py:15-34 | crash iff a name field failed its own validation or the first name is blank; rejected iff the first word and the last name form a block-listed pair; otherwise accepted with the truncated first name |
| `Forms.TruncatedFirstNameRejected` | blogicum/blog/forms.py:17-23 | ("Джон Уинстон", "Леннон") is rejected, because only the first word is compared |
| `Handlers.FindComment` | blogicum/blog/views.py:218 | returns a comment of that key, or None exactly when none has it |
| `Handlers.NewPost` | blogicum/blog/views.py:127-129 | a created post has the requester as author and the submitted fields, whatever was sent |
| `Handlers.Store.CreatePost` | blogicum/blog/views.py:120-135 | anonymous: login redirect; invalid form: form again; valid: one post by the requester appended, redirect to the requester's profile; store invariant kept |
| `Handlers.Store.UpdatePost` | blogicum/blog/views.py:138-162 | missing: 404; any non-author, anonymous included: redirect to the post, store unchanged; author: invalid form shown again, valid form rewrites that row only and redirects to the post |
| `Handlers.Store.DeletePost` | blogicum/blog/views.py:165-175 | anonymous: login redirect; missing: 404; non-author: forbidden, store unchanged; author: post and its comments removed, redirect to the index |
| `Handlers.Store.AddComment` | blogicum/blog/views.py:200-209 | anonymous: login redirect; missing post: 404; otherwise redirect to the post, and a valid form appends exactly one comment by the requester on that post, raising its count by one, while an invalid one changes nothing |
| `Handlers.Store.EditComment` | blogicum/blog/views.py:212-225 | anonymous: login redirect; missing: 404; non-author: forbidden; author: text rewritten, redirect to the comment's own post whatever the address's post key |
| `Handlers.Store.DeleteComment` | blogicum/blog/views.py:228-240 | anonymous: login redirect; missing: 404; non-author: forbidden; author: that comment removed, redirect to its own post |
| `Handlers.Store.EditProfile` | blogicum/blog/views.py:183-197 | anonymous: login redirect; name guard crash: server error; refused form: form again; saved: the requester's row updated, redirect to the profile under the new username |

## Left out

- Template rendering, context dictionaries, `select_related`, and the ORM's SQL. Listings are sequence filters and counts.
- A GET to the post create, update and delete views and to the comment edit and delete views passes the same login, 404 and ownership gates as the submission, and then only renders a form or a confirmation page. Only the submission is modelled.
- Django's field-level form validation is an input: a submission arrives as `Some(fields)` or, if validation refused it, `None`. The profile form gets one such flag per field.
- `send_mail` delivery is not modelled. The attempted mail is returned as a value and ignored, since `fail_silently=True` keeps delivery from affecting the verdict.
- Image upload (`get_form_kwargs` with `request.FILES`) is not modelled.
- `timezone.now()` is not modelled; the current time is an integer parameter.
- The login flow is represented only by the `LoginRedirect` outcome.
- Page numbers are integers. The paginator's `last` keyword and non-numeric page strings are not modelled.
- urls.py routing is not modelled. Handlers take the keys that routing would extract.
- pages/views.py (static pages and error pages) is not modelled.
- blog/models.py is not part of this model. The entity fields are the ones views.py and forms.py use. Deleting a post is assumed to cascade to its comments.
- Forms.ApplyPostFields: keeps the creation time because the post's creation timestamp is taken to be set automatically (non-editable) in blog/models.py. forms.py:47 excludes `"created_ad"`, presumably a misspelling of the timestamp field's name, so forms.py itself does not keep the timestamp out of `PostForm`.
- Handlers.NewPost: sets the creation time to the request time, on the same assumption about blog/models.py.
- The post form's category key is taken as given: Django's choice field refuses a key with no category row, but the model accepts one, so the store can hold a dangling category key that the source cannot. Such a post behaves like one with no category: a server error on its detail page for anyone but its author, and absent from the visibility-filtered listings.
- Categories and users are created outside the core (normally by an admin). The store keeps categories fixed. The profile edit assumes the form already reported a duplicate username as invalid.
- Order among posts with equal `pub_date` is left to the database in the source. The model keeps store order (a stable sort), so a property about that tie order would hold only for this model.
- Concurrency and transactions are not modelled: each request runs alone against the store.
