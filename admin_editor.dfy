/**
 * The admin page's editing state (src/app/admin/page.tsx): the fetched
 * post list, the post being edited, a new-post draft, the confirmation
 * dialog, and `editedPosts`, the map from slug to the unsaved title and
 * content of every post edited since it was last saved or reverted.
 * Each handler is modelled as one atomic transition; the outcome of each
 * `fetch` it makes is a parameter.
 */
module AdminEditor {
  import opened Wrappers
  import opened PostsLib
  import AdminSlug
  import AdminToolbar
  import PostsRoute
  import Home

  /** An entry of `editedPosts`. */
  datatype Edit = Edit(title: string, content: string)

  /** The new-post form. */
  datatype Draft = Draft(title: string, content: string, date: string)

  /** What the dialog's confirm button will do (the `onConfirm` it was opened with). */
  datatype Action = NoAction | SaveChanges | CreatePost | DeletePost(slug: string) | RevertChanges | DiscardDraft

  datatype Dialog = Dialog(isOpen: bool, action: Action)

  /**
   * The outcome of re-fetching `/api/posts`: the request fails (a non-ok
   * status or an unreadable body), or it answers with JSON that is a list
   * of posts or something else.
   */
  datatype Refetch = RefetchFailed | NotAList | FetchedList(posts: seq<Post>)

  /** `Array.isArray(data) ? data : []` */
  function ListOf(r: Refetch): (list: seq<Post>)
    requires !r.RefetchFailed?
    ensures r.FetchedList? ==> list == r.posts
    ensures r.NotAList? ==> list == []
  {
    if r.FetchedList? then r.posts else []
  }

  /** The index `posts.findIndex(p => p.slug === slug)` would give. */
  function FindIndex(posts: seq<Post>, slug: string): (r: Option<nat>)
    ensures r.Some? ==> r.value < |posts| && posts[r.value].slug == slug
    ensures r.Some? ==> forall j :: 0 <= j < r.value ==> posts[j].slug != slug
    ensures r.None? ==> forall j :: 0 <= j < |posts| ==> posts[j].slug != slug
  {
    if posts == [] then None
    else if posts[0].slug == slug then Some(0)
    else match FindIndex(posts[1..], slug)
      case None => None
      case Some(i) => Some(i + 1)
  }

  /** `posts.find(p => p.slug === slug)`: the first post with that slug. */
  function Find(posts: seq<Post>, slug: string): (r: Option<Post>)
    ensures r.None? <==> forall j :: 0 <= j < |posts| ==> posts[j].slug != slug
    ensures r.Some? ==> r.value.slug == slug
    ensures r.Some? ==> exists i :: 0 <= i < |posts| && posts[i] == r.value && forall j :: 0 <= j < i ==> posts[j].slug != slug
  {
    match FindIndex(posts, slug)
    case None => None
    case Some(i) => Some(posts[i])
  }

  /** `hasUnsavedChanges`: the first listed post with this slug exists and differs in title or content. */
  predicate HasUnsavedChanges(posts: seq<Post>, post: Post)
    ensures HasUnsavedChanges(posts, post) <==>
      exists i :: 0 <= i < |posts| && posts[i].slug == post.slug &&
        (forall j :: 0 <= j < i ==> posts[j].slug != post.slug) &&
        (posts[i].title != post.title || posts[i].content != post.content)
  {
    var found := FindIndex(posts, post.slug);
    assert found.Some? ==> Find(posts, post.slug) == Some(posts[found.value]);
    var original := Find(posts, post.slug);
    original.Some? && (original.value.title != post.title || original.value.content != post.content)
  }

  /**
   * The effect that follows an edit of the selected post: its slug maps to
   * its current title and content when it differs from the listed version
   * and is removed otherwise; no other entry changes.
   */
  function Track(posts: seq<Post>, selected: Post, edits: map<string, Edit>): (r: map<string, Edit>)
    ensures selected.slug in r <==> HasUnsavedChanges(posts, selected)
    ensures selected.slug in r ==> r[selected.slug] == Edit(selected.title, selected.content)
    ensures forall k :: k != selected.slug ==> (k in r <==> k in edits)
    ensures forall k :: k != selected.slug && k in r ==> r[k] == edits[k]
  {
    if HasUnsavedChanges(posts, selected) then
      edits[selected.slug := Edit(selected.title, selected.content)]
    else
      edits - {selected.slug}
  }

  /** The values the effect depends on: `[selectedPost?.title, selectedPost?.content]`. */
  function Watched(selected: Option<Post>): Option<Edit> {
    if selected.Some? then Some(Edit(selected.value.title, selected.value.content)) else None
  }

  /**
   * `editedPosts` after the selection goes from `before` to `after`: the
   * effect runs only when the watched values change, and does something
   * only when a post is selected.
   */
  function AfterSelectionChange(before: Option<Post>, after: Option<Post>,
                                posts: seq<Post>, edits: map<string, Edit>): (r: map<string, Edit>)
    ensures Watched(before) == Watched(after) || after.None? ==> r == edits
    ensures Watched(before) != Watched(after) && after.Some? ==> r == Track(posts, after.value, edits)
  {
    if Watched(before) != Watched(after) && after.Some? then Track(posts, after.value, edits) else edits
  }

  /**
   * What `handlePostSelect` shows for a post: its unsaved title and content
   * when it has an entry, with the listed post's slug and date either way.
   */
  function ShownVersion(post: Post, edits: map<string, Edit>): (shown: Post)
    ensures shown.slug == post.slug && shown.date == post.date
    ensures post.slug in edits ==>
      shown.title == edits[post.slug].title && shown.content == edits[post.slug].content
    ensures post.slug !in edits ==> shown == post
  {
    if post.slug in edits then
      post.(title := edits[post.slug].title, content := edits[post.slug].content)
    else post
  }

  /** `editedPosts[slug]` on the plain object `editedPosts`: its own entry, a member inherited from `Object.prototype`, or `undefined`. */
  datatype Lookup = OwnEntry(edit: Edit) | InheritedMember | Missing

  /**
   * The selection `handlePostSelect` makes as written: a post, or the
   * listed post's slug and date with `title` and `content` undefined.
   */
  datatype Shown = Shown(post: Post) | FieldsUndefined(slug: string, date: string)

  /** The property read `editedPosts[slug]`: own keys first, then the prototype's. */
  function LookupAsWritten(edits: map<string, Edit>, slug: string): (r: Lookup)
    ensures r.OwnEntry? <==> slug in edits
    ensures r.OwnEntry? ==> r.edit == edits[slug]
    ensures r.InheritedMember? <==> slug !in edits && Home.Inherited(slug)
  {
    if slug in edits then OwnEntry(edits[slug])
    else if Home.Inherited(slug) then InheritedMember
    else Missing
  }

  /**
   * `handlePostSelect` as written: an inherited member is truthy, so it is
   * taken as the edited version, and its `title` and `content` are
   * `undefined`. Away from inherited names it agrees with `ShownVersion`.
   */
  function ShownVersionAsWritten(post: Post, edits: map<string, Edit>): (shown: Shown)
    ensures shown == Shown(ShownVersion(post, edits)) <==> post.slug in edits || !Home.Inherited(post.slug)
    ensures post.slug !in edits && Home.Inherited(post.slug) ==> shown == FieldsUndefined(post.slug, post.date)
  {
    match LookupAsWritten(edits, post.slug)
    case OwnEntry(e) => Shown(post.(title := e.title, content := e.content))
    case InheritedMember => FieldsUndefined(post.slug, post.date)
    case Missing => Shown(post)
  }

  /**
   * The admin turns the title `Constructor` into the slug `constructor`;
   * selecting that post with no edits, the code as written shows it with
   * no title and no content, where the intended lookup shows it as listed.
   */
  lemma ConstructorPostShownWithoutFields(post: Post)
    requires post.slug == "constructor"
    ensures post.slug == AdminSlug.Slug("Constructor")
    ensures ShownVersionAsWritten(post, map[]) == FieldsUndefined(post.slug, post.date)
    ensures ShownVersion(post, map[]) == post
  {
    ConstructorSlug();
    assert Home.Inherited("constructor");
  }

  /** The slug of the title `Constructor`. */
  lemma ConstructorSlug()
    ensures AdminSlug.Slug("Constructor") == "constructor"
  {
    var lower := AdminSlug.Lower("Constructor");
    assert lower == "constructor" by {
      assert |lower| == |"constructor"|;
      forall i | 0 <= i < |lower| ensures lower[i] == "constructor"[i] {
        assert lower[i] == AdminSlug.LowerChar("Constructor"[i]);
      }
    }
    assert AdminSlug.IsClean("constructor");
    AdminSlug.CollapseClean("constructor");
  }

  /**
   * Selecting a listed post re-runs the effect without changing
   * `editedPosts`, as long as every stored entry still differs from the
   * listed version.
   */
  lemma ReselectKeepsEdits(before: Option<Post>, post: Post, posts: seq<Post>, edits: map<string, Edit>)
    requires Find(posts, post.slug) == Some(post)
    requires post.slug in edits ==> HasUnsavedChanges(posts, ShownVersion(post, edits))
    ensures AfterSelectionChange(before, Some(ShownVersion(post, edits)), posts, edits) == edits
  {
    var shown := ShownVersion(post, edits);
    var r := AfterSelectionChange(before, Some(shown), posts, edits);
    if Watched(before) != Watched(Some(shown)) {
      if post.slug in edits {
        assert r == edits[post.slug := Edit(shown.title, shown.content)];
        assert edits[post.slug] == Edit(shown.title, shown.content);
      } else {
        assert !HasUnsavedChanges(posts, post);
        assert r == edits - {post.slug} == edits;
      }
    }
  }

  /** Revert puts back the listed version, and the effect that follows then leaves its entry removed. */
  lemma RevertClearsEntry(before: Option<Post>, posts: seq<Post>, slug: string, edits: map<string, Edit>)
    requires Find(posts, slug).Some?
    ensures var original := Find(posts, slug).value;
      AfterSelectionChange(before, Some(original), posts, edits - {slug}) == edits - {slug}
  {
    var original := Find(posts, slug).value;
    assert !HasUnsavedChanges(posts, original);
    var r := AfterSelectionChange(before, Some(original), posts, edits - {slug});
    if Watched(before) != Watched(Some(original)) {
      assert r == (edits - {slug}) - {slug};
    }
  }

  /** The file a post created from `title` is written to stays inside the posts directory and lists under its slug again. */
  lemma CreatedFileName(title: string)
    ensures var name := PostsRoute.FileName(AdminSlug.Slug(title));
      (forall i :: 0 <= i < |name| ==> name[i] != '/') &&
      StripMd(name) == AdminSlug.Slug(title)
  {
    NoSlashInFileName(AdminSlug.Slug(title));
  }

  /** A name made of slug characters and `.md` has no path separator. */
  lemma NoSlashInFileName(slug: string)
    requires forall i :: 0 <= i < |slug| ==> AdminSlug.InSlugAlphabet(slug[i])
    ensures var name := PostsRoute.FileName(slug);
      forall i :: 0 <= i < |name| ==> name[i] != '/'
  {
    var name := PostsRoute.FileName(slug);
    forall i | 0 <= i < |name| ensures name[i] != '/' {
      if i < |slug| { assert name[i] == slug[i] && AdminSlug.InSlugAlphabet(slug[i]); }
      else { assert name[i] == Extension[i - |slug|]; }
    }
  }

  class AdminPage {
    var posts: seq<Post>
    var selected: Option<Post>
    var edits: map<string, Edit>
    var newPost: Draft
    var dialog: Dialog

    /** Nothing fetched, nothing selected, no edits, an empty draft dated `today`, the dialog closed. */
    constructor (today: string)
      ensures posts == [] && selected.None? && edits == map[]
      ensures newPost == Draft("", "", today)
      ensures dialog == Dialog(false, NoAction)
    {
      posts, selected, edits := [], None, map[];
      newPost := Draft("", "", today);
      dialog := Dialog(false, NoAction);
    }

    /** `beforeunload` is cancelled exactly when some post has unsaved edits. */
    function BlocksUnload(): (blocked: bool)
      reads this
      ensures blocked <==> exists slug :: slug in edits
    {
      assert forall slug :: slug in edits ==> slug in edits.Keys;
      |edits.Keys| > 0
    }

    /** The initial fetch of `/api/posts`; on failure the list stays empty as it was. */
    method Load(outcome: Refetch)
      modifies this
      ensures posts == if outcome.RefetchFailed? then old(posts) else ListOf(outcome)
      ensures selected == old(selected) && edits == old(edits)
      ensures newPost == old(newPost) && dialog == old(dialog)
    {
      if !outcome.RefetchFailed? {
        posts := ListOf(outcome);
      }
    }

    /** Sets the selected post, then runs the edit-tracking effect if the watched values changed. */
    method SetSelected(post: Option<Post>)
      modifies this
      ensures selected == post
      ensures edits == AfterSelectionChange(old(selected), post, posts, old(edits))
      ensures posts == old(posts) && newPost == old(newPost) && dialog == old(dialog)
    {
      var before := selected;
      selected := post;
      if Watched(before) != Watched(post) && post.Some? {
        var slug := post.value.slug;
        if HasUnsavedChanges(posts, post.value) {
          edits := edits[slug := Edit(post.value.title, post.value.content)];
        } else {
          edits := edits - {slug};
        }
      }
    }

    /** Typing in the title field of the edit form. */
    method EditTitle(title: string)
      requires selected.Some?
      modifies this
      ensures selected == Some(old(selected).value.(title := title))
      ensures edits == AfterSelectionChange(old(selected), selected, posts, old(edits))
      ensures posts == old(posts) && newPost == old(newPost) && dialog == old(dialog)
    {
      SetSelected(Some(selected.value.(title := title)));
    }

    /** Typing in the content field of the edit form, or a toolbar splice into it. */
    method EditContent(content: string)
      requires selected.Some?
      modifies this
      ensures selected == Some(old(selected).value.(content := content))
      ensures edits == AfterSelectionChange(old(selected), selected, posts, old(edits))
      ensures posts == old(posts) && newPost == old(newPost) && dialog == old(dialog)
    {
      SetSelected(Some(selected.value.(content := content)));
    }

    /** Picking a date in the edit form: the date is not watched, so `editedPosts` does not change. */
    method EditDate(date: string)
      requires selected.Some?
      modifies this
      ensures selected == Some(old(selected).value.(date := date))
      ensures edits == old(edits)
      ensures posts == old(posts) && newPost == old(newPost) && dialog == old(dialog)
    {
      SetSelected(Some(selected.value.(date := date)));
    }

    /** Typing in, or picking a date in, the new-post form. */
    method EditDraft(draft: Draft)
      requires selected.None?
      modifies this
      ensures newPost == draft
      ensures posts == old(posts) && selected == old(selected) && edits == old(edits) && dialog == old(dialog)
    {
      newPost := draft;
    }

    /**
     * A toolbar button: the splice is applied to the content of whichever
     * form is shown. Returns the caret position it asks for.
     */
    method ToolbarButton(textarea: Option<AdminToolbar.Selection>, prefix: string, suffix: string, block: bool)
      returns (caret: Option<nat>)
      modifies this
      ensures var content := if old(selected).Some? then old(selected).value.content else old(newPost).content;
        var r := AdminToolbar.InsertMarkdown(content, textarea, prefix, suffix, block);
        caret == (if r.Some? then Some(r.value.cursor) else None) &&
        (r.None? ==> selected == old(selected) && newPost == old(newPost) && edits == old(edits)) &&
        (r.Some? && old(selected).Some? ==>
           selected == Some(old(selected).value.(content := r.value.text)) &&
           edits == AfterSelectionChange(old(selected), selected, posts, old(edits)) &&
           newPost == old(newPost)) &&
        (r.Some? && old(selected).None? ==>
           newPost == old(newPost).(content := r.value.text) &&
           selected == old(selected) && edits == old(edits))
      ensures posts == old(posts) && dialog == old(dialog)
    {
      var content := if selected.Some? then selected.value.content else newPost.content;
      var r := AdminToolbar.InsertMarkdown(content, textarea, prefix, suffix, block);
      if r.None? {
        return None;
      }
      if selected.Some? {
        EditContent(r.value.text);
      } else {
        newPost := newPost.(content := r.value.text);
      }
      caret := Some(r.value.cursor);
    }

    /** `handlePostSelect`: a listed post (its stored edits, if any, shown instead) or the new-post form. */
    method Select(post: Option<Post>)
      modifies this
      ensures selected == (if post.Some? then Some(ShownVersion(post.value, old(edits))) else None)
      ensures edits == AfterSelectionChange(old(selected), selected, posts, old(edits))
      ensures posts == old(posts) && newPost == old(newPost) && dialog == old(dialog)
    {
      if post.Some? {
        SetSelected(Some(ShownVersion(post.value, edits)));
      } else {
        SetSelected(None);
      }
    }

    /**
     * Submitting the edit form. The title input and the textarea are
     * `required`, so the browser only submits when both are non-empty;
     * `handleUpdatePost` then opens the save dialog.
     */
    method SubmitEditForm()
      modifies this
      ensures var go := old(selected).Some? && old(selected).value.title != "" && old(selected).value.content != "";
        dialog == if go then Dialog(true, SaveChanges) else old(dialog)
      ensures posts == old(posts) && selected == old(selected) && edits == old(edits) && newPost == old(newPost)
    {
      if selected.Some? && selected.value.title != "" && selected.value.content != "" {
        dialog := Dialog(true, SaveChanges);
      }
    }

    /** Submitting the new-post form (same `required` fields), which opens the create dialog. */
    method SubmitCreateForm()
      requires selected.None?
      modifies this
      ensures dialog == if old(newPost).title != "" && old(newPost).content != "" then Dialog(true, CreatePost) else old(dialog)
      ensures posts == old(posts) && selected == old(selected) && edits == old(edits) && newPost == old(newPost)
    {
      if newPost.title != "" && newPost.content != "" {
        dialog := Dialog(true, CreatePost);
      }
    }

    /** A delete button (in the edit form or beside a listed post). */
    method RequestDelete(slug: string)
      modifies this
      ensures dialog == Dialog(true, DeletePost(slug))
      ensures posts == old(posts) && selected == old(selected) && edits == old(edits) && newPost == old(newPost)
    {
      dialog := Dialog(true, DeletePost(slug));
    }

    /** The revert button of the edit form. */
    method RequestRevert()
      requires selected.Some?
      modifies this
      ensures dialog == Dialog(true, RevertChanges)
      ensures posts == old(posts) && selected == old(selected) && edits == old(edits) && newPost == old(newPost)
    {
      dialog := Dialog(true, RevertChanges);
    }

    /** The discard button of the new-post form. */
    method RequestDiscard()
      requires selected.None?
      modifies this
      ensures dialog == Dialog(true, DiscardDraft)
      ensures posts == old(posts) && selected == old(selected) && edits == old(edits) && newPost == old(newPost)
    {
      dialog := Dialog(true, DiscardDraft);
    }

    /** The dialog's cancel button. */
    method Cancel()
      modifies this
      ensures dialog == old(dialog).(isOpen := false)
      ensures posts == old(posts) && selected == old(selected) && edits == old(edits) && newPost == old(newPost)
    {
      dialog := dialog.(isOpen := false);
    }

    /**
     * Confirming a save: the selected post is PUT (returned as `sent`);
     * only when that and the re-fetch succeed is the list replaced and the
     * post's entry removed. The dialog closes either way.
     */
    method ConfirmSave(putSucceeds: bool, refetch: Refetch) returns (sent: Post)
      requires dialog == Dialog(true, SaveChanges) && selected.Some?
      modifies this
      ensures sent == old(selected).value
      ensures var saved := putSucceeds && !refetch.RefetchFailed?;
        posts == (if saved then ListOf(refetch) else old(posts)) &&
        edits == (if saved then old(edits) - {sent.slug} else old(edits))
      ensures selected == old(selected) && newPost == old(newPost)
      ensures !dialog.isOpen && dialog.action == old(dialog).action
    {
      sent := selected.value;
      if putSucceeds && !refetch.RefetchFailed? {
        posts := ListOf(refetch);
        edits := edits - {sent.slug};
      }
      dialog := dialog.(isOpen := false);
    }

    /**
     * Confirming a create: the draft is POSTed with the slug derived from
     * its title (returned as `sent`); only when that and the re-fetch
     * succeed is the list replaced and the draft reset to an empty one
     * dated `today`. The dialog closes either way.
     */
    method ConfirmCreate(postSucceeds: bool, refetch: Refetch, today: string) returns (sent: PostsRoute.CreateRequest)
      requires dialog == Dialog(true, CreatePost)
      modifies this
      ensures sent == PostsRoute.CreateRequest(old(newPost).title, old(newPost).content, old(newPost).date,
                                               AdminSlug.Slug(old(newPost).title))
      ensures var created := postSucceeds && !refetch.RefetchFailed?;
        posts == (if created then ListOf(refetch) else old(posts)) &&
        newPost == (if created then Draft("", "", today) else old(newPost))
      ensures selected == old(selected) && edits == old(edits)
      ensures !dialog.isOpen && dialog.action == old(dialog).action
    {
      var slug := AdminSlug.Slug(newPost.title);
      sent := PostsRoute.CreateRequest(newPost.title, newPost.content, newPost.date, slug);
      if postSucceeds && !refetch.RefetchFailed? {
        posts := ListOf(refetch);
        newPost := Draft("", "", today);
      }
      dialog := dialog.(isOpen := false);
    }

    /**
     * Confirming a delete: only when the DELETE and the re-fetch succeed is
     * the list replaced, and the selection cleared if it was the deleted
     * post. `editedPosts` keeps any entry the deleted post had.
     */
    method ConfirmDelete(deleteSucceeds: bool, refetch: Refetch)
      requires dialog.isOpen && dialog.action.DeletePost?
      modifies this
      ensures var slug := old(dialog).action.slug;
        var deleted := deleteSucceeds && !refetch.RefetchFailed?;
        posts == (if deleted then ListOf(refetch) else old(posts)) &&
        selected == (if deleted && old(selected).Some? && old(selected).value.slug == slug then None else old(selected))
      ensures edits == old(edits) && newPost == old(newPost)
      ensures !dialog.isOpen && dialog.action == old(dialog).action
    {
      var slug := dialog.action.slug;
      if deleteSucceeds && !refetch.RefetchFailed? {
        posts := ListOf(refetch);
        if selected.Some? && selected.value.slug == slug {
          SetSelected(None);
        }
      }
      dialog := dialog.(isOpen := false);
    }

    /**
     * Confirming a revert: when the list holds a post with the selected
     * slug, that version is selected again and the slug's entry removed.
     */
    method ConfirmRevert()
      requires dialog == Dialog(true, RevertChanges)
      modifies this
      ensures var original := if old(selected).Some? then Find(posts, old(selected).value.slug) else None;
        (original.Some? ==> selected == original && edits == old(edits) - {original.value.slug}) &&
        (original.None? ==> selected == old(selected) && edits == old(edits))
      ensures posts == old(posts) && newPost == old(newPost)
      ensures !dialog.isOpen && dialog.action == old(dialog).action
    {
      var original := if selected.Some? then Find(posts, selected.value.slug) else None;
      if original.Some? {
        var slug := original.value.slug;
        RevertClearsEntry(selected, posts, slug, edits);
        edits := edits - {slug};
        SetSelected(original);
      }
      dialog := dialog.(isOpen := false);
    }

    /** Confirming a discard: the draft becomes an empty one dated `today`. */
    method ConfirmDiscard(today: string)
      requires dialog == Dialog(true, DiscardDraft)
      modifies this
      ensures newPost == Draft("", "", today)
      ensures posts == old(posts) && selected == old(selected) && edits == old(edits)
      ensures !dialog.isOpen && dialog.action == old(dialog).action
    {
      newPost := Draft("", "", today);
      dialog := dialog.(isOpen := false);
    }
  }
}
