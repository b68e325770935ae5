# A markdown blog, modelled in Dafny

The blog keeps its posts as markdown files with a YAML frontmatter block
(`title`, `date`). The home page groups the posts into category cards; a
mobile menu opens and closes on buttons, outside clicks and swipes; a login
page shows an error message and forwards authenticated sessions to
`/admin`; the admin page edits posts with a markdown toolbar, remembers
unsaved edits per post, and saves, creates, deletes and reverts through a
confirmation dialog and the `/api/posts` endpoint.

This project models that logic and proves what it promises:

| module | file | models |
|---|---|---|
| `Wrappers` | `wrappers.dfy` | the `Option` type |
| `StringOrder` | `string_order.dfy` | JavaScript's `<` on strings, and that it is a strict total order |
| `PostsLib` | `posts_lib.dfy` | `getAllPosts`: slug from file name, one post per entry, in-place sort newest first |
| `PostsRoute` | `posts_route.dfy` | `GET` and `POST /api/posts`: error answers, file naming, the frontmatter template |
| `Home` | `home.dfy` | `groupPostsByCategory` and the two-post cards |
| `AdminToolbar` | `admin_toolbar.dfy` | `insertMarkdown`, the toolbar's text splice |
| `AdminSlug` | `admin_slug.dfy` | the slug a new post's title gets |
| `AdminEditor` | `admin_editor.dfy` | the admin page's state: post list, selection, `editedPosts`, draft, dialog |
| `MobileSidebar` | `mobile_sidebar.dfy` | the mobile menu's open/close state and swipe rule |
| `Login` | `login.dfy` | the login page's error message and redirect |

Inputs that come from the outside world are parameters. The posts directory
is a given listing of entries. Each entry is already parsed into title, date
and body, or marked as unreadable. Each `fetch` is a success flag or a
`Refetch` outcome. An unreadable request body is `None`, and a readable one is the four strings the admin page sends. The textarea's
selection is an `Option<Selection>`. "Today" is a string. Touch
coordinates are integers. Each event handler is one atomic transition.

Strings are `seq<char>`. JavaScript's `substring` (clamping and swapping
its arguments), `/\.md$/`, the truthiness of `number | null`, `|| 'Uncategorized'`
and the comparator `a.date < b.date ? 1 : -1` are written out explicitly.

## Model

| member | source | states |
|---|---|---|
| `StringOrder.Less` | src/lib/posts.ts:24 | JavaScript `<` on strings: the first differing character decides, and a proper prefix comes first |
| `StringOrder.Irreflexive` | src/lib/posts.ts:24 | no date string is less than itself |
| `StringOrder.Transitive` | src/lib/posts.ts:24 | string `<` is transitive |
| `StringOrder.Trichotomy` | src/lib/posts.ts:24 | of two different strings one is less than the other |
| `StringOrder.AtLeastTransitive` | src/lib/posts.ts:24 | "not less than" is transitive, so the newest-first order chains |
| `PostsLib.StripMd` | src/lib/posts.ts:11 | a name ending in `.md` loses exactly that suffix; any other name is unchanged |
| `PostsLib.StripMdAfterExtension` | src/app/api/posts/route.ts:17 | stripping `.md` from `slug + ".md"` gives the slug back |
| `PostsLib.ToPost` | src/lib/posts.ts:10-22 | a post carries the stripped file name as slug, the frontmatter title and date, the body as content, and no other field |
| `PostsLib.ToPosts` | src/lib/posts.ts:9-10 | exactly one post per directory entry, entry `i` giving post `i`, with no filtering by extension |
| `PostsLib.SortNewestFirst` | src/lib/posts.ts:24 | the in-place sort leaves the array newest first by date string and a permutation of what it was |
| `PostsLib.Sink` | src/lib/posts.ts:24 | one insertion pass extends the newest-first prefix by one post and keeps the array a permutation |
| `PostsLib.StartInsert` | src/lib/posts.ts:24 | an insertion step starts with the sorted prefix intact |
| `PostsLib.SwapStep` | src/lib/posts.ts:24 | swapping the moving post past an older one keeps the partial order |
| `PostsLib.SwapKeepsMultiset` | src/lib/posts.ts:24 | swapping two neighbouring posts keeps the same posts |
| `PostsLib.InsertedInOrder` | src/lib/posts.ts:24 | once the moving post stops, one more element of the prefix is sorted |
| `PostsLib.GetAllPosts` | src/lib/posts.ts:8-25 | the list exists iff the directory and every file in it could be read; then it has one post per entry, is a permutation of the mapped entries, and is newest first |
| `PostsLib.ListedPostsComeFromEntries` | src/lib/posts.ts:10-24 | every listed post is the post of some directory entry, its slug that entry's stripped name |
| `PostsRoute.Get` | src/app/api/posts/route.ts:8-32 | GET answers with the list exactly when the listing succeeds (size, permutation and order as above), and otherwise with status 500 and `Failed to fetch posts` |
| `PostsRoute.FileName` | src/app/api/posts/route.ts:47 | the file written for a slug lists under that slug again |
| `PostsRoute.Serialize` | src/app/api/posts/route.ts:39-44 | the content is a verbatim suffix of the written text |
| `PostsRoute.Post` | src/app/api/posts/route.ts:34-55 | for a body that is an object of four strings, the answer is success iff the write returns, and an unreadable body fails; any failure is 500 with `Failed to create post`; the write goes to `slug.md` and holds the template text |
| `PostsRoute.CreatedPostListedUnderItsSlug` | src/app/api/posts/route.ts:17-47 | the post GET builds from the file POST wrote has POST's slug |
| `PostsRoute.Lines` | src/app/api/posts/route.ts:39-44 | splitting on newlines always gives at least one line |
| `PostsRoute.LinesCons` | src/app/api/posts/route.ts:39-44 | a newline-free piece followed by a newline is a line of its own |
| `PostsRoute.LinesConsThen` | src/app/api/posts/route.ts:39-44 | a newline-free line in front of two pieces of text splits off as one line before the lines of the rest |
| `PostsRoute.FiveLines` | src/app/api/posts/route.ts:39-44 | five newline-free lines, each with its newline, in front of a text are exactly those five lines followed by the text's own lines |
| `PostsRoute.SerializeLines` | src/app/api/posts/route.ts:39-44 | for single-line title and date the text is exactly the lines `---`, `title: '…'`, `date: '…'`, `---`, an empty line, then the content's lines |
| `PostsRoute.ApostropheBreaksTitleScalar` | src/app/api/posts/route.ts:40 | the title `Don't` is written unescaped into its quote pair, which is not a valid single-quoted scalar |
| `PostsRoute.Quote` | src/app/api/posts/route.ts:40-41 | doubling quotes always gives a valid single-quoted body and adds no newline |
| `PostsRoute.QuotedRoundTrip` | src/app/api/posts/route.ts:40-41 | reading a quoted body back gives the original string |
| `PostsRoute.SerializeQuoted` | src/app/api/posts/route.ts:39-44 | with quoting, the content is still a verbatim suffix of the text |
| `PostsRoute.QuotedTitleReadsBack` | src/app/api/posts/route.ts:40 | with quoting, the title line is `title: '…'` around a valid single-quoted scalar that reads back as the title |
| `Home.GroupKey` | src/app/page.tsx:9 | the key is the category when it is present and non-empty, and `Uncategorized` otherwise |
| `Home.Inherited` | src/app/page.tsx:10 | `acc[key]` on a plain `{}` finds an inherited property exactly for the twelve `Object.prototype` names |
| `Home.FallbackNotInherited` | src/app/page.tsx:9 | the fallback key `Uncategorized` is not an inherited name |
| `Home.Bucket` | src/app/page.tsx:13 | a group never holds more posts than the input |
| `Home.Keys` | src/app/page.tsx:10-12 | there are never more keys than posts |
| `Home.Groups` | src/app/page.tsx:7-16 | the grouping has a bucket exactly for the keys that occur |
| `Home.GroupByCategoryAsWritten` | src/app/page.tsx:7-16 | the fold over a plain `{}` throws exactly when some key is an `Object.prototype` property name, and otherwise yields the grouping and its key order |
| `Home.AccumulateAsWritten` | src/app/page.tsx:8-14 | the callback over a plain `{}` throws exactly when the post's key is an inherited property name, and otherwise adds the post to the grouping of the posts seen so far |
| `Home.HitsSnoc` | src/app/page.tsx:7-16 | one more post hits an inherited key exactly when an earlier one did or its own key is inherited |
| `Home.HitsPrefix` | src/app/page.tsx:7-16 | once some of the posts hit an inherited key, all of them together do |
| `Home.ConstructorCategoryThrows` | src/app/page.tsx:10-13 | a single post in category `constructor` makes the fold as written throw |
| `Home.UncategorizedNeverHitsPrototype` | src/app/page.tsx:7-16 | posts without a category, such as every post `getAllPosts` lists, never reach an inherited key, so the fold as written does not throw on them |
| `Home.GroupByCategory` | src/app/page.tsx:7-16 | the fold without inherited keys yields the grouping and the order in which keys first appear |
| `Home.Accumulate` | src/app/page.tsx:8-14 | the callback turns the grouping and key order of the posts seen so far into those of the posts seen plus this one |
| `Home.GroupStep` | src/app/page.tsx:10-13 | one fold step creates the post's bucket if it is new and appends the post to it |
| `Home.KeysMembership` | src/app/page.tsx:10-12 | a key exists iff some post has it |
| `Home.BucketEmptyOutsideKeys` | src/app/page.tsx:10-13 | a key that no post has gets no posts |
| `Home.BucketElements` | src/app/page.tsx:13 | every post in group `k` comes from the input and has key `k` |
| `Home.BucketSnoc` | src/app/page.tsx:13 | appending a post to the input appends it to its own group and to no other |
| `Home.BucketAppend` | src/app/page.tsx:13 | groups split along the input, so posts keep their input order within a group |
| `Home.EachPostInExactlyOneGroup` | src/app/page.tsx:7-15 | a post is in group `k` iff `k` is its own key |
| `Home.InOwnBucket` | src/app/page.tsx:13 | every post is in the group of its own key |
| `Home.KeysDistinct` | src/app/page.tsx:10-12 | no key is created twice |
| `Home.NoEmptyGroups` | src/app/page.tsx:10-13 | every existing group holds at least one post |
| `Home.TotalSizeSnocKey` | src/app/page.tsx:7-15 | adding a key adds its group's size to the total |
| `Home.TotalSizeSnocPost` | src/app/page.tsx:7-15 | adding a post adds one to the total exactly when its key is counted |
| `Home.GroupSizesSum` | src/app/page.tsx:7-15 | the group sizes sum to the number of posts |
| `Home.Featured` | src/app/page.tsx:64 | a card shows the first `min(2, size)` posts of its group |
| `Home.FromLibrary` | src/lib/posts.ts:16-21 | a post from the listing has no category |
| `Home.NoCategoryAllUncategorized` | src/app/page.tsx:9 | with no categories, there is one `Uncategorized` group holding every post in order |
| `AdminToolbar.Substring` | src/app/admin/page.tsx:266-268 | JavaScript `substring` is the slice between its arguments when they are in order and in range, and never longer than the string |
| `AdminToolbar.NeedsNewlineBefore` | src/app/admin/page.tsx:275 | a block needs a newline before it when the text before is non-empty and does not end in a newline |
| `AdminToolbar.NeedsNewlineAfter` | src/app/admin/page.tsx:276 | a block needs a newline after it when the text after is non-empty and does not start with a newline |
| `AdminToolbar.InsertMarkdown` | src/app/admin/page.tsx:260-307 | there is a result exactly when there is a textarea, and its cursor lies within the new text |
| `AdminToolbar.Parts` | src/app/admin/page.tsx:264-298 | the new text is the text before, an optional newline, the prefix, the selection, the suffix, an optional newline, the text after, with the cursor right after the selection |
| `AdminToolbar.InlineSplice` | src/app/admin/page.tsx:289-297 | inline, the new text is before + prefix + selected + suffix + after, and its length grows by exactly the prefix and suffix |
| `AdminToolbar.BlockSplice` | src/app/admin/page.tsx:273-287 | a block gets one newline before the prefix iff the text before is non-empty and does not end in a newline, one after the suffix likewise for the text after, and no other characters |
| `AdminToolbar.OutsideSelectionUnchanged` | src/app/admin/page.tsx:264-294 | the new text starts with everything before the selection and ends with everything after it |
| `AdminToolbar.LayoutEdges` | src/app/admin/page.tsx:278-284 | a text laid out as before, newline, prefix, selection, suffix, newline, after starts with the before part and ends with the after part; the characters next to the block are the optional newlines or the neighbouring text |
| `AdminToolbar.LayoutMiddle` | src/app/admin/page.tsx:278-287 | in that layout, prefix, selection and suffix occupy the span between the two optional newlines, the selection ending where the cursor goes |
| `AdminToolbar.CaretFacts` | src/app/admin/page.tsx:278-287 | with the cursor computed as in the source, the selection ends at the cursor and the suffix starts there |
| `AdminToolbar.CursorAtSuffix` | src/app/admin/page.tsx:287-297 | the selected text ends at the cursor and the suffix starts there |
| `AdminToolbar.BreaksEndLines` | src/app/admin/page.tsx:275-276 | the newline added before a block, or its absence, leaves the text before it ending a line; likewise the text after starts a line |
| `AdminToolbar.LineFacts` | src/app/admin/page.tsx:273-284 | when the optional newlines end the line before and start the line after, prefix, selection and suffix form a span that starts and ends a line |
| `AdminToolbar.BlockOnOwnLines` | src/app/admin/page.tsx:273-284 | in block mode, the span that starts the selection's length plus the prefix's before the cursor and ends the suffix's length after it is prefix, selection and suffix; it begins the text or follows a newline, and ends the text or precedes a newline |
| `AdminSlug.LowerChar` | src/app/admin/page.tsx:201 | capital ASCII letters become lower case; everything else is unchanged |
| `AdminSlug.Lower` | src/app/admin/page.tsx:201 | lowercasing maps every character and keeps the length |
| `AdminSlug.DropRun` | src/app/admin/page.tsx:201 | a run of characters outside `[a-z0-9]` is dropped in full, up to the next slug character |
| `AdminSlug.Collapse` | src/app/admin/page.tsx:201 | replacing runs gives a string no longer than the input, over `[a-z0-9-]` without `--`, starting with `-` iff the input starts with a run |
| `AdminSlug.Slug` | src/app/admin/page.tsx:201 | a slug is never longer than the title, uses only `[a-z0-9-]`, and never contains `--` |
| `AdminSlug.ScanSkipsRun` | src/app/admin/page.tsx:201 | inside a run, the character-by-character scan skips to its end |
| `AdminSlug.CollapseIsScan` | src/app/admin/page.tsx:201 | the slug is what a character-by-character scan gives: each run becomes one `-`, other characters are copied |
| `AdminSlug.Kept` | src/app/admin/page.tsx:201 | the slug characters of a string are no more than the string |
| `AdminSlug.KeptDropRun` | src/app/admin/page.tsx:201 | dropping a run loses no slug character |
| `AdminSlug.CollapseKeeps` | src/app/admin/page.tsx:201 | replacing runs keeps every letter and digit, in order |
| `AdminSlug.SlugMeaning` | src/app/admin/page.tsx:201 | the slug is the scan of the lowercased title and keeps all its letters and digits |
| `AdminSlug.CleanTail` | src/app/admin/page.tsx:201 | a clean string stays clean without its first character |
| `AdminSlug.CollapseClean` | src/app/admin/page.tsx:201 | a string already over `[a-z0-9-]` without `--` is left as it is |
| `AdminSlug.LowerClean` | src/app/admin/page.tsx:201 | lowercasing leaves a clean string as it is |
| `AdminSlug.SlugIdempotent` | src/app/admin/page.tsx:201 | making a slug of a slug changes nothing |
| `AdminEditor.ListOf` | src/app/admin/page.tsx:67 | a list answer is taken as is, any other JSON becomes the empty list |
| `AdminEditor.FindIndex` | src/app/admin/page.tsx:80 | the index found is the first post with that slug; none is found iff no post has it |
| `AdminEditor.Find` | src/app/admin/page.tsx:80 | the post found is the first listed post with that slug; none is found iff no post has it |
| `AdminEditor.HasUnsavedChanges` | src/app/admin/page.tsx:79-82 | a post has unsaved changes iff the first listed post with its slug exists and differs from it in title or content |
| `AdminEditor.Track` | src/app/admin/page.tsx:79-101 | after the effect, the slug has an entry iff the first listed post with that slug differs in title or content; the entry holds the current title and content; every other entry is unchanged |
| `AdminEditor.AfterSelectionChange` | src/app/admin/page.tsx:84-101 | the effect changes `editedPosts` only when the watched title or content changed and a post is selected, and then as `Track` says |
| `AdminEditor.ShownVersion` | src/app/admin/page.tsx:107-118 | selecting a post with an entry shows the entry's title and content with the listed post's slug and date; without an entry the post is shown as listed |
| `AdminEditor.LookupAsWritten` | src/app/admin/page.tsx:109 | `editedPosts[slug]` finds the own entry if there is one, else an inherited `Object.prototype` member for an inherited name, else nothing |
| `AdminEditor.ShownVersionAsWritten` | src/app/admin/page.tsx:107-118 | as written, the selection agrees with `ShownVersion` exactly when the slug has an entry or is not an inherited name; otherwise it has the slug and date but no title and no content |
| `AdminEditor.ConstructorSlug` | src/app/admin/page.tsx:201 | the title `Constructor` gets the slug `constructor` |
| `AdminEditor.ConstructorPostShownWithoutFields` | src/app/admin/page.tsx:107-118 | a post created from the title `Constructor` and selected with no edits is shown without title and content as written, and as listed by the intended lookup |
| `AdminEditor.ReselectKeepsEdits` | src/app/admin/page.tsx:84-118 | selecting a listed post leaves `editedPosts` as it was when every entry still differs from its listed post |
| `AdminEditor.RevertClearsEntry` | src/app/admin/page.tsx:427-432 | after a revert the effect keeps the entry removed, because the restored post equals its listed version |
| `AdminEditor.CreatedFileName` | src/app/admin/page.tsx:201 | the file a new post is written to has no `/` in its name and lists under the slug again |
| `AdminEditor.NoSlashInFileName` | src/app/api/posts/route.ts:47 | a file name built from slug characters and `.md` contains no `/` |
| `AdminEditor.AdminPage.constructor` | src/app/admin/page.tsx:36-45 | the page starts with no posts, no selection, no edits, an empty draft dated today and the dialog closed |
| `AdminEditor.AdminPage.BlocksUnload` | src/app/admin/page.tsx:47-58 | leaving the page is blocked iff some post has unsaved edits |
| `AdminEditor.AdminPage.Load` | src/app/admin/page.tsx:60-76 | the first fetch sets the list on success (non-lists becoming empty) and keeps it on failure; nothing else changes |
| `AdminEditor.AdminPage.SetSelected` | src/app/admin/page.tsx:84-101 | setting the selection runs the edit-tracking effect as `AfterSelectionChange` says; nothing else changes |
| `AdminEditor.AdminPage.EditTitle` | src/app/admin/page.tsx:368 | typing a title updates the selected post and then `editedPosts` as the effect says |
| `AdminEditor.AdminPage.EditContent` | src/app/admin/page.tsx:405 | typing content updates the selected post and then `editedPosts` as the effect says |
| `AdminEditor.AdminPage.EditDate` | src/app/admin/page.tsx:378-385 | picking a date updates the selected post and leaves `editedPosts` unchanged |
| `AdminEditor.AdminPage.EditDraft` | src/app/admin/page.tsx:466-503 | editing the new-post form changes only the draft |
| `AdminEditor.AdminPage.ToolbarButton` | src/app/admin/page.tsx:309-333 | a toolbar button splices the shown form's content as `InsertMarkdown` says and asks for its cursor; edits to the selected post go through the effect |
| `AdminEditor.AdminPage.Select` | src/app/admin/page.tsx:103-124 | selecting shows the post's stored edits if it has any (by the own-key lookup of `ShownVersion`), or the new-post form for none, then runs the effect |
| `AdminEditor.AdminPage.SubmitEditForm` | src/app/admin/page.tsx:156-190 | submitting a selected post whose title and content are non-empty opens the save dialog; nothing else changes |
| `AdminEditor.AdminPage.SubmitCreateForm` | src/app/admin/page.tsx:192-227 | submitting a draft whose title and content are non-empty opens the create dialog; nothing else changes |
| `AdminEditor.AdminPage.RequestDelete` | src/app/admin/page.tsx:229-236 | a delete button opens the delete dialog for that slug |
| `AdminEditor.AdminPage.RequestRevert` | src/app/admin/page.tsx:419-437 | the revert button opens the revert dialog |
| `AdminEditor.AdminPage.RequestDiscard` | src/app/admin/page.tsx:509-520 | the discard button opens the discard dialog |
| `AdminEditor.AdminPage.Cancel` | src/app/admin/page.tsx:345 | cancelling closes the dialog and changes nothing else |
| `AdminEditor.AdminPage.ConfirmSave` | src/app/admin/page.tsx:165-188 | the selected post is sent; only when the PUT and the re-fetch succeed is the list replaced and the slug's entry removed; the dialog ends closed |
| `AdminEditor.AdminPage.ConfirmCreate` | src/app/admin/page.tsx:200-225 | the draft is sent with its derived slug; only when the POST and the re-fetch succeed is the list replaced and the draft reset; the dialog ends closed |
| `AdminEditor.AdminPage.ConfirmDelete` | src/app/admin/page.tsx:236-256 | only when the DELETE and the re-fetch succeed is the list replaced and a selection of the deleted post cleared; `editedPosts` is unchanged; the dialog ends closed |
| `AdminEditor.AdminPage.ConfirmRevert` | src/app/admin/page.tsx:425-435 | when a listed post has the selected slug, it becomes the selection and the slug's entry is removed; the dialog ends closed |
| `AdminEditor.AdminPage.ConfirmDiscard` | src/app/admin/page.tsx:515-518 | discarding resets the draft to an empty one dated today and closes the dialog |
| `MobileSidebar.Truthy` | src/components/MobileSidebar.tsx:51 | a touch point is truthy when it is recorded and not 0 |
| `MobileSidebar.AfterSwipe` | src/components/MobileSidebar.tsx:53-61 | a move of at most 50 pixels leaves the menu as it was; a left swipe leaves it open and a right swipe closed; the menu only ever opens on a left swipe and only closes on a right one |
| `MobileSidebar.Sidebar.constructor` | src/components/MobileSidebar.tsx:17-24 | both panels start closed with no touch recorded |
| `MobileSidebar.Sidebar.TouchStart` | src/components/MobileSidebar.tsx:42-44 | a touch start records its position only |
| `MobileSidebar.Sidebar.TouchMove` | src/components/MobileSidebar.tsx:46-48 | a touch move records its position only |
| `MobileSidebar.Sidebar.TouchEnd` | src/components/MobileSidebar.tsx:50-65 | with a null or zero touch point nothing changes; otherwise the swipe rule is applied and both points are reset; the theme panel is never touched |
| `MobileSidebar.Sidebar.ToggleMenu` | src/components/MobileSidebar.tsx:85 | the menu button flips the menu only |
| `MobileSidebar.Sidebar.ToggleThemeMenu` | src/components/MobileSidebar.tsx:98 | the theme button flips the theme panel only |
| `MobileSidebar.Sidebar.CloseMenu` | src/components/MobileSidebar.tsx:131-154 | the close button and a post link close the menu only |
| `MobileSidebar.Sidebar.MouseDown` | src/components/MobileSidebar.tsx:28-37 | a click closes each panel exactly when it lands outside that panel and off its button |
| `Login.ErrorMessage` | src/app/login/page.tsx:14-21 | `AccessDenied` gives the not-authorized message, any other non-empty error the generic one, and a missing or empty error keeps the message |
| `Login.RedirectFor` | src/app/login/page.tsx:24-28 | a redirect happens iff the session is authenticated, and always to `/admin` |
| `Login.LoginPage.constructor` | src/app/login/page.tsx:11 | no error message at first and no route pushed |
| `Login.LoginPage.OnSearchParams` | src/app/login/page.tsx:14-21 | the query-parameter effect sets the message as `ErrorMessage` says and pushes nothing |
| `Login.LoginPage.OnStatus` | src/app/login/page.tsx:24-28 | the status effect pushes `/admin` iff authenticated and leaves the message alone |

## Left out

- The PUT and DELETE handlers of `/api/posts/[slug]` are not part of this model. Their outcomes are the flags of `ConfirmSave` and `ConfirmDelete`.
- The `gray-matter` frontmatter parser is foreign code. A directory entry arrives already parsed, so no parse-after-write round trip is claimed for the real parser.
- File system, `fetch`, `NextResponse` and JSON encoding are I/O. Their results are parameters.
- JSX rendering, styling, the fade timer (`setTimeout`), `requestAnimationFrame`, focus and event-listener registration are presentation or scheduling only.
- React's asynchronous state batching and stale closures are not modelled, and each handler is one atomic step. The model assumes that nothing changes while the dialog is open, so the values its confirm handler captured equal the current ones. The real overlay blocks only the pointer: typing in a still-focused input can change `selectedPost` after the dialog opened, and the confirm handler then sends the older value. That interleaving is not modelled.
- `isLoading` and `isVisible` only switch what is rendered.
- The `draftPost` copy of the draft (src/app/admin/page.tsx:126-137) only feeds the sidebar label.
- Dates are opaque strings. `new Date()`, `toISOString` and the date picker's time zone handling are left out, and "today" is a parameter.
- `AdminSlug.LowerChar`: lowercases ASCII only, not all of Unicode `toLowerCase`.
- `StringOrder.Less`: compares characters as code points. JavaScript compares UTF-16 code units, which orders characters outside the Basic Multilingual Plane differently.
- `AdminToolbar.InsertMarkdown`: selection indices are in characters, not UTF-16 code units.
- `MobileSidebar.Sidebar.TouchStart`: touch coordinates are integers, not the `clientX` doubles.
- `Home.GroupByCategory`: `order` is the order in which keys first appear. `Object.entries` lists integer-like keys (such as `2024`) first in numeric order, and that card order is not modelled.
- `PostsRoute.Post`: the parsed body is assumed to be the object of four strings the admin page sends. A body of JSON `null` (the destructuring throws, so the answer is 500) and an object with a missing or non-string field (interpolated as `undefined` or its string form, so `{}` writes `undefined.md` with `title: 'undefined'`) are not modelled.
- `PostsLib.SortNewestFirst`: is one particular sort. The engine's `Array.prototype.sort` with a comparator that never answers 0 may order equal dates differently, and only "newest first and a permutation" is claimed for it.
- The browser's `required` check on the edit and create forms is modelled as "title and content non-empty". Other validation is not modelled.
- next-auth (`signIn`, `useSession`, the OAuth flow) is foreign. The session status is a parameter.
- `AdminEditor.AdminPage.Select`: uses the corrected own-key lookup `ShownVersion`. For a slug that is an inherited `Object.prototype` name and has no entry the page as written selects a post without title and content instead (`AdminEditor.ShownVersionAsWritten`, third row under Findings).
- `PostsRoute.FileName`: `path.join` normalisation is not modelled, and `slug + ".md"` is taken as one entry of the posts directory. A slug from the request body with `/` or `..` (`x/../y`, `a/b`, `../x`) is written elsewhere or fails, so the round trip holds only for slugs without `/`. Every slug the admin page sends is such a slug (`AdminEditor.CreatedFileName`).
- `PostsRoute.CreatedPostListedUnderItsSlug`: holds under the same single-entry reading of `path.join` as `PostsRoute.FileName`.

## Findings

| source | as written | input that shows it | evidently intended | confidence | as-written member | corrected member |
|---|---|---|---|---|---|---|
| src/app/api/posts/route.ts:40-41 | title and date are put between single quotes without doubling embedded quotes | a post titled `Don't` is written as `title: 'Don't'` | embedded `'` written as `''` (section 7.3.2 of YAML 1.2), so the title reads back unchanged | not executed | `PostsRoute.ApostropheBreaksTitleScalar` | `PostsRoute.QuotedTitleReadsBack` |
| src/app/page.tsx:8-15 | the accumulator is a plain `{}`, so `acc[category]` finds inherited `Object.prototype` members | a post with category `constructor`: `acc["constructor"]` is truthy and has no `push`, so the callback throws a TypeError. The defect is latent: `getAllPosts` passes no `category` through (src/lib/posts.ts:16-21), so every key is `Uncategorized` today, and it shows once `category` is passed through | an accumulator without inherited keys (`Object.create(null)` or a `Map`), grouping every category | not executed | `Home.GroupByCategoryAsWritten` | `Home.GroupByCategory` |
| src/app/admin/page.tsx:109-110 | `editedPosts` is a plain `{}` (src/app/admin/page.tsx:45), so `editedPosts[post.slug]` finds inherited `Object.prototype` members | a listed post with slug `constructor`, which the admin page itself derives from the title `Constructor`, selected while it has no entry: the inherited `Object` function is truthy, so the selection gets `title` and `content` undefined; when another post with a string title and content was selected just before, the edit-tracking effect that follows finds the watched values changed and this post different from its listed version and stores an entry, which blocks leaving the page; from the new-post form the watched values stay `undefined`, the effect does not run and nothing is stored (that follow-on step is not modelled) | an own-key lookup (`Object.hasOwn`, `Object.create(null)` or a `Map`), showing the post as listed | not executed | `AdminEditor.ConstructorPostShownWithoutFields` | `AdminEditor.ShownVersion` |
