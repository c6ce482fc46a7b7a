# MinimalistBlogger core in Dafny

A model of the core of MinimalistBlogger, a small blog application, with proofs
about it:

- **The in-memory store** (`MemStorage`, module `Storage`): three id-keyed tables of
  posts, comments and users, each with an auto-increment counter, seeded at
  construction with three sample posts and three sample comments. The class keeps
  the source's fields. Its operations are methods that update them in place:
  create, update, delete and like a post, create a comment and create a user. Its
  reads are functions of the state: all posts newest first, a post by id, the
  comments of a post newest first, a user by id or by user name. A ghost record of
  every id ever handed out, together with the invariant `Valid()`, shows that ids
  are never reused.
- **Listing order** (module `Ordering`). A JavaScript `Map` iterates in the order
  its keys were first inserted. In this store keys are inserted once, in
  increasing order, and overwriting a key keeps its place, so iteration order is
  ascending key order (`TableOrder`, `ValuesAt`). `Array.prototype.sort` with the
  comparator `date(b) - date(a)` is modelled by a stable insertion sort
  (`SortDesc`). It is proved sorted newest first and a permutation of its input.
- **The Markdown editor's toolbar** (module `MarkdownEditor`): `insertText` splices
  Markdown markers around the textarea's selection. The five buttons are Bold,
  Italic, Link, Image and Code. The module also records which parts of the
  component are rendered for the two preview flags.
- **The comment section's helpers** (module `CommentSection`): the avatar initials
  (`split(" ")`, first characters, `toUpperCase()`), the avatar colour
  (character code modulo 6) and the count in the section's header.
- **Multi-call properties** (module `StorageProperties`): what a fresh store
  answers, and what two likes, two deletes, a delete followed by a create, or a
  new comment leave behind.

Every read of the wall clock (`new Date()`) is an explicit `now` parameter. Dates
are integers, in milliseconds since the epoch.

Four details of the code that the model keeps as written:

- `createPost` writes `insertPost.featuredImage || null` and
  `insertPost.status || "draft"`. So an empty image becomes `null` and an empty
  status becomes "draft", not only a missing one (`NewPost`).
- `createComment` writes `insertComment.postId || null`. So a post reference of 0
  also becomes `null` (`NewComment`).
- `updatePost` spreads the patch as given. An empty status or image in an update
  is stored as it is (`UpdateKeepsEmptyStrings`).
- The listing dates fall back from `publishDate` to `createdAt`, as the sort's
  comparator does (`EffectiveDate`).

## Model

| member | source | states |
|---|---|---|
| Storage.MemStorage.constructor | server/storage.ts:30-40 | a new store is valid, holds exactly the three sample posts under ids 1–3 and the three sample comments under ids 1–3, has no users, and its next post and comment ids are 4 and its next user id is 1 |
| Storage.MemStorage.InitializeSampleData | server/storage.ts:42-160 | the tables are the old tables with every sample stored under its id, and each counter is raised past the largest sample id; users untouched; validity kept |
| Storage.MemStorage.SeedPosts | server/storage.ts:151-154 | the `forEach` over the posts stores each post under its own id and leaves the counter at the maximum of its old value and each id + 1 |
| Storage.MemStorage.SeedComments | server/storage.ts:156-159 | the same for the comments |
| Storage.SampleIds | server/storage.ts:43-148 | the samples are three posts and three comments, numbered 1, 2, 3 in order |
| Storage.SamplePosts | server/storage.ts:43-124 | the three seeded posts: ids 1, 2, 3 in order, all published, listed under 1710460800000, 1710028800000 and 1709856000000 (2024-03-15, 03-10 and 03-08 in milliseconds), each earlier than the one before |
| Storage.SampleComments | server/storage.ts:126-149 | the three seeded comments: ids 1, 2, 3 in order, all on post 1, each created two hours before the one before |
| Storage.Put | server/storage.ts:151-158 | the `set` step of each seeding `forEach` (posts and comments alike) never loses a key |
| Storage.PutAt | server/storage.ts:151-158 | after such a `forEach`, a key is stored exactly when it was before or some record has it as its id; a key no record has keeps its value; otherwise it holds the last record with that id |
| Storage.CounterPast | server/storage.ts:153-158 | the counter after `Math.max(current, record.id + 1)` for each record is at least its start and above every record's id |
| Storage.CounterPastReached | server/storage.ts:153-158 | that counter is its start or one more than one of the ids, so it is the maximum |
| Storage.PutThree | server/storage.ts:151-159 | storing three records numbered 1, 2, 3 into an empty table gives the table {1, 2, 3} of those records and a counter of 4, for the posts and for the comments |
| Storage.MemStorage.GetAllPosts | server/storage.ts:163-167 | the result is sorted newest first by publish date (else creation date), has as many entries as the table, lists every stored post, and lists only stored posts |
| Storage.PostsNewestFirst | server/storage.ts:164-166 | the values of a posts table in key order, sorted newest first: sorted, same count, every stored post present, nothing else |
| Storage.EffectiveDate | server/storage.ts:165 | a post is listed under its publish date when it has one, and under its creation date otherwise |
| Storage.Listed | server/storage.ts:164 | listing a table whose records sit under their own ids, by all of its keys, yields exactly the stored records |
| Storage.MemStorage.GetPostById | server/storage.ts:169-171 | a post is returned exactly when the id is stored, and it is the stored post and carries that id |
| Storage.MemStorage.CreatePost | server/storage.ts:173-188 | the new post gets the counter's old value as its id; that id was never issued and is above every stored key; the table gains exactly that post; the counter goes up by one; comments and users are unchanged |
| Storage.NewPost | server/storage.ts:176-185 | a created post has 0 likes and `createdAt = updatedAt = now`; it keeps the draft's texts and publish date; its status is the draft's when that is non-empty and "draft" otherwise; its image is `null` when the draft's is missing or "", and the draft's otherwise |
| Storage.MemStorage.UpdatePost | server/storage.ts:190-201 | for a missing id, nothing is returned and nothing changes; otherwise the merged post is returned and stored under the same key; counters, comments and users are unchanged |
| Storage.ApplyPatch | server/storage.ts:194-198 | each field the patch mentions takes the patch's value and each other field keeps its value; id, likes and `createdAt` are kept; `updatedAt` becomes `now` |
| Storage.Override | server/storage.ts:195-196 | a spread field is the patch's value when the patch has one and the old value otherwise |
| Storage.EmptyPatchOnlyTouches | server/storage.ts:194-198 | an update that mentions no field only moves `updatedAt` |
| Storage.ApplyPatchIdempotent | server/storage.ts:194-198 | applying the same update twice equals applying it once at the later time |
| Storage.UpdateKeepsEmptyStrings | server/storage.ts:194-198 | an empty status or image in an update is stored as given, unlike in `createPost` |
| Storage.MemStorage.DeletePost | server/storage.ts:203-205 | the result is true exactly when the id was stored; afterwards the table is the old one without that key; the counter and the issued ids are unchanged, so the id is not reused |
| Storage.MemStorage.LikePost | server/storage.ts:207-218 | for a missing id, nothing is returned and nothing changes; otherwise the liked post is returned and stored under the same key |
| Storage.Liked | server/storage.ts:211-215 | a like adds exactly one to `likes`, sets `updatedAt` to `now`, and changes no other field |
| Storage.MemStorage.GetCommentsByPostId | server/storage.ts:221-225 | the result is sorted newest first; every entry is a stored comment whose post reference equals the id; every such stored comment is listed; the count equals the number of such comments |
| Storage.CommentsNewestFirst | server/storage.ts:222-224 | the comments of one post, in key order, sorted newest first: sorted, only that post's stored comments, all of them, and as many as there are |
| Storage.CommentDate | server/storage.ts:224 | a comment is listed under its creation date |
| Storage.CommentsOn | server/storage.ts:223 | the filter keeps exactly the keys whose comment refers to the post, with their comments |
| Storage.ListedComments | server/storage.ts:222-223 | listing the filtered table by its keys yields exactly the matching stored comments |
| Storage.MemStorage.CreateComment | server/storage.ts:227-237 | the new comment gets the comment counter's old value, which was never issued; the comments table gains exactly it; only the comment counter moves; posts, the post counter and the issued post ids are unchanged |
| Storage.NewComment | server/storage.ts:229-234 | a created comment keeps the draft's author and text, is stamped `now`, and has a `null` post reference exactly when the draft's is missing or 0; it never refers to post 0 |
| Storage.MemStorage.GetUser | server/storage.ts:240-242 | a user is returned exactly when the id is stored, and it is the stored user |
| Storage.MemStorage.GetUserByUsername | server/storage.ts:244-248 | nothing is returned exactly when no stored user has the name; otherwise the result is a stored user with that name and the smallest id among them, which is the first in insertion order |
| Storage.FirstByUsername | server/storage.ts:245-247 | the same, for a users table whose keys lie below the counter |
| Storage.FirstByUsernameFacts | server/storage.ts:245-247 | the first match in key order is a stored user with the name, and no earlier key holds one |
| Storage.FindFirst | server/storage.ts:245-247 | `find` returns the first element with the name, or nothing when there is none |
| Storage.MemStorage.CreateUser | server/storage.ts:250-255 | the new user gets the user counter's old value, which was never issued; the users table gains exactly that user; the counter goes up by one and the id joins the issued ids; posts, comments and their issued ids are unchanged |
| Ordering.TableOrder | server/storage.ts:164 | the keys of a table in iteration order: each key exactly once, strictly increasing |
| Ordering.KeysBelow | server/storage.ts:164 | the keys below a bound, strictly increasing, exactly those in the set |
| Ordering.KeysBelowCount | server/storage.ts:164 | that list has as many entries as there are keys below the bound |
| Ordering.ValuesAt | server/storage.ts:164 | the values at a list of keys, position by position |
| Ordering.InsertDesc | server/storage.ts:165-166 | inserting into a newest-first list keeps it sorted, adds exactly the one element, and puts it first or keeps the old first |
| Ordering.SortDesc | server/storage.ts:165-166 | the sort's result is sorted newest first and is a permutation (same multiset) of its input |
| Ordering.NewestIsFirst | server/storage.ts:165-166 | in a newest-first list, an element strictly newer than all others comes first |
| StorageProperties.FreshStoreListing | server/storage.ts:163-167 | a fresh store lists three posts, the first sample (published 2024-03-15) first, all of them samples |
| StorageProperties.SeededNewestFirst | server/storage.ts:163-167 | any newest-first listing of the seeded posts table starts with post 1 |
| StorageProperties.FirstCreatedPostId | server/storage.ts:173-174 | the first post created in a fresh store gets id 4 |
| StorageProperties.LikeSeededPost | server/storage.ts:207-218 | liking post 1 of a fresh store returns it with 25 likes, and reading it back gives the same post |
| StorageProperties.LikeTwice | server/storage.ts:207-218 | two likes add exactly two; for a missing id both calls return nothing and the table is unchanged |
| StorageProperties.DeleteTwice | server/storage.ts:203-205 | the first delete reports whether the post existed, the second reports false, and the post can no longer be read |
| StorageProperties.DeleteThenCreate | server/storage.ts:203-205 | a post created after a delete never takes the deleted id |
| StorageProperties.NewCommentListedFirst | server/storage.ts:221-237 | a comment on post 1 of a fresh store, newer than the samples, gets id 4 and is first of post 1's four comments |
| StorageProperties.LaterCommentFirst | server/storage.ts:221-225 | with a fourth, newer comment on post 1 beside the samples, a newest-first listing starts with it and post 1 has four comments |
| MarkdownEditor.Clamp | client/src/components/markdown-editor.tsx:23-24 | `substring` clamps an index to [0, length] |
| MarkdownEditor.Substring | client/src/components/markdown-editor.tsx:23-24 | for in-range, ordered indices `substring` is the slice; it is never longer than the string |
| MarkdownEditor.SubstringSymmetric | client/src/components/markdown-editor.tsx:23-24 | the order of `substring`'s arguments does not matter |
| MarkdownEditor.InsertText | client/src/components/markdown-editor.tsx:17-33 | no editor element means no change. Otherwise the new text is `before` + `after` longer, its prefix and suffix are the text outside the selection, `before` and `after` sit around the old selected text, and the new selection covers exactly that text |
| MarkdownEditor.InsertTextSplice | client/src/components/markdown-editor.tsx:24 | the new text is the text before the selection, `before`, the selected text, `after`, and the rest |
| MarkdownEditor.StripMarkers | client/src/components/markdown-editor.tsx:24-31 | removing marker lengths around an edit's selection shortens the text by exactly those lengths |
| MarkdownEditor.StripMarkersInsertText | client/src/components/markdown-editor.tsx:21-31 | taking the inserted markers back out of an insertion gives back the original text |
| MarkdownEditor.ApplyAction | client/src/components/markdown-editor.tsx:35-61 | a toolbar button changes nothing without an editor element; otherwise it lengthens the text and selects exactly the old selected text |
| MarkdownEditor.Toolbar | client/src/components/markdown-editor.tsx:35-61 | the toolbar has five buttons and lists every action exactly once |
| MarkdownEditor.Title | client/src/components/markdown-editor.tsx:39-59 | every button has a non-empty title |
| MarkdownEditor.Markers | client/src/components/markdown-editor.tsx:38-58 | every button inserts non-empty markers on both sides; they are the same on both sides exactly for Bold, Italic and Code |
| MarkdownEditor.ToolbarButtons | client/src/components/markdown-editor.tsx:35-61 | the buttons in order Bold, Italic, Link, Image, Code, with the titles "Bold", "Italic", "Link", "Image", "Code" and the markers `**`/`**`, `*`/`*`, `[`/`](url)`, `![alt text](`/`)` and a backtick on each side; no two titles agree |
| MarkdownEditor.BoldAtCursor | client/src/components/markdown-editor.tsx:36-40 | Bold at an empty selection inserts "****" at the cursor and puts the cursor between the two pairs |
| MarkdownEditor.LinkWrapsSelection | client/src/components/markdown-editor.tsx:46-50 | Link turns the selection into `[selection](url)` |
| MarkdownEditor.TogglePreview | client/src/components/markdown-editor.tsx:91 | the toggle flips the local preview flag and leaves the page's flag alone |
| MarkdownEditor.ShowPreview | client/src/components/markdown-editor.tsx:15 | the page's preview always shows the preview; otherwise the local flag decides |
| MarkdownEditor.Heading | client/src/components/markdown-editor.tsx:67-69 | the heading is "Preview" exactly when the preview is shown, and "Editor" otherwise |
| MarkdownEditor.ToolbarShown | client/src/components/markdown-editor.tsx:71-87 | the formatting buttons are rendered exactly when the page is not in preview; when they are hidden the preview is shown |
| MarkdownEditor.TextareaShown | client/src/components/markdown-editor.tsx:101-139 | the textarea is rendered exactly when neither flag is set, which is exactly when the preview is not shown |
| MarkdownEditor.ToggleLabel | client/src/components/markdown-editor.tsx:94-95 | the toggle reads "Edit" or "Preview", and "Preview" exactly when clicking it turns the local preview on |
| MarkdownEditor.PreviewSource | client/src/components/markdown-editor.tsx:129 | the preview never renders an empty text: non-empty text as is, else a placeholder |
| MarkdownEditor.EditorElement | client/src/components/markdown-editor.tsx:18-19 | the editor element is found exactly when the textarea is rendered |
| MarkdownEditor.Click | client/src/components/markdown-editor.tsx:78 | a button click does nothing exactly when a preview flag is set; otherwise the text grows by the button's two markers and the new selection is the old selected text |
| MarkdownEditor.ViewLayout | client/src/components/markdown-editor.tsx:15 | exactly one of preview and textarea is shown; the heading says which; the page's preview hides the toolbar and forces the preview; toggling twice is the identity; the toggle reads "Edit" exactly in local preview |
| MarkdownEditor.ClickInLocalPreviewDoesNothing | client/src/components/markdown-editor.tsx:18-19 | with the toolbar visible and the local preview on, a toolbar click changes nothing |
| MarkdownEditor.ClickWhileEditing | client/src/components/markdown-editor.tsx:71-84 | in plain editing mode the toolbar is shown and a click wraps the selection in the button's markers |
| CommentSection.Split | client/src/components/comment-section.tsx:61 | `split(" ")` gives one more piece than there are spaces, and no piece contains a space |
| CommentSection.SplitJoin | client/src/components/comment-section.tsx:61 | joining the pieces with a space gives back the name |
| CommentSection.SplitAfterWord | client/src/components/comment-section.tsx:61 | a space-free word in front of a text extends the first piece of that text's split |
| CommentSection.FirstChars | client/src/components/comment-section.tsx:61 | `map(n => n[0]).join("")` has at most one character per piece, each the first character of a non-empty piece |
| CommentSection.FirstCharsAreWordStarts | client/src/components/comment-section.tsx:61 | those characters are exactly the word starts of the name, defined independently |
| CommentSection.UpperChar | client/src/components/comment-section.tsx:61 | ASCII upper case: a lower-case letter moves to its capital, every other character stays |
| CommentSection.ToUpper | client/src/components/comment-section.tsx:61 | `toUpperCase()` keeps the length and upper-cases each character |
| CommentSection.GetInitials | client/src/components/comment-section.tsx:60-62 | the initials have at most one character per piece, contain no space and no lower-case letter |
| CommentSection.InitialsAreWordStarts | client/src/components/comment-section.tsx:60-62 | the initials are the upper-cased word starts of the name |
| CommentSection.TwoWordInitials | client/src/components/comment-section.tsx:60-62 | a first and last name give the two upper-cased first letters |
| CommentSection.JohnDoeInitials | client/src/components/comment-section.tsx:60-62 | "John Doe" gives "JD" |
| CommentSection.SarahMillerInitials | client/src/components/comment-section.tsx:60-62 | "Sarah Miller" gives "SM" |
| CommentSection.MikeKimInitials | client/src/components/comment-section.tsx:60-62 | "Mike Kim" gives "MK" |
| CommentSection.AvatarIndex | client/src/components/comment-section.tsx:73 | the colour index exists exactly for a non-empty name and lies in 0..5 |
| CommentSection.AvatarColors | client/src/components/comment-section.tsx:65-72 | the colour table has six entries and no colour twice |
| CommentSection.GetAvatarColor | client/src/components/comment-section.tsx:64-75 | a non-empty name gets one of the six colours; an empty name gets none |
| CommentSection.AvatarColorByFirstChar | client/src/components/comment-section.tsx:73-74 | names whose first character codes agree modulo 6 get the same colour |
| CommentSection.SeededAvatarColors | client/src/components/comment-section.tsx:64-75 | "John Doe" is green, "Sarah Miller" and "Mike Kim" are indigo |
| CommentSection.CommentCount | client/src/components/comment-section.tsx:82 | the header counts 0 before the comments load and their number afterwards |
| CommentSection.HeaderCountsStoredComments | client/src/components/comment-section.tsx:82 | loaded from a store, the count equals the number of stored comments on the post |

## Left out

- Asynchrony: the store's methods are `async` but never suspend, so they are modelled as synchronous calls.
- The wall clock: each `new Date()` is the `now` parameter. The comparators' `|| new Date()` fallback is never reached, because every stored post and comment has a creation date.
- Dates are integers in milliseconds. Invalid dates (`NaN`) and the precision limits of JavaScript numbers are not modelled. Ids and counters are unbounded integers.
- Storage.MemStorage.GetAllPosts: the order of posts with equal dates is not stated. The sort is stable by construction, but only "sorted and a permutation" is proved.
- Storage.MemStorage.GetCommentsByPostId: the same holds for comments with equal dates.
- Storage.MemStorage.GetAllPosts: "each stored post exactly once" follows from the stated count and membership, because stored posts have distinct ids. It is not stated as a multiset equality.
- Schema validation (zod) and the shared schema types are not modelled. A `Partial<InsertPost>` update is assumed to carry only the author's fields, never `id`, `likes` or the timestamps.
- `likes` is a natural number that is never `null`, so the `(post.likes || 0)` fallback collapses to `post.likes`.
- The sample posts' titles, excerpts, Markdown bodies and image addresses are abbreviated, and so are the sample comments' texts. Ids, dates, likes, categories, statuses and authors are exact.
- The user table is untyped in the source. A user is reduced to its id and user name, the only fields the store reads.
- The exported `storage` singleton, the HTTP routes, the pages, the social-share and post-card components, and the Markdown rendering itself are not part of this model.
- The DOM: finding the editor element assumes that the only element with id "markdown-editor" is this editor's textarea. Focusing it and restoring the selection after a `setTimeout` are reduced to the selection that is handed back.
- The text input handler (`onChange(e.target.value)`) and the comment form's submission are not modelled.
- CommentSection.UpperChar: only ASCII letters are upper-cased. Unicode case mapping, and names outside the Basic Multilingual Plane where UTF-16 code units differ from characters, are not modelled.
- The store hands back its stored records themselves: `createPost` returns the post it has just stored, and `getPostById`, `getAllPosts` and `updatePost` return the table's own objects, so a caller that changed a result would change the store. The model's records are immutable values and do not capture this aliasing.
- The editor's positions: `Selection` offsets and the lengths of the inserted markers count characters, while `selectionStart`, `selectionEnd` and `substring` count UTF-16 code units. The two agree only for text inside the Basic Multilingual Plane.
- CommentSection.AvatarIndex: the character code is Dafny's character value, which equals `charCodeAt(0)` for characters in the Basic Multilingual Plane only.
