# AI-powered blog platform: a Dafny model of its core

The platform is an Express server over one SQLite table of blog posts, with a
React frontend. This project models:

- the `Blogs` table of `backend/db.js` (AUTOINCREMENT ids, NOT NULL text
  columns, timestamp defaults, create-if-absent) and the single shared
  connection that runs statements on it: module `BlogStore`, file `store.dfy`;
- the five `/api/blogs` handlers of `backend/server.js` (create, list, get,
  update, delete), each one statement on that connection and a status code
  chosen from the driver's report: module `BlogApi`, file `api.dfy`;
- the clean-up of the generative model's reply before `JSON.parse` in the
  suggestion endpoint, and that endpoint's 200/500 outcome: module
  `Suggestions`, file `suggest.dfy`;
- the requests the pages send: module `Requests`, file `requests.dfy`;
- the three pages: `Home` (`home.dfy`), `PostDetail` (`post_detail.dfy`)
  and `WriteEdit` (`write_edit.dfy`).

The table is a `map` from id to post plus the AUTOINCREMENT counter (the
largest id ever issued). Each SQL statement is a pure `...Effect` function
giving the new table and the driver's report. The class `BlogStore.Blogs`
holds the same state in mutable fields, and its methods are proved equal to
those functions. Handlers are `...Spec` functions giving the new table and
the response. The handler methods in `BlogApi` run on a `Blogs` connection
and are proved against those functions.

Time is an abstract clock reading (`nat`). The table invariant `Wellformed`
holds the schema's facts plus one the API keeps: a larger id never has an
earlier `created_at`. The writing handlers require `NotAfter(table, now)`:
no stored timestamp is later than the current clock reading. From this it
follows that listing by descending id satisfies `ORDER BY created_at DESC`.

Frontend state lives in classes with the React state variables as fields
(`Home.HomePage`, `PostDetail.PostDetailPage`, `WriteEdit.WriteEditPage`).
The two form handlers of the write / edit page, `handleGenerateAI` and
`handleSubmit`, are each split at their `await` into a `Start...` method (up
to the request) and a `Finish...` method (from the answer to the end of
`finally`). The three fetches, `fetchBlogs` (`Home.HomePage.FetchBlogs`),
`fetchBlog` (`PostDetail.PostDetailPage.FetchBlog`) and the edit page's
mount effect (`WriteEdit.WriteEditPage.Load`), are each one method that
returns the request it sends and takes the answer as a parameter.
`handleDelete` changes no page state and is the function
`PostDetail.HandleDelete`, with the user's confirmation and the request's
outcome as parameters. A network answer is `Some(data)` on success and
`None` when axios rejects.

## Model

| member | source | states |
|---|---|---|
| BlogStore.InsertEffect | backend/db.js:16-25 | INSERT succeeds iff there is no I/O error, the counter is below 2^63-1 and title, content and author are all non-NULL; the new id exceeds every id ever issued and becomes the counter; the row holds the three texts with `created_at == updated_at == now`; a failure reports I/O, then SQLITE_FULL, then the first NULL column in schema order, and leaves the table unchanged; the invariants are kept |
| BlogStore.UpdateEffect | backend/server.js:50-61 | one change iff the id is present and all three values are non-NULL; an absent id changes 0 rows even with NULL values; an I/O error is reported first, then, for a present id, the first NULL column in schema order; the updated row keeps its `created_at` and gets `updated_at == now`; all other rows, the id set and the counter are unchanged; anything but one change leaves the table unchanged |
| BlogStore.DeleteEffect | backend/server.js:64-72 | one change iff the id is present, 0 iff absent, a failure iff an I/O error; the row is removed and nothing else changes; the counter never moves back, so the id is not issued again |
| BlogStore.Message | backend/server.js:24-25 | the `err.message` a handler returns: the engine's text for an I/O error, "SQLITE_FULL: database or disk is full" for a full counter, and for a NOT NULL failure SQLite's constraint text ending in `Blogs.` and the column name |
| BlogStore.SelectOne | backend/server.js:40-47 | the row with that id, unchanged, iff it is stored; an error iff I/O fails |
| BlogStore.SelectAll | backend/server.js:31-37 | an error iff I/O fails; otherwise the listing of the table |
| BlogStore.Listing | backend/server.js:32 | every listed row is a stored row, no id appears twice, every stored row appears, and `created_at` never increases down the list |
| BlogStore.RowsDownFrom | backend/db.js:18 | only stored rows with ids in 1..n, unchanged, in strictly decreasing id order, so each at most once |
| BlogStore.RowsDownFromComplete | backend/db.js:18 | every stored row with an id in 1..n is listed |
| BlogStore.ExecuteIssuesAboveCounter | backend/db.js:18 | one statement never moves the counter back, and the id an INSERT issues is above the old counter and becomes the new one |
| BlogStore.IssuedIdsIncrease | backend/db.js:18 | over any run of inserts, updates and deletes the issued ids strictly increase and exceed every id issued before, and the counter never goes back |
| BlogStore.DeletedIdsStayDeleted | backend/db.js:18 | an id that was issued and is no longer stored stays absent after any run of statements |
| BlogStore.CreatedAtNeverChanges | backend/db.js:22 | a post that survives any run of statements keeps its `created_at` |
| BlogStore.Blogs.Open | backend/db.js:15-26 | opening keeps an existing table with all its rows; otherwise the table starts empty with the counter at 0 |
| BlogStore.Blogs.Insert | backend/server.js:24-27 | runs the INSERT in place: new state and report equal `InsertEffect`; the invariants are kept |
| BlogStore.Blogs.Update | backend/server.js:56-60 | runs the UPDATE in place: new state and report equal `UpdateEffect`; the invariants are kept |
| BlogStore.Blogs.Delete | backend/server.js:67-71 | runs the DELETE in place: new state and report equal `DeleteEffect`; the invariant is kept |
| BlogStore.Blogs.Get | backend/server.js:42 | the result equals `SelectOne` on the current table |
| BlogStore.Blogs.All | backend/server.js:33 | the result equals `SelectAll` on the current table |
| BlogApi.CreateSpec | backend/server.js:20-28 | 201 iff the insert succeeds, with message "Blog post created successfully" and `postId` the fresh id, which exceeds every id issued before; the new row holds the submitted fields; otherwise 500 with the error message: the I/O text, then SQLITE_FULL when the counter is at 2^63-1, then the NOT NULL failure of the first NULL column; the table is unchanged |
| BlogApi.ListSpec | backend/server.js:31-37 | 200 iff no I/O error; the body lists every stored row exactly once, newest `created_at` first; an I/O error gives 500 with its message |
| BlogApi.GetSpec | backend/server.js:40-47 | 200 with the stored row when the id is present, 404 "Blog post not found" when absent, 500 with the message on an I/O error |
| BlogApi.UpdateSpec | backend/server.js:50-61 | 404 iff no I/O error and the id is absent; 200 iff the id is present and all fields are non-NULL, replacing the three fields and `updated_at` and keeping `created_at` and the other rows; an I/O error gives 500 with its message; a present id with a NULL field gives 500 naming the first NULL column; every non-200 answer leaves the table unchanged |
| BlogApi.ChangeReply | backend/server.js:57-59 | the reply update and delete share: 500 with the error message on a failure, 404 "Blog post not found" when no row changed, 200 with the handler's message when one did |
| BlogApi.DeleteSpec | backend/server.js:64-72 | 200 iff the id is present, removing exactly that row; 404 iff absent; 500 with the message on an I/O error; every non-200 answer leaves the table unchanged |
| BlogApi.CreatePost | backend/server.js:20-28 | the handler run on the connection yields exactly `CreateSpec`'s table and response and keeps the invariants |
| BlogApi.ListPosts | backend/server.js:31-37 | the handler's response equals `ListSpec` on the connection's table |
| BlogApi.GetPost | backend/server.js:40-47 | the handler's response equals `GetSpec` on the connection's table |
| BlogApi.UpdatePost | backend/server.js:50-61 | the handler run on the connection yields exactly `UpdateSpec`'s table and response and keeps the invariants |
| BlogApi.DeletePost | backend/server.js:64-72 | the handler run on the connection yields exactly `DeleteSpec`'s table and response and keeps the invariant |
| BlogApi.CreateThenGet | backend/server.js:20-47 | a created post is then found under the reported id with exactly the submitted fields and equal timestamps |
| BlogApi.CreatedPostIsListed | backend/server.js:20-37 | a just-created post is listed with the submitted fields, only once, and no listed post has a later `created_at`; it comes first whenever every older post was created strictly earlier |
| BlogApi.DeleteTwice | backend/server.js:64-72 | the first delete of a stored post answers 200, the second answers 404 and changes nothing |
| BlogApi.UpdateTwice | backend/server.js:50-61 | repeating an update leaves the same post except for a later `updated_at`; `created_at` is kept |
| BlogApi.EmptyTableListsNothing | backend/server.js:31-37 | an empty table lists as 200 with an empty array, not an error |
| BlogApi.FirstPostScenario | backend/server.js:20-47 | on a new table, creating Hi/World/Ana answers 201 with postId 1, GET 1 returns it and GET 999 is 404 |
| Suggestions.StripFences | backend/server.js:106 | the global replace never lengthens the text and leaves text without backticks as it is |
| Suggestions.Trim | backend/server.js:106 | the trimmed text neither starts nor ends with white space, is no longer than the input, and text whose ends are not white space is left as it is |
| Suggestions.TrimDropsOnlyOuterSpace | backend/server.js:106 | the trimmed text is the slice of the input that starts where the leading white space ends, and everything before and after that slice is white space |
| Suggestions.TrimStart | backend/server.js:106 | what is left is a suffix that is empty or starts with a non-space, and everything dropped is JavaScript white space |
| Suggestions.TrimEnd | backend/server.js:106 | what is left is a prefix that is empty or ends with a non-space, and everything dropped is JavaScript white space |
| Suggestions.CleanReply | backend/server.js:106 | the cleaned text contains no "```" and neither starts nor ends with white space |
| Suggestions.StripFencesCopiesPlainChar | backend/server.js:106 | the replace copies a leading character that is not a backtick and continues with the rest |
| Suggestions.StripFencesLeavesNoFence | backend/server.js:106 | after the global replace no "```" remains, even where removals bring backticks together |
| Suggestions.StripFencesOfFenceFree | backend/server.js:106 | text without "```" passes through the replace unchanged |
| Suggestions.StripFencesSkipsPlainPrefix | backend/server.js:106 | a prefix without backticks passes through the replace unchanged |
| Suggestions.FenceFreeCons | backend/server.js:106 | a character before text without "```" makes none, unless it is a backtick before two more |
| Suggestions.FenceFreeSubrange | backend/server.js:106 | a slice of text without "```" has no "```" either |
| Suggestions.TrimKeepsFenceFree | backend/server.js:106 | trimming text without "```" gives text without "```" |
| Suggestions.TrimOfTrimmed | backend/server.js:106 | text that neither starts nor ends with white space is its own trim |
| Suggestions.CleanReplyIdempotent | backend/server.js:106 | cleaning a cleaned reply changes nothing |
| Suggestions.CleanReplyWithoutBackticks | backend/server.js:106 | for a reply without backticks the clean-up is exactly `trim` |
| Suggestions.CleanReplyOfFencedBlock | backend/server.js:106 | "```json" + X + "```", with X free of backticks, cleans to `trim(X)` |
| Suggestions.CleanReplyOfFencedLines | backend/server.js:106 | a fenced block on lines of its own cleans to exactly the block's text |
| Suggestions.FencedArrayScenario | backend/server.js:106 | the reply "```json\n[\"a\",\"b\",\"c\"]\n```" cleans to `["a","b","c"]` |
| Suggestions.Suggest | backend/server.js:81-115 | 200 iff the model call succeeds and the cleaned reply parses, with the parsed value as `suggestions`; otherwise 500 "Failed to generate suggestions." |
| Suggestions.FencedAndBareRepliesAgree | backend/server.js:106-109 | a fenced reply and its trimmed bare text give the same response |
| Home.Excerpt | frontend/src/pages/Home.jsx:44-46 | content of at most 150 characters is shown as is; longer content is cut to its first 150 characters followed by "...", 153 in all; never more than 153 |
| Home.ExcerptKeepsContentIff | frontend/src/pages/Home.jsx:44-46 | the excerpt equals the content iff the content has at most 150 characters or is 153 long and ends in "..." |
| Home.ExcerptIdempotent | frontend/src/pages/Home.jsx:44-46 | cutting an excerpt again changes nothing |
| Home.CardOf | frontend/src/pages/Home.jsx:39-63 | a card shows the post's id, title, author and date as stored, and the excerpt of its content, at most 153 characters |
| Home.Cards | frontend/src/pages/Home.jsx:38-65 | exactly one card per post, card i showing post i |
| Home.Screen | frontend/src/pages/Home.jsx:25-38 | "Loading posts..." while loading; then the empty-state notice iff there are no posts; otherwise one card per post in server order |
| Home.HomePage.constructor | frontend/src/pages/Home.jsx:6-7 | no posts and loading |
| Home.HomePage.FetchBlogs | frontend/src/pages/Home.jsx:14-23 | sends GET `/api/blogs`; loading ends on success and failure; on success the posts are the response, on failure they stay as they were |
| Home.Visit | frontend/src/pages/Home.jsx:6-38 | the page asks for `/api/blogs`; a failed fetch shows the empty-state notice; a successful one shows the screen for the received posts |
| Home.CardShown | frontend/src/pages/Home.jsx:35-38 | every post in a non-empty list has its card on the screen |
| Home.HomeShowsEveryPost | frontend/src/pages/Home.jsx:35-38 | against the list endpoint, the empty-state notice shows iff the table is empty, and otherwise every stored post has its card |
| PostDetail.Occurrences | frontend/src/pages/PostDetail.jsx:80 | the count is zero iff the character does not occur |
| PostDetail.Split | frontend/src/pages/PostDetail.jsx:80 | one piece more than there are separators, and no piece contains the separator |
| PostDetail.JoinConsFirst | frontend/src/pages/PostDetail.jsx:80 | a character before the first piece comes first in the joined text |
| PostDetail.JoinSplit | frontend/src/pages/PostDetail.jsx:80 | joining the pieces with the separator restores the text |
| PostDetail.SplitWithoutSeparator | frontend/src/pages/PostDetail.jsx:80 | text without the separator is one piece |
| PostDetail.SplitAtFirstSeparator | frontend/src/pages/PostDetail.jsx:80 | the first separator ends the first piece |
| PostDetail.SplitJoin | frontend/src/pages/PostDetail.jsx:80 | splitting joined pieces that contain no separator gives the pieces back |
| PostDetail.EmptyLineIsEmptyPiece | frontend/src/pages/PostDetail.jsx:80 | two line feeds in a row give an empty paragraph |
| PostDetail.Paragraphs | frontend/src/pages/PostDetail.jsx:80 | one paragraph more than there are line feeds, none contains a line feed, and joining them with line feeds restores the content |
| PostDetail.Screen | frontend/src/pages/PostDetail.jsx:44-84 | "Loading post..." while loading; "Post not found." once loaded without a post; otherwise the post's id, title, author and date, and its content split at each line feed, which joins back to the content |
| PostDetail.Received | frontend/src/pages/PostDetail.jsx:17-18 | the page keeps a post iff the answer is 2xx with a post in its body |
| PostDetail.PostDetailPage.constructor | frontend/src/pages/PostDetail.jsx:7-11 | no post and loading |
| PostDetail.PostDetailPage.FetchBlog | frontend/src/pages/PostDetail.jsx:15-24 | sends GET `/api/blogs/{id}` for the id in the URL; loading ends on success and failure; on success the post is the response, on failure it stays as it was |
| PostDetail.HandleDelete | frontend/src/pages/PostDetail.jsx:31-42 | a DELETE of `/api/blogs/{id}` is sent iff the user confirms; the page goes to '/' iff confirmed and the request succeeded |
| PostDetail.Open | frontend/src/pages/PostDetail.jsx:14-45 | the page asks for `/api/blogs/{id}`; against the get endpoint, a stored post is shown with its fields and paragraphs, an absent one as "Post not found." |
| PostDetail.ConfirmedDeleteGoesHomeIffStored | frontend/src/pages/PostDetail.jsx:31-42 | against the delete endpoint, a confirmed delete goes home iff the post was stored |
| WriteEdit.Editing | frontend/src/pages/WriteEdit.jsx:22 | the page is in edit mode iff the URL carries a non-empty id |
| WriteEdit.CanGenerate | frontend/src/pages/WriteEdit.jsx:39 | generation is refused iff title and content are both empty |
| WriteEdit.CanPublish | frontend/src/pages/WriteEdit.jsx:62 | publishing goes ahead iff title, author and content are all non-empty |
| WriteEdit.SubmitRequest | frontend/src/pages/WriteEdit.jsx:69-77 | the body is the three fields as typed; PUT `/api/blogs/{id}` iff there is an id, POST `/api/blogs` otherwise |
| WriteEdit.AfterSave | frontend/src/pages/WriteEdit.jsx:72-76 | after a save, `/post/{id}` with an id, '/' without |
| WriteEdit.ButtonLabel | frontend/src/pages/WriteEdit.jsx:132 | 'Saving...' while publishing, otherwise 'Update Post' with an id and 'Publish Post' without |
| WriteEdit.Heading | frontend/src/pages/WriteEdit.jsx:89 | 'Edit Post' with an id, 'Write a New Post' without |
| WriteEdit.WriteEditPage.constructor | frontend/src/pages/WriteEdit.jsx:11-18 | empty fields, no suggestions, not generating, not publishing |
| WriteEdit.WriteEditPage.Load | frontend/src/pages/WriteEdit.jsx:21-35 | GET `/api/blogs/{id}` is sent iff in edit mode; in edit mode a fetched post fills the three fields; otherwise nothing changes |
| WriteEdit.WriteEditPage.EditTitle | frontend/src/pages/WriteEdit.jsx:101 | only the title changes |
| WriteEdit.WriteEditPage.EditAuthor | frontend/src/pages/WriteEdit.jsx:112 | only the author changes |
| WriteEdit.WriteEditPage.EditContent | frontend/src/pages/WriteEdit.jsx:122 | only the content changes |
| WriteEdit.WriteEditPage.StartGenerate | frontend/src/pages/WriteEdit.jsx:38-49 | a prompt request is sent iff title or content is non-empty, and then the page is generating; otherwise nothing changes |
| WriteEdit.WriteEditPage.FinishGenerate | frontend/src/pages/WriteEdit.jsx:50-56 | generating ends on success and failure; success replaces the suggestions, failure keeps them |
| WriteEdit.WriteEditPage.StartSubmit | frontend/src/pages/WriteEdit.jsx:60-71 | the create-or-update request is sent iff no field is empty, and then the page is publishing; otherwise nothing changes |
| WriteEdit.WriteEditPage.FinishSubmit | frontend/src/pages/WriteEdit.jsx:72-83 | publishing ends on success and failure; the page navigates, to `AfterSave`, iff the save succeeded |
| WriteEdit.Bind | backend/server.js:21-24 | a body with the three fields binds them as text; a missing body binds NULL for each |
| WriteEdit.PublishedDraftIsStored | frontend/src/pages/WriteEdit.jsx:73-76 | a new post sent by the form is stored under the reported id with exactly the typed fields |
| WriteEdit.EditedDraftUpdatesPost | frontend/src/pages/WriteEdit.jsx:69-72 | an edit sent by the form is a PUT that answers 200, replaces the three fields and keeps `created_at` |
| WriteEdit.ServerAcceptsWhatFormRefuses | frontend/src/pages/WriteEdit.jsx:62-65 | the server stores any three strings, empty ones included, while the form refuses every draft with an empty field |
| WriteEdit.ServerRefusesMissingFields | backend/db.js:19-21 | a create without a body fails with 500 on the NOT NULL title column and changes nothing |

## Left out

- HTTP plumbing: Express setup, CORS, JSON body parsing and `app.listen` (backend/server.js:1-13, 117-123) are framework I/O.
- The SQLite driver's callbacks: each handler is one atomic step. Concurrent requests, and their last-writer-wins updates, are not modelled.
- Storage errors other than NOT NULL and SQLITE_FULL are an input `io` (`Some(message)` when the engine fails). Their message text is that input.
- The Gemini call and the prompt text (backend/server.js:79-103) are external. The model's reply is an input, `None` when the call fails.
- `JSON.parse` is an arbitrary, possibly failing function. Nothing checks that it yields three strings, and the model does not add such a check.
- Timestamp formats: `CURRENT_TIMESTAMP`, `toISOString` and `toLocaleDateString` are not modelled. Time is an abstract clock reading, and the writing handlers require that the clock does not run backwards.
- BlogStore.Listing: the order of rows with equal `created_at` is left open by SQL. The model lists them by descending id, but the contract, and every lemma about listings, uses only the SQL promise. So `BlogApi.CreatedPostIsListed` puts a new post first only when every older post has an earlier `created_at`.
- The request path id is modelled as the integer SQLite compares `id` with. How the path text converts to that integer is not modelled.
- Body fields that are neither strings nor absent (numbers, objects) are not modelled. An absent field binds as NULL.
- React rendering, hook scheduling, `alert`, `confirm` and `console` are not modelled. The user's answer to `confirm` is a parameter of `HandleDelete`.
- The axios base URLs are not modelled. Home uses a local server and the other pages a hosted one, and the model keeps only the paths.
- The response data is assumed to have the shape the server sends. A list of posts arrives for the home page, a post for the detail and edit pages, and a sequence of strings as suggestions.
- frontend/src/App.jsx (routing) and frontend/src/components/Navbar.jsx (static markup) are not part of this model.
- The disabled state of the publish and generate buttons is not modelled. The `Start...` methods may be called while a request is in flight, as the handlers themselves allow.
- Home.Excerpt: lengths are counted in characters (Unicode scalar values), not in UTF-16 code units. For text outside the Basic Multilingual Plane the source cuts at a different place, and may split a surrogate pair.
