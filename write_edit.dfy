/**
 * The write / edit page (frontend/src/pages/WriteEdit.jsx). With a post id
 * in the URL it edits that post, otherwise it writes a new one. Its two
 * handlers guard against empty fields, raise a busy flag while their request
 * is in flight, and lower it again however the request ends.
 *
 * Each handler is split at its `await`: `Start...` runs up to the request it
 * sends, `Finish...` runs from the answer (or the failure) to the end of the
 * `finally` block.
 */
module WriteEdit {
  import opened Wrappers
  import opened BlogStore
  import opened BlogApi
  import opened Requests

  /** `if (id)`: the page edits a post when the URL carries a non-empty id. */
  function Editing(id: Option<string>): (r: bool)
    ensures r <==> id.Some? && |id.value| > 0
  {
    id.Some? && id.value != ""
  }

  /** `handleGenerateAI` goes ahead unless both title and content are empty. */
  function CanGenerate(title: string, content: string): (r: bool)
    ensures !r <==> |title| == 0 && |content| == 0
  {
    title != "" || content != ""
  }

  /** `handleSubmit` goes ahead only when no field is empty. */
  function CanPublish(title: string, author: string, content: string): (r: bool)
    ensures r <==> |title| > 0 && |author| > 0 && |content| > 0
  {
    title != "" && author != "" && content != ""
  }

  /** The request a submit sends: an update of the post being edited, or the
      creation of a new one, carrying the three fields as typed. */
  function SubmitRequest(id: Option<string>, title: string, author: string, content: string): (r: Request)
    ensures r.body == DraftBody(title, author, content)
    ensures r.verb == PUT <==> Editing(id)
    ensures r.verb == POST <==> !Editing(id)
    ensures Editing(id) ==> r.path == BlogPath(id.value)
    ensures !Editing(id) ==> r.path == BlogsPath
  {
    if Editing(id) then Request(PUT, BlogPath(id.value), DraftBody(title, author, content))
    else Request(POST, BlogsPath, DraftBody(title, author, content))
  }

  /** Where a successful submit leads: back to the edited post, or home. */
  function AfterSave(id: Option<string>): (r: string)
    ensures Editing(id) ==> r == PostPage(id.value)
    ensures !Editing(id) ==> r == HomeRoute
  {
    if Editing(id) then PostPage(id.value) else HomeRoute
  }

  /** The submit button's text. */
  function ButtonLabel(isPublishing: bool, id: Option<string>): (r: string)
    ensures isPublishing ==> r == "Saving..."
    ensures !isPublishing && Editing(id) ==> r == "Update Post"
    ensures !isPublishing && !Editing(id) ==> r == "Publish Post"
  {
    if isPublishing then "Saving..." else if Editing(id) then "Update Post" else "Publish Post"
  }

  /** The page heading. */
  function Heading(id: Option<string>): (r: string)
    ensures Editing(id) ==> r == "Edit Post"
    ensures !Editing(id) ==> r == "Write a New Post"
  {
    if Editing(id) then "Edit Post" else "Write a New Post"
  }

  /** The form and AI panel state. */
  class WriteEditPage {
    const id: Option<string>
    var title: string
    var author: string
    var content: string
    var aiSuggestions: seq<string>
    var isGenerating: bool
    var isPublishing: bool

    constructor (id: Option<string>)
      ensures this.id == id
      ensures title == "" && author == "" && content == ""
      ensures aiSuggestions == [] && !isGenerating && !isPublishing
    {
      this.id := id;
      title, author, content := "", "", "";
      aiSuggestions := [];
      isGenerating, isPublishing := false, false;
    }

    /** The mount effect: in edit mode it sends the GET for the post and the
        stored post fills the form; a failed fetch, or a new post, leaves the
        form as it is, and a new post sends nothing. */
    method Load(response: Option<Row>) returns (request: Option<Request>)
      modifies this
      ensures request.Some? <==> Editing(id)
      ensures request.Some? ==> request.value == Request(GET, BlogPath(id.value), NoBody)
      ensures Editing(id) && response.Some? ==>
                && title == response.value.post.title
                && author == response.value.post.author
                && content == response.value.post.content
      ensures !(Editing(id) && response.Some?) ==> title == old(title) && author == old(author) && content == old(content)
      ensures aiSuggestions == old(aiSuggestions)
      ensures isGenerating == old(isGenerating) && isPublishing == old(isPublishing)
    {
      request := if Editing(id) then Some(Request(GET, BlogPath(id.value), NoBody)) else None;
      if Editing(id) && response.Some? {
        var post := response.value.post;
        title, author, content := post.title, post.author, post.content;
      }
    }

    /** The `onChange` of the title input. */
    method EditTitle(value: string)
      modifies this
      ensures title == value && author == old(author) && content == old(content)
      ensures aiSuggestions == old(aiSuggestions)
      ensures isGenerating == old(isGenerating) && isPublishing == old(isPublishing)
    {
      title := value;
    }

    /** The `onChange` of the author input. */
    method EditAuthor(value: string)
      modifies this
      ensures author == value && title == old(title) && content == old(content)
      ensures aiSuggestions == old(aiSuggestions)
      ensures isGenerating == old(isGenerating) && isPublishing == old(isPublishing)
    {
      author := value;
    }

    /** The `onChange` of the content text area. */
    method EditContent(value: string)
      modifies this
      ensures content == value && title == old(title) && author == old(author)
      ensures aiSuggestions == old(aiSuggestions)
      ensures isGenerating == old(isGenerating) && isPublishing == old(isPublishing)
    {
      content := value;
    }

    /** `handleGenerateAI` up to its request: with both title and content
        empty nothing is sent and nothing changes; otherwise the prompt is
        sent and the page is generating. */
    method StartGenerate() returns (request: Option<Request>)
      modifies this
      ensures request.Some? <==> CanGenerate(title, content)
      ensures request.Some? ==> request.value == Request(POST, SuggestionsPath, PromptBody(title, content)) && isGenerating
      ensures request.None? ==> isGenerating == old(isGenerating)
      ensures title == old(title) && author == old(author) && content == old(content)
      ensures aiSuggestions == old(aiSuggestions) && isPublishing == old(isPublishing)
    {
      if !CanGenerate(title, content) {
        return None;
      }
      isGenerating := true;
      request := Some(Request(POST, SuggestionsPath, PromptBody(title, content)));
    }

    /** `handleGenerateAI` from the answer on: the suggestions replace the
        old ones on success, a failure keeps the old ones; generating ends
        either way. */
    method FinishGenerate(suggestions: Option<seq<string>>)
      modifies this
      ensures !isGenerating
      ensures suggestions.Some? ==> aiSuggestions == suggestions.value
      ensures suggestions.None? ==> aiSuggestions == old(aiSuggestions)
      ensures title == old(title) && author == old(author) && content == old(content)
      ensures isPublishing == old(isPublishing)
    {
      if suggestions.Some? {
        aiSuggestions := suggestions.value;
      }
      isGenerating := false;
    }

    /** `handleSubmit` up to its request: with an empty field nothing is sent
        and nothing changes; otherwise the update or create request is sent
        and the page is publishing. */
    method StartSubmit() returns (request: Option<Request>)
      modifies this
      ensures request.Some? <==> CanPublish(title, author, content)
      ensures request.Some? ==> request.value == SubmitRequest(id, title, author, content) && isPublishing
      ensures request.None? ==> isPublishing == old(isPublishing)
      ensures title == old(title) && author == old(author) && content == old(content)
      ensures aiSuggestions == old(aiSuggestions) && isGenerating == old(isGenerating)
    {
      if !CanPublish(title, author, content) {
        return None;
      }
      isPublishing := true;
      request := Some(SubmitRequest(id, title, author, content));
    }

    /** `handleSubmit` from the answer on: a saved post leads to its page
        (edit) or home (create), a failure stays; publishing ends either way. */
    method FinishSubmit(saved: bool) returns (navigateTo: Option<string>)
      modifies this
      ensures !isPublishing
      ensures navigateTo.Some? <==> saved
      ensures saved ==> navigateTo.value == AfterSave(id)
      ensures title == old(title) && author == old(author) && content == old(content)
      ensures aiSuggestions == old(aiSuggestions) && isGenerating == old(isGenerating)
    {
      isPublishing := false;
      if saved {
        navigateTo := Some(AfterSave(id));
      } else {
        navigateTo := None;
      }
    }
  }

  /** How the server binds a request body: each field the body lacks is
      `undefined`, which the driver binds as NULL. */
  function Bind(body: Payload): (d: Draft)
    ensures body.DraftBody? ==> d == Draft(Text(body.title), Text(body.content), Text(body.author))
    ensures body.NoBody? ==> d == Draft(Null, Null, Null)
  {
    match body
    case NoBody => Draft(Null, Null, Null)
    case DraftBody(title, author, content) => Draft(Text(title), Text(content), Text(author))
    case PromptBody(title, content) => Draft(Text(title), Text(content), Null)
  }

  /** A new post the form publishes is stored under the id the server
      reports, with exactly the fields typed into the form. */
  lemma PublishedDraftIsStored(t: Table, title: string, author: string, content: string, now: nat)
    requires t.lastIssued < MaxRowId
    ensures var (u, res) := CreateSpec(t, Bind(SubmitRequest(None, title, author, content).body), now, None);
            && res.status == 201
            && res.body.postId in u.rows
            && u.rows[res.body.postId] == Post(title, content, author, now, now)
  {
  }

  /** An edit the form submits replaces the three fields of the stored post
      and keeps its creation time. `n` is the id the server reads from the
      path. */
  lemma EditedDraftUpdatesPost(t: Table, id: string, n: int, title: string, author: string, content: string, now: nat)
    requires id != "" && n in t.rows
    ensures var request := SubmitRequest(Some(id), title, author, content);
            var (u, res) := UpdateSpec(t, n, Bind(request.body), now, None);
            && request.verb == PUT
            && res == Response(200, Note(UpdatedMessage))
            && u.rows == t.rows[n := Post(title, content, author, t.rows[n].createdAt, now)]
  {
  }

  /** The form is stricter than the server: whatever strings the three fields
      hold, the create handler stores them, empty ones included, while the
      form refuses to send a draft with an empty field. */
  lemma ServerAcceptsWhatFormRefuses(t: Table, title: string, author: string, content: string, now: nat)
    requires t.lastIssued < MaxRowId
    ensures CreateSpec(t, Bind(DraftBody(title, author, content)), now, None).1.status == 201
    ensures title == "" || author == "" || content == "" ==>
              !CanPublish(title, author, content) && CreateSpec(t, Bind(DraftBody(title, author, content)), now, None).1.status == 201
  {
  }

  /** A create request without a body is refused by the server, on the title
      column first. */
  lemma ServerRefusesMissingFields(t: Table, now: nat)
    requires t.lastIssued < MaxRowId
    ensures CreateSpec(t, Bind(NoBody), now, None) == (t, Response(500, Failure(Message(NotNull("title")))))
  {
  }
}
