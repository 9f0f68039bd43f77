/**
 * The HTTP requests the frontend pages send to the backend, reduced to what
 * the handlers read: the verb, the path under the server's base URL, and the
 * JSON body.
 */
module Requests {

  datatype Verb = GET | POST | PUT | DELETE

  /** A request body: the post form `{ title, author, content }`, the
      suggestion prompt `{ title, content }`, or nothing. */
  datatype Payload =
    | NoBody
    | DraftBody(title: string, author: string, content: string)
    | PromptBody(title: string, content: string)

  datatype Request = Request(verb: Verb, path: string, body: Payload)

  const BlogsPath := "/api/blogs"
  const SuggestionsPath := "/api/ai-suggestions"

  /** `/api/blogs/${id}` with the id exactly as it appears in the page URL. */
  function BlogPath(id: string): string {
    BlogsPath + "/" + id
  }

  /** `/post/${id}`, the reading page of one post. */
  function PostPage(id: string): string {
    "/post/" + id
  }

  const HomeRoute := "/"
}
