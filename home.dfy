/**
 * The home page (frontend/src/pages/Home.jsx): it fetches the list of posts
 * once, shows a loading notice until the fetch settles, then either the
 * empty-state notice or one card per post, in the order the server sent.
 */
module Home {
  import opened Wrappers
  import opened BlogStore
  import opened BlogApi
  import opened Requests

  const ExcerptLimit := 150
  const Ellipsis := "..."
  const LoadingPosts := "Loading posts..."
  const NoPosts := "No posts yet. Be the first to write one!"

  /** The card text for a post body: the content itself when it has at most
      150 characters, otherwise its first 150 followed by "...". */
  function Excerpt(content: string): (r: string)
    ensures |r| <= ExcerptLimit + |Ellipsis|
    ensures |content| <= ExcerptLimit ==> r == content
    ensures |content| > ExcerptLimit ==>
              && |r| == ExcerptLimit + |Ellipsis|
              && r[..ExcerptLimit] == content[..ExcerptLimit]
              && r[ExcerptLimit..] == Ellipsis
  {
    if |content| > ExcerptLimit then content[..ExcerptLimit] + Ellipsis else content
  }

  /** The excerpt leaves the content as it is exactly when the content is
      short enough, or already has the shape of a cut excerpt. */
  lemma ExcerptKeepsContentIff(content: string)
    ensures Excerpt(content) == content <==>
              |content| <= ExcerptLimit || (|content| == ExcerptLimit + |Ellipsis| && content[ExcerptLimit..] == Ellipsis)
  {
    if |content| == ExcerptLimit + |Ellipsis| && content[ExcerptLimit..] == Ellipsis {
      assert content == content[..ExcerptLimit] + content[ExcerptLimit..];
    }
  }

  /** Cutting an excerpt again changes nothing. */
  lemma ExcerptIdempotent(content: string)
    ensures Excerpt(Excerpt(content)) == Excerpt(content)
  {
    var r := Excerpt(content);
    if |content| > ExcerptLimit {
      assert r == r[..ExcerptLimit] + r[ExcerptLimit..];
    }
  }

  /** What one card shows: the link target is `/post/${postId}`. */
  datatype Card = Card(postId: int, title: string, excerpt: string, author: string, createdAt: nat)

  function CardOf(blog: Row): (c: Card)
    ensures c.postId == blog.id && c.title == blog.post.title && c.author == blog.post.author
    ensures c.createdAt == blog.post.createdAt
    ensures c.excerpt == Excerpt(blog.post.content)
    ensures |c.excerpt| <= ExcerptLimit + |Ellipsis|
  {
    Card(blog.id, blog.post.title, Excerpt(blog.post.content), blog.post.author, blog.post.createdAt)
  }

  /** `blogs.map(...)`: one card per post, in the same order. */
  function Cards(blogs: seq<Row>): (r: seq<Card>)
    ensures |r| == |blogs|
    ensures forall i :: 0 <= i < |r| ==> r[i] == CardOf(blogs[i])
  {
    if blogs == [] then [] else [CardOf(blogs[0])] + Cards(blogs[1..])
  }

  datatype HomeScreen = Notice(text: string) | CardList(cards: seq<Card>)

  /** The render decision: loading first, then the empty list, then the cards. */
  function Screen(loading: bool, blogs: seq<Row>): (r: HomeScreen)
    ensures r.Notice? <==> loading || blogs == []
    ensures loading ==> r == Notice(LoadingPosts)
    ensures !loading && blogs == [] ==> r == Notice(NoPosts)
    ensures r.CardList? ==> |r.cards| == |blogs| && forall i :: 0 <= i < |blogs| ==> r.cards[i] == CardOf(blogs[i])
  {
    if loading then Notice(LoadingPosts)
    else if |blogs| == 0 then Notice(NoPosts)
    else CardList(Cards(blogs))
  }

  /** The page's state: the posts received and the loading flag. */
  class HomePage {
    var blogs: seq<Row>
    var loading: bool

    constructor ()
      ensures blogs == [] && loading
    {
      blogs := [];
      loading := true;
    }

    function View(): HomeScreen
      reads this
    {
      Screen(loading, blogs)
    }

    /** `fetchBlogs`: sends the GET for the list; on success the posts are the
        response, on failure they stay as they were. Either way loading ends. */
    method FetchBlogs(response: Option<seq<Row>>) returns (request: Request)
      modifies this
      ensures request == Request(GET, BlogsPath, NoBody)
      ensures !loading
      ensures response.Some? ==> blogs == response.value
      ensures response.None? ==> blogs == old(blogs)
    {
      request := Request(GET, BlogsPath, NoBody);
      if response.Some? {
        blogs := response.value;
      }
      loading := false;
    }
  }

  /** Opening the home page: a failed fetch shows the empty-state notice, the
      same as an empty table would. */
  method Visit(response: Option<seq<Row>>) returns (request: Request, screen: HomeScreen)
    ensures request == Request(GET, BlogsPath, NoBody)
    ensures response.None? ==> screen == Notice(NoPosts)
    ensures response.Some? ==> screen == Screen(false, response.value)
  {
    var page := new HomePage();
    request := page.FetchBlogs(response);
    screen := page.View();
  }

  /** A post in the list has its card on the screen. */
  lemma CardShown(blogs: seq<Row>, blog: Row)
    requires blog in blogs
    ensures Screen(false, blogs).CardList? && CardOf(blog) in Screen(false, blogs).cards
  {
    var i :| 0 <= i < |blogs| && blogs[i] == blog;
    assert Screen(false, blogs).cards[i] == CardOf(blog);
  }

  /** Against the list endpoint, the home page shows the empty-state notice
      exactly when the table is empty, and otherwise a card for every post. */
  lemma HomeShowsEveryPost(t: Table)
    requires Wellformed(t)
    ensures var screen := Screen(false, ListSpec(t, None).body.posts);
            && (screen == Notice(NoPosts) <==> t.rows == map[])
            && (forall id :: id in t.rows ==> screen.CardList? && CardOf(Row(id, t.rows[id])) in screen.cards)
  {
    var posts := ListSpec(t, None).body.posts;
    assert forall id :: id in t.rows ==> Row(id, t.rows[id]) in posts;
    forall id | id in t.rows
      ensures Screen(false, posts).CardList? && CardOf(Row(id, t.rows[id])) in Screen(false, posts).cards
    {
      CardShown(posts, Row(id, t.rows[id]));
    }
    if posts != [] {
      assert posts[0].id in t.rows;
    }
  }

}
