/**
 * The reading page of one post (frontend/src/pages/PostDetail.jsx): it
 * fetches `/api/blogs/${id}`, shows a loading notice, then "Post not found."
 * or the post with its content split into paragraphs at each line feed; its
 * delete button sends a DELETE only once the user confirms.
 */
module PostDetail {
  import opened Wrappers
  import opened BlogStore
  import opened BlogApi
  import opened Requests

  const LoadingPost := "Loading post..."
  const PostNotFound := "Post not found."

  /** How many times `c` occurs in `s`. */
  function Occurrences(s: string, c: char): (n: nat)
    ensures n <= |s|
    ensures n == 0 <==> c !in s
  {
    if s == [] then 0 else (if s[0] == c then 1 else 0) + Occurrences(s[1..], c)
  }

  /** `s.split(sep)` for a one-character separator: the pieces between
      separators, an empty piece for every empty line, and always at least one. */
  function Split(s: string, sep: char): (r: seq<string>)
    ensures |r| == Occurrences(s, sep) + 1
    ensures forall i :: 0 <= i < |r| ==> sep !in r[i]
  {
    if s == [] then [""]
    else
      var rest := Split(s[1..], sep);
      if s[0] == sep then [""] + rest
      else [[s[0]] + rest[0]] + rest[1..]
  }

  /** `pieces.join(sep)`. */
  function Join(pieces: seq<string>, sep: char): string {
    if |pieces| == 0 then ""
    else if |pieces| == 1 then pieces[0]
    else pieces[0] + [sep] + Join(pieces[1..], sep)
  }

  /** Putting a character in front of the first piece puts it in front of
      the joined text. */
  lemma JoinConsFirst(c: char, pieces: seq<string>, sep: char)
    requires |pieces| >= 1
    ensures Join([[c] + pieces[0]] + pieces[1..], sep) == [c] + Join(pieces, sep)
  {
    var q := [[c] + pieces[0]] + pieces[1..];
    assert q[1..] == pieces[1..];
  }

  /** Joining the pieces with the separator gives back the text. */
  lemma {:induction false} JoinSplit(s: string, sep: char)
    ensures Join(Split(s, sep), sep) == s
    decreases |s|
  {
    if s != [] {
      var rest := Split(s[1..], sep);
      JoinSplit(s[1..], sep);
      if s[0] == sep {
        assert ([""] + rest)[1..] == rest;
        assert s == [s[0]] + s[1..];
      } else {
        JoinConsFirst(s[0], rest, sep);
        assert s == [s[0]] + s[1..];
      }
    }
  }

  /** Text without the separator is a single piece. */
  lemma {:induction false} SplitWithoutSeparator(a: string, sep: char)
    requires sep !in a
    ensures Split(a, sep) == [a]
    decreases |a|
  {
    if a != [] {
      assert a[0] in a;
      assert forall k :: 0 <= k < |a[1..]| ==> a[1..][k] in a;
      SplitWithoutSeparator(a[1..], sep);
      assert a == [a[0]] + a[1..];
    }
  }

  /** The first separator ends the first piece. */
  lemma {:induction false} SplitAtFirstSeparator(a: string, b: string, sep: char)
    requires sep !in a
    ensures Split(a + [sep] + b, sep) == [a] + Split(b, sep)
    decreases |a|
  {
    if a == [] {
      assert a + [sep] + b == [sep] + b;
      assert ([sep] + b)[1..] == b;
    } else {
      var tail := a[1..] + [sep] + b;
      assert a + [sep] + b == [a[0]] + tail by {
        assert a == [a[0]] + a[1..];
      }
      SeparatorNotInTail(a, sep);
      SplitAtFirstSeparator(a[1..], b, sep);
      SplitCons(a[0], tail, sep);
      assert [a[0]] + a[1..] == a;
    }
  }

  /** A first character other than the separator joins the first piece. */
  lemma SplitCons(c: char, rest: string, sep: char)
    requires c != sep
    ensures Split([c] + rest, sep) == [[c] + Split(rest, sep)[0]] + Split(rest, sep)[1..]
  {
    assert ([c] + rest)[1..] == rest;
  }

  lemma SeparatorNotInTail(a: string, sep: char)
    requires a != [] && sep !in a
    ensures a[0] != sep && sep !in a[1..]
  {
    assert a[0] in a;
    assert forall k :: 0 <= k < |a| - 1 ==> a[1..][k] == a[k + 1];
  }

  /** Splitting the joined pieces gives the pieces back, provided none of
      them contains the separator. */
  lemma {:induction false} SplitJoin(pieces: seq<string>, sep: char)
    requires |pieces| >= 1
    requires forall i :: 0 <= i < |pieces| ==> sep !in pieces[i]
    ensures Split(Join(pieces, sep), sep) == pieces
    decreases |pieces|
  {
    if |pieces| == 1 {
      SplitWithoutSeparator(pieces[0], sep);
    } else {
      SplitJoin(pieces[1..], sep);
      SplitAtFirstSeparator(pieces[0], Join(pieces[1..], sep), sep);
      assert pieces == [pieces[0]] + pieces[1..];
    }
  }

  /** Two line feeds in a row give an empty paragraph between them. */
  lemma EmptyLineIsEmptyPiece(a: string, b: string, sep: char)
    requires sep !in a
    ensures Split(a + [sep, sep] + b, sep) == [a, ""] + Split(b, sep)
  {
    var tail := [sep] + b;
    assert a + [sep, sep] + b == a + [sep] + tail;
    assert Split(a + [sep] + tail, sep) == [a] + Split(tail, sep) by {
      SplitAtFirstSeparator(a, tail, sep);
    }
    assert Split(tail, sep) == [""] + Split(b, sep) by {
      assert tail[1..] == b;
    }
  }

  /** `blog.content.split('\n')`. */
  function Paragraphs(content: string): (r: seq<string>)
    ensures |r| == Occurrences(content, '\n') + 1
    ensures forall i :: 0 <= i < |r| ==> '\n' !in r[i]
    ensures Join(r, '\n') == content
  {
    JoinSplit(content, '\n');
    Split(content, '\n')
  }

  datatype DetailScreen =
    | Notice(text: string)
    | Article(postId: int, title: string, author: string, createdAt: nat, paragraphs: seq<string>)

  /** The render decision: loading first, then a missing post, then the post. */
  function Screen(loading: bool, blog: Option<Row>): (r: DetailScreen)
    ensures loading ==> r == Notice(LoadingPost)
    ensures !loading && blog.None? ==> r == Notice(PostNotFound)
    ensures r.Article? <==> !loading && blog.Some?
    ensures r.Article? ==>
              && r.postId == blog.value.id
              && r.title == blog.value.post.title
              && r.author == blog.value.post.author
              && r.createdAt == blog.value.post.createdAt
              && r.paragraphs == Paragraphs(blog.value.post.content)
              && Join(r.paragraphs, '\n') == blog.value.post.content
  {
    if loading then Notice(LoadingPost)
    else if blog.None? then Notice(PostNotFound)
    else
      var row := blog.value;
      Article(row.id, row.post.title, row.post.author, row.post.createdAt, Paragraphs(row.post.content))
  }

  /** What the page receives from `axios.get`: the post on a 2xx answer; any
      other status rejects the promise, and the page keeps no post. */
  function Received(res: Response): (r: Option<Row>)
    ensures r.Some? <==> 200 <= res.status < 300 && res.body.Single?
    ensures r.Some? ==> r.value == res.body.post
  {
    if 200 <= res.status < 300 && res.body.Single? then Some(res.body.post) else None
  }

  /** The page's state: the id from the URL, the post and the loading flag. */
  class PostDetailPage {
    const id: string
    var blog: Option<Row>
    var loading: bool

    constructor (id: string)
      ensures this.id == id && blog == None && loading
    {
      this.id := id;
      blog := None;
      loading := true;
    }

    function View(): DetailScreen
      reads this
    {
      Screen(loading, blog)
    }

    /** `fetchBlog`: sends the GET for the post named in the URL; keeps the
        post on success, leaves `blog` as it was on failure; loading ends
        either way. */
    method FetchBlog(response: Option<Row>) returns (request: Request)
      modifies this
      ensures request == Request(GET, BlogPath(id), NoBody)
      ensures !loading
      ensures response.Some? ==> blog == response
      ensures response.None? ==> blog == old(blog)
    {
      request := Request(GET, BlogPath(id), NoBody);
      if response.Some? {
        blog := response;
      }
      loading := false;
    }
  }

  /** What `handleDelete` does: the request it sends and where it navigates. */
  datatype DeleteEffects = DeleteEffects(request: Option<Request>, navigateTo: Option<string>)

  /** `handleDelete`: the DELETE goes out only when the user confirms, and the
      page goes home only when that request succeeds. */
  function HandleDelete(id: string, confirmed: bool, succeeded: bool): (r: DeleteEffects)
    ensures r.request.Some? <==> confirmed
    ensures r.request.Some? ==> r.request.value == Request(DELETE, BlogPath(id), NoBody)
    ensures r.navigateTo.Some? <==> confirmed && succeeded
    ensures r.navigateTo.Some? ==> r.navigateTo.value == HomeRoute
  {
    if !confirmed then DeleteEffects(None, None)
    else DeleteEffects(Some(Request(DELETE, BlogPath(id), NoBody)), if succeeded then Some(HomeRoute) else None)
  }

  /** Opening the page of post `id` against table `t`: a stored post is shown
      with its paragraphs joining back to its content; an absent one gives
      "Post not found.". `n` is the id the server reads from the path. */
  method Open(id: string, t: Table, n: int) returns (request: Request, screen: DetailScreen)
    ensures request == Request(GET, BlogPath(id), NoBody)
    ensures n in t.rows ==> screen == Article(n, t.rows[n].title, t.rows[n].author, t.rows[n].createdAt, Paragraphs(t.rows[n].content))
    ensures n !in t.rows ==> screen == Notice(PostNotFound)
  {
    var page := new PostDetailPage(id);
    request := page.FetchBlog(Received(GetSpec(t, n, None)));
    screen := page.View();
  }

  /** A confirmed delete of a stored post removes it and takes the reader home;
      on a post already gone the server answers 404, and the page stays. */
  lemma ConfirmedDeleteGoesHomeIffStored(id: string, t: Table, n: int)
    ensures var (_, res) := DeleteSpec(t, n, None);
            HandleDelete(id, true, 200 <= res.status < 300).navigateTo == Some(HomeRoute) <==> n in t.rows
  {
  }
}
