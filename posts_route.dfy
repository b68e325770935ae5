/**
 * The `/api/posts` endpoint (src/app/api/posts/route.ts): GET lists the
 * posts directory newest first; POST writes one markdown file with a fixed
 * frontmatter template.
 */
module PostsRoute {
  import opened Wrappers
  import opened PostsLib

  /** GET's answer: the JSON list, or status 500 with an `error` body. */
  datatype GetResponse = Listed(posts: seq<Post>) | GetFailed(status: int, error: string)

  /** The JSON body of a POST. */
  datatype CreateRequest = CreateRequest(title: string, content: string, date: string, slug: string)

  /** POST's answer: `{ success: true }`, or status 500 with an `error` body. */
  datatype PostResponse = Created | PostFailed(status: int, error: string)

  /** The file POST writes: its name inside the posts directory and its text. */
  datatype FileWrite = FileWrite(name: string, text: string)

  /** What one POST does: the write it attempts (if it gets that far) and its answer. */
  datatype PostOutcome = PostOutcome(attempted: Option<FileWrite>, response: PostResponse)

  const ServerError: int := 500

  /**
   * GET: the same listing as `getAllPosts`, written out again in the
   * handler and wrapped in a try/catch. `listing` is
   * `None` when the directory cannot be read; an entry with no `parsed`
   * value is a file whose reading or parsing throws.
   */
  method Get(listing: Option<seq<Entry>>) returns (resp: GetResponse)
    ensures resp.Listed? <==> listing.Some? && AllReadable(listing.value)
    ensures resp.GetFailed? ==> resp == GetFailed(ServerError, "Failed to fetch posts")
    ensures resp.Listed? ==>
      |resp.posts| == |listing.value| &&
      multiset(resp.posts) == multiset(ToPosts(listing.value)) &&
      NewestFirst(resp.posts)
  {
    var r := GetAllPosts(listing);
    if r.None? {
      resp := GetFailed(ServerError, "Failed to fetch posts");
    } else {
      resp := Listed(r.value);
    }
  }

  /** `${slug}.md` */
  function FileName(slug: string): (name: string)
    ensures StripMd(name) == slug
  {
    StripMdAfterExtension(slug);
    slug + Extension
  }

  /** One line of the template with its newline. */
  function Line(s: string): string {
    s + "\n"
  }

  /** The frontmatter block and the blank line after it, line by line. */
  function Head(title: string, date: string): string {
    Line("---") + (Line("title: '" + title + "'") + (Line("date: '" + date + "'") + (Line("---") + Line(""))))
  }

  /** The markdown template: the frontmatter block, a blank line, then the content verbatim. */
  function Serialize(title: string, date: string, content: string): (text: string)
    ensures |text| >= |content| && text[|text| - |content|..] == content
  {
    var head := Head(title, date);
    assert (head + content)[|head|..] == content;
    head + content
  }

  /**
   * POST. `body` is `None` when the request body cannot be read as JSON,
   * and otherwise the object of four strings the admin page sends;
   * `writeSucceeds` says whether `writeFileSync` returns normally.
   */
  function Post(body: Option<CreateRequest>, writeSucceeds: bool): (r: PostOutcome)
    ensures r.response.Created? <==> body.Some? && writeSucceeds
    ensures r.response.PostFailed? ==> r.response == PostFailed(ServerError, "Failed to create post")
    ensures r.attempted.Some? <==> body.Some?
    ensures body.Some? ==>
      var b := body.value;
      r.attempted.value.name == FileName(b.slug) &&
      StripMd(r.attempted.value.name) == b.slug &&
      r.attempted.value.text == Serialize(b.title, b.date, b.content)
  {
    match body
    case None => PostOutcome(None, PostFailed(ServerError, "Failed to create post"))
    case Some(b) =>
      var write := FileWrite(FileName(b.slug), Serialize(b.title, b.date, b.content));
      PostOutcome(Some(write), if writeSucceeds then Created else PostFailed(ServerError, "Failed to create post"))
  }

  /** The post GET later builds from the file POST wrote carries the slug POST was given. */
  lemma CreatedPostListedUnderItsSlug(b: CreateRequest, parsed: Parsed)
    ensures ToPost(Entry(Post(Some(b), true).attempted.value.name, Some(parsed))).slug == b.slug
  {
  }

  // ---- Line structure of the written text ----

  predicate NoNewline(s: string) {
    forall i :: 0 <= i < |s| ==> s[i] != '\n'
  }

  /** `s.split('\n')` */
  function Lines(s: string): (r: seq<string>)
    ensures |r| >= 1
  {
    if s == [] then [""]
    else if s[0] == '\n' then [""] + Lines(s[1..])
    else var rest := Lines(s[1..]); [[s[0]] + rest[0]] + rest[1..]
  }

  /** A line without a newline, a newline, then the rest. */
  lemma {:induction false} LinesCons(a: string, b: string)
    requires NoNewline(a)
    ensures Lines(Line(a) + b) == [a] + Lines(b)
  {
    if a == [] {
      assert Line(a) + b == "\n" + b;
      assert ("\n" + b)[1..] == b;
    } else {
      assert (Line(a) + b)[1..] == Line(a[1..]) + b;
      LinesCons(a[1..], b);
      assert [a[0]] + a[1..] == a;
    }
  }

  /**
   * When title and date are single-line, the written text is four
   * frontmatter lines (`---`, the quoted title, the quoted date, `---`),
   * one empty line, and then the content's own lines.
   */
  lemma SerializeLines(title: string, date: string, content: string)
    requires NoNewline(title) && NoNewline(date)
    ensures Lines(Serialize(title, date, content)) ==
      ["---", "title: '" + title + "'", "date: '" + date + "'", "---", ""] + Lines(content)
  {
    var l1, l2 := "title: '" + title + "'", "date: '" + date + "'";
    assert NoNewline(l1) && NoNewline(l2);
    assert NoNewline("---") && NoNewline("");
    FiveLines("---", l1, l2, "---", "", content);
  }

  /** A line in front of a text followed by more text. */
  lemma LinesConsThen(a: string, b: string, c: string)
    requires NoNewline(a)
    ensures Lines(Line(a) + b + c) == [a] + Lines(b + c)
  {
    assert Line(a) + b + c == Line(a) + (b + c);
    LinesCons(a, b + c);
  }

  /** Five newline-free lines, each with its newline, in front of a text. */
  lemma FiveLines(a: string, b: string, c: string, d: string, e: string, rest: string)
    requires NoNewline(a) && NoNewline(b) && NoNewline(c) && NoNewline(d) && NoNewline(e)
    ensures Lines(Line(a) + (Line(b) + (Line(c) + (Line(d) + Line(e)))) + rest) == [a, b, c, d, e] + Lines(rest)
  {
    var h4 := Line(d) + Line(e);
    var h3 := Line(c) + h4;
    var h2 := Line(b) + h3;
    LinesConsThen(a, h2, rest);
    LinesConsThen(b, h3, rest);
    LinesConsThen(c, h4, rest);
    LinesConsThen(d, Line(e), rest);
    LinesCons(e, rest);
  }

  // ---- Quoting of title and date ----

  /**
   * The inside of a YAML single-quoted scalar (section 7.3.2 of YAML 1.2):
   * a quote character may only appear doubled, as `''`.
   */
  predicate SingleQuotedBody(s: string)
    decreases |s|
  {
    if s == [] then true
    else if s[0] != '\'' then SingleQuotedBody(s[1..])
    else |s| >= 2 && s[1] == '\'' && SingleQuotedBody(s[2..])
  }

  /**
   * The template puts the title between quotes unchanged, so a title with
   * an apostrophe yields a frontmatter line whose quoted part is not a
   * single-quoted scalar.
   */
  lemma ApostropheBreaksTitleScalar(date: string, content: string)
    requires NoNewline(date)
    ensures var lines := Lines(Serialize("Don't", date, content));
      |lines| > 1 && lines[1] == "title: '" + "Don't" + "'"
    ensures !SingleQuotedBody("Don't")
  {
    assert NoNewline("Don't");
    SerializeLines("Don't", date, content);
    assert "Don't"[1..] == "on't" && "on't"[1..] == "n't" && "n't"[1..] == "'t";
  }

  /** Doubling every quote character, as a single-quoted scalar requires. */
  function Quote(s: string): (r: string)
    ensures SingleQuotedBody(r)
    ensures NoNewline(s) ==> NoNewline(r)
  {
    if s == [] then []
    else if s[0] == '\'' then
      assert ("''" + Quote(s[1..]))[2..] == Quote(s[1..]);
      "''" + Quote(s[1..])
    else
      assert ([s[0]] + Quote(s[1..]))[1..] == Quote(s[1..]);
      [s[0]] + Quote(s[1..])
  }

  /** What a YAML reader makes of a single-quoted body: `''` stands for one quote. */
  function Unquote(s: string): string
    requires SingleQuotedBody(s)
    decreases |s|
  {
    if s == [] then []
    else if s[0] != '\'' then [s[0]] + Unquote(s[1..])
    else "'" + Unquote(s[2..])
  }

  /** Quoting and reading back gives any title back unchanged. */
  lemma {:induction false} QuotedRoundTrip(s: string)
    ensures Unquote(Quote(s)) == s
  {
    if s != [] {
      QuotedRoundTrip(s[1..]);
      if s[0] == '\'' {
        assert ("''" + Quote(s[1..]))[2..] == Quote(s[1..]);
      } else {
        assert ([s[0]] + Quote(s[1..]))[1..] == Quote(s[1..]);
      }
    }
  }

  /** The template with title and date quoted as YAML requires. */
  function SerializeQuoted(title: string, date: string, content: string): (text: string)
    ensures |text| >= |content| && text[|text| - |content|..] == content
  {
    Serialize(Quote(title), Quote(date), content)
  }

  /**
   * With quoting, the title line of the frontmatter holds a well-formed
   * single-quoted scalar that reads back as the title, apostrophes included.
   */
  lemma QuotedTitleReadsBack(title: string, date: string, content: string)
    requires NoNewline(title) && NoNewline(date)
    ensures var lines := Lines(SerializeQuoted(title, date, content));
      |lines| > 1 && exists q :: lines[1] == "title: '" + q + "'" && SingleQuotedBody(q) && Unquote(q) == title
  {
    var q, d := Quote(title), Quote(date);
    var lines := Lines(SerializeQuoted(title, date, content));
    assert lines == ["---", "title: '" + q + "'", "date: '" + d + "'", "---", ""] + Lines(content) by {
      SerializeLines(q, d, content);
    }
    assert Unquote(q) == title by {
      QuotedRoundTrip(title);
    }
    assert lines[1] == "title: '" + q + "'";
  }
}
