/**
 * Reading the posts directory (`getAllPosts` in src/lib/posts.ts): one post
 * per directory entry, its slug the file name without a trailing `.md`,
 * sorted newest first by the `date` string.
 */
module PostsLib {
  import opened Wrappers
  import StringOrder

  /** A post as the listing returns it: only these four fields, no category. */
  datatype Post = Post(slug: string, title: string, date: string, content: string)

  /** What the frontmatter parser makes of a file: its `title` and `date` fields and the body after the frontmatter. */
  datatype Parsed = Parsed(title: string, date: string, body: string)

  /** A directory entry; `parsed` is `None` when reading or parsing the file throws. */
  datatype Entry = Entry(name: string, parsed: Option<Parsed>)

  const Extension: string := ".md"

  /** `fileName.replace(/\.md$/, '')`: one trailing `.md` is removed, nothing else. */
  function StripMd(name: string): (slug: string)
    ensures |name| >= 3 && name[|name| - 3..] == Extension ==> slug + Extension == name
    ensures !(|name| >= 3 && name[|name| - 3..] == Extension) ==> slug == name
  {
    if |name| >= 3 && name[|name| - 3..] == Extension then name[..|name| - 3] else name
  }

  /** Adding `.md` and stripping it again gives the slug back. */
  lemma StripMdAfterExtension(slug: string)
    ensures StripMd(slug + Extension) == slug
  {
    var name := slug + Extension;
    assert name[|name| - 3..] == Extension;
    assert name[..|name| - 3] == slug;
  }

  /** Every entry of the directory was read and parsed. */
  predicate AllReadable(entries: seq<Entry>) {
    forall i :: 0 <= i < |entries| ==> entries[i].parsed.Some?
  }

  /** The post the listing builds from one readable entry. */
  function ToPost(e: Entry): (p: Post)
    requires e.parsed.Some?
    ensures p.slug == StripMd(e.name)
    ensures p.title == e.parsed.value.title && p.date == e.parsed.value.date
    ensures p.content == e.parsed.value.body
  {
    Post(StripMd(e.name), e.parsed.value.title, e.parsed.value.date, e.parsed.value.body)
  }

  /** `fileNames.map(...)`: one post per entry, in directory order. */
  function ToPosts(entries: seq<Entry>): (posts: seq<Post>)
    requires AllReadable(entries)
    ensures |posts| == |entries|
    ensures forall i :: 0 <= i < |entries| ==> posts[i] == ToPost(entries[i])
  {
    seq(|entries|, i requires 0 <= i < |entries| => ToPost(entries[i]))
  }

  /** Newest first: no post's date is less than that of a post after it. */
  predicate NewestFirst(posts: seq<Post>) {
    forall k, l :: 0 <= k < l < |posts| ==> !StringOrder.Less(posts[k].date, posts[l].date)
  }

  /** While a post moves left, everything up to `i` except position `j` is in order. */
  predicate OrderedBut(s: seq<Post>, i: nat, j: nat)
    requires i < |s|
  {
    forall k, l :: 0 <= k < l <= i && k != j && l != j ==> !StringOrder.Less(s[k].date, s[l].date)
  }

  /** The moving post at `j` is strictly newer than every post it has passed. */
  predicate NewerThanPassed(s: seq<Post>, i: nat, j: nat)
    requires j <= i < |s|
  {
    forall l :: j < l <= i ==> StringOrder.Less(s[l].date, s[j].date)
  }

  /**
   * `posts.sort((a, b) => (a.date < b.date ? 1 : -1))`, in place. The
   * comparator never answers 0, so the order among equal dates is left to
   * the sort; this one (insertion by adjacent swaps) keeps them in their
   * incoming order.
   */
  method SortNewestFirst(a: array<Post>)
    modifies a
    ensures NewestFirst(a[..])
    ensures multiset(a[..]) == multiset(old(a[..]))
  {
    var i := 0;
    while i < a.Length
      invariant 0 <= i <= a.Length
      invariant NewestFirst(a[..i])
      invariant multiset(a[..]) == multiset(old(a[..]))
    {
      Sink(a, i);
      i := i + 1;
    }
    assert a[..a.Length] == a[..];
  }

  /** One pass of the insertion sort: post `i` moves left past every strictly older post before it. */
  method Sink(a: array<Post>, i: nat)
    requires i < a.Length && NewestFirst(a[..i])
    modifies a
    ensures NewestFirst(a[..i + 1])
    ensures multiset(a[..]) == multiset(old(a[..]))
  {
    StartInsert(a[..], i);
    var j := i;
    while j > 0 && StringOrder.Less(a[j - 1].date, a[j].date)
      invariant 0 <= j <= i
      invariant OrderedBut(a[..], i, j) && NewerThanPassed(a[..], i, j)
      invariant multiset(a[..]) == multiset(old(a[..]))
    {
      SwapStep(a[..], i, j);
      SwapKeepsMultiset(a[..], j);
      a[j - 1], a[j] := a[j], a[j - 1];
      j := j - 1;
    }
    InsertedInOrder(a[..], i, j);
  }

  /** Before post `i` moves, the posts before it are in order. */
  lemma StartInsert(s: seq<Post>, i: nat)
    requires i < |s| && NewestFirst(s[..i])
    ensures OrderedBut(s, i, i) && NewerThanPassed(s, i, i)
  {
    forall k, l | 0 <= k < l <= i && k != i && l != i
      ensures !StringOrder.Less(s[k].date, s[l].date)
    {
      assert s[k] == s[..i][k] && s[l] == s[..i][l];
    }
  }

  /** Swapping the moving post with an older predecessor keeps both loop facts. */
  lemma SwapStep(s: seq<Post>, i: nat, j: nat)
    requires 0 < j <= i < |s|
    requires OrderedBut(s, i, j) && NewerThanPassed(s, i, j)
    requires StringOrder.Less(s[j - 1].date, s[j].date)
    ensures var t := s[j - 1 := s[j]][j := s[j - 1]];
      OrderedBut(t, i, j - 1) && NewerThanPassed(t, i, j - 1)
  {
    var t := s[j - 1 := s[j]][j := s[j - 1]];
    forall k, l | 0 <= k < l <= i && k != j - 1 && l != j - 1
      ensures !StringOrder.Less(t[k].date, t[l].date)
    {
      if k == j { assert t[k] == s[j - 1] && t[l] == s[l]; }
      else if l == j { assert t[k] == s[k] && t[l] == s[j - 1]; }
      else { assert t[k] == s[k] && t[l] == s[l]; }
    }
    forall l | j - 1 < l <= i
      ensures StringOrder.Less(t[l].date, t[j - 1].date)
    {
      if l > j { assert t[l] == s[l]; }
    }
  }

  /** Swapping two neighbours leaves the multiset of posts as it was. */
  lemma SwapKeepsMultiset(s: seq<Post>, j: nat)
    requires 0 < j < |s|
    ensures multiset(s[j - 1 := s[j]][j := s[j - 1]]) == multiset(s)
  {
    var t := s[j - 1 := s[j]][j := s[j - 1]];
    assert t == s[..j - 1] + [s[j], s[j - 1]] + s[j + 1..];
    assert s == s[..j - 1] + [s[j - 1], s[j]] + s[j + 1..];
  }

  /** The step that closes the inner loop: the moved post is newer than everything after it and no newer than the one before it. */
  lemma InsertedInOrder(s: seq<Post>, i: nat, j: nat)
    requires j <= i < |s|
    requires OrderedBut(s, i, j) && NewerThanPassed(s, i, j)
    requires j > 0 ==> !StringOrder.Less(s[j - 1].date, s[j].date)
    ensures NewestFirst(s[..i + 1])
  {
    forall k, l | 0 <= k < l <= i
      ensures !StringOrder.Less(s[k].date, s[l].date)
    {
      if l == j {
        if k < j - 1 {
          StringOrder.AtLeastTransitive(s[k].date, s[j - 1].date, s[j].date);
        }
      } else if k == j {
        assert StringOrder.Less(s[l].date, s[j].date);
        if StringOrder.Less(s[k].date, s[l].date) {
          StringOrder.Transitive(s[l].date, s[k].date, s[l].date);
          StringOrder.Irreflexive(s[l].date);
        }
      }
    }
  }

  /**
   * `getAllPosts`: `None` when listing the directory or reading or parsing
   * any file throws (the error propagates to the caller); otherwise one post
   * per entry, newest first.
   */
  method GetAllPosts(listing: Option<seq<Entry>>) returns (r: Option<seq<Post>>)
    ensures r.Some? <==> listing.Some? && AllReadable(listing.value)
    ensures r.Some? ==> |r.value| == |listing.value|
    ensures r.Some? ==> multiset(r.value) == multiset(ToPosts(listing.value))
    ensures r.Some? ==> NewestFirst(r.value)
  {
    if listing.None? || !AllReadable(listing.value) {
      return None;
    }
    var mapped := ToPosts(listing.value);
    var a := new Post[|mapped|](i requires 0 <= i < |mapped| => mapped[i]);
    assert a[..] == mapped;
    SortNewestFirst(a);
    assert |a[..]| == |multiset(a[..])| == |multiset(mapped)| == |mapped|;
    r := Some(a[..]);
  }

  /** Every listed post comes from some directory entry, slug and all. */
  lemma ListedPostsComeFromEntries(entries: seq<Entry>, listed: seq<Post>, p: Post)
    requires AllReadable(entries)
    requires multiset(listed) == multiset(ToPosts(entries))
    requires p in listed
    ensures exists i :: 0 <= i < |entries| && p == ToPost(entries[i]) && p.slug == StripMd(entries[i].name)
  {
    assert p in multiset(listed);
    assert p in ToPosts(entries);
    var i :| 0 <= i < |entries| && ToPosts(entries)[i] == p;
  }
}
