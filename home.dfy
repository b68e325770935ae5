/**
 * The home page's category cards (src/app/page.tsx): `groupPostsByCategory`
 * folds the posts into buckets keyed by category, and each card shows the
 * first two posts of its bucket.
 */
module Home {
  import opened Wrappers
  import opened PostsLib

  /** A post as the home page sees it: the listing's fields plus an optional `category`. */
  datatype Listed = Listed(post: Post, category: Option<string>)

  const Uncategorized: string := "Uncategorized"

  /**
   * The property names a plain `{}` inherits from `Object.prototype`; for
   * each of them `acc[name]` is already truthy and has no `push`.
   */
  const ObjectPrototypeKeys: set<string> := {
    "constructor", "hasOwnProperty", "isPrototypeOf", "propertyIsEnumerable",
    "toString", "toLocaleString", "valueOf", "__proto__",
    "__defineGetter__", "__defineSetter__", "__lookupGetter__", "__lookupSetter__"
  }

  /** On a plain `{}`, `acc[key]` finds an inherited property. */
  predicate Inherited(key: string) {
    key in ObjectPrototypeKeys
  }

  /** Some post's key is an inherited property name. */
  predicate HitsPrototype(posts: seq<Listed>) {
    exists i :: 0 <= i < |posts| && Inherited(GroupKey(posts[i]))
  }

  /** `post.category || 'Uncategorized'`: a missing or empty category falls back. */
  function GroupKey(p: Listed): (k: string)
    ensures k != ""
    ensures p.category.Some? && p.category.value != "" ==> k == p.category.value
    ensures p.category.None? || p.category.value == "" ==> k == Uncategorized
  {
    if p.category.Some? && p.category.value != "" then p.category.value else Uncategorized
  }

  /** The posts of `s` whose key is `k`, in the order of `s`. */
  function Bucket(s: seq<Listed>, k: string): (b: seq<Listed>)
    ensures |b| <= |s|
  {
    if s == [] then []
    else
      var front := Bucket(s[..|s| - 1], k);
      front + (if GroupKey(s[|s| - 1]) == k then [s[|s| - 1]] else [])
  }

  /** The keys of `s` in order of first appearance: the order `acc` gains them. */
  function Keys(s: seq<Listed>): (ks: seq<string>)
    ensures |ks| <= |s|
  {
    if s == [] then []
    else
      var front := Keys(s[..|s| - 1]);
      var k := GroupKey(s[|s| - 1]);
      if k in front then front else front + [k]
  }

  /** The grouping as a map: one bucket per key that occurs. */
  function Groups(s: seq<Listed>): (g: map<string, seq<Listed>>)
    ensures forall k :: k in g <==> k in Keys(s)
  {
    map k | k in Keys(s) :: Bucket(s, k)
  }

  /**
   * The `reduce` callback over an accumulator with no inherited keys: it
   * creates the post's bucket if the key is new and appends the post to
   * it. `seen` is the posts folded so far.
   */
  method Accumulate(acc: map<string, seq<Listed>>, order: seq<string>, post: Listed, ghost seen: seq<Listed>)
    returns (acc': map<string, seq<Listed>>, order': seq<string>)
    requires acc == Groups(seen) && order == Keys(seen)
    ensures acc' == Groups(seen + [post]) && order' == Keys(seen + [post])
  {
    var key := GroupKey(post);
    acc', order' := acc, order;
    if key !in acc' {
      acc' := acc'[key := []];
      order' := order' + [key];
    }
    acc' := acc'[key := acc'[key] + [post]];
    GroupStep(seen, post);
  }

  /**
   * The `reduce` callback as written, over a plain `{}`: `None` is the
   * TypeError `acc[category].push` throws when the key names an inherited
   * property, whose value is truthy and has no `push`.
   */
  method AccumulateAsWritten(acc: map<string, seq<Listed>>, order: seq<string>, post: Listed, ghost seen: seq<Listed>)
    returns (r: Option<(map<string, seq<Listed>>, seq<string>)>)
    requires acc == Groups(seen) && order == Keys(seen)
    ensures r.None? <==> Inherited(GroupKey(post))
    ensures r.Some? ==> r.value == (Groups(seen + [post]), Keys(seen + [post]))
  {
    if Inherited(GroupKey(post)) {
      return None;
    }
    var acc', order' := Accumulate(acc, order, post, seen);
    r := Some((acc', order'));
  }

  /**
   * `groupPostsByCategory` as written: `None` is the TypeError thrown at the
   * first post whose key is one of `ObjectPrototypeKeys`. `order` is the
   * order in which `acc` gains its keys.
   */
  method GroupByCategoryAsWritten(posts: seq<Listed>) returns (r: Option<(map<string, seq<Listed>>, seq<string>)>)
    ensures r.None? <==> HitsPrototype(posts)
    ensures r.Some? ==> r.value == (Groups(posts), Keys(posts))
  {
    var acc: map<string, seq<Listed>> := map[];
    var order: seq<string> := [];
    for i := 0 to |posts|
      invariant !HitsPrototype(posts[..i])
      invariant acc == Groups(posts[..i]) && order == Keys(posts[..i])
    {
      assert posts[..i + 1] == posts[..i] + [posts[i]];
      HitsSnoc(posts[..i], posts[i]);
      var step := AccumulateAsWritten(acc, order, posts[i], posts[..i]);
      if step.None? {
        HitsPrefix(posts, i + 1);
        return None;
      }
      acc, order := step.value.0, step.value.1;
    }
    assert posts[..|posts|] == posts;
    r := Some((acc, order));
  }

  /** One more post hits the prototype exactly when the earlier ones did or its own key is inherited. */
  lemma HitsSnoc(s: seq<Listed>, x: Listed)
    ensures HitsPrototype(s + [x]) <==> HitsPrototype(s) || Inherited(GroupKey(x))
  {
    var u := s + [x];
    if HitsPrototype(s) {
      var i :| 0 <= i < |s| && Inherited(GroupKey(s[i]));
      assert u[i] == s[i];
    }
    if Inherited(GroupKey(x)) {
      assert u[|s|] == x;
    }
    if HitsPrototype(u) {
      var i :| 0 <= i < |u| && Inherited(GroupKey(u[i]));
      if i < |s| { assert u[i] == s[i]; }
    }
  }

  /** If a prefix of the posts hits the prototype, so do all of them. */
  lemma HitsPrefix(s: seq<Listed>, n: nat)
    requires n <= |s| && HitsPrototype(s[..n])
    ensures HitsPrototype(s)
  {
    var i :| 0 <= i < n && Inherited(GroupKey(s[..n][i]));
    assert s[..n][i] == s[i];
  }

  /** The same fold over an accumulator with no inherited keys (a `Map`, or `Object.create(null)`). */
  method GroupByCategory(posts: seq<Listed>) returns (groups: map<string, seq<Listed>>, order: seq<string>)
    ensures groups == Groups(posts) && order == Keys(posts)
  {
    groups, order := map[], [];
    for i := 0 to |posts|
      invariant groups == Groups(posts[..i]) && order == Keys(posts[..i])
    {
      assert posts[..i + 1] == posts[..i] + [posts[i]];
      groups, order := Accumulate(groups, order, posts[i], posts[..i]);
    }
    assert posts[..|posts|] == posts;
  }

  /** One step of the fold: appending post `x` to its bucket, creating the bucket if it is new. */
  lemma GroupStep(s0: seq<Listed>, x: Listed)
    ensures var g, key := Groups(s0), GroupKey(x);
      var g1 := if key in g then g else g[key := []];
      Groups(s0 + [x]) == g1[key := g1[key] + [x]]
    ensures var ks := Keys(s0);
      Keys(s0 + [x]) == if GroupKey(x) in ks then ks else ks + [GroupKey(x)]
  {
    var s := s0 + [x];
    assert s[..|s| - 1] == s0 && s[|s| - 1] == x;
    var key := GroupKey(x);
    var g := Groups(s0);
    var g1 := if key in g then g else g[key := []];
    var want := g1[key := g1[key] + [x]];
    if key !in Keys(s0) {
      BucketEmptyOutsideKeys(s0, key);
    }
    assert Bucket(s, key) == Bucket(s0, key) + [x];
    forall k | k in Keys(s)
      ensures k in want && Groups(s)[k] == want[k]
    {
      if k != key {
        assert Bucket(s, k) == Bucket(s0, k);
      }
    }
    assert Groups(s).Keys == want.Keys;
  }

  /** A key occurs in `Keys(s)` exactly when some post of `s` has it. */
  lemma {:induction false} KeysMembership(s: seq<Listed>, k: string)
    ensures k in Keys(s) <==> exists j :: 0 <= j < |s| && GroupKey(s[j]) == k
  {
    if s != [] {
      var s0 := s[..|s| - 1];
      KeysMembership(s0, k);
      if exists j :: 0 <= j < |s0| && GroupKey(s0[j]) == k {
        var j :| 0 <= j < |s0| && GroupKey(s0[j]) == k;
        assert s[j] == s0[j];
      }
      if exists j :: 0 <= j < |s| && GroupKey(s[j]) == k {
        var j :| 0 <= j < |s| && GroupKey(s[j]) == k;
        if j < |s0| { assert s0[j] == s[j]; }
      }
    }
  }

  /** A key that does not occur has an empty bucket. */
  lemma {:induction false} BucketEmptyOutsideKeys(s: seq<Listed>, k: string)
    requires k !in Keys(s)
    ensures Bucket(s, k) == []
  {
    if s != [] {
      var s0 := s[..|s| - 1];
      BucketEmptyOutsideKeys(s0, k);
    }
  }

  /** Every post in bucket `k` has key `k` and comes from the input. */
  lemma {:induction false} BucketElements(s: seq<Listed>, k: string, x: Listed)
    requires x in Bucket(s, k)
    ensures GroupKey(x) == k && x in s
  {
    var s0 := s[..|s| - 1];
    if x in Bucket(s0, k) {
      BucketElements(s0, k, x);
      assert x in s0;
    }
  }

  /** Appending a post to the input appends it to its own bucket and to no other. */
  lemma BucketSnoc(s: seq<Listed>, x: Listed, k: string)
    ensures Bucket(s + [x], k) == Bucket(s, k) + (if GroupKey(x) == k then [x] else [])
  {
    var u := s + [x];
    assert u[..|u| - 1] == s && u[|u| - 1] == x;
  }

  /** Buckets split along concatenation: posts earlier in the input come earlier in their group. */
  lemma {:induction false} BucketAppend(s: seq<Listed>, t: seq<Listed>, k: string)
    ensures Bucket(s + t, k) == Bucket(s, k) + Bucket(t, k)
    decreases |t|
  {
    if t == [] {
      assert s + t == s;
    } else {
      var t0, x := t[..|t| - 1], t[|t| - 1];
      var tail := if GroupKey(x) == k then [x] else [];
      assert t == t0 + [x];
      assert s + t == (s + t0) + [x];
      BucketSnoc(s + t0, x, k);
      BucketSnoc(t0, x, k);
      BucketAppend(s, t0, k);
      assert Bucket(s + t, k) == (Bucket(s, k) + Bucket(t0, k)) + tail;
      assert (Bucket(s, k) + Bucket(t0, k)) + tail == Bucket(s, k) + (Bucket(t0, k) + tail);
    }
  }

  /** Each post lands in the group of its own key and in no other. */
  lemma EachPostInExactlyOneGroup(s: seq<Listed>, i: nat, k: string)
    requires i < |s|
    ensures k in Groups(s) && s[i] in Groups(s)[k] ==> k == GroupKey(s[i])
    ensures k == GroupKey(s[i]) ==> k in Groups(s) && s[i] in Groups(s)[k]
  {
    if k == GroupKey(s[i]) {
      KeysMembership(s, k);
      InOwnBucket(s, i);
      assert Groups(s)[k] == Bucket(s, k);
    }
    if k in Groups(s) && s[i] in Groups(s)[k] {
      BucketElements(s, k, s[i]);
    }
  }

  /** A post sits in the bucket of its own key. */
  lemma {:induction false} InOwnBucket(s: seq<Listed>, i: nat)
    requires i < |s|
    ensures s[i] in Bucket(s, GroupKey(s[i]))
  {
    var front := s[..|s| - 1];
    if i < |s| - 1 {
      assert s[i] == front[i];
      InOwnBucket(front, i);
    }
  }

  /** No key is listed twice. */
  lemma {:induction false} KeysDistinct(s: seq<Listed>)
    ensures forall a, b :: 0 <= a < b < |Keys(s)| ==> Keys(s)[a] != Keys(s)[b]
  {
    if s != [] {
      KeysDistinct(s[..|s| - 1]);
    }
  }

  /** Every group that exists holds at least one post. */
  lemma NoEmptyGroups(s: seq<Listed>, k: string)
    requires k in Groups(s)
    ensures |Groups(s)[k]| > 0
  {
    KeysMembership(s, k);
    var j :| 0 <= j < |s| && GroupKey(s[j]) == k;
    EachPostInExactlyOneGroup(s, j, k);
  }

  /** The sizes of the buckets named in `ks`, added up. */
  function TotalSize(ks: seq<string>, s: seq<Listed>): nat {
    if ks == [] then 0 else |Bucket(s, ks[0])| + TotalSize(ks[1..], s)
  }

  lemma {:induction false} TotalSizeSnocKey(ks: seq<string>, k: string, s: seq<Listed>)
    ensures TotalSize(ks + [k], s) == TotalSize(ks, s) + |Bucket(s, k)|
  {
    if ks != [] {
      assert (ks + [k])[1..] == ks[1..] + [k];
      TotalSizeSnocKey(ks[1..], k, s);
    }
  }

  lemma {:induction false} TotalSizeSnocPost(ks: seq<string>, s: seq<Listed>, x: Listed)
    requires forall a, b :: 0 <= a < b < |ks| ==> ks[a] != ks[b]
    ensures TotalSize(ks, s + [x]) == TotalSize(ks, s) + (if GroupKey(x) in ks then 1 else 0)
  {
    if ks != [] {
      assert (s + [x])[..|s + [x]| - 1] == s;
      TotalSizeSnocPost(ks[1..], s, x);
      if GroupKey(x) == ks[0] {
        assert GroupKey(x) !in ks[1..];
      }
    }
  }

  /** The group sizes add up to the number of posts: the groups partition the input. */
  lemma {:induction false} GroupSizesSum(s: seq<Listed>)
    ensures TotalSize(Keys(s), s) == |s|
  {
    if s != [] {
      var s0, x := s[..|s| - 1], s[|s| - 1];
      assert s == s0 + [x];
      GroupSizesSum(s0);
      KeysDistinct(s0);
      TotalSizeSnocPost(Keys(s0), s0, x);
      if GroupKey(x) !in Keys(s0) {
        TotalSizeSnocKey(Keys(s0), GroupKey(x), s);
        BucketEmptyOutsideKeys(s0, GroupKey(x));
      }
    }
  }

  /** A single post in category `constructor` is enough to make the fold as written throw. */
  lemma ConstructorCategoryThrows(p: Post)
    ensures HitsPrototype([Listed(p, Some("constructor"))])
  {
    assert GroupKey([Listed(p, Some("constructor"))][0]) == "constructor";
    assert Inherited("constructor");
  }

  /** The fallback key is not an inherited property name. */
  lemma FallbackNotInherited()
    ensures !Inherited(Uncategorized)
  {
  }

  /**
   * Posts without a category never reach an inherited key, so for the
   * posts `getAllPosts` lists the as-written fold does not throw.
   */
  lemma UncategorizedNeverHitsPrototype(s: seq<Listed>)
    requires forall i :: 0 <= i < |s| ==> s[i].category.None?
    ensures !HitsPrototype(s)
  {
    FallbackNotInherited();
    forall i | 0 <= i < |s| ensures !Inherited(GroupKey(s[i])) {
      assert GroupKey(s[i]) == Uncategorized;
    }
  }

  /** `categoryPosts.slice(0, 2)`: the posts a card shows. */
  function Featured(group: seq<Listed>): (shown: seq<Listed>)
    ensures |shown| == (if |group| < 2 then |group| else 2)
    ensures shown == group[..|shown|]
  {
    group[..if |group| < 2 then |group| else 2]
  }

  /** A post as `getAllPosts` yields it: there is no category field. */
  function FromLibrary(p: Post): (l: Listed)
    ensures l.post == p && l.category.None?
  {
    Listed(p, None)
  }

  /**
   * When no post has a category (as with `getAllPosts`, see `FromLibrary`),
   * everything lands in a single `Uncategorized` group, in input order.
   */
  lemma {:induction false} NoCategoryAllUncategorized(s: seq<Listed>)
    requires forall i :: 0 <= i < |s| ==> s[i].category.None?
    ensures Keys(s) == (if s == [] then [] else [Uncategorized])
    ensures Bucket(s, Uncategorized) == s
  {
    if s != [] {
      var s0, x := s[..|s| - 1], s[|s| - 1];
      assert forall i :: 0 <= i < |s0| ==> s0[i] == s[i];
      NoCategoryAllUncategorized(s0);
      assert s0 + [x] == s;
      assert GroupKey(x) == Uncategorized;
      GroupStep(s0, x);
      BucketSnoc(s0, x, Uncategorized);
    }
  }
}
