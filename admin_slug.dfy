/**
 * The slug the admin page derives from a new post's title before creating it
 * (src/app/admin/page.tsx, `handleCreatePost`): the title is lower-cased and
 * every maximal run of characters outside `[a-z0-9]` becomes a single `-`.
 */
module AdminSlug {

  /** A character the slug keeps: one of `[a-z0-9]`. */
  predicate IsSlugChar(c: char) {
    ('a' <= c <= 'z') || ('0' <= c <= '9')
  }

  /** A character that may appear in a slug at all. */
  predicate InSlugAlphabet(c: char) {
    IsSlugChar(c) || c == '-'
  }

  /** No two dashes in a row. */
  predicate NoDoubleDash(s: string) {
    forall i :: 0 <= i < |s| - 1 ==> !(s[i] == '-' && s[i + 1] == '-')
  }

  /** A string the slug rule leaves alone: slug alphabet only, no `--`. */
  predicate IsClean(s: string) {
    (forall i :: 0 <= i < |s| ==> InSlugAlphabet(s[i])) && NoDoubleDash(s)
  }

  /** ASCII lower-casing of one character. */
  function LowerChar(c: char): (r: char)
    ensures 'A' <= c <= 'Z' ==> 'a' <= r <= 'z' && r as int == c as int + 32
    ensures !('A' <= c <= 'Z') ==> r == c
  {
    if 'A' <= c <= 'Z' then (c as int - 'A' as int + 'a' as int) as char else c
  }

  /** `toLowerCase`, restricted to ASCII letters. */
  function Lower(s: string): (r: string)
    ensures |r| == |s|
    ensures forall i :: 0 <= i < |s| ==> r[i] == LowerChar(s[i])
  {
    seq(|s|, i requires 0 <= i < |s| => LowerChar(s[i]))
  }

  /** Drops the run of non-slug characters at the front of `s`. */
  function DropRun(s: string): (r: string)
    ensures |r| <= |s| && r == s[|s| - |r|..]
    ensures r == [] || IsSlugChar(r[0])
    ensures forall i :: 0 <= i < |s| - |r| ==> !IsSlugChar(s[i])
  {
    if s == [] || IsSlugChar(s[0]) then s else DropRun(s[1..])
  }

  /**
   * The effect of `replace(/[^a-z0-9]+/g, '-')`: slug characters are kept,
   * and each maximal run of other characters becomes one dash.
   */
  function Collapse(s: string): (r: string)
    ensures |r| <= |s|
    ensures IsClean(r)
    ensures |r| > 0 && r[0] == '-' <==> |s| > 0 && !IsSlugChar(s[0])
    decreases |s|
  {
    if s == [] then []
    else if IsSlugChar(s[0]) then [s[0]] + Collapse(s[1..])
    else "-" + Collapse(DropRun(s[1..]))
  }

  /** `title.toLowerCase().replace(/[^a-z0-9]+/g, '-')` */
  function Slug(title: string): (r: string)
    ensures |r| <= |title|
    ensures IsClean(r)
  {
    Collapse(Lower(title))
  }

  /**
   * An independent reading of the same rule, as a regular-expression engine
   * scans: left to right, remembering whether it is inside a run of
   * non-slug characters, emitting `-` when such a run begins.
   */
  function Scan(s: string, inRun: bool): string {
    if s == [] then []
    else if IsSlugChar(s[0]) then [s[0]] + Scan(s[1..], false)
    else if inRun then Scan(s[1..], true)
    else "-" + Scan(s[1..], true)
  }

  /** Inside a run, the scanner emits nothing until the run ends. */
  lemma {:induction false} ScanSkipsRun(s: string)
    ensures Scan(s, true) == Scan(DropRun(s), false)
  {
    if s != [] && !IsSlugChar(s[0]) {
      ScanSkipsRun(s[1..]);
    }
  }

  /** The run-collapsing definition agrees with the scanning one. */
  lemma {:induction false} CollapseIsScan(s: string)
    ensures Collapse(s) == Scan(s, false)
    decreases |s|
  {
    if s == [] {
    } else if IsSlugChar(s[0]) {
      CollapseIsScan(s[1..]);
    } else {
      CollapseIsScan(DropRun(s[1..]));
      ScanSkipsRun(s[1..]);
    }
  }

  /** The characters of `s` that are slug characters, in order. */
  function Kept(s: string): (r: string)
    ensures |r| <= |s|
  {
    if s == [] then [] else (if IsSlugChar(s[0]) then [s[0]] else []) + Kept(s[1..])
  }

  lemma {:induction false} KeptDropRun(s: string)
    ensures Kept(DropRun(s)) == Kept(s)
  {
    if s != [] && !IsSlugChar(s[0]) {
      KeptDropRun(s[1..]);
    }
  }

  /** Collapsing removes only non-slug characters: the slug characters survive, in order. */
  lemma {:induction false} CollapseKeeps(s: string)
    ensures Kept(Collapse(s)) == Kept(s)
    decreases |s|
  {
    if s == [] {
    } else if IsSlugChar(s[0]) {
      CollapseKeeps(s[1..]);
      assert Collapse(s) == [s[0]] + Collapse(s[1..]);
      assert (Collapse(s))[1..] == Collapse(s[1..]);
    } else {
      CollapseKeeps(DropRun(s[1..]));
      KeptDropRun(s[1..]);
      assert Collapse(s)[1..] == Collapse(DropRun(s[1..]));
    }
  }

  /** The slug rule is the `Scan` reading of the lower-cased title, and keeps its letters and digits. */
  lemma SlugMeaning(title: string)
    ensures Slug(title) == Scan(Lower(title), false)
    ensures Kept(Slug(title)) == Kept(Lower(title))
  {
    CollapseIsScan(Lower(title));
    CollapseKeeps(Lower(title));
  }

  /** Dropping the first character of a clean string leaves it clean. */
  lemma CleanTail(s: string)
    requires IsClean(s) && s != []
    ensures IsClean(s[1..])
  {
    var t := s[1..];
    forall i | 0 <= i < |t| - 1 ensures !(t[i] == '-' && t[i + 1] == '-') {
      assert t[i] == s[i + 1] && t[i + 1] == s[i + 2];
    }
  }

  /** A clean string is its own collapse. */
  lemma {:induction false} CollapseClean(s: string)
    requires IsClean(s)
    ensures Collapse(s) == s
    decreases |s|
  {
    if s != [] {
      CleanTail(s);
      if IsSlugChar(s[0]) {
        CollapseClean(s[1..]);
      } else {
        assert s[0] == '-';
        assert s[1..] == [] || IsSlugChar(s[1]);
        assert DropRun(s[1..]) == s[1..];
        CollapseClean(s[1..]);
      }
    }
  }

  /** Lower-casing leaves a clean string alone. */
  lemma LowerClean(s: string)
    requires IsClean(s)
    ensures Lower(s) == s
  {
  }

  /** Deriving the slug of a slug gives the same slug. */
  lemma SlugIdempotent(title: string)
    ensures Slug(Slug(title)) == Slug(title)
  {
    var s := Slug(title);
    LowerClean(s);
    CollapseClean(s);
  }
}
