/**
 * The markdown toolbar of the admin editor (`insertMarkdown` in
 * src/app/admin/page.tsx): a button splices `prefix` and `suffix` around the
 * current textarea selection; block buttons also make sure the inserted block
 * starts and ends on a line of its own.
 */
module AdminToolbar {
  import opened Wrappers

  /** The textarea's `selectionStart` / `selectionEnd`. */
  datatype Selection = Selection(start: nat, end: nat)

  /** What the splice hands to `setContent`, and where the caret is put afterwards. */
  datatype Insertion = Insertion(text: string, cursor: nat)

  /** A browser keeps `selectionStart <= selectionEnd <= value.length`. */
  predicate WithinContent(content: string, sel: Selection) {
    sel.start <= sel.end <= |content|
  }

  function Min(a: nat, b: nat): nat { if a <= b then a else b }

  /**
   * JavaScript's `s.substring(a, b)`: both indices are clamped to the length
   * of `s`, and they are swapped when the first exceeds the second.
   */
  function Substring(s: string, a: nat, b: nat): (r: string)
    ensures a <= b <= |s| ==> r == s[a..b]
    ensures |r| <= |s|
  {
    var lo := Min(Min(a, b), |s|);
    var hi := Min(if a <= b then b else a, |s|);
    s[lo..hi]
  }

  /** One newline when `needed`, nothing otherwise. */
  function NewlineIf(needed: bool): string {
    if needed then "\n" else ""
  }

  /** `beforeText.length > 0 && !beforeText.endsWith('\n')` */
  predicate NeedsNewlineBefore(before: string) {
    |before| > 0 && before[|before| - 1] != '\n'
  }

  /** `afterText.length > 0 && !afterText.startsWith('\n')` */
  predicate NeedsNewlineAfter(after: string) {
    |after| > 0 && after[0] != '\n'
  }

  /**
   * The toolbar splice. `textarea` is `None` when the page has no textarea,
   * in which case nothing is written (`None`). Otherwise the selected text is
   * wrapped in `prefix` and `suffix`; in block mode one newline is added
   * before the prefix when the preceding text does not already end a line,
   * and one after the suffix when the following text does not already start
   * one. The caret goes right after the (possibly empty) selected text.
   * The two branches of the source differ only in those two newlines, so
   * they are written here as one expression guarded by `block`.
   */
  function InsertMarkdown(content: string, textarea: Option<Selection>,
                          prefix: string, suffix: string, block: bool): (r: Option<Insertion>)
    ensures r.None? <==> textarea.None?
    ensures r.Some? ==> r.value.cursor <= |r.value.text|
  {
    match textarea
    case None => None
    case Some(sel) =>
      var selected := Substring(content, sel.start, sel.end);
      var before := Substring(content, 0, sel.start);
      var after := Substring(content, sel.end, |content|);
      var n1 := NewlineIf(block && NeedsNewlineBefore(before));
      var n2 := NewlineIf(block && NeedsNewlineAfter(after));
      Some(Insertion(before + n1 + prefix + selected + suffix + n2 + after,
                     |before| + |n1| + |prefix| + |selected|))
  }

  /** In block mode, whether a newline goes before the prefix, in terms of the content. */
  predicate BreakBefore(content: string, sel: Selection)
    requires WithinContent(content, sel)
  {
    sel.start > 0 && content[sel.start - 1] != '\n'
  }

  /** In block mode, whether a newline goes after the suffix, in terms of the content. */
  predicate BreakAfter(content: string, sel: Selection)
    requires WithinContent(content, sel)
  {
    sel.end < |content| && content[sel.end] != '\n'
  }

  /**
   * The new text for an in-range selection, piece by piece: the text before
   * the selection, an optional newline, the prefix, the selection, the
   * suffix, an optional newline, the text after; the caret right after the
   * selection.
   */
  lemma Parts(content: string, sel: Selection, prefix: string, suffix: string, block: bool)
    requires WithinContent(content, sel)
    ensures var r := InsertMarkdown(content, Some(sel), prefix, suffix, block).value;
      var s, e := sel.start, sel.end;
      var n1, n2 := NewlineIf(block && BreakBefore(content, sel)), NewlineIf(block && BreakAfter(content, sel));
      r.text == content[..s] + n1 + prefix + content[s..e] + suffix + n2 + content[e..] &&
      r.cursor == s + |n1| + |prefix| + (e - s)
  {
    var s, e := sel.start, sel.end;
    var before, after := Substring(content, 0, s), Substring(content, e, |content|);
    assert before == content[..s];
    assert after == content[e..];
    assert NeedsNewlineBefore(before) == BreakBefore(content, sel);
    assert NeedsNewlineAfter(after) == BreakAfter(content, sel) by {
      if |after| > 0 { assert after[0] == content[e]; }
    }
  }

  /**
   * Where the outer pieces of `a + n1 + pre + m + suf + n2 + c` sit: `a`
   * at the start, `c` at the end, and the characters just before `pre` and
   * just after `suf`.
   */
  lemma LayoutEdges(a: string, n1: string, pre: string, m: string, suf: string, n2: string, c: string)
    ensures var t := a + n1 + pre + m + suf + n2 + c;
      var p := |a| + |n1|;
      var q := p + |pre| + |m| + |suf|;
      |t| == q + |n2| + |c| &&
      t[..|a|] == a && t[q + |n2|..] == c &&
      (p > 0 ==> t[p - 1] == (if |n1| > 0 then n1[|n1| - 1] else a[|a| - 1])) &&
      (q < |t| ==> t[q] == (if |n2| > 0 then n2[0] else c[0]))
  {
    var x1 := a + n1;
    var x4 := x1 + pre + m + suf;
    var x5 := x4 + n2;
    var t := x5 + c;
    assert t[..|x5|] == x5 && x5[..|x4|] == x4;
    assert t[..|a|] == a by {
      assert t[..|a|] == x1[..|a|];
    }
    assert t[|x5|..] == c;
    var p, q := |x1|, |x4|;
    if p > 0 { assert t[p - 1] == x1[p - 1]; }
    if q < |t| { assert t[q] == (n2 + c)[0]; }
  }

  /**
   * Where the inner pieces of `a + n1 + pre + m + suf + n2 + c` sit: `p` is
   * where `pre` starts, `cur` where `m` ends and `q` where `suf` ends.
   */
  lemma LayoutMiddle(a: string, n1: string, pre: string, m: string, suf: string, n2: string, c: string)
    ensures var t := a + n1 + pre + m + suf + n2 + c;
      var p := |a| + |n1|;
      var cur := p + |pre| + |m|;
      var q := cur + |suf|;
      q <= |t| &&
      t[p..q] == pre + m + suf &&
      t[cur - |m|..cur] == m && t[cur..q] == suf
  {
    var x1 := a + n1;
    var x2 := x1 + pre;
    var x3 := x2 + m;
    var x4 := x3 + suf;
    var t := x4 + n2 + c;
    assert t[..|x4|] == x4 && x4[..|x3|] == x3;
    var p, cur, q := |x1|, |x3|, |x4|;
    assert x4[p..] == pre + m + suf;
    assert t[p..q] == x4[p..];
    assert x3[|x2|..] == m;
    assert t[cur - |m|..cur] == x3[|x2|..];
    assert x4[|x3|..] == suf;
    assert t[cur..q] == x4[|x3|..];
  }

  /** Inline mode adds exactly the prefix and the suffix around the selection. */
  lemma InlineSplice(content: string, sel: Selection, prefix: string, suffix: string)
    requires WithinContent(content, sel)
    ensures var r := InsertMarkdown(content, Some(sel), prefix, suffix, false).value;
      var s, e := sel.start, sel.end;
      r.text == content[..s] + prefix + content[s..e] + suffix + content[e..] &&
      |r.text| == |content| + |prefix| + |suffix|
  {
    Parts(content, sel, prefix, suffix, false);
    var s, e := sel.start, sel.end;
    assert |content[..s]| + |content[s..e]| + |content[e..]| == |content|;
  }

  /**
   * Block mode adds the prefix and the suffix, plus one newline before the
   * prefix exactly when the text before the selection is non-empty and does
   * not end in a newline, and one after the suffix exactly when the text
   * after the selection is non-empty and does not start with one.
   */
  lemma BlockSplice(content: string, sel: Selection, prefix: string, suffix: string)
    requires WithinContent(content, sel)
    ensures var r := InsertMarkdown(content, Some(sel), prefix, suffix, true).value;
      var s, e := sel.start, sel.end;
      var nb, na := BreakBefore(content, sel), BreakAfter(content, sel);
      (nb <==> |content[..s]| > 0 && content[..s][s - 1] != '\n') &&
      (na <==> |content[e..]| > 0 && content[e..][0] != '\n') &&
      r.text == content[..s] + NewlineIf(nb) + prefix + content[s..e] + suffix + NewlineIf(na) + content[e..] &&
      |r.text| == |content| + |prefix| + |suffix| + (if nb then 1 else 0) + (if na then 1 else 0)
  {
    Parts(content, sel, prefix, suffix, true);
    var e := sel.end;
    if e < |content| { assert content[e..][0] == content[e]; }
  }

  /** Both modes: the text before and after the selection comes through unchanged. */
  lemma OutsideSelectionUnchanged(content: string, sel: Selection, prefix: string, suffix: string, block: bool)
    requires WithinContent(content, sel)
    ensures var r := InsertMarkdown(content, Some(sel), prefix, suffix, block).value;
      |r.text| >= |content| - (sel.end - sel.start) &&
      r.text[..sel.start] == content[..sel.start] &&
      r.text[|r.text| - (|content| - sel.end)..] == content[sel.end..]
  {
    Parts(content, sel, prefix, suffix, block);
    var s, e := sel.start, sel.end;
    LayoutEdges(content[..s], NewlineIf(block && BreakBefore(content, sel)), prefix, content[s..e],
                suffix, NewlineIf(block && BreakAfter(content, sel)), content[e..]);
  }

  /** The caret facts for a text laid out as `a + n1 + pre + m + suf + n2 + c` with the caret after `m`. */
  lemma CaretFacts(text: string, cursor: nat, n: nat,
                   a: string, n1: string, pre: string, m: string, suf: string, n2: string, c: string)
    requires text == a + n1 + pre + m + suf + n2 + c
    requires cursor == |a| + |n1| + |pre| + |m| && n == |m|
    ensures n <= cursor && cursor + |suf| <= |text|
    ensures text[cursor - n..cursor] == m && text[cursor..cursor + |suf|] == suf
  {
    LayoutMiddle(a, n1, pre, m, suf, n2, c);
  }

  /** Both modes: the caret sits right after the selected text, where the suffix begins. */
  lemma CursorAtSuffix(content: string, sel: Selection, prefix: string, suffix: string, block: bool)
    requires WithinContent(content, sel)
    ensures var r := InsertMarkdown(content, Some(sel), prefix, suffix, block).value;
      var c, n := r.cursor, sel.end - sel.start;
      n <= c && c + |suffix| <= |r.text| &&
      r.text[c - n..c] == content[sel.start..sel.end] &&
      r.text[c..c + |suffix|] == suffix
  {
    Parts(content, sel, prefix, suffix, block);
    var r := InsertMarkdown(content, Some(sel), prefix, suffix, block).value;
    var s, e := sel.start, sel.end;
    CaretFacts(r.text, r.cursor, e - s, content[..s], NewlineIf(block && BreakBefore(content, sel)), prefix,
               content[s..e], suffix, NewlineIf(block && BreakAfter(content, sel)), content[e..]);
  }

  /** A newline, or nothing where `x` is empty or already ends a line. */
  predicate EndsLine(x: string, n: string) {
    n == "\n" || (n == "" && (|x| == 0 || x[|x| - 1] == '\n'))
  }

  /** A newline, or nothing where `x` is empty or already starts a line. */
  predicate StartsLine(n: string, x: string) {
    n == "\n" || (n == "" && (|x| == 0 || x[0] == '\n'))
  }

  /** `text[p..q]` is `block`, and it starts and ends a line of `text`. */
  predicate OnOwnLines(text: string, p: int, q: int, block: string) {
    0 <= p <= q <= |text| && text[p..q] == block &&
    (p == 0 || text[p - 1] == '\n') &&
    (q == |text| || text[q] == '\n')
  }

  /** The line facts for a text laid out as `a + n1 + pre + m + suf + n2 + c` with the caret after `m`. */
  lemma LineFacts(text: string, cursor: nat, n: nat,
                  a: string, n1: string, pre: string, m: string, suf: string, n2: string, c: string)
    requires text == a + n1 + pre + m + suf + n2 + c
    requires cursor == |a| + |n1| + |pre| + |m| && n == |m|
    requires EndsLine(a, n1) && StartsLine(n2, c)
    ensures OnOwnLines(text, cursor - n - |pre|, cursor + |suf|, pre + m + suf)
  {
    LayoutEdges(a, n1, pre, m, suf, n2, c);
    LayoutMiddle(a, n1, pre, m, suf, n2, c);
  }

  /** The block-mode newlines finish the line before and start the line after. */
  lemma BreaksEndLines(content: string, sel: Selection)
    requires WithinContent(content, sel)
    ensures EndsLine(content[..sel.start], NewlineIf(BreakBefore(content, sel)))
    ensures StartsLine(NewlineIf(BreakAfter(content, sel)), content[sel.end..])
  {
    var s, e := sel.start, sel.end;
    if s > 0 { assert content[..s][s - 1] == content[s - 1]; }
    if e < |content| { assert content[e..][0] == content[e]; }
  }

  /**
   * A block element ends up on lines of its own: the prefix starts the text
   * or follows a newline, and the suffix ends the text or is followed by one.
   */
  lemma BlockOnOwnLines(content: string, sel: Selection, prefix: string, suffix: string)
    requires WithinContent(content, sel)
    ensures var r := InsertMarkdown(content, Some(sel), prefix, suffix, true).value;
      OnOwnLines(r.text, r.cursor - (sel.end - sel.start) - |prefix|, r.cursor + |suffix|,
                 prefix + content[sel.start..sel.end] + suffix)
  {
    Parts(content, sel, prefix, suffix, true);
    var r := InsertMarkdown(content, Some(sel), prefix, suffix, true).value;
    var s, e := sel.start, sel.end;
    var a, c := content[..s], content[e..];
    var n1, n2 := NewlineIf(BreakBefore(content, sel)), NewlineIf(BreakAfter(content, sel));
    BreaksEndLines(content, sel);
    LineFacts(r.text, r.cursor, e - s, a, n1, prefix, content[s..e], suffix, n2, c);
  }
}
