/**
 The parts of JavaScript's string semantics the plugin relies on:
 `String.prototype.indexOf`, `String.prototype.replace` with a string
 pattern (first occurrence only, with the `$` patterns of the replacement
 string), and ASCII lower-casing.
 */
module JsString {

  /** `pat` occurs in `s` at index i. */
  predicate OccursAt(s: string, pat: string, i: int)
  {
    0 <= i && i + |pat| <= |s| && s[i..i + |pat|] == pat
  }

  /** The first occurrence of `pat` in `s` at or after `from`, or -1. */
  function IndexFrom(s: string, pat: string, from: nat): (i: int)
    ensures i == -1 || (from <= i && OccursAt(s, pat, i))
    ensures forall j :: from <= j && (i == -1 || j < i) ==> !OccursAt(s, pat, j)
    decreases |s| + 1 - from
  {
    if from + |pat| > |s| then -1
    else if s[from..from + |pat|] == pat then from
    else IndexFrom(s, pat, from + 1)
  }

  /** s.indexOf(pat) */
  function IndexOf(s: string, pat: string): int
  {
    IndexFrom(s, pat, 0)
  }

  /**
   GetSubstitution for a string pattern (no capture groups): "$$" is "$",
   "$&" the matched text, "$`" the text before it, "$'" the text after it;
   every other character, including any other "$", is copied.
   */
  function Expand(tpl: string, matched: string, before: string, after: string): (r: string)
    ensures '$' !in tpl ==> r == tpl
    decreases |tpl|
  {
    if |tpl| == 0 then ""
    else if tpl[0] == '$' && |tpl| >= 2 && tpl[1] == '$' then "$" + Expand(tpl[2..], matched, before, after)
    else if tpl[0] == '$' && |tpl| >= 2 && tpl[1] == '&' then matched + Expand(tpl[2..], matched, before, after)
    else if tpl[0] == '$' && |tpl| >= 2 && tpl[1] == '`' then before + Expand(tpl[2..], matched, before, after)
    else if tpl[0] == '$' && |tpl| >= 2 && tpl[1] == '\'' then after + Expand(tpl[2..], matched, before, after)
    else
      assert '$' !in tpl ==> '$' !in tpl[1..] && [tpl[0]] + tpl[1..] == tpl;
      [tpl[0]] + Expand(tpl[1..], matched, before, after)
  }

  /**
   Each of the four patterns, followed by literal text, stands for its
   value: "$$" for "$", "$&" for the match, "$`" and "$'" for the text
   before and after it.
   */
  lemma ExpandPatterns(tpl: string, matched: string, before: string, after: string)
    requires |tpl| >= 2 && tpl[0] == '$' && '$' !in tpl[2..]
    ensures tpl[1] == '$' ==> Expand(tpl, matched, before, after) == "$" + tpl[2..]
    ensures tpl[1] == '&' ==> Expand(tpl, matched, before, after) == matched + tpl[2..]
    ensures tpl[1] == '`' ==> Expand(tpl, matched, before, after) == before + tpl[2..]
    ensures tpl[1] == '\'' ==> Expand(tpl, matched, before, after) == after + tpl[2..]
    ensures tpl[1] !in "$&`'" ==> Expand(tpl, matched, before, after) == tpl
  {
  }

  /** What the pattern `$c` stands for; any other `$c` is copied as it is. */
  function PatternValue(c: char, matched: string, before: string, after: string): string
  {
    if c == '$' then "$"
    else if c == '&' then matched
    else if c == '`' then before
    else if c == '\'' then after
    else ['$', c]
  }

  /** A character other than `$` is copied. */
  lemma ExpandCopy(x: char, t: string, matched: string, before: string, after: string)
    requires x != '$'
    ensures Expand([x] + t, matched, before, after) == [x] + Expand(t, matched, before, after)
  {
    assert ([x] + t)[0] == x && ([x] + t)[1..] == t;
  }

  /** A value that starts with a pattern: the pattern's value, then the rest expanded. */
  lemma ExpandHead(c: char, post: string, matched: string, before: string, after: string)
    ensures Expand(['$', c] + post, matched, before, after) == PatternValue(c, matched, before, after) + Expand(post, matched, before, after)
  {
    var s := ['$', c] + post;
    assert s[0] == '$' && s[1] == c && s[2..] == post;
    if c !in "$&`'" {
      var t := [c] + post;
      assert s[1..] == t && t[0] == c && t[1..] == post;
      assert Expand(s, matched, before, after) == ['$'] + Expand(t, matched, before, after);
      assert Expand(t, matched, before, after) == [c] + Expand(post, matched, before, after);
    }
  }

  /**
   A pattern anywhere in the replacement value: the `$`-free text before
   it is copied, the pattern stands for its value, and the rest expands on
   its own.
   */
  lemma {:induction false} ExpandAt(pre: string, c: char, post: string, matched: string, before: string, after: string)
    requires '$' !in pre
    ensures Expand(pre + ['$', c] + post, matched, before, after)
            == pre + PatternValue(c, matched, before, after) + Expand(post, matched, before, after)
    decreases |pre|
  {
    var v := PatternValue(c, matched, before, after);
    var rest := Expand(post, matched, before, after);
    if |pre| == 0 {
      assert pre + ['$', c] + post == ['$', c] + post;
      ExpandHead(c, post, matched, before, after);
    } else {
      var tail := pre[1..] + ['$', c] + post;
      calc {
        Expand(pre + ['$', c] + post, matched, before, after);
        { assert pre + ['$', c] + post == [pre[0]] + tail; }
        Expand([pre[0]] + tail, matched, before, after);
        { ExpandCopy(pre[0], tail, matched, before, after); }
        [pre[0]] + Expand(tail, matched, before, after);
        { assert '$' !in pre[1..]; ExpandAt(pre[1..], c, post, matched, before, after); }
        [pre[0]] + (pre[1..] + v + rest);
        { assert [pre[0]] + pre[1..] == pre; }
        pre + v + rest;
      }
    }
  }

  /**
   s.replace(pat, tpl): only the first occurrence of `pat` is replaced; a
   string without `pat` is returned unchanged.
   */
  function ReplaceFirst(s: string, pat: string, tpl: string): (r: string)
    ensures (forall j :: !OccursAt(s, pat, j)) ==> r == s
    ensures forall i :: OccursAt(s, pat, i) && (forall j :: 0 <= j < i ==> !OccursAt(s, pat, j)) ==>
              r == s[..i] + Expand(tpl, pat, s[..i], s[i + |pat|..]) + s[i + |pat|..]
  {
    var i := IndexOf(s, pat);
    if i == -1 then s
    else s[..i] + Expand(tpl, pat, s[..i], s[i + |pat|..]) + s[i + |pat|..]
  }

  /** With a literal replacement, the text around the first occurrence is kept verbatim. */
  lemma ReplaceFirstLiteral(s: string, pat: string, tpl: string, i: nat)
    requires '$' !in tpl
    requires OccursAt(s, pat, i)
    requires forall j :: 0 <= j < i ==> !OccursAt(s, pat, j)
    ensures ReplaceFirst(s, pat, tpl) == s[..i] + tpl + s[i + |pat|..]
  {
  }

  /**
   `for (s in replaces) code = code.replace(s, replaces[s])` over entries
   already in enumeration order: each entry works on the current string.
   */
  function ApplyReplaces(s: string, entries: seq<(string, string)>): string
    decreases |entries|
  {
    if |entries| == 0 then s
    else ApplyReplaces(ReplaceFirst(s, entries[0].0, entries[0].1), entries[1..])
  }

  /** Later entries see the result of earlier ones: the loop is a left fold. */
  lemma {:induction false} ApplyReplacesSplit(s: string, a: seq<(string, string)>, b: seq<(string, string)>)
    ensures ApplyReplaces(s, a + b) == ApplyReplaces(ApplyReplaces(s, a), b)
    decreases |a|
  {
    if |a| == 0 {
      assert a + b == b;
    } else {
      assert (a + b)[1..] == a[1..] + b;
      ApplyReplacesSplit(ReplaceFirst(s, a[0].0, a[0].1), a[1..], b);
    }
  }

  function LowerChar(c: char): char
  {
    if 'A' <= c <= 'Z' then (c as int + 32) as char else c
  }

  /** String.prototype.toLowerCase restricted to ASCII letters. */
  function LowerAscii(s: string): (r: string)
    ensures |r| == |s|
    ensures forall i :: 0 <= i < |s| ==> r[i] == LowerChar(s[i])
  {
    if |s| == 0 then [] else LowerAscii(s[..|s| - 1]) + [LowerChar(s[|s| - 1])]
  }
}
