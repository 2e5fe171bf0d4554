/**
 * `JSON_BLOCK_RE`: the pattern ```(?:json)?\s*(\{.*?\})\s*``` compiled with DOTALL,
 * and `re.search` over it.
 *
 * Two definitions are given and proved to agree: a declarative one (IsMatch,
 * IsFirstMatch: what a match is and which one `search` reports) and an explicit
 * left-to-right scanner (Search). The scanner relies on two facts about the
 * pattern's backtracking: a `\s*` that must be followed by `{` or by a backtick
 * can only succeed by taking the whole whitespace run, and the `json` alternative
 * and the empty alternative can never both reach a `{` from the same fence.
 */
module JsonBlock {
  import opened Wrappers
  import opened Text

  const Fence: string := "```"
  const Tag: string := "json"

  /** w occurs in t at position i. */
  predicate HasAt(t: string, i: nat, w: string) {
    i + |w| <= |t| && t[i..i + |w|] == w
  }

  /** One match of the pattern: the opening fence at `start`, and group 1 is
      t[open..close + 1], from its `{` to its `}`. */
  datatype Match = Match(start: nat, open: nat, close: nat)

  // ---------------------------------------------------------------------------
  // What a match is

  /** A fence at s, then optionally the lowercase tag `json`, then only whitespace
      up to position o. */
  predicate OpeningAt(t: string, s: nat, o: nat) {
    && HasAt(t, s, Fence)
    && (AllSpaceIn(t, s + 3, o) || (HasAt(t, s + 3, Tag) && AllSpaceIn(t, s + 7, o)))
  }

  /** A `}` at c followed by some whitespace and then a fence. */
  ghost predicate ClosingAt(t: string, c: nat) {
    c < |t| && t[c] == '}' && exists e: nat :: AllSpaceIn(t, c + 1, e) && HasAt(t, e, Fence)
  }

  /** m is a way for the whole pattern to match t (DOTALL: group 1 may hold anything,
      newlines included, between its braces). */
  ghost predicate IsMatch(t: string, m: Match) {
    && OpeningAt(t, m.start, m.open)
    && m.open < m.close
    && ClosingAt(t, m.close)
    && t[m.open] == '{'
  }

  /** The match `re.search` reports: it starts at the leftmost position where the
      pattern matches at all, and its lazy `.*?` ends group 1 at the first `}`
      that can be closed. */
  ghost predicate IsFirstMatch(t: string, m: Match) {
    && IsMatch(t, m)
    && (forall m' :: IsMatch(t, m') ==> m.start <= m'.start)
    && (forall m' :: IsMatch(t, m') && m'.start == m.start ==> m.close <= m'.close)
  }

  ghost predicate NoMatch(t: string) {
    forall m :: !IsMatch(t, m)
  }

  /** From one fence, at most one `{` can open group 1. */
  lemma OpenUnique(t: string, m1: Match, m2: Match)
    requires IsMatch(t, m1) && IsMatch(t, m2) && m1.start == m2.start
    ensures m1.open == m2.open
  {
    OpenIsSkip(t, m1);
    OpenIsSkip(t, m2);
  }

  /** The `{` of a match is where the whitespace after the fence (and after the
      tag, when there is one) runs out. */
  lemma OpenIsSkip(t: string, m: Match)
    requires IsMatch(t, m)
    ensures HasAt(t, m.start + 3, Tag) ==> m.open == SkipSpace(t, m.start + 7)
    ensures !HasAt(t, m.start + 3, Tag) ==> m.open == SkipSpace(t, m.start + 3)
  {
    var s := m.start;
    if HasAt(t, s + 3, Tag) {
      // the bare alternative would need `{` or whitespace where `j` is
      assert t[s + 3] == 'j';
      SkipSpaceUnique(t, s + 7, m.open);
    } else {
      SkipSpaceUnique(t, s + 3, m.open);
    }
  }

  /** What follows a fence that starts a match is `{`, whitespace, or the exact
      lowercase tag `json` followed itself by `{` or whitespace: `JSON`, `js`,
      `jsonc`, `json5` or any other tag cannot start one. */
  lemma TagMustBeJson(t: string, m: Match)
    requires IsMatch(t, m)
    ensures m.start + 3 < |t|
    ensures || t[m.start + 3] == '{'
            || IsSpace(t[m.start + 3])
            || (HasAt(t, m.start + 3, Tag) && m.start + 7 < |t| && (t[m.start + 7] == '{' || IsSpace(t[m.start + 7])))
  {
  }

  /** Exactly one match is the first one. */
  lemma FirstMatchUnique(t: string, m1: Match, m2: Match)
    requires IsFirstMatch(t, m1) && IsFirstMatch(t, m2)
    ensures m1 == m2
  {
    OpenUnique(t, m1, m2);
  }

  // ---------------------------------------------------------------------------
  // The scanner

  /** `\}\s*```` at c: the `}`, the whole whitespace run after it, then a fence. */
  predicate ClosesAt(t: string, c: nat) {
    c < |t| && t[c] == '}' && HasAt(t, SkipSpace(t, c + 1), Fence)
  }

  lemma ClosesAtIff(t: string, c: nat)
    ensures ClosesAt(t, c) <==> ClosingAt(t, c)
  {
    if ClosingAt(t, c) {
      var e: nat :| AllSpaceIn(t, c + 1, e) && HasAt(t, e, Fence);
      assert t[e] == '`';
      SkipSpaceUnique(t, c + 1, e);
    }
  }

  /** The lazy `.*?`: the first position at or after `from` where group 1 can end. */
  function FirstClose(t: string, from: nat): (r: Option<nat>)
    ensures r.Some? ==> from <= r.value && ClosesAt(t, r.value)
    ensures forall c :: from <= c && ClosesAt(t, c) ==> r.Some? && r.value <= c
    decreases |t| - from
  {
    if from >= |t| then None
    else if ClosesAt(t, from) then Some(from)
    else FirstClose(t, from + 1)
  }

  /** Group 1 opened by a `{` at o, for the fence at s. */
  function BodyAt(t: string, s: nat, o: nat): Option<Match> {
    if o < |t| && t[o] == '{' then
      match FirstClose(t, o + 1)
      case Some(c) => Some(Match(s, o, c))
      case None => None
    else None
  }

  /** The pattern tried at position s, in the order the regex engine tries it:
      the `json` alternative first, then the empty one. */
  function MatchAt(t: string, s: nat): Option<Match> {
    if !HasAt(t, s, Fence) then None
    else
      var tagged := if HasAt(t, s + 3, Tag) then BodyAt(t, s, SkipSpace(t, s + 7)) else None;
      if tagged.Some? then tagged else BodyAt(t, s, SkipSpace(t, s + 3))
  }

  lemma BodyAtSound(t: string, s: nat, o: nat)
    requires OpeningAt(t, s, o)
    ensures BodyAt(t, s, o).Some? ==> IsFirstAt(t, BodyAt(t, s, o).value, s)
    ensures BodyAt(t, s, o).None? ==> forall m :: IsMatch(t, m) && m.start == s ==> m.open != o
  {
    var r := BodyAt(t, s, o);
    if r.Some? {
      var m := r.value;
      ClosesAtIff(t, m.close);
      forall m' | IsMatch(t, m') && m'.start == s
        ensures m.close <= m'.close
      {
        OpenUnique(t, m, m');
        ClosesAtIff(t, m'.close);
      }
    } else {
      forall m | IsMatch(t, m) && m.start == s
        ensures m.open != o
      {
        ClosesAtIff(t, m.close);
      }
    }
  }

  /** m is a match starting at s whose group 1 ends at the first possible `}`. */
  ghost predicate IsFirstAt(t: string, m: Match, s: nat) {
    && m.start == s
    && IsMatch(t, m)
    && (forall m' :: IsMatch(t, m') && m'.start == s ==> m.close <= m'.close)
  }

  /** The attempt at s finds the shortest match starting at s, and fails only when
      there is none. */
  lemma MatchAtCorrect(t: string, s: nat)
    ensures MatchAt(t, s).Some? ==> IsFirstAt(t, MatchAt(t, s).value, s)
    ensures MatchAt(t, s).None? ==> forall m :: IsMatch(t, m) ==> m.start != s
  {
    if HasAt(t, s, Fence) {
      var tagged := if HasAt(t, s + 3, Tag) then BodyAt(t, s, SkipSpace(t, s + 7)) else None;
      var bare := SkipSpace(t, s + 3);
      assert OpeningAt(t, s, bare);
      BodyAtSound(t, s, bare);
      if HasAt(t, s + 3, Tag) {
        assert OpeningAt(t, s, SkipSpace(t, s + 7));
        BodyAtSound(t, s, SkipSpace(t, s + 7));
      }
      forall m | IsMatch(t, m) && m.start == s && MatchAt(t, s).None?
        ensures false
      {
        OpenIsSkip(t, m);
      }
    }
  }

  /** `re.search` from position s onwards. */
  function SearchFrom(t: string, s: nat): Option<Match>
    decreases |t| - s
  {
    if s >= |t| then None
    else
      match MatchAt(t, s)
      case Some(m) => Some(m)
      case None => SearchFrom(t, s + 1)
  }

  lemma {:induction false} SearchFromCorrect(t: string, s: nat)
    ensures SearchFrom(t, s).Some? ==>
              var m := SearchFrom(t, s).value;
              && s <= m.start
              && IsFirstAt(t, m, m.start)
              && (forall m' :: IsMatch(t, m') && s <= m'.start ==> m.start <= m'.start)
    ensures SearchFrom(t, s).None? ==> forall m :: IsMatch(t, m) ==> m.start < s
    decreases |t| - s
  {
    if s >= |t| {
      forall m | IsMatch(t, m) ensures m.start < s { }
    } else {
      MatchAtCorrect(t, s);
      if MatchAt(t, s).None? {
        SearchFromCorrect(t, s + 1);
      }
    }
  }

  /** `JSON_BLOCK_RE.search(t)` (messages.py line 112): the first match, or none. */
  function Search(t: string): (r: Option<Match>)
    ensures r.Some? ==> IsFirstMatch(t, r.value)
    ensures r.None? ==> NoMatch(t)
  {
    SearchFromCorrect(t, 0);
    SearchFrom(t, 0)
  }

  /** `search` reports the first match. */
  lemma SearchFinds(t: string, m: Match)
    requires IsFirstMatch(t, m)
    ensures Search(t) == Some(m)
  {
    var r := Search(t);
    FirstMatchUnique(t, r.value, m);
  }

  /** The text of group 1. */
  function Group(t: string, m: Match): (g: string)
    requires IsMatch(t, m)
    ensures |g| >= 2 && g[0] == '{' && g[|g| - 1] == '}'
  {
    t[m.open..m.close + 1]
  }

  // ---------------------------------------------------------------------------
  // Nothing after the first block is consulted

  /** Where the closing fence of m ends. */
  function MatchEnd(t: string, m: Match): (n: nat)
    requires IsMatch(t, m)
    ensures m.close < n <= |t|
  {
    ClosesAtIff(t, m.close);
    SkipSpace(t, m.close + 1) + 3
  }

  /** t and t' hold the same first n characters. */
  ghost predicate AgreeUpTo(t: string, t': string, n: nat) {
    n <= |t| && n <= |t'| && forall k :: 0 <= k < n ==> t[k] == t'[k]
  }

  lemma HasAtAgree(t: string, t': string, n: nat, i: nat, w: string)
    requires AgreeUpTo(t, t', n) && i + |w| <= n
    ensures HasAt(t, i, w) <==> HasAt(t', i, w)
  {
    assert t[i..i + |w|] == t'[i..i + |w|];
  }

  lemma OpeningAtAgree(t: string, t': string, n: nat, s: nat, o: nat)
    requires AgreeUpTo(t, t', n) && s + 7 <= n && o <= n
    ensures OpeningAt(t, s, o) <==> OpeningAt(t', s, o)
  {
    HasAtAgree(t, t', n, s, Fence);
    HasAtAgree(t, t', n, s + 3, Tag);
  }

  /** A match that starts before a fence opens its `{` before that fence: the
      fence's backticks can be neither whitespace, nor a `{`, nor letters of the tag. */
  lemma OpenBeforeFence(t: string, m: Match, s: nat)
    requires IsMatch(t, m) && m.start < s
    requires HasAt(t, s, Fence)
    ensures m.open < s
  {
    var s0 := m.start;
    assert forall k :: s <= k < s + 3 ==> t[k] == '`';
    assert HasAt(t, s0 + 3, Tag) ==> forall k :: s0 + 3 <= k < s0 + 7 ==> t[k] == Tag[k - (s0 + 3)];
    // the first fence position inside each possible whitespace run
    var p := if s0 + 3 <= s then s else s0 + 3;
    var p' := if s0 + 7 <= s then s else s0 + 7;
    assert p < s + 3 ==> t[p] == '`';
    assert p' < s + 3 ==> t[p'] == '`';
  }

  /** The first match of t is still a match of any t' that agrees with t up to
      the end of its closing fence. */
  lemma MatchAgree(t: string, t': string, m: Match)
    requires IsMatch(t, m)
    requires AgreeUpTo(t, t', MatchEnd(t, m))
    ensures IsMatch(t', m)
  {
    var n := MatchEnd(t, m);
    var e := SkipSpace(t, m.close + 1);
    ClosesAtIff(t, m.close);
    HasAtAgree(t, t', n, e, Fence);
    assert AllSpaceIn(t', m.close + 1, e);
    assert ClosingAt(t', m.close);
    assert m.start + 7 <= n by { assert t[m.open] == '{'; }
    OpeningAtAgree(t, t', n, m.start, m.open);
  }

  /** A match of t' that starts before a match m of t can be closed by m's `}`
      in t, so it would be a match of t as well. */
  lemma EarlierStartTransfers(t: string, t': string, m: Match, m': Match)
    requires IsMatch(t, m)
    requires AgreeUpTo(t, t', MatchEnd(t, m))
    requires IsMatch(t', m')
    ensures m'.start < m.start ==> IsMatch(t, Match(m'.start, m'.open, m.close))
  {
    var n := MatchEnd(t, m);
    if m'.start < m.start {
      HasAtAgree(t, t', n, m.start, Fence);
      OpenBeforeFence(t', m', m.start);
      OpeningAtAgree(t, t', n, m'.start, m'.open);
    }
  }

  /** No match of t' can start before the first match of t. */
  lemma NoEarlierMatch(t: string, t': string, m: Match, m': Match)
    requires IsFirstMatch(t, m)
    requires AgreeUpTo(t, t', MatchEnd(t, m))
    requires IsMatch(t', m')
    ensures m.start <= m'.start
  {
    EarlierStartTransfers(t, t', m, m');
  }

  /** A `}` of t' before m's `}` that can close group 1 can close it in t too:
      the whitespace run after it stops at m's `}` at the latest. */
  lemma EarlierCloseTransfers(t: string, t': string, m: Match, c: nat)
    requires IsMatch(t, m)
    requires AgreeUpTo(t, t', MatchEnd(t, m))
    requires ClosingAt(t', c)
    ensures c < m.close ==> ClosingAt(t, c)
  {
    var n := MatchEnd(t, m);
    if c < m.close {
      var k := SkipSpace(t', c + 1);
      ClosesAtIff(t', c);
      assert t'[m.close] == '}';
      SkipSpaceStops(t', c + 1, m.close);
      assert t'[k] == '`';
      HasAtAgree(t, t', n, k, Fence);
      assert AllSpaceIn(t, c + 1, k);
    }
  }

  /** No match of t' from the same fence closes group 1 earlier. */
  lemma NoEarlierClose(t: string, t': string, m: Match, m': Match)
    requires IsFirstMatch(t, m)
    requires AgreeUpTo(t, t', MatchEnd(t, m))
    requires IsMatch(t', m) && IsMatch(t', m') && m'.start == m.start
    ensures m.close <= m'.close
  {
    OpenUnique(t', m, m');
    EarlierCloseTransfers(t, t', m, m'.close);
    assert m'.close < m.close ==> IsMatch(t, Match(m.start, m.open, m'.close));
  }

  /** Replacing everything after the first match's closing fence leaves the first
      match where it was: a later fence is never consulted. */
  lemma FirstMatchIgnoresLaterText(t: string, t': string, m: Match)
    requires IsFirstMatch(t, m)
    requires AgreeUpTo(t, t', MatchEnd(t, m))
    ensures IsFirstMatch(t', m)
  {
    MatchAgree(t, t', m);
    forall m' | IsMatch(t', m')
      ensures m.start <= m'.start
    {
      NoEarlierMatch(t, t', m, m');
    }
    forall m' | IsMatch(t', m') && m'.start == m.start
      ensures m.close <= m'.close
    {
      NoEarlierClose(t, t', m, m');
    }
  }

  /** Appending any text, another fenced block included, to a text that already
      holds a match does not change what `search` reports. */
  lemma SearchIgnoresAppended(t: string, u: string)
    requires Search(t).Some?
    ensures Search(t + u) == Search(t)
  {
    var m := Search(t).value;
    var n := MatchEnd(t, m);
    assert AgreeUpTo(t, t + u, n);
    FirstMatchIgnoresLaterText(t, t + u, m);
    var r := Search(t + u);
    FirstMatchUnique(t + u, r.value, m);
  }

  /** The group of a match reads the same once text is appended. */
  lemma GroupIgnoresAppended(t: string, u: string, m: Match)
    requires IsMatch(t, m)
    ensures IsMatch(t + u, m) && Group(t + u, m) == Group(t, m)
  {
    assert AgreeUpTo(t, t + u, MatchEnd(t, m));
    MatchAgree(t, t + u, m);
    assert (t + u)[m.open..m.close + 1] == t[m.open..m.close + 1];
  }

  // ---------------------------------------------------------------------------
  // The common reply shape: prose, then one ```json block

  /** Prose without backticks, then "```json", a newline, a braced body without
      backticks, a newline and the closing fence, then anything at all. */
  function FencedReply(pre: string, inner: string, post: string): string {
    pre + "```json\n{" + inner + "}\n```" + post
  }

  /** In such a reply the block is the first match and group 1 is the braced body,
      even when the body holds `}` characters of its own. */
  lemma FencedReplyMatch(pre: string, inner: string, post: string)
    requires '`' !in pre && '`' !in inner
    ensures var t := FencedReply(pre, inner, post);
            var p := |pre|;
            && Search(t) == Some(Match(p, p + 8, p + 9 + |inner|))
            && t[p + 8..p + 10 + |inner|] == "{" + inner + "}"
  {
    var t := FencedReply(pre, inner, post);
    var p := |pre|;
    var c := p + 9 + |inner|;
    FencedReplyLayout(pre, inner, post);
    BlockIsFirst(t, p, c);
    SearchFinds(t, Match(p, p + 8, c));
  }

  /** Where the pieces of a FencedReply sit. */
  lemma FencedReplyLayout(pre: string, inner: string, post: string)
    requires '`' !in pre && '`' !in inner
    ensures var t := FencedReply(pre, inner, post);
            var p := |pre|;
            var c := p + 9 + |inner|;
            && c + 5 <= |t|
            && (forall k :: 0 <= k < p ==> t[k] != '`')
            && (forall k :: p + 9 <= k < c ==> t[k] != '`')
            && HasAt(t, p, Fence) && HasAt(t, p + 3, Tag)
            && t[p + 7] == '\n' && t[p + 8] == '{'
            && t[c] == '}' && t[c + 1] == '\n' && HasAt(t, c + 2, Fence)
            && t[p + 8..c + 1] == "{" + inner + "}"
  {
    var t := FencedReply(pre, inner, post);
    var p := |pre|;
    var c := p + 9 + |inner|;
    assert t == pre + ("```json\n{" + inner + "}\n```" + post);
    assert forall k :: 0 <= k < p ==> t[k] == pre[k];
    assert forall k :: p + 9 <= k < c ==> t[k] == inner[k - (p + 9)];
    assert t[p..p + 3] == Fence;
    assert t[p + 3..p + 7] == Tag;
    assert t[c + 2..c + 5] == Fence;
    assert t[p + 8..c + 1] == "{" + inner + "}";
  }

  /** A ```json block preceded by no backtick and holding none is the first match,
      its group 1 ending at the block's last `}`. */
  lemma BlockIsFirst(t: string, p: nat, c: nat)
    requires p + 9 <= c && c + 5 <= |t|
    requires forall k :: 0 <= k < p ==> t[k] != '`'
    requires forall k :: p + 9 <= k < c ==> t[k] != '`'
    requires HasAt(t, p, Fence) && HasAt(t, p + 3, Tag)
    requires t[p + 7] == '\n' && t[p + 8] == '{'
    requires t[c] == '}' && t[c + 1] == '\n' && HasAt(t, c + 2, Fence)
    ensures IsFirstMatch(t, Match(p, p + 8, c))
  {
    var m := Match(p, p + 8, c);
    assert AllSpaceIn(t, c + 1, c + 2) && HasAt(t, c + 2, Fence);
    assert ClosingAt(t, c);
    assert AllSpaceIn(t, p + 7, p + 8);
    assert IsMatch(t, m);
    forall m' | IsMatch(t, m')
      ensures p <= m'.start
    {
      assert t[m'.start] == '`';
    }
    forall m' | IsMatch(t, m') && m'.start == p
      ensures c <= m'.close
    {
      OpenUnique(t, m, m');
      NoCloseInside(t, p + 8, c, m'.close);
    }
  }

  /** Between a `{` at o and a `}` at c with no backtick in between, no `}`
      can be followed by whitespace and a fence. */
  lemma NoCloseInside(t: string, o: nat, c: nat, c': nat)
    requires o < c' && c < |t| && t[c] == '}'
    requires forall k :: o < k < c ==> t[k] != '`'
    ensures c' < c ==> !ClosingAt(t, c')
  {
    if c' < c {
      ClosesAtIff(t, c');
      SkipSpaceStops(t, c' + 1, c);
    }
  }
}
