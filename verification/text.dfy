/**
 * The Python string primitives the backend relies on: whitespace as `str.isspace`
 * and the regular-expression class `\s` see it, `str.strip()`, single-character
 * `str.replace`, and `str.split` on a one-character separator.
 */
module Text {

  /** Python's whitespace: the characters for which `str.isspace()` holds, which are
      also the characters `\s` matches in a `str` pattern and the ones `str.strip()`
      removes. ASCII 0x09-0x0D and 0x1C-0x1F, the space, and the Unicode spaces and
      line/paragraph separators. */
  predicate IsSpace(c: char) {
    || ('\t' <= c <= '\r')
    || ('\U{1C}' <= c <= '\U{1F}')
    || c == ' '
    || c == '\U{85}'
    || c == '\U{A0}'
    || c == '\U{1680}'
    || ('\U{2000}' <= c <= '\U{200A}')
    || c == '\U{2028}'
    || c == '\U{2029}'
    || c == '\U{202F}'
    || c == '\U{205F}'
    || c == '\U{3000}'
  }

  /** t[i..j] is a well-formed slice made of whitespace only. */
  predicate AllSpaceIn(t: string, i: nat, j: nat) {
    i <= j <= |t| && forall k :: i <= k < j ==> IsSpace(t[k])
  }

  /** The first position at or after i that is not whitespace, or |t|:
      where a greedy `\s*` starting at i has to stop. */
  function SkipSpace(t: string, i: nat): (j: nat)
    requires i <= |t|
    ensures AllSpaceIn(t, i, j)
    ensures j == |t| || !IsSpace(t[j])
    decreases |t| - i
  {
    if i < |t| && IsSpace(t[i]) then SkipSpace(t, i + 1) else i
  }

  /** A whitespace run that ends at a non-space (or the end) is the one SkipSpace finds. */
  lemma SkipSpaceUnique(t: string, i: nat, j: nat)
    requires AllSpaceIn(t, i, j)
    requires j == |t| || !IsSpace(t[j])
    ensures SkipSpace(t, i) == j
  {
  }

  /** A greedy `\s*` run stops at the latest at the first non-space. */
  lemma SkipSpaceStops(t: string, i: nat, j: nat)
    requires i <= j < |t| && !IsSpace(t[j])
    ensures SkipSpace(t, i) <= j
  {
  }

  /** The last position at or before j such that t[j'..j] is all whitespace:
      where Python's `strip` stops scanning from the right. */
  function SkipSpaceBack(t: string, j: nat): (i: nat)
    requires j <= |t|
    ensures AllSpaceIn(t, i, j)
    ensures i == 0 || !IsSpace(t[i - 1])
  {
    if 0 < j && IsSpace(t[j - 1]) then SkipSpaceBack(t, j - 1) else j
  }

  lemma SkipSpaceBackUnique(t: string, i: nat, j: nat)
    requires AllSpaceIn(t, i, j)
    requires i == 0 || !IsSpace(t[i - 1])
    ensures SkipSpaceBack(t, j) == i
  {
  }

  /** Neither the first nor the last character is whitespace. */
  predicate IsStripped(s: string) {
    |s| == 0 || (!IsSpace(s[0]) && !IsSpace(s[|s| - 1]))
  }

  /** r sits in s at offset i with only whitespace around it. */
  predicate TrimmedAt(s: string, r: string, i: nat) {
    i + |r| <= |s| && s[i..i + |r|] == r && AllSpaceIn(s, 0, i) && AllSpaceIn(s, i + |r|, |s|)
  }

  /** Python's `str.strip()` without arguments. */
  function Strip(s: string): (r: string)
    ensures IsStripped(r)
    ensures |r| <= |s|
  {
    var i := SkipSpace(s, 0);
    if i == |s| then []
    else
      var j := SkipSpaceBack(s, |s|);
      assert i < j;
      s[i..j]
  }

  /** What Strip removes is whitespace on both sides, and nothing else. */
  lemma StripTrims(s: string)
    ensures exists i :: TrimmedAt(s, Strip(s), i)
  {
    var i := SkipSpace(s, 0);
    if i == |s| {
      assert Strip(s) == [];
      assert TrimmedAt(s, [], 0);
    } else {
      var j := SkipSpaceBack(s, |s|);
      assert Strip(s) == s[i..j];
      assert TrimmedAt(s, s[i..j], i);
    }
  }

  /** Strip is the ONLY way to cut s into whitespace, a stripped core, whitespace. */
  lemma StripUnique(s: string, r: string, i: nat)
    requires IsStripped(r)
    requires TrimmedAt(s, r, i)
    ensures Strip(s) == r
  {
    if |r| == 0 {
      assert AllSpaceIn(s, 0, |s|) by {
        forall k | 0 <= k < |s| ensures IsSpace(s[k]) {
          if k >= i { assert AllSpaceIn(s, i + |r|, |s|); }
        }
      }
      SkipSpaceUnique(s, 0, |s|);
    } else {
      assert s[i] == r[0];
      assert s[i + |r| - 1] == r[|r| - 1];
      SkipSpaceUnique(s, 0, i);
      SkipSpaceBackUnique(s, i + |r|, |s|);
    }
  }

  /** A stripped string is its own strip. */
  lemma StripStripped(s: string)
    requires IsStripped(s)
    ensures Strip(s) == s
  {
    assert s[0..|s|] == s;
    StripUnique(s, s, 0);
  }

  /** A character absent from s is absent from its strip. */
  lemma StripKeepsAbsent(s: string, c: char)
    requires c !in s
    ensures c !in Strip(s)
  {
    var r := Strip(s);
    StripTrims(s);
    var i: nat :| TrimmedAt(s, r, i);
  }

  /** Python's `s.replace(from, to)` for one-character from and to. */
  function ReplaceChar(s: string, from: char, to: char): (r: string)
    ensures |r| == |s|
    ensures forall k :: 0 <= k < |s| ==> r[k] == (if s[k] == from then to else s[k])
  {
    if s == [] then [] else [if s[0] == from then to else s[0]] + ReplaceChar(s[1..], from, to)
  }

  /** Number of occurrences of c in s. */
  function Count(s: string, c: char): nat {
    if s == [] then 0 else (if s[0] == c then 1 else 0) + Count(s[1..], c)
  }

  /** Python's `s.split(sep)` for a one-character separator: the pieces between
      separators, empty ones included, so "" gives [""]. */
  function Split(s: string, sep: char): (pieces: seq<string>)
    ensures |pieces| == Count(s, sep) + 1
    ensures forall k :: 0 <= k < |pieces| ==> sep !in pieces[k]
  {
    if s == [] then [[]]
    else
      var rest := Split(s[1..], sep);
      if s[0] == sep then [[]] + rest else [[s[0]] + rest[0]] + rest[1..]
  }

  /** Python's `sep.join(pieces)`; joining no pieces gives "". */
  function Join(pieces: seq<string>, sep: char): string {
    if |pieces| == 0 then []
    else if |pieces| == 1 then pieces[0]
    else pieces[0] + [sep] + Join(pieces[1..], sep)
  }

  /** Joining the pieces of a split gives back the input. */
  lemma {:induction false} JoinSplit(s: string, sep: char)
    ensures Join(Split(s, sep), sep) == s
  {
    if s != [] {
      var rest := Split(s[1..], sep);
      JoinSplit(s[1..], sep);
      if s[0] == sep {
        assert Split(s, sep)[1..] == rest;
      } else {
        var ps := Split(s, sep);
        if |rest| == 1 {
          assert ps == [[s[0]] + rest[0]];
        } else {
          assert ps[1..] == rest[1..];
          assert Join(rest, sep) == rest[0] + [sep] + Join(rest[1..], sep);
        }
      }
    }
  }

  /** Splitting a separator-free prefix onto the pieces of the rest. */
  lemma {:induction false} SplitPrefix(p: string, rest: string, sep: char)
    requires sep !in p
    ensures var ps := Split(rest, sep);
            Split(p + rest, sep) == [p + ps[0]] + ps[1..]
  {
    var ps := Split(rest, sep);
    if p != [] {
      SplitPrefix(p[1..], rest, sep);
      assert (p + rest)[1..] == p[1..] + rest;
      var tail := Split(p[1..] + rest, sep);
      assert tail == [p[1..] + ps[0]] + ps[1..];
      assert [p[0]] + tail[0] == p + ps[0];
      assert tail[1..] == ps[1..];
    } else {
      assert p + rest == rest;
      assert p + ps[0] == ps[0];
      assert [ps[0]] + ps[1..] == ps;
    }
  }

  /** Splitting a join of separator-free pieces gives back the pieces. */
  lemma {:induction false} SplitJoin(pieces: seq<string>, sep: char)
    requires |pieces| >= 1
    requires forall k :: 0 <= k < |pieces| ==> sep !in pieces[k]
    ensures Split(Join(pieces, sep), sep) == pieces
  {
    if |pieces| == 1 {
      SplitPrefix(pieces[0], [], sep);
      assert pieces[0] + [] == pieces[0];
    } else {
      var tail := Join(pieces[1..], sep);
      SplitJoin(pieces[1..], sep);
      SplitPrefix(pieces[0], [sep] + tail, sep);
      assert pieces[0] + [sep] + tail == pieces[0] + ([sep] + tail);
      assert ([sep] + tail)[1..] == tail;
      assert Split([sep] + tail, sep) == [[]] + Split(tail, sep);
      assert pieces[0] + [] == pieces[0];
      assert [pieces[0]] + pieces[1..] == pieces;
    }
  }
}
