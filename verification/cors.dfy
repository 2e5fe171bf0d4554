/**
 * The `allow_origins` list that `create_app` hands to the CORS middleware,
 * computed from the `BACKEND_CORS_ORIGINS` setting.
 */
module Cors {
  import opened Text

  /** `o.strip()` for every piece. */
  function StripEach(pieces: seq<string>): seq<string> {
    seq(|pieces|, k requires 0 <= k < |pieces| => Strip(pieces[k]))
  }

  /** The non-empty texts of xs, in order: the `if o.strip()` filter. */
  function NonEmpty(xs: seq<string>): (r: seq<string>)
    ensures |r| <= |xs|
    ensures forall k :: 0 <= k < |r| ==> r[k] != []
  {
    if xs == [] then []
    else
      var rest := NonEmpty(xs[1..]);
      if xs[0] != [] then [xs[0]] + rest else rest
  }

  /** The indices, from i on, of the non-empty texts of xs, in increasing order. */
  function NonEmptyFrom(xs: seq<string>, i: nat): seq<nat>
    requires i <= |xs|
    decreases |xs| - i
  {
    if i == |xs| then []
    else
      var rest := NonEmptyFrom(xs, i + 1);
      if xs[i] != [] then [i] + rest else rest
  }

  /** The indices are in range, increasing, and pick non-empty texts only. */
  lemma {:induction false} NonEmptyFromSound(xs: seq<string>, i: nat)
    requires i <= |xs|
    ensures var idx := NonEmptyFrom(xs, i);
            && (forall k :: 0 <= k < |idx| ==> i <= idx[k] < |xs| && xs[idx[k]] != [])
            && (forall k, k' :: 0 <= k < k' < |idx| ==> idx[k] < idx[k'])
    decreases |xs| - i
  {
    if i < |xs| {
      NonEmptyFromSound(xs, i + 1);
      NonEmptyFromStep(xs, i);
    }
  }

  /** One step of NonEmptyFrom. */
  lemma NonEmptyFromStep(xs: seq<string>, i: nat)
    requires i < |xs|
    ensures NonEmptyFrom(xs, i) == (if xs[i] != [] then [i] else []) + NonEmptyFrom(xs, i + 1)
  {
    var rest := NonEmptyFrom(xs, i + 1);
    if xs[i] == [] {
      assert [] + rest == rest;
    }
  }

  /** No non-empty text from i on is skipped. */
  lemma {:induction false} NonEmptyFromComplete(xs: seq<string>, i: nat, j: nat)
    requires i <= j < |xs| && xs[j] != []
    ensures j in NonEmptyFrom(xs, i)
    decreases j - i
  {
    var idx := NonEmptyFrom(xs, i);
    var rest := NonEmptyFrom(xs, i + 1);
    NonEmptyFromStep(xs, i);
    if i == j {
      assert idx[0] == j;
    } else {
      NonEmptyFromComplete(xs, i + 1, j);
      var k :| 0 <= k < |rest| && rest[k] == j;
      if xs[i] != [] {
        assert idx[k + 1] == j;
      } else {
        assert idx[k] == j;
      }
    }
  }

  /** The k-th kept text is the text at the k-th non-empty index. */
  lemma {:induction false} NonEmptyFollows(xs: seq<string>, i: nat)
    requires i <= |xs|
    ensures var r := NonEmpty(xs[i..]);
            var idx := NonEmptyFrom(xs, i);
            && |idx| == |r|
            && forall k :: 0 <= k < |r| ==> idx[k] < |xs| && r[k] == xs[idx[k]]
    decreases |xs| - i
  {
    if i < |xs| {
      NonEmptyFollows(xs, i + 1);
      assert xs[i..][1..] == xs[i + 1..];
      assert xs[i..][0] == xs[i];
      NonEmptyFromStep(xs, i);
    }
  }

  /** `[o.strip() for o in pieces if o.strip()]`: the comprehension keeps the
      stripped pieces that are not empty, and each of them is a stripped piece. */
  function StripNonBlank(pieces: seq<string>): (r: seq<string>)
    ensures |r| <= |pieces|
    ensures forall k :: 0 <= k < |r| ==> r[k] != [] && IsStripped(r[k])
    ensures forall k :: 0 <= k < |r| ==> exists j :: 0 <= j < |pieces| && r[k] == Strip(pieces[j])
  {
    var xs := StripEach(pieces);
    NonEmptyFollows(xs, 0);
    NonEmptyFromSound(xs, 0);
    assert xs[0..] == xs;
    var r := NonEmpty(xs);
    assert forall k :: 0 <= k < |r| ==> r[k] == Strip(pieces[NonEmptyFrom(xs, 0)[k]]);
    r
  }

  /** `allow_origins` (main.py lines 13-20). */
  function AllowOrigins(setting: string): (origins: seq<string>)
    ensures Strip(setting) == "*" ==> origins == ["*"]
    ensures forall k :: 0 <= k < |origins| ==> origins[k] != [] && IsStripped(origins[k])
    ensures forall k :: 0 <= k < |origins| ==> ',' !in origins[k]
    ensures |origins| <= Count(setting, ',') + 1
  {
    if Strip(setting) == "*" then ["*"]
    else
      var pieces := Split(setting, ',');
      var r := StripNonBlank(pieces);
      forall k | 0 <= k < |r|
        ensures ',' !in r[k]
      {
        var j :| 0 <= j < |pieces| && r[k] == Strip(pieces[j]);
        StripKeepsAbsent(pieces[j], ',');
      }
      r
  }

  /** Apart from the wildcard, the origins are exactly the non-blank pieces between
      commas, stripped, in the order they appear in the setting. */
  lemma OriginsFollowSetting(setting: string)
    requires Strip(setting) != "*"
    ensures var pieces := Split(setting, ',');
            var origins := AllowOrigins(setting);
            var idx := NonEmptyFrom(StripEach(pieces), 0);
            && Join(pieces, ',') == setting
            && |idx| == |origins|
            && (forall k :: 0 <= k < |origins| ==> idx[k] < |pieces| && origins[k] == Strip(pieces[idx[k]]))
            && (forall k, k' :: 0 <= k < k' < |idx| ==> idx[k] < idx[k'])
            && (forall j :: 0 <= j < |pieces| && Strip(pieces[j]) != [] ==> j in idx)
  {
    var pieces := Split(setting, ',');
    var xs := StripEach(pieces);
    JoinSplit(setting, ',');
    NonEmptyFollows(xs, 0);
    NonEmptyFromSound(xs, 0);
    assert xs[0..] == xs;
    forall j | 0 <= j < |pieces| && Strip(pieces[j]) != []
      ensures j in NonEmptyFrom(xs, 0)
    {
      assert xs[j] == Strip(pieces[j]);
      NonEmptyFromComplete(xs, 0, j);
    }
  }
}
