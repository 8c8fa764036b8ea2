/**
 * The few .NET string operations the plugin relies on, with ordinal
 * (char-by-char) semantics:
 *  - `string.IsNullOrWhiteSpace`, over the fixed set of characters for which
 *    `char.IsWhiteSpace` holds;
 *  - `string.EndsWith(string)`, as an ordinal suffix test;
 *  - `string.Replace(string, string)`, which replaces every non-overlapping
 *    occurrence found by a left-to-right scan.
 * `Split` and `Join` give an independent description of `Replace`.
 */
module Text {
  import opened Wrappers

  /** The characters `char.IsWhiteSpace` accepts: the Unicode categories
      Zs, Zl and Zp, plus U+0009..U+000D and U+0085. */
  predicate IsWhiteSpace(c: char) {
    || ('\U{0009}' <= c <= '\U{000D}')
    || c == '\U{0020}'
    || c == '\U{0085}'
    || c == '\U{00A0}'
    || c == '\U{1680}'
    || ('\U{2000}' <= c <= '\U{200A}')
    || c == '\U{2028}'
    || c == '\U{2029}'
    || c == '\U{202F}'
    || c == '\U{205F}'
    || c == '\U{3000}'
  }

  /** `string.IsNullOrWhiteSpace`: null, empty, or only white space. */
  predicate IsNullOrWhiteSpace(s: Option<string>) {
    match s
    case None => true
    case Some(t) => forall i :: 0 <= i < |t| ==> IsWhiteSpace(t[i])
  }

  /** Ordinal `s.StartsWith(p)`. */
  predicate StartsWith(s: string, p: string) {
    |p| <= |s| && s[..|p|] == p
  }

  /** A string with at least one character that is not white space. */
  predicate HasVisibleChar(t: string) {
    exists i :: 0 <= i < |t| && !IsWhiteSpace(t[i])
  }

  /** `IsNullOrWhiteSpace` is false exactly for a non-null string with a
      visible character. */
  lemma NotBlankIffVisible(s: Option<string>)
    ensures !IsNullOrWhiteSpace(s) <==> s.Some? && HasVisibleChar(s.value)
  {
  }

  /** Ordinal `s.EndsWith(p)`. */
  predicate EndsWith(s: string, p: string) {
    |p| <= |s| && s[|s| - |p|..] == p
  }

  /** `s` ends with `p` exactly when `s` is some string followed by `p`. */
  lemma EndsWithIffAppended(s: string, p: string)
    ensures EndsWith(s, p) <==> exists t :: t + p == s
  {
    if EndsWith(s, p) {
      assert s[..|s| - |p|] + p == s;
    }
    if exists t :: t + p == s {
      var t :| t + p == s;
      assert s[|s| - |p|..] == p;
    }
  }

  /** `p` occurs somewhere in `s`. */
  predicate Contains(s: string, p: string) {
    exists i :: 0 <= i <= |s| - |p| && StartsWith(s[i..], p)
  }

  /** `s.Replace(p, r)`: scanning left to right, every occurrence of `p` that
      does not overlap an earlier replaced one becomes `r`. .NET rejects an
      empty `p`. */
  function Replace(s: string, p: string, r: string): (t: string)
    requires p != []
    ensures |r| <= |p| ==> |t| <= |s|
    decreases |s|
  {
    if |s| < |p| then s
    else if StartsWith(s, p) then r + Replace(s[|p|..], p, r)
    else [s[0]] + Replace(s[1..], p, r)
  }

  /** The pieces of `s` between the occurrences of `p` that the same
      left-to-right scan finds; there is always at least one piece. */
  function Split(s: string, p: string): (pieces: seq<string>)
    requires p != []
    ensures |pieces| >= 1
    decreases |s|
  {
    if |s| < |p| then [s]
    else if StartsWith(s, p) then [[]] + Split(s[|p|..], p)
    else
      var rest := Split(s[1..], p);
      [[s[0]] + rest[0]] + rest[1..]
  }

  /** The pieces, with `sep` between each two neighbours. */
  function Join(pieces: seq<string>, sep: string): string
    requires |pieces| >= 1
  {
    if |pieces| == 1 then pieces[0] else pieces[0] + sep + Join(pieces[1..], sep)
  }

  /** Replacing is splitting at the occurrences and joining with the
      replacement. */
  lemma {:induction false} ReplaceIsJoinOfSplit(s: string, p: string, r: string)
    requires p != []
    ensures Replace(s, p, r) == Join(Split(s, p), r)
    decreases |s|
  {
    if |s| < |p| {
    } else if StartsWith(s, p) {
      ReplaceIsJoinOfSplit(s[|p|..], p, r);
    } else {
      ReplaceIsJoinOfSplit(s[1..], p, r);
      var rest := Split(s[1..], p);
      if |rest| > 1 {
        assert ([[s[0]] + rest[0]] + rest[1..])[1..] == rest[1..];
      }
    }
  }

  /** Replacing `p` by itself changes nothing. */
  lemma {:induction false} ReplaceBySelf(s: string, p: string)
    requires p != []
    ensures Replace(s, p, p) == s
    decreases |s|
  {
    if |s| < |p| {
    } else if StartsWith(s, p) {
      ReplaceBySelf(s[|p|..], p);
      assert s == s[..|p|] + s[|p|..];
    } else {
      ReplaceBySelf(s[1..], p);
      assert s == [s[0]] + s[1..];
    }
  }

  /** Splitting at `p` and joining with `p` gives back the original. */
  lemma JoinSplitRoundTrip(s: string, p: string)
    requires p != []
    ensures Join(Split(s, p), p) == s
  {
    ReplaceIsJoinOfSplit(s, p, p);
    ReplaceBySelf(s, p);
  }

  /** The first piece is where `s` starts. */
  lemma {:induction false} FirstPieceIsPrefix(s: string, p: string)
    requires p != []
    ensures |Split(s, p)[0]| <= |s| && Split(s, p)[0] == s[..|Split(s, p)[0]|]
    decreases |s|
  {
    if |s| < |p| {
    } else if StartsWith(s, p) {
    } else {
      FirstPieceIsPrefix(s[1..], p);
    }
  }

  /** No piece contains `p`: the scan leaves no occurrence inside a piece. */
  lemma {:induction false} PiecesAreFree(s: string, p: string)
    requires p != []
    ensures forall k :: 0 <= k < |Split(s, p)| ==> !Contains(Split(s, p)[k], p)
    decreases |s|
  {
    var pieces := Split(s, p);
    if |s| < |p| {
      assert pieces == [s];
    } else if StartsWith(s, p) {
      PiecesAreFree(s[|p|..], p);
      assert forall k :: 1 <= k < |pieces| ==> pieces[k] == Split(s[|p|..], p)[k - 1];
    } else {
      var rest := Split(s[1..], p);
      PiecesAreFree(s[1..], p);
      FirstPieceIsPrefix(s[1..], p);
      HeadPieceFree(s, p, rest[0]);
      assert pieces[0] == [s[0]] + rest[0];
      assert forall k :: 1 <= k < |pieces| ==> pieces[k] == rest[k];
    }
  }

  /** A first character that starts no occurrence, followed by an
      occurrence-free prefix of the rest, is occurrence-free. */
  lemma HeadPieceFree(s: string, p: string, t: string)
    requires p != [] && |s| >= 1 && !StartsWith(s, p)
    requires |t| < |s| && t == s[1..][..|t|] && !Contains(t, p)
    ensures !Contains([s[0]] + t, p)
  {
    var head := [s[0]] + t;
    assert head == s[..|head|];
    forall i | 0 <= i <= |head| - |p|
      ensures !StartsWith(head[i..], p)
    {
      if i == 0 {
        assert head[..|p|] == s[..|p|];
      } else {
        assert head[i..] == t[i - 1..];
      }
    }
  }

  /** No occurrence of `p` starts at any of the first `n` positions of `s`
      (an occurrence may still run on past position `n`). */
  predicate NoOccurrenceBefore(s: string, p: string, n: nat)
    requires n <= |s|
  {
    forall i :: 0 <= i < n ==> !StartsWith(s[i..], p)
  }

  /** Characters at which no occurrence starts are passed through. */
  lemma {:induction false} ReplaceSkip(a: string, b: string, p: string, r: string)
    requires p != [] && NoOccurrenceBefore(a + b, p, |a|)
    ensures Replace(a + b, p, r) == a + Replace(b, p, r)
    decreases |a|
  {
    var s := a + b;
    if a == [] {
      assert s == b;
    } else if |s| < |p| {
      assert |b| < |p|;
      assert Replace(b, p, r) == b;
    } else {
      assert s[0..] == s;
      assert !StartsWith(s, p);
      assert s[1..] == a[1..] + b;
      assert NoOccurrenceBefore(a[1..] + b, p, |a| - 1) by {
        forall i | 0 <= i < |a| - 1
          ensures !StartsWith((a[1..] + b)[i..], p)
        {
          assert (a[1..] + b)[i..] == s[i + 1..];
        }
      }
      ReplaceSkip(a[1..], b, p, r);
      assert a == [a[0]] + a[1..];
      assert Replace(s, p, r) == [s[0]] + Replace(s[1..], p, r);
    }
  }

  /** An occurrence at the front is replaced. */
  lemma ReplaceHit(b: string, p: string, r: string)
    requires p != []
    ensures Replace(p + b, p, r) == r + Replace(b, p, r)
  {
  }
}
