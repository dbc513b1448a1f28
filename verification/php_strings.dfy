/**
 * The two PHP string built-ins the reserver's description relies on:
 * `trim` with its default character list, and `implode`.
 */
module PhpStrings {

  /** True for the characters PHP's `trim` strips when given no character list:
      space, tab, line feed, carriage return, NUL and vertical tab. */
  predicate IsTrimChar(c: char) {
    c in TrimChars
  }

  /** PHP's default `trim` character list " \t\n\r\0\x0B". */
  const TrimChars: set<char> := {' ', '\t', '\n', '\r', '\0', '\U{000B}'}

  /** Every character of `s` is one `trim` would strip. */
  predicate AllTrimChars(s: string) {
    forall i :: 0 <= i < |s| ==> IsTrimChar(s[i])
  }

  /** A string is a run of strippable characters exactly when both of its
      parts are. */
  lemma AllTrimCharsConcat(a: string, b: string)
    ensures AllTrimChars(a + b) <==> AllTrimChars(a) && AllTrimChars(b)
  {
    if AllTrimChars(a) && AllTrimChars(b) {
      forall i | 0 <= i < |a + b|
        ensures IsTrimChar((a + b)[i])
      {
        if i >= |a| { assert (a + b)[i] == b[i - |a|]; }
      }
    }
    if AllTrimChars(a + b) {
      forall i | 0 <= i < |a|
        ensures IsTrimChar(a[i])
      {
        assert (a + b)[i] == a[i];
      }
      forall i | 0 <= i < |b|
        ensures IsTrimChar(b[i])
      {
        assert (a + b)[|a| + i] == b[i];
      }
    }
  }

  /** `s` neither starts nor ends with a strippable character. */
  predicate IsTrimmed(s: string) {
    |s| > 0 ==> !IsTrimChar(s[0]) && !IsTrimChar(s[|s| - 1])
  }

  /** Scanning forward from `i`, the position of the first character that is
      not strippable, or `|s|` if there is none. */
  function LeadingEnd(s: string, i: nat): (n: nat)
    requires i <= |s|
    ensures i <= n <= |s|
    ensures forall k :: i <= k < n ==> IsTrimChar(s[k])
    ensures n < |s| ==> !IsTrimChar(s[n])
    decreases |s| - i
  {
    if i < |s| && IsTrimChar(s[i]) then LeadingEnd(s, i + 1) else i
  }

  /** Scanning backward from `j`, the position just after the last character
      before `j` that is not strippable, or 0 if there is none. */
  function TrailingStart(s: string, j: nat): (n: nat)
    requires j <= |s|
    ensures n <= j
    ensures forall k :: n <= k < j ==> IsTrimChar(s[k])
    ensures n > 0 ==> !IsTrimChar(s[n - 1])
    decreases j
  {
    if j > 0 && IsTrimChar(s[j - 1]) then TrailingStart(s, j - 1) else j
  }

  /** `ltrim`: drops the longest prefix made only of strippable characters. */
  function TrimLeft(s: string): (r: string)
    ensures |r| <= |s| && r == s[|s| - |r|..]
    ensures AllTrimChars(s[..|s| - |r|])
    ensures |r| > 0 ==> !IsTrimChar(r[0])
  {
    s[LeadingEnd(s, 0)..]
  }

  /** `rtrim`: drops the longest suffix made only of strippable characters. */
  function TrimRight(s: string): (r: string)
    ensures |r| <= |s| && r == s[..|r|]
    ensures AllTrimChars(s[|r|..])
    ensures |r| > 0 ==> !IsTrimChar(r[|r| - 1])
  {
    s[..TrailingStart(s, |s|)]
  }

  /** PHP `trim($s)`: strips strippable characters from both ends, so the
      result neither starts nor ends with one. */
  function Trim(s: string): (r: string)
    ensures |r| <= |s|
    ensures IsTrimmed(r)
  {
    TrimRight(TrimLeft(s))
  }

  /** What `trim` removes is strippable: `s` is a strippable prefix, then
      `Trim(s)`, then a strippable suffix. */
  lemma TrimDecomposes(s: string)
    ensures exists lo :: 0 <= lo <= |s| - |Trim(s)|
                         && s == s[..lo] + Trim(s) + s[lo + |Trim(s)|..]
                         && AllTrimChars(s[..lo]) && AllTrimChars(s[lo + |Trim(s)|..])
  {
    var l := TrimLeft(s);
    var r := TrimRight(l);
    var lo := |s| - |l|;
    var hi := lo + |r|;
    assert r == s[lo..hi];
    assert l[|r|..] == s[hi..];
    assert s == s[..lo] + s[lo..hi] + s[hi..];
    assert s == s[..lo] + r + s[hi..];
  }

  /** The forward scan stops exactly at the end of any strippable run that is
      followed by a non-strippable character or the end of the string. */
  lemma LeadingEndIs(s: string, i: nat, n: nat)
    requires i <= n <= |s|
    requires forall k :: i <= k < n ==> IsTrimChar(s[k])
    requires n < |s| ==> !IsTrimChar(s[n])
    ensures LeadingEnd(s, i) == n
  {
  }

  /** The backward scan stops exactly at the start of any strippable run that
      is preceded by a non-strippable character or the start of the string. */
  lemma TrailingStartIs(s: string, j: nat, n: nat)
    requires n <= j <= |s|
    requires forall k :: n <= k < j ==> IsTrimChar(s[k])
    requires n > 0 ==> !IsTrimChar(s[n - 1])
    ensures TrailingStart(s, j) == n
  {
  }

  /** A strippable prefix in front of a part that starts with a non-strippable
      character (or is empty) is exactly what `ltrim` removes. */
  lemma TrimLeftSkipsPrefix(p: string, t: string)
    requires AllTrimChars(p)
    requires |t| > 0 ==> !IsTrimChar(t[0])
    ensures TrimLeft(p + t) == t
  {
    var s := p + t;
    LeadingEndIs(s, 0, |p|);
    assert s[|p|..] == t;
  }

  /** A strippable suffix behind a part that ends with a non-strippable
      character (or is empty) is exactly what `rtrim` removes. */
  lemma TrimRightSkipsSuffix(t: string, q: string)
    requires AllTrimChars(q)
    requires |t| > 0 ==> !IsTrimChar(t[|t| - 1])
    ensures TrimRight(t + q) == t
  {
    var s := t + q;
    TrailingStartIs(s, |s|, |t|);
    assert s[..|t|] == t;
  }

  /** `ltrim` only looks at the front: appending a part that starts with a
      non-strippable character passes through unchanged. */
  lemma TrimLeftAppend(p: string, t: string)
    requires |t| > 0 && !IsTrimChar(t[0])
    ensures TrimLeft(p + t) == TrimLeft(p) + t
  {
    var s := p + t;
    var n := LeadingEnd(p, 0);
    LeadingEndIs(s, 0, n);
    assert s[n..] == p[n..] + t;
  }

  /** The decomposition `Trim` reports is unique: whenever `s` is a strippable
      prefix, a trimmed middle and a strippable suffix, `Trim(s)` is that middle. */
  lemma TrimUnique(p: string, m: string, q: string)
    requires AllTrimChars(p) && AllTrimChars(q) && IsTrimmed(m)
    ensures Trim(p + m + q) == m
  {
    if |m| > 0 {
      assert (m + q)[0] == m[0];
      assert p + m + q == p + (m + q);
      TrimLeftSkipsPrefix(p, m + q);
      TrimRightSkipsSuffix(m, q);
    } else {
      assert p + m + q == p + q;
      AllTrimCharsConcat(p, q);
      TrimLeftSkipsPrefix(p + q, "");
      assert p + q + "" == p + q;
      TrimRightSkipsSuffix("", "");
    }
  }

  /** `trim` is idempotent. */
  lemma TrimIdempotent(s: string)
    ensures Trim(Trim(s)) == Trim(s)
  {
    var t := Trim(s);
    assert "" + t + "" == t;
    TrimUnique("", t, "");
  }

  /** A string with strippable characters at neither end is left alone by `trim`. */
  lemma TrimOfTrimmed(s: string)
    requires IsTrimmed(s)
    ensures Trim(s) == s
  {
    assert "" + s + "" == s;
    TrimUnique("", s, "");
  }

  /** PHP `implode($sep, $parts)`: the parts in order, separated by `sep`.
      Its length is the parts' total length plus one separator between each
      pair of neighbouring parts. */
  function Join(sep: string, parts: seq<string>): (r: string)
    ensures |parts| == 0 ==> |r| == 0
    ensures |parts| > 0 ==> |r| == TotalLength(parts) + |sep| * (|parts| - 1)
    decreases |parts|
  {
    if |parts| == 0 then ""
    else if |parts| == 1 then parts[0]
    else
      var rest := Join(sep, parts[1..]);
      assert |sep| * (|parts| - 1) == |sep| + |sep| * (|parts| - 2);
      parts[0] + sep + rest
  }

  /** Total length of a sequence of strings. */
  function TotalLength(parts: seq<string>): nat
    decreases |parts|
  {
    if |parts| == 0 then 0 else |parts[0]| + TotalLength(parts[1..])
  }

  /** Where part `i` starts in `implode(sep, parts)`: behind every earlier
      part, each followed by one separator. */
  function PartOffset(sep: string, parts: seq<string>, i: nat): nat
    requires i <= |parts|
    decreases i
  {
    if i == 0 then 0 else |parts[0]| + |sep| + PartOffset(sep, parts[1..], i - 1)
  }

  /** In closed form, part `i` starts after the total length of the parts
      before it and `i` separators. */
  lemma {:induction false} PartOffsetClosedForm(sep: string, parts: seq<string>, i: nat)
    requires i <= |parts|
    ensures PartOffset(sep, parts, i) == TotalLength(parts[..i]) + i * |sep|
    decreases i
  {
    if i > 0 {
      PartOffsetClosedForm(sep, parts[1..], i - 1);
      assert parts[..i][1..] == parts[1..][..i - 1];
      assert i * |sep| == (i - 1) * |sep| + |sep|;
    }
  }

  /** `s` occurs in `j` starting at position `o`. */
  predicate PlacedAt(j: string, s: string, o: nat) {
    o + |s| <= |j| && j[o..o + |s|] == s
  }

  /** What occurs in `b` also occurs in `a + b`, shifted by `|a|`. */
  lemma PlacedBehind(a: string, b: string, s: string, o: nat)
    requires PlacedAt(b, s, o)
    ensures PlacedAt(a + b, s, |a| + o)
  {
    assert (a + b)[|a| + o..|a| + o + |s|] == b[o..o + |s|];
  }

  /** `implode` keeps every part, in order, at its offset, and puts a
      separator right after every part but the last. With the length in
      `Join`'s contract this determines the result completely. */
  lemma {:induction false} JoinPlacesParts(sep: string, parts: seq<string>, i: nat)
    requires i < |parts|
    ensures PlacedAt(Join(sep, parts), parts[i], PartOffset(sep, parts, i))
    ensures i + 1 < |parts| ==> PlacedAt(Join(sep, parts), sep, PartOffset(sep, parts, i) + |parts[i]|)
    decreases |parts|
  {
    if i == 0 {
      JoinFirstPart(sep, parts);
    } else {
      var tail := parts[1..];
      var head := parts[0] + sep;
      var rest := Join(sep, tail);
      JoinPlacesParts(sep, tail, i - 1);
      var o' := PartOffset(sep, tail, i - 1);
      assert tail[i - 1] == parts[i];
      JoinUnfold(sep, parts);
      PlacedBehind(head, rest, parts[i], o');
      if i + 1 < |parts| {
        PlacedBehind(head, rest, sep, o' + |parts[i]|);
      }
    }
  }

  /** `implode` of two or more parts: the first part and a separator, then
      `implode` of the rest. */
  lemma JoinUnfold(sep: string, parts: seq<string>)
    requires 1 < |parts|
    ensures Join(sep, parts) == (parts[0] + sep) + Join(sep, parts[1..])
  {
  }

  /** The first part starts `implode`'s result and, if more follow, a
      separator comes right after it. */
  lemma JoinFirstPart(sep: string, parts: seq<string>)
    requires 0 < |parts|
    ensures PlacedAt(Join(sep, parts), parts[0], 0)
    ensures 1 < |parts| ==> PlacedAt(Join(sep, parts), sep, |parts[0]|)
  {
    if |parts| > 1 {
      var j := Join(sep, parts);
      assert j == parts[0] + sep + Join(sep, parts[1..]);
      assert j[..|parts[0]|] == parts[0];
      assert j[|parts[0]|..|parts[0]| + |sep|] == sep;
    }
  }

  /** `implode` of a concatenation is the two implodes glued by one separator. */
  lemma {:induction false} JoinAppend(sep: string, xs: seq<string>, ys: seq<string>)
    requires |xs| > 0 && |ys| > 0
    ensures Join(sep, xs + ys) == Join(sep, xs) + sep + Join(sep, ys)
    decreases |xs|
  {
    if |xs| == 1 {
      assert (xs + ys)[1..] == ys;
    } else {
      assert (xs + ys)[1..] == xs[1..] + ys;
      JoinAppend(sep, xs[1..], ys);
    }
  }
}
