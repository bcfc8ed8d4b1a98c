/**
 * The pieces of Go's `strings` package that the envelope codec uses:
 * `Split` on a non-empty separator, `TrimSpace`, `TrimPrefix` and `ToUpper`.
 */
module Text {
  import opened Wrappers
  import opened Sequences

  // ---------------------------------------------------------------- search

  /** `sep` occurs in `s` starting at index `k`. */
  predicate OccursAt(s: string, sep: string, k: int) {
    0 <= k && k + |sep| <= |s| && s[k..k + |sep|] == sep
  }

  lemma OccursAtShift(s: string, sep: string, k: int)
    requires |s| > 0 && k >= 1
    ensures OccursAt(s, sep, k) <==> OccursAt(s[1..], sep, k - 1)
  {
    if k + |sep| <= |s| {
      assert s[1..][k - 1..k - 1 + |sep|] == s[k..k + |sep|];
    }
  }

  /** Go's `strings.Index`: the first occurrence of `sep` in `s`, if any. */
  function IndexOf(s: string, sep: string): (r: Option<nat>)
    requires |sep| > 0
    ensures r.Some? ==> OccursAt(s, sep, r.value)
    ensures r.Some? ==> forall k :: 0 <= k < r.value ==> !OccursAt(s, sep, k)
    ensures r.None? ==> forall k :: !OccursAt(s, sep, k)
    decreases |s|
  {
    if |s| < |sep| then None
    else if s[..|sep|] == sep then Some(0)
    else
      var tail := IndexOf(s[1..], sep);
      assert forall k :: k >= 1 ==> (OccursAt(s, sep, k) <==> OccursAt(s[1..], sep, k - 1)) by {
        forall k | k >= 1 { OccursAtShift(s, sep, k); }
      }
      assert !OccursAt(s, sep, 0);
      match tail
      case None => None
      case Some(i) => Some(i + 1)
  }

  /** The first occurrence is the one `IndexOf` reports. */
  lemma IndexOfFirst(s: string, sep: string, j: nat)
    requires |sep| > 0 && OccursAt(s, sep, j)
    requires forall k :: 0 <= k < j ==> !OccursAt(s, sep, k)
    ensures IndexOf(s, sep) == Some(j)
  {
    var r := IndexOf(s, sep);
    assert r.Some?;
  }

  predicate Contains(s: string, sep: string)
    requires |sep| > 0
  {
    IndexOf(s, sep).Some?
  }

  // ---------------------------------------------------------------- split

  /** The parts joined back with `sep` between neighbours: the inverse of `Split`. */
  function Join(parts: seq<string>, sep: string): string
    requires |parts| >= 1
  {
    if |parts| == 1 then parts[0] else parts[0] + sep + Join(parts[1..], sep)
  }

  /**
   * Go's `strings.Split(s, sep)` for a non-empty `sep`: cut at every occurrence,
   * scanning left to right without overlap.
   */
  function Split(s: string, sep: string): (parts: seq<string>)
    requires |sep| > 0
    ensures |parts| >= 1
    decreases |s|
  {
    match IndexOf(s, sep)
    case None => [s]
    case Some(i) => [s[..i]] + Split(s[i + |sep|..], sep)
  }

  /** Joining the parts with the separator gives the text back. */
  lemma {:induction false} SplitJoinsBack(s: string, sep: string)
    requires |sep| > 0
    ensures Join(Split(s, sep), sep) == s
    decreases |s|
  {
    match IndexOf(s, sep)
    case None =>
    case Some(i) =>
      var rest := s[i + |sep|..];
      var tail := Split(rest, sep);
      var parts := Split(s, sep);
      assert parts == [s[..i]] + tail;
      assert parts[1..] == tail;
      SplitJoinsBack(rest, sep);
      CutAt(s, sep, i);
  }

  /** Text with `sep` at `i` is what comes before, `sep`, and what comes after. */
  lemma CutAt(s: string, sep: string, i: nat)
    requires OccursAt(s, sep, i)
    ensures s == s[..i] + sep + s[i + |sep|..]
  {
    assert s == s[..i] + s[i..i + |sep|] + s[i + |sep|..];
  }

  /** No part contains the separator. */
  lemma {:induction false} SplitPartsLackSeparator(s: string, sep: string)
    requires |sep| > 0
    ensures forall p :: p in Split(s, sep) ==> !Contains(p, sep)
    decreases |s|
  {
    match IndexOf(s, sep)
    case None =>
      assert Split(s, sep) == [s];
    case Some(i) =>
      SplitPartsLackSeparator(s[i + |sep|..], sep);
      HeadLacksSeparator(s, sep, i);
      assert Split(s, sep) == [s[..i]] + Split(s[i + |sep|..], sep);
  }

  /** The text before the first occurrence of `sep` does not contain it. */
  lemma HeadLacksSeparator(s: string, sep: string, i: nat)
    requires |sep| > 0 && IndexOf(s, sep) == Some(i)
    ensures !Contains(s[..i], sep)
  {
    var head := s[..i];
    forall k | 0 <= k ensures !OccursAt(head, sep, k) {
      if k + |sep| <= |head| {
        assert !OccursAt(s, sep, k);
        assert head[k..k + |sep|] == s[k..k + |sep|];
      }
    }
  }

  /** `sep` does not occur in `p + sep` before the copy that follows `p`. */
  predicate CutsCleanly(p: string, sep: string)
    requires |sep| > 0
  {
    IndexOf(p + sep, sep) == Some(|p|)
  }

  lemma CutFirst(p: string, sep: string, rest: string)
    requires |sep| > 0 && CutsCleanly(p, sep)
    ensures IndexOf(p + sep + rest, sep) == Some(|p|)
  {
    var s := p + sep + rest;
    assert s[..|p| + |sep|] == p + sep;
    forall k | 0 <= k < |p|
      ensures !OccursAt(s, sep, k)
    {
      assert !OccursAt(p + sep, sep, k);
      assert s[k..k + |sep|] == (p + sep)[k..k + |sep|];
    }
    assert s[|p|..|p| + |sep|] == sep;
    IndexOfFirst(s, sep, |p|);
  }

  /** A cleanly cut first part is split off on its own. */
  lemma SplitCons(p: string, sep: string, rest: string)
    requires |sep| > 0 && CutsCleanly(p, sep)
    ensures Split(p + sep + rest, sep) == [p] + Split(rest, sep)
  {
    var s := p + sep + rest;
    CutFirst(p, sep, rest);
    assert s[..|p|] == p;
    assert s[|p| + |sep|..] == rest;
  }

  /** Splitting text that was joined from cleanly cut parts gives the parts back. */
  lemma {:induction false} SplitJoin(parts: seq<string>, sep: string)
    requires |sep| > 0 && |parts| >= 1
    requires forall i :: 0 <= i < |parts| - 1 ==> CutsCleanly(parts[i], sep)
    requires !Contains(parts[|parts| - 1], sep)
    ensures Split(Join(parts, sep), sep) == parts
    decreases |parts|
  {
    if |parts| == 1 {
      assert IndexOf(parts[0], sep).None?;
    } else {
      var tail := parts[1..];
      assert forall i :: 0 <= i < |tail| - 1 ==> tail[i] == parts[i + 1];
      SplitJoin(tail, sep);
      SplitCons(parts[0], sep, Join(tail, sep));
      HeadTail(parts);
    }
  }

  // ---------------------------------------------------------------- trimming

  /** Go's `unicode.IsSpace`. */
  predicate IsSpace(c: char) {
    c == '\t' || c == '\n' || c == '\U{000B}' || c == '\U{000C}' || c == '\r' || c == ' '
    || c == '\U{0085}' || c == '\U{00A0}' || c == '\U{1680}'
    || ('\U{2000}' <= c <= '\U{200A}')
    || c == '\U{2028}' || c == '\U{2029}' || c == '\U{202F}' || c == '\U{205F}' || c == '\U{3000}'
  }

  predicate IsTrimmed(s: string) {
    s == [] || (!IsSpace(s[0]) && !IsSpace(s[|s| - 1]))
  }

  predicate AllSpace(s: string) {
    forall i :: 0 <= i < |s| ==> IsSpace(s[i])
  }

  /** How many white-space characters `s` starts with. */
  function LeadingSpace(s: string): (n: nat)
    ensures n <= |s| && AllSpace(s[..n])
    ensures n < |s| ==> !IsSpace(s[n])
  {
    if s != [] && IsSpace(s[0]) then
      var m := LeadingSpace(s[1..]);
      assert forall i :: 1 <= i < m + 1 ==> s[i] == s[1..][i - 1];
      m + 1
    else 0
  }

  /** The length of `s` without its trailing white space. */
  function TrailingStart(s: string): (n: nat)
    ensures n <= |s| && AllSpace(s[n..])
    ensures n > 0 ==> !IsSpace(s[n - 1])
  {
    if s != [] && IsSpace(s[|s| - 1]) then
      var n := TrailingStart(s[..|s| - 1]);
      assert forall i :: n <= i < |s| - 1 ==> s[i] == s[..|s| - 1][i];
      n
    else |s|
  }

  /** Go's `strings.TrimSpace`: white space is dropped from both ends and nothing else. */
  function TrimSpace(s: string): (r: string)
    ensures IsTrimmed(r)
  {
    var i := LeadingSpace(s);
    var t := s[i..];
    t[..TrailingStart(t)]
  }

  /** `TrimSpace` keeps a slice of its input and cuts only white space on either side of it. */
  lemma TrimSpaceCutsOnlySpace(s: string)
    ensures exists i, j :: 0 <= i <= j <= |s| && TrimSpace(s) == s[i..j] && AllSpace(s[..i]) && AllSpace(s[j..])
  {
    var i := LeadingSpace(s);
    var t := s[i..];
    var j := TrailingStart(t);
    assert t[..j] == s[i..i + j];
    assert s[i + j..] == t[j..];
  }

  lemma {:induction false} LeadingSpaceOfPadded(pre: string, t: string)
    requires AllSpace(pre)
    ensures LeadingSpace(pre + t) == |pre| + LeadingSpace(t)
    decreases |pre|
  {
    if pre == [] {
      assert pre + t == t;
    } else {
      assert (pre + t)[1..] == pre[1..] + t;
      LeadingSpaceOfPadded(pre[1..], t);
    }
  }

  lemma {:induction false} TrailingStartOfPadded(t: string, post: string)
    requires AllSpace(post)
    ensures TrailingStart(t + post) == TrailingStart(t)
    decreases |post|
  {
    if post == [] {
      assert t + post == t;
    } else {
      var shorter := post[..|post| - 1];
      assert (t + post)[..|t + post| - 1] == t + shorter;
      TrailingStartOfPadded(t, shorter);
    }
  }

  /** White space around already trimmed text is exactly what `TrimSpace` removes. */
  lemma TrimSpaceOfPadded(pre: string, s: string, post: string)
    requires AllSpace(pre) && AllSpace(post) && IsTrimmed(s)
    ensures TrimSpace(pre + s + post) == s
  {
    Associative(pre, s, post);
    TrimSpaceSkipsLeading(pre, s + post);
    TrimmedFront(s, post);
  }

  /** Leading white space makes no difference to `TrimSpace`. */
  lemma TrimSpaceSkipsLeading(pre: string, t: string)
    requires AllSpace(pre)
    ensures TrimSpace(pre + t) == TrimSpace(t)
  {
    LeadingSpaceOfPadded(pre, t);
    var r := t[LeadingSpace(t)..];
    assert (pre + t)[LeadingSpace(pre + t)..] == r;
    assert TrimSpace(t) == r[..TrailingStart(r)];
  }

  /** Trailing white space after trimmed text is all that `TrimSpace` removes from it. */
  lemma TrimmedFront(s: string, post: string)
    requires AllSpace(post) && IsTrimmed(s)
    ensures TrimSpace(s + post) == s
  {
    var rest := s + post;
    if s == [] {
      assert rest == post + [];
      LeadingSpaceOfPadded(post, []);
    } else {
      assert rest[0] == s[0];
      assert LeadingSpace(rest) == 0;
      assert rest[0..] == rest;
      TrailingStartOfPadded(s, post);
      assert rest[..|s|] == s;
    }
  }

  /** Go's `strings.TrimPrefix`. */
  function TrimPrefix(s: string, prefix: string): (r: string)
    ensures prefix <= s ==> prefix + r == s
    ensures !(prefix <= s) ==> r == s
  {
    if prefix <= s then s[|prefix|..] else s
  }

  /** The prefix a text was built with is exactly what `TrimPrefix` removes. */
  lemma TrimPrefixOfJoin(prefix: string, rest: string)
    ensures TrimPrefix(prefix + rest, prefix) == rest
  {
    assert prefix <= prefix + rest;
    assert (prefix + rest)[|prefix|..] == rest;
  }


  // ---------------------------------------------------------------- case

  /** Upper-case mapping of one character (ASCII letters only). */
  function UpperChar(c: char): (u: char)
    ensures u == '-' <==> c == '-'
    ensures IsSpace(u) <==> IsSpace(c)
  {
    if 'a' <= c <= 'z' then (c as int - 32) as char else c
  }

  /** Go's `strings.ToUpper`, for ASCII letters. */
  function ToUpper(s: string): (r: string)
    ensures |r| == |s|
    ensures forall i :: 0 <= i < |s| ==> r[i] == UpperChar(s[i])
  {
    if s == [] then [] else [UpperChar(s[0])] + ToUpper(s[1..])
  }

  predicate IsUpper(s: string) {
    ToUpper(s) == s
  }
}
