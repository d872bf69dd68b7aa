/** The regular-expression idioms the core applies to plain strings, written
    out as functions: a list of patterns tried in order, `re.search` (the
    leftmost start at which an anchored matcher succeeds) and
    `re.sub(pattern, '', s)` (every non-overlapping match removed, left to
    right). The fixed patterns of the core are hand-written anchored matchers;
    patterns a caller supplies stay opaque function values. */
module Matching {
  import opened Wrappers
  import opened Strings

  // ---------------------------------------------------------------------------
  // A list of patterns, first match wins

  /** A pattern applied to a whole string: the capture it yields, or `None`
      when it does not match. */
  type Pattern = string -> Option<string>

  /** The capture of the first pattern, in order, that matches `s`. */
  function FirstMatch(patterns: seq<Pattern>, s: string): (r: Option<string>)
    ensures r.Some? ==> exists i :: 0 <= i < |patterns| && patterns[i](s) == r
    decreases |patterns|
  {
    if patterns == [] then None
    else if patterns[0](s).Some? then patterns[0](s)
    else FirstMatch(patterns[1..], s)
  }

  /** The result is the capture of the first matching pattern, and nothing when
      no pattern matches. */
  lemma {:induction false} FirstMatchIsFirst(patterns: seq<Pattern>, s: string)
    ensures FirstMatch(patterns, s).None? <==> forall i :: 0 <= i < |patterns| ==> patterns[i](s).None?
    ensures FirstMatch(patterns, s).Some? ==>
      exists i :: 0 <= i < |patterns| && patterns[i](s) == FirstMatch(patterns, s)
        && forall j :: 0 <= j < i ==> patterns[j](s).None?
    decreases |patterns|
  {
    if patterns != [] {
      FirstMatchIsFirst(patterns[1..], s);
      assert forall i :: 1 <= i < |patterns| ==> patterns[i] == patterns[1..][i - 1];
      if patterns[0](s).None? && FirstMatch(patterns, s).Some? {
        var i :| 0 <= i < |patterns[1..]| && patterns[1..][i](s) == FirstMatch(patterns, s)
          && forall j :: 0 <= j < i ==> patterns[1..][j](s).None?;
        assert patterns[i + 1](s) == FirstMatch(patterns, s);
        assert forall j :: 0 <= j < i + 1 ==> patterns[j](s).None?;
      }
    }
  }

  /** With a pattern list extended at the end, the old list still decides
      whenever it matches, and the extension is consulted only otherwise. */
  lemma {:induction false} FirstMatchAppend(ps: seq<Pattern>, qs: seq<Pattern>, s: string)
    ensures FirstMatch(ps + qs, s) == if FirstMatch(ps, s).Some? then FirstMatch(ps, s) else FirstMatch(qs, s)
    decreases |ps|
  {
    if ps == [] {
      assert ps + qs == qs;
    } else {
      assert (ps + qs)[0] == ps[0] && (ps + qs)[1..] == ps[1..] + qs;
      FirstMatchAppend(ps[1..], qs, s);
    }
  }

  // ---------------------------------------------------------------------------
  // Anchored matchers and re.search

  /** A matcher tried at the start of its argument: the span `(a, b)`, relative
      to that start, of the group the caller reads, or `None`. */
  type Anchored = string -> Option<(nat, nat)>

  /** `m` succeeds at index `k` of `s`, with a span inside `s[k..]`. */
  predicate Hits(m: Anchored, s: string, k: nat)
    requires k <= |s|
  {
    m(s[k..]).Some? && m(s[k..]).value.0 <= m(s[k..]).value.1 <= |s| - k
  }

  /** The group `m` reports when it succeeds at index `k`. */
  function Capture(m: Anchored, s: string, k: nat): (g: string)
    requires k <= |s| && Hits(m, s, k)
    ensures OccursAt(s, g, k + m(s[k..]).value.0)
  {
    var a := m(s[k..]).value.0;
    var b := m(s[k..]).value.1;
    assert s[k..][a..b] == s[k + a..k + b];
    s[k..][a..b]
  }

  /** `re.search`, from index `from` on: the group of the leftmost success. */
  function SearchFrom(m: Anchored, s: string, from: nat): (r: Option<string>)
    requires from <= |s|
    ensures r.Some? ==>
      exists k :: from <= k <= |s| && Hits(m, s, k) && r.value == Capture(m, s, k)
        && forall j :: from <= j < k ==> !Hits(m, s, j)
    ensures r.None? ==> forall k :: from <= k <= |s| ==> !Hits(m, s, k)
    decreases |s| - from
  {
    if Hits(m, s, from) then Some(Capture(m, s, from))
    else if from == |s| then None
    else SearchFrom(m, s, from + 1)
  }

  /** `re.search(pattern, s)`, then the group the matcher reports. */
  function Search(m: Anchored, s: string): (r: Option<string>)
    ensures r.Some? ==>
      exists k :: 0 <= k <= |s| && Hits(m, s, k) && r.value == Capture(m, s, k)
        && forall j :: 0 <= j < k ==> !Hits(m, s, j)
    ensures r.None? ==> forall k :: 0 <= k <= |s| ==> !Hits(m, s, k)
  {
    SearchFrom(m, s, 0)
  }

  /** Search finds the first success: if `m` fails before `k` and succeeds at
      `k`, the result is the group at `k`. */
  lemma SearchFindsFirst(m: Anchored, s: string, k: nat)
    requires k <= |s| && Hits(m, s, k)
    requires forall j :: 0 <= j < k ==> !Hits(m, s, j)
    ensures Search(m, s) == Some(Capture(m, s, k))
  {
    var r := Search(m, s);
    if r.Some? {
      var k' :| 0 <= k' <= |s| && Hits(m, s, k') && r.value == Capture(m, s, k')
        && forall j :: 0 <= j < k' ==> !Hits(m, s, j);
      assert k' == k;
    }
  }

  /** A matcher that succeeds at the start is found there. */
  lemma SearchAtStart(m: Anchored, s: string)
    requires Hits(m, s, 0)
    ensures Search(m, s) == Some(s[m(s).value.0..m(s).value.1])
  {
    assert s[0..] == s;
    SearchFindsFirst(m, s, 0);
  }

  // ---------------------------------------------------------------------------
  // re.sub(pattern, '', s)

  /** `re.sub(pattern, '', s)` for a pattern that cannot match the empty string:
      at each position a match (the span `(0, n)` reported by `m`) is dropped
      and scanning resumes after it; otherwise the character is kept. */
  function RemoveMatches(m: Anchored, s: string): (r: string)
    ensures |r| <= |s|
    ensures forall c :: c in r ==> c in s
    decreases |s|
  {
    if s == [] then []
    else if Hits(m, s, 0) && m(s).value.1 > 0 then
      assert s[0..] == s;
      RemoveMatches(m, s[m(s).value.1..])
    else [s[0]] + RemoveMatches(m, s[1..])
  }

  /** Where the pattern matches nowhere, nothing is removed. */
  lemma {:induction false} RemoveNothing(m: Anchored, s: string)
    requires forall k :: 0 <= k <= |s| ==> !Hits(m, s, k)
    ensures RemoveMatches(m, s) == s
    decreases |s|
  {
    if s != [] {
      assert s[0..] == s;
      forall k | 0 <= k <= |s[1..]|
        ensures !Hits(m, s[1..], k)
      {
        assert s[1..][k..] == s[k + 1..];
        assert !Hits(m, s, k + 1);
      }
      RemoveNothing(m, s[1..]);
    }
  }

  // ---------------------------------------------------------------------------
  // Building blocks of the fixed patterns

  /** The literal `lit` (given in lower case) at index `k`, compared without
      regard to ASCII case, as under `re.IGNORECASE`. */
  predicate CaselessAt(s: string, k: nat, lit: string) {
    k + |lit| <= |s| && Lower(s[k..k + |lit|]) == lit
  }

  /** The end of the run, from `i` on, of characters satisfying `p`. */
  function RunEnd(s: string, i: nat, p: char -> bool): (j: nat)
    requires i <= |s|
    ensures i <= j <= |s| && (forall k :: i <= k < j ==> p(s[k])) && (j < |s| ==> !p(s[j]))
    decreases |s| - i
  {
    if i < |s| && p(s[i]) then RunEnd(s, i + 1, p) else i
  }

  /** The first index at or after `from` holding `c`. */
  function IndexOfFrom(s: string, c: char, from: nat): (r: Option<nat>)
    requires from <= |s|
    ensures r.Some? ==> from <= r.value < |s| && s[r.value] == c && forall k :: from <= k < r.value ==> s[k] != c
    ensures r.None? ==> forall k :: from <= k < |s| ==> s[k] != c
    decreases |s| - from
  {
    if from == |s| then None
    else if s[from] == c then Some(from)
    else IndexOfFrom(s, c, from + 1)
  }

  /** `.*?` followed by the character `close`, from index `from`: the end just
      after the first `close`, provided no newline (which `.` does not match)
      comes before it. */
  function LazyClose(s: string, from: nat, close: char): (r: Option<nat>)
    requires from <= |s|
    ensures r.Some? ==>
      (from < r.value <= |s| && s[r.value - 1] == close &&
       forall k :: from <= k < r.value - 1 ==> s[k] != close && s[k] != '\n')
    ensures r.None? ==> forall q :: from <= q < |s| && s[q] == close ==> exists k :: from <= k < q && s[k] == '\n'
  {
    match IndexOfFrom(s, close, from)
    case None => None
    case Some(q) =>
      match IndexOfFrom(s[..q], '\n', from)
      case Some(n) =>
        assert s[n] == '\n';
        None
      case None => Some(q + 1)
  }

  /** `\s*(.+)$` from index `p` of a string that does not end in whitespace:
      the greedy `\s*` takes the whole run, and `(.+)$` then needs the
      remainder to be non-empty and free of newlines. The start of the group is
      returned. */
  function LineTail(s: string, p: nat): (r: Option<nat>)
    requires p <= |s|
    ensures r.Some? ==>
      (p <= r.value < |s| && !IsSpace(s[r.value]) && AllSpaces(s[p..r.value]) &&
       forall k :: r.value <= k < |s| ==> s[k] != '\n')
  {
    var e := SpaceRunEnd(s, p);
    if e < |s| && IndexOfFrom(s, '\n', e).None? then Some(e) else None
  }
}
