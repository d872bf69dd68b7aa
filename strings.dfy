/** Python string primitives the core relies on, written out on `seq<char>`:
    whitespace (`str.isspace`, which is also what `\s` matches in a `str` pattern),
    `strip`, `re.sub(r'\s+', ' ', ...)`, ASCII case mapping, `find`, `replace`,
    `split`, `join`, decimal rendering of a count and code-point string order. */
module Strings {
  import opened Wrappers

  // ---------------------------------------------------------------------------
  // Character classes

  /** The characters for which Python's `str.isspace()` is true. */
  predicate IsSpace(c: char) {
    ('\U{9}' <= c <= '\U{D}') || ('\U{1C}' <= c <= '\U{20}') || c == '\U{85}' || c == '\U{A0}'
    || c == '\U{1680}' || ('\U{2000}' <= c <= '\U{200A}') || c == '\U{2028}' || c == '\U{2029}'
    || c == '\U{202F}' || c == '\U{205F}' || c == '\U{3000}'
  }

  predicate IsDigit(c: char) { '0' <= c <= '9' }
  predicate IsUpperLetter(c: char) { 'A' <= c <= 'Z' }
  predicate IsLowerLetter(c: char) { 'a' <= c <= 'z' }
  predicate IsLetter(c: char) { IsUpperLetter(c) || IsLowerLetter(c) }

  predicate AllDigits(s: string) { forall i :: 0 <= i < |s| ==> IsDigit(s[i]) }
  predicate AllSpaces(s: string) { forall i :: 0 <= i < |s| ==> IsSpace(s[i]) }

  /** The end of the run of whitespace starting at `i`. */
  function SpaceRunEnd(s: string, i: nat): (j: nat)
    requires i <= |s|
    ensures i <= j <= |s| && AllSpaces(s[i..j]) && (j < |s| ==> !IsSpace(s[j]))
    decreases |s| - i
  {
    if i < |s| && IsSpace(s[i]) then SpaceRunEnd(s, i + 1) else i
  }

  /** The end of the run of digits starting at `i`. */
  function DigitRunEnd(s: string, i: nat): (j: nat)
    requires i <= |s|
    ensures i <= j <= |s| && AllDigits(s[i..j]) && (j < |s| ==> !IsDigit(s[j]))
    decreases |s| - i
  {
    if i < |s| && IsDigit(s[i]) then DigitRunEnd(s, i + 1) else i
  }

  // ---------------------------------------------------------------------------
  // Case mapping (ASCII letters only)

  function ToUpperChar(c: char): char {
    if IsLowerLetter(c) then (c as int - 32) as char else c
  }

  function ToLowerChar(c: char): char {
    if IsUpperLetter(c) then (c as int + 32) as char else c
  }

  /** `str.upper()` restricted to ASCII letters. */
  function Upper(s: string): (r: string)
    ensures |r| == |s|
    ensures forall i :: 0 <= i < |s| ==> r[i] == ToUpperChar(s[i])
  {
    seq(|s|, i requires 0 <= i < |s| => ToUpperChar(s[i]))
  }

  /** `str.lower()` restricted to ASCII letters. */
  function Lower(s: string): (r: string)
    ensures |r| == |s|
    ensures forall i :: 0 <= i < |s| ==> r[i] == ToLowerChar(s[i])
  {
    seq(|s|, i requires 0 <= i < |s| => ToLowerChar(s[i]))
  }

  /** No lower-case letter: what `Upper` produces. */
  predicate IsUpperCased(s: string) { forall i :: 0 <= i < |s| ==> !IsLowerLetter(s[i]) }

  /** No upper-case letter: what `Lower` produces. */
  predicate IsLowerCased(s: string) { forall i :: 0 <= i < |s| ==> !IsUpperLetter(s[i]) }

  /** Upper-casing forgets the original case: lower-casing afterwards gives what
      lower-casing the original gives, and the other way round. */
  lemma CaseRoundTrips(s: string)
    ensures Lower(Upper(s)) == Lower(s)
    ensures Upper(Lower(s)) == Upper(s)
    ensures IsUpperCased(Upper(s)) && IsLowerCased(Lower(s))
  {
  }

  /** `str.title()` restricted to ASCII letters: a letter is upper-cased when the
      character before it is not a letter, and lower-cased otherwise. */
  function Title(s: string): (r: string)
    ensures |r| == |s| && Lower(r) == Lower(s)
  {
    var r := TitleAfter(s, false);
    assert forall i :: 0 <= i < |s| ==> Lower(r)[i] == Lower(s)[i];
    r
  }

  function TitleAfter(s: string, previousCased: bool): (r: string)
    ensures |r| == |s|
    ensures forall i :: 0 <= i < |s| ==> IsLetter(r[i]) == IsLetter(s[i]) && ToLowerChar(r[i]) == ToLowerChar(s[i])
    ensures s != [] && IsLetter(s[0]) ==> r[0] == (if previousCased then ToLowerChar(s[0]) else ToUpperChar(s[0]))
    decreases |s|
  {
    if s == [] then []
    else
      var c := if previousCased then ToLowerChar(s[0]) else ToUpperChar(s[0]);
      [c] + TitleAfter(s[1..], IsLetter(s[0]))
  }

  // ---------------------------------------------------------------------------
  // strip, and re.sub(r'\s+', ' ', ...)

  /** The start of the run of whitespace that ends just before `j`. */
  function SpaceRunStart(s: string, j: nat): (i: nat)
    requires j <= |s|
    ensures i <= j && (forall k :: i <= k < j ==> IsSpace(s[k])) && (i > 0 ==> !IsSpace(s[i - 1]))
    decreases j
  {
    if j > 0 && IsSpace(s[j - 1]) then SpaceRunStart(s, j - 1) else j
  }

  /** The whitespace run from `i` stops before a final non-space. */
  lemma {:induction false} SpaceRunStopsBeforeLast(s: string, i: nat)
    requires i < |s| && !IsSpace(s[|s| - 1])
    ensures SpaceRunEnd(s, i) < |s|
    decreases |s| - i
  {
    if IsSpace(s[i]) {
      assert i + 1 < |s|;
      SpaceRunStopsBeforeLast(s, i + 1);
    }
  }

  /** `str.lstrip()`: drops the leading whitespace. */
  function LStrip(s: string): (r: string)
    ensures |r| <= |s| && (r != [] ==> !IsSpace(r[0]))
  {
    s[SpaceRunEnd(s, 0)..]
  }

  /** Where `str.strip()` cuts the trailing whitespace off: only whitespace
      follows, and what precedes, if it is kept, is not whitespace. */
  function StripEnd(s: string): (b: nat)
    ensures SpaceRunEnd(s, 0) <= b <= |s|
    ensures forall k :: b <= k < |s| ==> IsSpace(s[k])
    ensures b > SpaceRunEnd(s, 0) ==> !IsSpace(s[b - 1])
  {
    if SpaceRunEnd(s, 0) == |s| then |s| else SpaceRunStart(s, |s|)
  }

  /** `str.strip()`: drops the leading and the trailing whitespace. */
  function Strip(s: string): (r: string)
    ensures |r| <= |s|
    ensures NoEdgeSpace(r)
  {
    s[SpaceRunEnd(s, 0)..StripEnd(s)]
  }

  /** Neither the first nor the last character is whitespace. */
  predicate NoEdgeSpace(s: string) {
    s == [] || (!IsSpace(s[0]) && !IsSpace(s[|s| - 1]))
  }

  /** A string ending in a non-space strips to what follows its leading run. */
  lemma StripFromRunEnd(t: string)
    requires t != [] && !IsSpace(t[|t| - 1])
    ensures Strip(t) == t[SpaceRunEnd(t, 0)..]
    ensures NoEdgeSpace(t[SpaceRunEnd(t, 0)..])
  {
    var a := SpaceRunEnd(t, 0);
    SpaceRunStopsBeforeLast(t, 0);
    assert SpaceRunStart(t, |t|) == |t|;
    assert StripEnd(t) == |t|;
    assert t[a..|t|] == t[a..];
  }

  /** No two consecutive whitespace characters. */
  predicate NoSpaceRun(s: string) {
    forall i :: 0 <= i < |s| - 1 ==> !(IsSpace(s[i]) && IsSpace(s[i + 1]))
  }

  /** Every whitespace character is a plain space. */
  predicate OnlyPlainSpaces(s: string) {
    forall i :: 0 <= i < |s| ==> IsSpace(s[i]) ==> s[i] == ' '
  }

  /** What `' '.join(s.split())` would give: trimmed, single plain spaces. */
  predicate Normalized(s: string) {
    NoEdgeSpace(s) && NoSpaceRun(s) && OnlyPlainSpaces(s)
  }

  /** `re.sub(r'\s+', ' ', s)`: every maximal run of whitespace becomes one space. */
  function CollapseSpaces(s: string): (r: string)
    ensures NoSpaceRun(r) && OnlyPlainSpaces(r)
    ensures |r| <= |s|
    ensures r == [] <==> s == []
    ensures r != [] ==> (IsSpace(r[0]) <==> IsSpace(s[0]))
    ensures forall c :: c in r ==> c in s || c == ' '
    decreases |s|
  {
    if s == [] then []
    else if IsSpace(s[0]) then
      var rest := LStrip(s);
      assert |rest| < |s|;
      [' '] + CollapseSpaces(rest)
    else [s[0]] + CollapseSpaces(s[1..])
  }

  lemma {:induction false} StripKeepsNoSpaceRun(s: string)
    requires NoSpaceRun(s)
    ensures NoSpaceRun(Strip(s))
  {
    var a := SpaceRunEnd(s, 0);
    var r := Strip(s);
    forall i | 0 <= i < |r| - 1
      ensures !(IsSpace(r[i]) && IsSpace(r[i + 1]))
    {
      assert r[i] == s[a + i] && r[i + 1] == s[a + i + 1];
    }
  }

  lemma {:induction false} StripKeepsOnlyPlainSpaces(s: string)
    requires OnlyPlainSpaces(s)
    ensures OnlyPlainSpaces(Strip(s))
  {
    var a := SpaceRunEnd(s, 0);
    var r := Strip(s);
    forall i | 0 <= i < |r| && IsSpace(r[i])
      ensures r[i] == ' '
    {
      assert r[i] == s[a + i];
    }
  }

  /** The characters of `Strip(s)` are characters of `s`. */
  lemma StripChars(s: string)
    ensures forall c :: c in Strip(s) ==> c in s
  {
    var a := SpaceRunEnd(s, 0);
    var r := Strip(s);
    forall c | c in r
      ensures c in s
    {
      var i :| 0 <= i < |r| && r[i] == c;
      assert s[a + i] == c;
    }
  }

  /** `s.strip()` of a string that already has no edge whitespace is `s`. */
  lemma StripIdentity(s: string)
    requires NoEdgeSpace(s)
    ensures Strip(s) == s
  {
  }

  /** Collapsing the whitespace of a string whose whitespace is already single
      plain spaces changes nothing. */
  lemma {:induction false} CollapseIdentity(s: string)
    requires NoSpaceRun(s) && OnlyPlainSpaces(s)
    ensures CollapseSpaces(s) == s
    decreases |s|
  {
    if s != [] {
      assert NoSpaceRun(s[1..]) && OnlyPlainSpaces(s[1..]);
      if IsSpace(s[0]) {
        assert |s| > 1 ==> !IsSpace(s[1]);
        assert LStrip(s) == s[1..];
      }
      CollapseIdentity(s[1..]);
    }
  }

  /** Strip after collapsing gives a normalized string. */
  lemma CollapseThenStripNormalized(s: string)
    ensures Normalized(Strip(CollapseSpaces(s)))
  {
    StripKeepsNoSpaceRun(CollapseSpaces(s));
    StripKeepsOnlyPlainSpaces(CollapseSpaces(s));
  }

  /** A normalized string is a fixed point of collapse-then-strip. */
  lemma NormalizedFixedPoint(s: string)
    requires Normalized(s)
    ensures Strip(CollapseSpaces(s)) == s
  {
    CollapseIdentity(s);
    StripIdentity(s);
  }

  // ---------------------------------------------------------------------------
  // Occurrences, find, replace

  /** `p` occurs in `s` at index `k`. */
  predicate OccursAt(s: string, p: string, k: nat) {
    k + |p| <= |s| && s[k..k + |p|] == p
  }

  /** Python's `p in s`. */
  predicate Contains(s: string, p: string) {
    exists k: nat :: k <= |s| && OccursAt(s, p, k)
  }

  /** The first index at or after `from` where `p` occurs. */
  function FindFrom(s: string, p: string, from: nat): (r: Option<nat>)
    ensures r.Some? ==> from <= r.value && OccursAt(s, p, r.value)
    ensures r.Some? ==> forall j: nat :: from <= j < r.value ==> !OccursAt(s, p, j)
    ensures r.None? ==> forall j: nat :: from <= j ==> !OccursAt(s, p, j)
    decreases |s| - from
  {
    if from + |p| > |s| then None
    else if OccursAt(s, p, from) then Some(from)
    else FindFrom(s, p, from + 1)
  }

  /** `s.find(p)`, with `None` for -1. */
  function Find(s: string, p: string): (r: Option<nat>)
    ensures r.Some? <==> Contains(s, p)
    ensures r.Some? ==> OccursAt(s, p, r.value) && forall j: nat :: j < r.value ==> !OccursAt(s, p, j)
  {
    FindFrom(s, p, 0)
  }

  /** `s.replace(pat, rep)` with an empty `pat`: `rep` between every two
      characters and at both ends. */
  function Interleave(s: string, rep: string): (r: string)
    ensures forall c :: c in r ==> c in s || c in rep
    decreases |s|
  {
    if s == [] then rep else rep + [s[0]] + Interleave(s[1..], rep)
  }

  /** `s.replace(pat, rep)`: every occurrence, left to right, not overlapping. */
  function ReplaceAll(s: string, pat: string, rep: string): (r: string)
    ensures forall c :: c in r ==> c in s || c in rep
    decreases |s|
  {
    if pat == [] then Interleave(s, rep)
    else if s == [] then []
    else if OccursAt(s, pat, 0) then rep + ReplaceAll(s[|pat|..], pat, rep)
    else [s[0]] + ReplaceAll(s[1..], pat, rep)
  }

  /** Replacing a single character by text that does not contain it removes it. */
  lemma {:induction false} ReplaceCharRemoves(s: string, c: char, rep: string)
    requires c !in rep
    ensures c !in ReplaceAll(s, [c], rep)
    decreases |s|
  {
    if s != [] {
      if OccursAt(s, [c], 0) {
        ReplaceCharRemoves(s[1..], c, rep);
      } else {
        assert s[0] != c;
        ReplaceCharRemoves(s[1..], c, rep);
      }
    }
  }

  // ---------------------------------------------------------------------------
  // split and join

  /** `sep.join(xs)`. */
  function Join(xs: seq<string>, sep: string): string
    decreases |xs|
  {
    if xs == [] then []
    else if |xs| == 1 then xs[0]
    else xs[0] + sep + Join(xs[1..], sep)
  }

  lemma {:induction false} JoinAppend(xs: seq<string>, ys: seq<string>, sep: string)
    requires xs != [] && ys != []
    ensures Join(xs + ys, sep) == Join(xs, sep) + sep + Join(ys, sep)
    decreases |xs|
  {
    if |xs| == 1 {
      assert (xs + ys)[1..] == ys;
    } else {
      assert (xs + ys)[1..] == xs[1..] + ys;
      JoinAppend(xs[1..], ys, sep);
    }
  }

  /** Python's `s.split(sep)` for a one-character separator. */
  function Split(s: string, sep: char): (r: seq<string>)
    ensures |r| >= 1
    ensures forall i :: 0 <= i < |r| ==> sep !in r[i]
    decreases |s|
  {
    if s == [] then [[]]
    else
      var rest := Split(s[1..], sep);
      if s[0] == sep then [[]] + rest
      else [[s[0]] + rest[0]] + rest[1..]
  }

  lemma {:induction false} SplitNoSeparator(s: string, sep: char)
    requires sep !in s
    ensures Split(s, sep) == [s]
    decreases |s|
  {
    if s != [] {
      SplitNoSeparator(s[1..], sep);
      assert [s[0]] + s[1..] == s;
    }
  }

  lemma {:induction false} SplitAtSeparator(a: string, sep: char, t: string)
    requires sep !in a
    ensures Split(a + [sep] + t, sep) == [a] + Split(t, sep)
    decreases |a|
  {
    if a == [] {
      assert a + [sep] + t == [sep] + t;
      assert ([sep] + t)[1..] == t;
    } else {
      var s := a + [sep] + t;
      assert s[0] == a[0];
      assert s[1..] == a[1..] + [sep] + t;
      SplitAtSeparator(a[1..], sep, t);
      assert [a[0]] + a[1..] == a;
    }
  }


  /** `sep.join` applied to each list of a list of lists. */
  function JoinEach(xss: seq<seq<string>>, sep: string): (r: seq<string>)
    ensures |r| == |xss| && forall i :: 0 <= i < |xss| ==> r[i] == Join(xss[i], sep)
  {
    seq(|xss|, i requires 0 <= i < |xss| => Join(xss[i], sep))
  }

  /** Joining the pieces of `s.split(sep)` back with `sep`: the pieces of a
      join of separator-free strings are those strings. */
  lemma {:induction false} SplitJoin(xs: seq<string>, sep: char)
    requires xs != [] && forall k :: 0 <= k < |xs| ==> sep !in xs[k]
    ensures Split(Join(xs, [sep]), sep) == xs
    decreases |xs|
  {
    if |xs| == 1 {
      SplitNoSeparator(xs[0], sep);
    } else {
      SplitAtSeparator(xs[0], sep, Join(xs[1..], [sep]));
      SplitJoin(xs[1..], sep);
    }
  }

  // ---------------------------------------------------------------------------
  // Concatenating lists (`list.extend` in a loop)

  /** A non-empty sequence is its first element followed by the rest, so
      appending the first element and then the rest appends the whole. */
  lemma AppendFirst<T>(d: seq<T>, e: seq<T>)
    requires e != []
    ensures (d + [e[0]]) + e[1..] == d + e
  {
    assert e == [e[0]] + e[1..];
  }

  /** Dropping the first element of `a + b`, for non-empty `a`. */
  lemma TailOfAppend<T>(a: seq<T>, b: seq<T>)
    requires a != []
    ensures (a + b)[1..] == a[1..] + b
    ensures forall c: seq<T> {:trigger [a[0]] + (a[1..] + c)} :: [a[0]] + (a[1..] + c) == a + c
  {
    forall c: seq<T> ensures [a[0]] + (a[1..] + c) == a + c {
      assert a == [a[0]] + a[1..];
    }
  }

  /** A slice of a slice is a slice. */
  lemma SliceWithin<T>(s: seq<T>, i: nat, e: nat, a: nat, b: nat)
    requires i <= e <= |s| && a <= b <= e - i
    ensures s[i..e][a..b] == s[i + a..i + b]
  {
    var t := s[i..e];
    forall k | 0 <= k < b - a
      ensures t[a..b][k] == s[i + a..i + b][k]
    {
      assert t[a..b][k] == t[a + k] == s[i + a + k];
    }
  }

  /** A non-empty sequence is its prefix followed by its last element. */
  lemma ButLastAndLast<T>(s: seq<T>)
    requires s != []
    ensures s == s[..|s| - 1] + [s[|s| - 1]]
  {
  }

  /** The lists of `xss`, one after another. */
  function Flatten<T>(xss: seq<seq<T>>): seq<T>
    decreases |xss|
  {
    if xss == [] then [] else Flatten(xss[..|xss| - 1]) + xss[|xss| - 1]
  }

  /** Every element of every list is an element of the concatenation. */
  lemma {:induction false} FlattenMember<T>(xss: seq<seq<T>>, i: nat, j: nat)
    requires i < |xss| && j < |xss[i]|
    ensures xss[i][j] in Flatten(xss)
    decreases |xss|
  {
    if i < |xss| - 1 {
      FlattenMember(xss[..|xss| - 1], i, j);
    }
  }

  lemma {:induction false} FlattenAppend<T>(xss: seq<seq<T>>, yss: seq<seq<T>>)
    ensures Flatten(xss + yss) == Flatten(xss) + Flatten(yss)
    decreases |yss|
  {
    if yss == [] {
      assert xss + yss == xss;
    } else {
      var init := yss[..|yss| - 1];
      var last := yss[|yss| - 1];
      assert (xss + yss)[..|xss + yss| - 1] == xss + init;
      FlattenAppend(xss, init);
      calc {
        Flatten(xss + yss);
        Flatten(xss + init) + last;
        (Flatten(xss) + Flatten(init)) + last;
        Flatten(xss) + (Flatten(init) + last);
        Flatten(xss) + Flatten(yss);
      }
    }
  }

  // ---------------------------------------------------------------------------
  // Decimal rendering of a count (`str(n)`, `f"{n}"`)

  function DigitChar(d: nat): (c: char)
    requires d < 10
    ensures IsDigit(c)
  {
    ('0' as int + d) as char
  }

  function DigitValue(c: char): nat
    requires IsDigit(c)
  {
    c as int - '0' as int
  }

  function NatToString(n: nat): (r: string)
    ensures r != [] && AllDigits(r)
    decreases n
  {
    if n < 10 then [DigitChar(n)] else NatToString(n / 10) + [DigitChar(n % 10)]
  }

  /** The number a string of decimal digits denotes. */
  function DigitsValue(s: string): nat
    requires AllDigits(s)
    decreases |s|
  {
    if s == [] then 0 else 10 * DigitsValue(s[..|s| - 1]) + DigitValue(s[|s| - 1])
  }

  /** Reading back a rendered count gives the count: distinct counts have
      distinct renderings. */
  lemma {:induction false} NatToStringRoundTrip(n: nat)
    ensures DigitsValue(NatToString(n)) == n
    decreases n
  {
    if n >= 10 {
      NatToStringRoundTrip(n / 10);
      var s := NatToString(n);
      assert s[..|s| - 1] == NatToString(n / 10);
    }
  }

  lemma NatToStringInjective(m: nat, n: nat)
    requires NatToString(m) == NatToString(n)
    ensures m == n
  {
    NatToStringRoundTrip(m);
    NatToStringRoundTrip(n);
  }

  // ---------------------------------------------------------------------------
  // Code-point order on strings (`ORDER BY id` under a byte-wise collation)

  predicate LexLess(a: string, b: string)
    decreases |a|
  {
    if a == [] then b != []
    else if b == [] then false
    else if a[0] != b[0] then a[0] < b[0]
    else LexLess(a[1..], b[1..])
  }

  lemma {:induction false} LexLessIrreflexive(a: string)
    ensures !LexLess(a, a)
    decreases |a|
  {
    if a != [] { LexLessIrreflexive(a[1..]); }
  }

  lemma {:induction false} LexLessAsymmetric(a: string, b: string)
    requires LexLess(a, b)
    ensures !LexLess(b, a)
    decreases |a|
  {
    if a != [] && b != [] && a[0] == b[0] { LexLessAsymmetric(a[1..], b[1..]); }
  }

  lemma {:induction false} LexLessTransitive(a: string, b: string, c: string)
    requires LexLess(a, b) && LexLess(b, c)
    ensures LexLess(a, c)
    decreases |a|
  {
    if a != [] && b != [] && c != [] && a[0] == b[0] && b[0] == c[0] {
      LexLessTransitive(a[1..], b[1..], c[1..]);
    }
  }

  lemma {:induction false} LexLessTotal(a: string, b: string)
    requires a != b
    ensures LexLess(a, b) || LexLess(b, a)
    decreases |a|
  {
    if a != [] && b != [] && a[0] == b[0] {
      assert a == [a[0]] + a[1..] && b == [b[0]] + b[1..];
      LexLessTotal(a[1..], b[1..]);
    }
  }
}
