/** The parts of Python's `str` type that the daemon and the status-bar module
    rely on: whitespace, `strip()`, `find()`/`in`, `split(sep)`, `sep.join()`,
    `startswith`/`endswith`, `split()[0]` and `upper()`. Strings are sequences
    of Unicode scalar values: Python strings without lone surrogates. */
module Text {
  import opened Wrappers

  /** The characters for which Python's `str.isspace()` holds; `strip()` and
      `split()` without arguments remove exactly these. */
  predicate IsSpace(c: char) {
    || c == ' '
    || ('\t' <= c <= '\r')
    || ('\U{1C}' <= c <= '\U{1F}')
    || c == '\U{85}' || c == '\U{A0}' || c == '\U{1680}'
    || ('\U{2000}' <= c <= '\U{200A}')
    || c == '\U{2028}' || c == '\U{2029}' || c == '\U{202F}'
    || c == '\U{205F}' || c == '\U{3000}'
  }

  predicate AllSpace(s: string) {
    forall i :: 0 <= i < |s| ==> IsSpace(s[i])
  }

  predicate NoSpace(s: string) {
    forall i :: 0 <= i < |s| ==> !IsSpace(s[i])
  }

  /** Neither leading nor trailing whitespace: what `strip()` leaves. */
  predicate Trimmed(s: string) {
    s == [] || (!IsSpace(s[0]) && !IsSpace(s[|s| - 1]))
  }

  /** The index of the first non-whitespace character at or after `i`, or |s|. */
  function SkipForward(s: string, i: nat): (k: nat)
    requires i <= |s|
    ensures i <= k <= |s|
    ensures forall m :: i <= m < k ==> IsSpace(s[m])
    ensures k == |s| || !IsSpace(s[k])
    decreases |s| - i
  {
    if i < |s| && IsSpace(s[i]) then SkipForward(s, i + 1) else i
  }

  /** The index just past the last non-whitespace character before `j`, or 0. */
  function SkipBackward(s: string, j: nat): (k: nat)
    requires j <= |s|
    ensures k <= j
    ensures forall m :: k <= m < j ==> IsSpace(s[m])
    ensures k == 0 || !IsSpace(s[k - 1])
    decreases j
  {
    if j > 0 && IsSpace(s[j - 1]) then SkipBackward(s, j - 1) else j
  }

  /** `SkipForward` is determined by what it promises. */
  lemma SkipForwardIs(s: string, i: nat, k: nat)
    requires i <= k <= |s|
    requires forall m :: i <= m < k ==> IsSpace(s[m])
    requires k == |s| || !IsSpace(s[k])
    ensures SkipForward(s, i) == k
  {
  }

  /** `SkipBackward` is determined by what it promises. */
  lemma SkipBackwardIs(s: string, j: nat, k: nat)
    requires k <= j <= |s|
    requires forall m :: k <= m < j ==> IsSpace(s[m])
    requires k == 0 || !IsSpace(s[k - 1])
    ensures SkipBackward(s, j) == k
  {
  }

  /** Python's `s.strip()`: the result has no surrounding whitespace and is
      empty exactly when `s` is all whitespace. */
  function Strip(s: string): (r: string)
    ensures Trimmed(r)
    ensures r == [] <==> AllSpace(s)
  {
    var a := SkipForward(s, 0);
    if a == |s| then []
    else
      var b := SkipBackward(s, |s|);
      s[a..b]
  }

  /** Every character that `strip()` keeps was in its argument. */
  lemma StripInside(s: string, c: char)
    requires c in Strip(s)
    ensures c in s
  {
    var a := SkipForward(s, 0);
    var b := SkipBackward(s, |s|);
    var k :| 0 <= k < |Strip(s)| && Strip(s)[k] == c;
    assert s[a + k] == c;
  }

  /** A string that is already trimmed is left alone by `strip()`. */
  lemma StripTrimmed(s: string)
    requires Trimmed(s)
    ensures Strip(s) == s
  {
    if s != [] {
      SkipForwardIs(s, 0, 0);
      SkipBackwardIs(s, |s|, |s|);
    }
  }

  /** `strip()` ignores whitespace added around its argument. */
  lemma StripPadded(pad1: string, s: string, pad2: string)
    requires AllSpace(pad1) && AllSpace(pad2)
    ensures Strip(pad1 + s + pad2) == Strip(s)
  {
    var t := pad1 + s + pad2;
    var n := |pad1|;
    forall m | 0 <= m < |t| && !(n <= m < n + |s|) ensures IsSpace(t[m]) {
      if m < n {
        assert t[m] == pad1[m];
      } else {
        assert t[m] == pad2[m - n - |s|];
      }
    }
    forall m | 0 <= m < |s| ensures t[n + m] == s[m] {
    }
    if AllSpace(s) {
      assert AllSpace(t) by {
        forall m | 0 <= m < |t| ensures IsSpace(t[m]) {
          if n <= m < n + |s| {
            assert t[n + (m - n)] == s[m - n];
          }
        }
      }
    } else {
      StripWindow(t, n, s);
    }
  }

  /** Leading whitespace before a copy of `s` inside `t` shifts where the
      forward skip stops. */
  lemma SkipForwardShifted(t: string, n: nat, s: string)
    requires n + |s| <= |t| && !AllSpace(s)
    requires forall m :: 0 <= m < n ==> IsSpace(t[m])
    requires forall m :: 0 <= m < |s| ==> t[n + m] == s[m]
    ensures SkipForward(t, 0) == n + SkipForward(s, 0)
    ensures !AllSpace(t)
  {
    var a := SkipForward(s, 0);
    forall m | 0 <= m < n + a ensures IsSpace(t[m]) {
      if n <= m {
        assert t[n + (m - n)] == s[m - n];
      }
    }
    assert t[n + a] == s[a];
    SkipForwardIs(t, 0, n + a);
    assert !IsSpace(t[n + a]);
  }

  /** Trailing whitespace after a copy of `s` inside `t` shifts where the
      backward skip stops. */
  lemma SkipBackwardShifted(t: string, n: nat, s: string)
    requires n + |s| <= |t| && !AllSpace(s)
    requires forall m :: n + |s| <= m < |t| ==> IsSpace(t[m])
    requires forall m :: 0 <= m < |s| ==> t[n + m] == s[m]
    ensures SkipBackward(t, |t|) == n + SkipBackward(s, |s|)
  {
    var b := SkipBackward(s, |s|);
    forall m | n + b <= m < |t| ensures IsSpace(t[m]) {
      if m < n + |s| {
        assert t[n + (m - n)] == s[m - n];
      }
    }
    assert t[n + (b - 1)] == s[b - 1];
    SkipBackwardIs(t, |t|, n + b);
  }

  /** `strip()` of a string that is not all whitespace cuts it at the two
      skips. */
  lemma StripCuts(s: string)
    requires !AllSpace(s)
    ensures SkipForward(s, 0) < |s|
    ensures Strip(s) == s[SkipForward(s, 0)..SkipBackward(s, |s|)]
  {
  }

  /** A slice holds no character its string lacks. */
  lemma SliceAvoids(s: string, i: nat, j: nat, c: char)
    requires i <= j <= |s| && c !in s
    ensures c !in s[i..j]
  {
  }

  /** What the forward skip passes over is blank. */
  lemma SkippedHead(s: string)
    ensures AllSpace(s[..SkipForward(s, 0)])
  {
    var f := SkipForward(s, 0);
    forall m | 0 <= m < f ensures IsSpace(s[..f][m]) {
      assert s[..f][m] == s[m];
    }
  }

  /** What the backward skip passes over is blank, from any later point on. */
  lemma SkippedTail(s: string, j: nat)
    requires SkipBackward(s, |s|) <= j <= |s|
    ensures AllSpace(s[j..])
  {
    forall m | 0 <= m < |s| - j ensures IsSpace(s[j..][m]) {
      assert s[j..][m] == s[j + m];
    }
  }

  /** Concatenation regrouped. */
  lemma AppendAssoc<T>(p: seq<T>, q: seq<T>, r: seq<T>)
    ensures p + q + r == p + (q + r)
  {
  }

  /** Appending nothing changes nothing. */
  lemma AppendNothing<T>(p: seq<T>)
    ensures p + [] == p
  {
  }

  /** A slice up to the end is the suffix. */
  lemma SliceToEnd(s: string, lo: nat)
    requires lo <= |s|
    ensures s[lo..|s|] == s[lo..]
  {
  }

  /** A string is the concatenation of its pieces at two cut points. */
  lemma Cuts(s: string, lo: nat, hi: nat)
    requires lo <= hi <= |s|
    ensures s == s[..lo] + s[lo..]
    ensures s[lo..] == s[lo..hi] + s[hi..]
    ensures s == s[..lo] + s[lo..hi] + s[hi..]
  {
  }

  /** Slicing a suffix is slicing the string, shifted. */
  lemma DropSlice(s: string, lo: nat, hi: nat)
    requires lo <= hi <= |s|
    ensures s[lo..][..hi - lo] == s[lo..hi]
    ensures s[lo..][hi - lo..] == s[hi..]
  {
  }

  /** The first character of an all-blank suffix is blank. */
  lemma SpaceAt(s: string, i: nat)
    requires i < |s| && AllSpace(s[i..])
    ensures IsSpace(s[i])
  {
    assert s[i..][0] == s[i];
  }

  /** A string with a prefix agrees with it character by character. */
  lemma PrefixAt(s: string, p: string, i: nat)
    requires StartsWith(s, p) && i < |p|
    ensures s[i] == p[i]
  {
    assert s[..|p|][i] == s[i];
  }

  lemma SliceShifted(t: string, n: nat, s: string, a: nat, b: nat)
    requires n + |s| <= |t| && a <= b <= |s|
    requires forall m :: 0 <= m < |s| ==> t[n + m] == s[m]
    ensures t[n + a..n + b] == s[a..b]
  {
    forall i | 0 <= i < b - a ensures t[n + a..n + b][i] == s[a..b][i] {
      assert t[n + (a + i)] == s[a + i];
    }
  }

  /** `strip()` of a string that holds `s` at offset `n` with only
      whitespace around it. */
  lemma StripWindow(t: string, n: nat, s: string)
    requires n + |s| <= |t| && !AllSpace(s)
    requires forall m :: 0 <= m < n ==> IsSpace(t[m])
    requires forall m :: n + |s| <= m < |t| ==> IsSpace(t[m])
    requires forall m :: 0 <= m < |s| ==> t[n + m] == s[m]
    ensures Strip(t) == Strip(s)
  {
    var a := SkipForward(s, 0);
    var b := SkipBackward(s, |s|);
    StripCuts(s);
    SkipForwardShifted(t, n, s);
    SkipBackwardShifted(t, n, s);
    StripCuts(t);
    SliceShifted(t, n, s, a, b);
  }

  /** `p` occurs in `s` starting at index `i`. */
  predicate OccursAt(s: string, p: string, i: nat) {
    i + |p| <= |s| && s[i..i + |p|] == p
  }

  /** The first occurrence of `p` in `s` at or after index `i`. */
  function FindFrom(s: string, p: string, i: nat): (r: Option<nat>)
    ensures r.Some? ==> i <= r.value && OccursAt(s, p, r.value)
    ensures r.Some? ==> forall j :: i <= j < r.value ==> !OccursAt(s, p, j)
    ensures r.None? ==> forall j: nat :: i <= j ==> !OccursAt(s, p, j)
    decreases |s| - i
  {
    if i + |p| > |s| then None
    else if s[i..i + |p|] == p then Some(i)
    else FindFrom(s, p, i + 1)
  }

  /** The index of the first occurrence of `p` in `s`, as Python's
      `s.find(p)` (None stands for -1). */
  function Find(s: string, p: string): (r: Option<nat>)
    ensures r.Some? ==> OccursAt(s, p, r.value)
    ensures r.Some? ==> forall j :: 0 <= j < r.value ==> !OccursAt(s, p, j)
    ensures r.None? ==> forall j: nat :: !OccursAt(s, p, j)
  {
    FindFrom(s, p, 0)
  }

  /** Python's `p in s`. */
  predicate Contains(s: string, p: string) {
    Find(s, p).Some?
  }

  /** For a one-character pattern, `in` on strings is membership. */
  lemma ContainsChar(s: string, c: char)
    ensures Contains(s, [c]) <==> c in s
  {
    if c in s {
      var j :| 0 <= j < |s| && s[j] == c;
      assert OccursAt(s, [c], j);
    }
    if Contains(s, [c]) {
      var i := Find(s, [c]).value;
      assert s[i..i + 1] == [c];
      assert s[i] == c;
    }
  }

  lemma OccursInPrefix(s: string, p: string, n: nat, j: nat)
    requires n <= |s| && OccursAt(s[..n], p, j)
    ensures OccursAt(s, p, j)
  {
    assert s[..n][j..j + |p|] == s[j..j + |p|];
  }

  /** Python's `s.split(sep)` for a non-empty separator: the pieces between
      the non-overlapping occurrences of `sep`, scanned left to right. */
  function SplitOn(s: string, sep: string): (parts: seq<string>)
    requires sep != []
    ensures |parts| >= 1
    ensures |parts| >= 2 <==> Contains(s, sep)
    ensures forall k :: 0 <= k < |parts| ==> !Contains(parts[k], sep)
    decreases |s|
  {
    match Find(s, sep)
    case None => [s]
    case Some(i) =>
      var head := s[..i];
      assert !Contains(head, sep) by {
        if Contains(head, sep) {
          OccursInPrefix(s, sep, i, Find(head, sep).value);
        }
      }
      [head] + SplitOn(s[i + |sep|..], sep)
  }

  /** Python's `sep.join(parts)`. */
  function Join(parts: seq<string>, sep: string): string
  {
    if |parts| == 0 then []
    else if |parts| == 1 then parts[0]
    else parts[0] + sep + Join(parts[1..], sep)
  }

  /** A join begins with the first character of its first part. */
  lemma JoinFirst(parts: seq<string>, sep: string)
    requires |parts| >= 1 && |parts[0]| > 0
    ensures Join(parts, sep) != [] && Join(parts, sep)[0] == parts[0][0]
  {
    if |parts| >= 2 {
      assert Join(parts, sep) == parts[0] + (sep + Join(parts[1..], sep));
    }
  }

  /** A join ends with the last character of its last part. */
  lemma {:induction false} JoinLast(init: seq<string>, last: string, sep: string)
    requires |last| > 0
    ensures |Join(init + [last], sep)| > 0
    ensures Join(init + [last], sep)[|Join(init + [last], sep)| - 1] == last[|last| - 1]
    decreases |init|
  {
    if init == [] {
      assert init + [last] == [last];
    } else {
      var r := Join(init[1..] + [last], sep);
      JoinLast(init[1..], last, sep);
      assert (init + [last])[1..] == init[1..] + [last];
      assert Join(init + [last], sep) == (init[0] + sep) + r;
    }
  }

  /** Whitespace in front of the first part stays in front of the join. */
  lemma JoinFrontPad(a: string, x: string, rest: seq<string>, sep: string)
    ensures Join([a + x] + rest, sep) == a + Join([x] + rest, sep)
  {
    assert ([a + x] + rest)[1..] == rest == ([x] + rest)[1..];
  }

  /** Whitespace behind the last part stays behind the join. */
  lemma {:induction false} JoinBackPad(init: seq<string>, y: string, b: string, sep: string)
    ensures Join(init + [y + b], sep) == Join(init + [y], sep) + b
    decreases |init|
  {
    if init != [] {
      assert (init + [y + b])[1..] == init[1..] + [y + b];
      assert (init + [y])[1..] == init[1..] + [y];
      JoinBackPad(init[1..], y, b, sep);
      if |init| == 1 {
        assert init[1..] == [];
        assert init[1..] + [y + b] == [y + b];
        assert init[1..] + [y] == [y];
      }
    }
  }

  /** Joining the pieces of a split with the same separator gives the string back. */
  lemma {:induction false} JoinSplit(s: string, sep: string)
    requires sep != []
    ensures Join(SplitOn(s, sep), sep) == s
    decreases |s|
  {
    var parts := SplitOn(s, sep);
    match Find(s, sep)
    case None =>
    case Some(i) =>
      var rest := s[i + |sep|..];
      assert parts == [s[..i]] + SplitOn(rest, sep);
      assert parts[1..] == SplitOn(rest, sep);
      assert Join(parts, sep) == s[..i] + sep + Join(SplitOn(rest, sep), sep);
      JoinSplit(rest, sep);
      assert s[i..i + |sep|] == sep;
      assert s == s[..i] + s[i..i + |sep|] + rest;
  }

  lemma FindAfterPrefixWithout(a: string, c: char, b: string)
    requires c !in a
    ensures Find(a + [c] + b, [c]) == Some(|a|)
  {
    var s := a + [c] + b;
    assert OccursAt(s, [c], |a|);
    forall j | 0 <= j < |a| ensures !OccursAt(s, [c], j) {
      assert s[j] == a[j];
    }
  }

  lemma FindInPrefix(a: string, c: char, b: string)
    requires c in a
    ensures Find(a + b, [c]) == Find(a, [c]) && Find(a, [c]).Some?
  {
    ContainsChar(a, c);
    var i := Find(a, [c]).value;
    assert OccursAt(a + b, [c], i) by {
      assert (a + b)[i..i + 1] == a[i..i + 1];
    }
    forall j | 0 <= j < i ensures !OccursAt(a + b, [c], j) {
      assert !OccursAt(a, [c], j);
      assert (a + b)[j..j + 1] == a[j..j + 1];
    }
  }

  /** Splitting on a one-character separator distributes over an occurrence of it. */
  lemma {:induction false} SplitAround(a: string, c: char, b: string)
    ensures SplitOn(a + [c] + b, [c]) == SplitOn(a, [c]) + SplitOn(b, [c])
    decreases |a|
  {
    var s := a + [c] + b;
    if c !in a {
      FindAfterPrefixWithout(a, c, b);
      ContainsChar(a, c);
      assert s[..|a|] == a;
      assert s[|a| + 1..] == b;
    } else {
      FindInPrefix(a, c, [c] + b);
      assert s == a + ([c] + b);
      var i := Find(a, [c]).value;
      var a' := a[i + 1..];
      assert s[..i] == a[..i];
      assert s[i + 1..] == a' + [c] + b;
      SplitAround(a', c, b);
    }
  }

  /** A one-character separator that occurs in none of the pieces: splitting
      the joined string recovers the pieces. */
  lemma {:induction false} SplitJoin(parts: seq<string>, c: char)
    requires |parts| >= 1
    requires forall k :: 0 <= k < |parts| ==> c !in parts[k]
    ensures SplitOn(Join(parts, [c]), [c]) == parts
    decreases |parts|
  {
    ContainsChar(parts[0], c);
    if |parts| > 1 {
      SplitAround(parts[0], c, Join(parts[1..], [c]));
      SplitJoin(parts[1..], c);
    }
  }

  /** Python's `s.startswith(p)`. */
  predicate StartsWith(s: string, p: string) {
    |p| <= |s| && s[..|p|] == p
  }

  /** Python's `s.endswith(p)`. */
  predicate EndsWith(s: string, p: string) {
    |p| <= |s| && s[|s| - |p|..] == p
  }

  /** `s.split()[0]` for an `s` without leading whitespace: the characters up
      to the first whitespace. */
  function LeadingWord(s: string): (w: string)
    ensures StartsWith(s, w) && NoSpace(w)
    ensures |w| == |s| || IsSpace(s[|w|])
    decreases |s|
  {
    if s == [] || IsSpace(s[0]) then [] else [s[0]] + LeadingWord(s[1..])
  }

  /** Python's `str.upper()` on one character. ASCII letters, and the
      characters whose upper-case form consists of ASCII capitals, are mapped;
      every other character is kept. */
  function UpperChar(c: char): string {
    if 'a' <= c <= 'z' then [(c as int - 32) as char]
    else if c == '\U{DF}' then "SS"
    else if c == '\U{131}' then "I"
    else if c == '\U{17F}' then "S"
    else if c == '\U{FB00}' then "FF"
    else if c == '\U{FB01}' then "FI"
    else if c == '\U{FB02}' then "FL"
    else if c == '\U{FB03}' then "FFI"
    else if c == '\U{FB04}' then "FFL"
    else if c == '\U{FB05}' || c == '\U{FB06}' then "ST"
    else [c]
  }

  /** Python's `s.upper()`, character by character. */
  function Upper(s: string): string
    decreases |s|
  {
    if s == [] then [] else UpperChar(s[0]) + Upper(s[1..])
  }

  function LowerChar(c: char): char {
    if 'A' <= c <= 'Z' then (c as int + 32) as char else c
  }

  /** ASCII lower-casing: the case variants a client may send. */
  function AsciiLower(s: string): (r: string)
    ensures |r| == |s| && forall i :: 0 <= i < |s| ==> r[i] == LowerChar(s[i])
  {
    seq(|s|, i requires 0 <= i < |s| => LowerChar(s[i]))
  }
  lemma LowerKeepsSpace(c: char)
    ensures IsSpace(LowerChar(c)) == IsSpace(c)
  {
  }

  lemma LowerSameSpaces(s: string)
    ensures forall m :: 0 <= m < |s| ==> IsSpace(AsciiLower(s)[m]) == IsSpace(s[m])
  {
    forall m | 0 <= m < |s| ensures IsSpace(AsciiLower(s)[m]) == IsSpace(s[m]) {
      LowerKeepsSpace(s[m]);
    }
  }

  /** Lower-casing does not move where the skips stop. */
  lemma LowerSkips(s: string)
    ensures SkipForward(AsciiLower(s), 0) == SkipForward(s, 0)
    ensures SkipBackward(AsciiLower(s), |s|) == SkipBackward(s, |s|)
  {
    LowerSameSpaces(s);
    SkipForwardIs(AsciiLower(s), 0, SkipForward(s, 0));
    SkipBackwardIs(AsciiLower(s), |s|, SkipBackward(s, |s|));
  }

  lemma LowerSlice(s: string, a: nat, b: nat)
    requires a <= b <= |s|
    ensures AsciiLower(s)[a..b] == AsciiLower(s[a..b])
  {
  }

  /** Lower-casing ASCII letters commutes with `strip()`. */
  lemma StripLower(s: string)
    ensures Strip(AsciiLower(s)) == AsciiLower(Strip(s))
  {
    LowerSkips(s);
    var a := SkipForward(s, 0);
    var b := SkipBackward(s, |s|);
    if a < |s| {
      LowerSlice(s, a, b);
    }
  }

  /** `upper()` does not see the ASCII case of its argument. */
  lemma {:induction false} UpperIgnoresAsciiCase(s: string)
    ensures Upper(AsciiLower(s)) == Upper(s)
    decreases |s|
  {
    if s != [] {
      assert AsciiLower(s)[1..] == AsciiLower(s[1..]);
      UpperIgnoresAsciiCase(s[1..]);
    }
  }

  /** Upper-casing leaves a word of ASCII capitals as it is. */
  lemma {:induction false} UpperKeepsCapitals(s: string)
    requires forall i :: 0 <= i < |s| ==> 'A' <= s[i] <= 'Z'
    ensures Upper(s) == s
    decreases |s|
  {
    if s != [] {
      UpperKeepsCapitals(s[1..]);
    }
  }

  /** Every character of a piece of a split was in the split string. */
  lemma {:induction false} SplitPieceInside(s: string, sep: string, k: nat, c: char)
    requires sep != [] && k < |SplitOn(s, sep)| && c in SplitOn(s, sep)[k]
    ensures c in s
    decreases |s|
  {
    match Find(s, sep)
    case None =>
    case Some(i) =>
      if k == 0 {
        assert c in s[..i];
      } else {
        var rest := s[i + |sep|..];
        assert SplitOn(s, sep)[k] == SplitOn(rest, sep)[k - 1];
        SplitPieceInside(rest, sep, k - 1, c);
      }
  }

  /** A character found in none of the pieces nor in the separator is not in
      the joined string. */
  lemma {:induction false} JoinAvoids(parts: seq<string>, sep: string, c: char)
    requires c !in sep
    requires forall k :: 0 <= k < |parts| ==> c !in parts[k]
    ensures c !in Join(parts, sep)
    decreases |parts|
  {
    if |parts| > 1 {
      JoinAvoids(parts[1..], sep, c);
    }
  }

  /** Joining non-empty trimmed pieces gives a trimmed string. */
  lemma {:induction false} JoinTrimmed(parts: seq<string>, sep: string)
    requires forall k :: 0 <= k < |parts| ==> parts[k] != [] && Trimmed(parts[k])
    ensures Trimmed(Join(parts, sep))
    ensures |parts| > 0 ==> Join(parts, sep) != []
    decreases |parts|
  {
    if |parts| > 1 {
      JoinTrimmed(parts[1..], sep);
      var rest := Join(parts[1..], sep);
      var j := parts[0] + sep + rest;
      assert j[0] == parts[0][0];
      assert j[|j| - 1] == rest[|rest| - 1];
    }
  }
}
