/**
 * The standard string operations the program relies on, stated with the
 * meaning Rust's standard library gives them: `str::trim`, `str::replace`
 * with an empty replacement, and `[&str]::join`.
 */
module Text {

  /** `char::is_whitespace`: the characters with the Unicode White_Space property. */
  predicate IsWhitespace(c: char) {
    ('\t' <= c <= '\r') || c == ' ' || c == '\U{0085}' || c == '\U{00A0}' || c == '\U{1680}'
    || ('\U{2000}' <= c <= '\U{200A}') || c == '\U{2028}' || c == '\U{2029}'
    || c == '\U{202F}' || c == '\U{205F}' || c == '\U{3000}'
  }

  predicate AllWhitespace(s: string) {
    forall k :: 0 <= k < |s| ==> IsWhitespace(s[k])
  }

  /** Neither end of `s` is whitespace. */
  predicate IsTrimmed(s: string) {
    s == [] || (!IsWhitespace(s[0]) && !IsWhitespace(s[|s| - 1]))
  }

  /** `r` is `s` with the first `i` characters and everything after `r`, all whitespace, removed. */
  predicate StrippedAt(s: string, i: int, r: string) {
    0 <= i <= |s| - |r| && AllWhitespace(s[..i]) && s[i..i + |r|] == r && AllWhitespace(s[i + |r|..])
  }

  /** `r` is `s` with nothing but whitespace removed from its two ends. */
  ghost predicate StripsOnlyWhitespace(s: string, r: string) {
    exists i :: StrippedAt(s, i, r)
  }

  /** `str::trim_start`. */
  function TrimStart(s: string): string
  {
    if s != [] && IsWhitespace(s[0]) then TrimStart(s[1..]) else s
  }

  /** `str::trim_end`. */
  function TrimEnd(s: string): string
  {
    if s != [] && IsWhitespace(s[|s| - 1]) then TrimEnd(s[..|s| - 1]) else s
  }

  /** `str::trim`: whitespace stripped from both ends. */
  function Trim(s: string): string
  {
    TrimEnd(TrimStart(s))
  }

  /** `trim_start` drops a whitespace prefix and stops at the first other character. */
  lemma {:induction false} TrimStartSpec(s: string)
    ensures var r := TrimStart(s);
      |r| <= |s| && r == s[|s| - |r|..] && AllWhitespace(s[..|s| - |r|])
      && (r == [] || !IsWhitespace(r[0]))
    decreases |s|
  {
    if s != [] && IsWhitespace(s[0]) {
      TrimStartSpec(s[1..]);
      var r := TrimStart(s);
      assert s[1..][|s| - 1 - |r|..] == s[|s| - |r|..];
      forall k | 0 <= k < |s| - |r| ensures IsWhitespace(s[k]) {
        if k > 0 { assert s[1..][..|s| - 1 - |r|][k - 1] == s[k]; }
      }
    }
  }

  /** `trim_end` drops a whitespace suffix and stops at the last other character. */
  lemma {:induction false} TrimEndSpec(s: string)
    ensures var r := TrimEnd(s);
      |r| <= |s| && r == s[..|r|] && AllWhitespace(s[|r|..])
      && (r == [] || !IsWhitespace(r[|r| - 1]))
    decreases |s|
  {
    if s != [] && IsWhitespace(s[|s| - 1]) {
      var p := s[..|s| - 1];
      TrimEndSpec(p);
      var r := TrimEnd(s);
      assert p[..|r|] == s[..|r|];
      forall k | |r| <= k < |s| ensures IsWhitespace(s[k]) {
        if k < |s| - 1 { assert p[|r|..][k - |r|] == s[k]; }
      }
    }
  }

  /** `trim` leaves no whitespace at either end and removes nothing else. */
  lemma TrimSpec(s: string)
    ensures IsTrimmed(Trim(s))
    ensures StripsOnlyWhitespace(s, Trim(s))
  {
    var t := TrimStart(s);
    var r := TrimEnd(t);
    TrimStartSpec(s);
    TrimEndSpec(t);
    var i := |s| - |t|;
    assert t == s[i..];
    assert s[i..][..|r|] == s[i..i + |r|];
    assert s[i..][|r|..] == s[i + |r|..];
    assert StrippedAt(s, i, r);
  }

  /** A non-whitespace character of `s` cannot lie in a whitespace prefix. */
  lemma FirstNonWhitespace(s: string, i: nat, k: int)
    requires i <= |s| && AllWhitespace(s[..i])
    ensures 0 <= k < |s| && !IsWhitespace(s[k]) ==> i <= k
  {
    assert 0 <= k < i ==> s[..i][k] == s[k];
  }

  /** A non-whitespace character of `s` cannot lie in a whitespace suffix. */
  lemma LastNonWhitespace(s: string, j: nat, k: int)
    requires j <= |s| && AllWhitespace(s[j..])
    ensures 0 <= k < |s| && !IsWhitespace(s[k]) ==> k < j
  {
    assert j <= k < |s| ==> s[j..][k - j] == s[k];
  }

  /** Two trimmed whitespace-strippings of `s`, given by where they start, are equal. */
  lemma StrippingsEqual(s: string, i: nat, r: string, i': nat, t: string)
    requires StrippedAt(s, i, r) && StrippedAt(s, i', t)
    requires IsTrimmed(r) && IsTrimmed(t)
    ensures r == t
  {
    assert r != [] ==> s[i] == r[0] && s[i + |r| - 1] == r[|r| - 1];
    assert t != [] ==> s[i'] == t[0] && s[i' + |t| - 1] == t[|t| - 1];
    FirstNonWhitespace(s, i, i');
    FirstNonWhitespace(s, i', i);
    LastNonWhitespace(s, i + |r|, i' + |t| - 1);
    LastNonWhitespace(s, i' + |t|, i + |r| - 1);
    assert |r| == |t|;
    assert r != [] ==> i == i';
  }

  /** At most one string is a trimmed whitespace-stripping of `s`: `Trim` is that string. */
  lemma TrimUnique(s: string, r: string)
    requires IsTrimmed(r) && StripsOnlyWhitespace(s, r)
    ensures r == Trim(s)
  {
    var t := Trim(s);
    TrimSpec(s);
    var i :| StrippedAt(s, i, r);
    var i' :| StrippedAt(s, i', t);
    StrippingsEqual(s, i, r, i', t);
  }

  lemma TrimIdempotent(s: string)
    ensures Trim(Trim(s)) == Trim(s)
  {
    var t := Trim(s);
    TrimSpec(s);
    assert t[..0] == [] && t[0..0 + |t|] == t && t[|t|..] == [];
    assert StrippedAt(t, 0, t);
    TrimUnique(t, t);
  }

  /**
   * `s.replace(pat, "")`: every occurrence of `pat` found scanning left to
   * right, each one after the previous, is deleted. An empty `pat` leaves
   * `s` as it is.
   */
  function RemoveAll(s: string, pat: string): (r: string)
    ensures |r| <= |s|
    decreases |s|
  {
    if |pat| == 0 || |s| < |pat| then s
    else if s[..|pat|] == pat then RemoveAll(s[|pat|..], pat)
    else [s[0]] + RemoveAll(s[1..], pat)
  }

  /** A text in which `pat` cannot start anywhere comes back unchanged. */
  lemma {:induction false} RemoveAllAbsent(s: string, pat: string)
    requires |pat| > 0 && pat[0] !in s
    ensures RemoveAll(s, pat) == s
    decreases |s|
  {
    if |s| >= |pat| {
      assert s[..|pat|][0] == s[0];
      assert s[1..] == s[..][1..] && pat[0] !in s[1..] by {
        forall k | 0 <= k < |s| - 1 ensures s[1..][k] != pat[0] { assert s[1..][k] == s[k + 1]; }
      }
      RemoveAllAbsent(s[1..], pat);
    }
  }

  /** Removing a single character removes every copy of it. */
  lemma {:induction false} RemoveAllChar(s: string, c: char)
    ensures c !in RemoveAll(s, [c])
    decreases |s|
  {
    if |s| >= 1 {
      RemoveAllChar(s[1..], c);
      if s[..1] == [c] {
        assert s[1..] == s[|[c]|..];
      } else {
        assert s[0] != c;
      }
    }
  }

  lemma RemoveCharStep(s: string, c: char)
    requires s != []
    ensures RemoveAll(s, [c]) == (if s[0] == c then [] else [s[0]]) + RemoveAll(s[1..], [c])
  {
    assert s[..1] == [s[0]];
  }

  lemma RemoveCharTriple(s: string, c: char)
    requires |s| >= 3 && s[..3] == [c, c, c]
    ensures RemoveAll(s, [c]) == RemoveAll(s[3..], [c])
  {
    RemoveCharStep(s, c);
    RemoveCharStep(s[1..], c);
    assert s[1..][1..] == s[2..];
    RemoveCharStep(s[2..], c);
    assert s[2..][1..] == s[3..];
  }

  lemma RemoveTripleStep(s: string, c: char)
    requires |s| >= 3
    ensures RemoveAll(s, [c, c, c]) ==
      if s[..3] == [c, c, c] then RemoveAll(s[3..], [c, c, c]) else [s[0]] + RemoveAll(s[1..], [c, c, c])
  {
  }

  /**
   * Deleting runs of three copies of `c` before deleting every `c` changes
   * nothing: the second step alone gives the same text.
   */
  lemma {:induction false} RemoveTripleThenSingle(s: string, c: char)
    ensures RemoveAll(RemoveAll(s, [c, c, c]), [c]) == RemoveAll(s, [c])
    decreases |s|
  {
    if |s| >= 3 {
      RemoveTripleStep(s, c);
      if s[..3] == [c, c, c] {
        RemoveTripleThenSingle(s[3..], c);
        RemoveCharTriple(s, c);
      } else {
        var t := RemoveAll(s[1..], [c, c, c]);
        RemoveTripleThenSingle(s[1..], c);
        RemoveCharStep([s[0]] + t, c);
        assert ([s[0]] + t)[1..] == t;
        RemoveCharStep(s, c);
      }
    }
  }

  lemma MultisetDropAfterAdd(m: multiset<char>, x: char, c: char)
    ensures (multiset{x} + m)[c := 0] == if x == c then m[c := 0] else multiset{x} + m[c := 0]
  {
  }

  /** Deleting a single character keeps every other character, each as often as before. */
  lemma {:induction false} RemoveAllCharKeeps(s: string, c: char)
    ensures multiset(RemoveAll(s, [c])) == multiset(s)[c := 0]
    decreases |s|
  {
    if s != [] {
      var t := RemoveAll(s[1..], [c]);
      RemoveCharStep(s, c);
      RemoveAllCharKeeps(s[1..], c);
      assert s == [s[0]] + s[1..];
      assert multiset(s) == multiset{s[0]} + multiset(s[1..]);
      MultisetDropAfterAdd(multiset(s[1..]), s[0], c);
      if s[0] != c {
        assert multiset([s[0]] + t) == multiset{s[0]} + multiset(t);
      }
    }
  }

  /** `pat` occurs in `t` starting at index `k`. */
  predicate OccursAt(t: string, pat: string, k: int) {
    0 <= k && k + |pat| <= |t| && t[k..k + |pat|] == pat
  }

  /**
   * The stretches of `s` that `RemoveAll(s, pat)` keeps, in order, as the
   * left-to-right scan finds them.
   */
  function Pieces(s: string, pat: string): (ps: seq<string>)
    ensures |ps| > 0
    decreases |s|
  {
    if |pat| == 0 || |s| < |pat| then [s]
    else if s[..|pat|] == pat then [[]] + Pieces(s[|pat|..], pat)
    else var rest := Pieces(s[1..], pat); [[s[0]] + rest[0]] + rest[1..]
  }

  lemma PiecesStep(s: string, pat: string)
    requires 0 < |pat| <= |s|
    ensures s[..|pat|] == pat ==>
      RemoveAll(s, pat) == RemoveAll(s[|pat|..], pat) && Pieces(s, pat) == [[]] + Pieces(s[|pat|..], pat)
    ensures s[..|pat|] != pat ==>
      RemoveAll(s, pat) == [s[0]] + RemoveAll(s[1..], pat) &&
      Pieces(s, pat) == [[s[0]] + Pieces(s[1..], pat)[0]] + Pieces(s[1..], pat)[1..]
  {
  }

  lemma JoinEmptyHead(rest: seq<string>, sep: string)
    requires |rest| > 0
    ensures Join([[]] + rest, sep) == sep + Join(rest, sep)
  {
    assert ([[]] + rest)[1..] == rest;
  }

  lemma JoinGrowHead(x: string, rest: seq<string>, sep: string)
    requires |rest| > 0
    ensures Join([x + rest[0]] + rest[1..], sep) == x + Join(rest, sep)
  {
    var ps := [x + rest[0]] + rest[1..];
    if |rest| > 1 {
      assert ps[1..] == rest[1..];
      assert Join(ps, sep) == x + rest[0] + sep + Join(rest[1..], sep);
    }
  }

  /**
   * The input is the kept stretches with one whole copy of `pat` between
   * each two, and the result is the same stretches laid end to end: the
   * deletion removes copies of `pat` and keeps everything else in order.
   */
  lemma {:induction false} RemoveAllSplits(s: string, pat: string)
    ensures Join(Pieces(s, pat), pat) == s
    ensures Join(Pieces(s, pat), []) == RemoveAll(s, pat)
    decreases |s|
  {
    if |pat| > 0 && |s| >= |pat| {
      PiecesStep(s, pat);
      if s[..|pat|] == pat {
        var rest := Pieces(s[|pat|..], pat);
        RemoveAllSplits(s[|pat|..], pat);
        JoinEmptyHead(rest, pat);
        JoinEmptyHead(rest, []);
        assert s == pat + s[|pat|..];
      } else {
        var rest := Pieces(s[1..], pat);
        RemoveAllSplits(s[1..], pat);
        JoinGrowHead([s[0]], rest, pat);
        JoinGrowHead([s[0]], rest, []);
        assert s == [s[0]] + s[1..];
      }
    }
  }

  lemma OccursShift(s: string, pat: string, k: int)
    requires 1 <= k && |s| >= 1
    ensures OccursAt(s, pat, k) == OccursAt(s[1..], pat, k - 1)
  {
    if k + |pat| <= |s| {
      assert s[1..][k - 1..k - 1 + |pat|] == s[k..k + |pat|];
    }
  }

  /** `pat` starts at none of the first `n` indices of `t`. */
  predicate NoneBefore(t: string, pat: string, n: int) {
    forall k :: 0 <= k < n ==> !OccursAt(t, pat, k)
  }

  lemma NoneBeforeShift(s: string, pat: string, n: int)
    requires 1 <= n && |s| >= 1 && !OccursAt(s, pat, 0) && NoneBefore(s[1..], pat, n - 1)
    ensures NoneBefore(s, pat, n)
  {
    forall k | 1 <= k < n ensures !OccursAt(s, pat, k) {
      OccursShift(s, pat, k);
    }
  }

  /**
   * The scan deletes the leftmost occurrence first: `pat` starts nowhere
   * inside the first kept stretch, a copy of `pat` follows it if more
   * stretches come, and the remaining stretches are those of the text after
   * that copy. With `RemoveAllSplits` this determines the stretches.
   */
  lemma {:induction false} RemoveAllLeftmost(s: string, pat: string)
    requires |pat| > 0
    ensures NoneBefore(s, pat, |Pieces(s, pat)[0]|)
    ensures |Pieces(s, pat)| > 1 ==>
      OccursAt(s, pat, |Pieces(s, pat)[0]|) &&
      Pieces(s[|Pieces(s, pat)[0]| + |pat|..], pat) == Pieces(s, pat)[1..]
    decreases |s|
  {
    if |s| >= |pat| {
      PiecesStep(s, pat);
      var ps := Pieces(s, pat);
      if s[..|pat|] == pat {
        assert ps[0] == [] && ps[1..] == Pieces(s[|pat|..], pat);
      } else {
        var rest := Pieces(s[1..], pat);
        RemoveAllLeftmost(s[1..], pat);
        assert ps[0] == [s[0]] + rest[0] && ps[1..] == rest[1..];
        assert s[0..|pat|] == s[..|pat|];
        NoneBeforeShift(s, pat, |ps[0]|);
        if |ps| > 1 {
          OccursShift(s, pat, |ps[0]|);
          assert s[1..][|rest[0]| + |pat|..] == s[|ps[0]| + |pat|..];
        }
      }
    }
  }

  /** `parts.join(sep)`: the parts in order with `sep` between each two neighbours. */
  function Join(parts: seq<string>, sep: string): string
  {
    if |parts| == 0 then []
    else if |parts| == 1 then parts[0]
    else parts[0] + sep + Join(parts[1..], sep)
  }

  /** The first `i` parts, each followed by `sep`: what precedes part `i` in the joined text. */
  function Prefix(parts: seq<string>, sep: string, i: nat): string
    requires i <= |parts|
  {
    if i == 0 then [] else Prefix(parts, sep, i - 1) + parts[i - 1] + sep
  }

  /** Where the part with index `i` starts in the joined text. */
  function Offset(parts: seq<string>, sep: string, i: nat): nat
    requires i <= |parts|
  {
    if i == 0 then 0 else Offset(parts, sep, i - 1) + |parts[i - 1]| + |sep|
  }

  lemma {:induction false} PrefixLength(parts: seq<string>, sep: string, i: nat)
    requires i <= |parts|
    ensures |Prefix(parts, sep, i)| == Offset(parts, sep, i)
  {
    if i > 0 { PrefixLength(parts, sep, i - 1); }
  }

  /** The joined text is the first `i` parts with their separators, then the rest joined. */
  lemma {:induction false} JoinSplit(parts: seq<string>, sep: string, i: nat)
    requires i < |parts|
    ensures Join(parts, sep) == Prefix(parts, sep, i) + Join(parts[i..], sep)
  {
    if i == 0 {
      assert parts[0..] == parts;
    } else {
      JoinSplit(parts, sep, i - 1);
      var from := parts[i - 1..];
      assert |from| >= 2 && from[0] == parts[i - 1] && from[1..] == parts[i..];
      assert Join(from, sep) == parts[i - 1] + sep + Join(parts[i..], sep);
    }
  }

  /** The joined text of a non-empty list starts with its first part, then `sep` if more follow. */
  lemma JoinHead(parts: seq<string>, sep: string)
    requires |parts| > 0
    ensures |parts| == 1 ==> Join(parts, sep) == parts[0]
    ensures |parts| > 1 ==> Join(parts, sep) == parts[0] + sep + Join(parts[1..], sep)
  {
  }

  /** The joined text is as long as all the parts and the separators between them. */
  lemma {:induction false} JoinLength(parts: seq<string>, sep: string)
    requires |parts| > 0
    ensures |Join(parts, sep)| + |sep| == Offset(parts, sep, |parts|)
  {
    var n := |parts| - 1;
    JoinSplit(parts, sep, n);
    PrefixLength(parts, sep, n);
    assert parts[n..] == [parts[n]];
  }

  lemma SliceAfterPrefix(a: string, b: string, x: nat, y: nat)
    requires x <= y <= |b|
    ensures (a + b)[|a| + x..|a| + y] == b[x..y]
  {
  }

  /**
   * The joined text is the parts laid end to end in order: part `i` sits at
   * `Offset(parts, sep, i)`. With `JoinSeparator` and `JoinLength` this
   * leaves no room for anything else.
   */
  lemma JoinPart(parts: seq<string>, sep: string, i: nat)
    requires i < |parts|
    ensures Offset(parts, sep, i) + |parts[i]| <= |Join(parts, sep)|
    ensures Join(parts, sep)[Offset(parts, sep, i)..Offset(parts, sep, i) + |parts[i]|] == parts[i]
  {
    var pre, rest := Prefix(parts, sep, i), Join(parts[i..], sep);
    JoinSplit(parts, sep, i);
    PrefixLength(parts, sep, i);
    JoinHead(parts[i..], sep);
    assert rest[..|parts[i]|] == parts[i];
    SliceAfterPrefix(pre, rest, 0, |parts[i]|);
  }

  /** Between part `i` and part `i + 1` of the joined text stands exactly one `sep`. */
  lemma JoinSeparator(parts: seq<string>, sep: string, i: nat)
    requires i + 1 < |parts|
    ensures Offset(parts, sep, i) + |parts[i]| <= Offset(parts, sep, i + 1) <= |Join(parts, sep)|
    ensures Join(parts, sep)[Offset(parts, sep, i) + |parts[i]|..Offset(parts, sep, i + 1)] == sep
  {
    var pre, rest := Prefix(parts, sep, i), Join(parts[i..], sep);
    JoinSplit(parts, sep, i);
    PrefixLength(parts, sep, i);
    JoinHead(parts[i..], sep);
    var n := |parts[i]|;
    assert rest == parts[i] + sep + Join(parts[i + 1..], sep);
    assert rest[n..n + |sep|] == sep;
    SliceAfterPrefix(pre, rest, n, n + |sep|);
  }
}
