/**
 * String primitives the planner relies on: the whitespace class, ASCII case
 * mapping, Python's `str.strip`, `str.capitalize`, substring search (`in`),
 * `str.split` and `str.join`.
 */
module Text {
  import opened Wrappers

  /** The fixed whitespace class used for `\s` and for `strip()`. */
  predicate IsSpace(c: char) {
    c == ' ' || c == '\t' || c == '\n' || c == '\r' || c == '\U{0B}' || c == '\U{0C}'
  }

  predicate IsDigit(c: char) { '0' <= c <= '9' }
  predicate IsUpper(c: char) { 'A' <= c <= 'Z' }
  predicate IsLower(c: char) { 'a' <= c <= 'z' }
  predicate IsLetter(c: char) { IsUpper(c) || IsLower(c) }

  function Lower(c: char): (r: char)
    ensures IsUpper(c) ==> IsLower(r) && r as int == c as int + 32
    ensures !IsUpper(c) ==> r == c
  {
    if IsUpper(c) then (c as int + 32) as char else c
  }

  function Upper(c: char): (r: char)
    ensures IsLower(c) ==> IsUpper(r) && r as int == c as int - 32
    ensures !IsLower(c) ==> r == c
  {
    if IsLower(c) then (c as int - 32) as char else c
  }

  /** Two characters are equal when case is ignored (ASCII case folding). */
  predicate SameFold(c: char, d: char) { Lower(c) == Lower(d) }

  /** Characters that agree up to case have the same upper-case form. */
  lemma SameFoldUpper(c: char, d: char)
    requires SameFold(c, d)
    ensures Upper(c) == Upper(d)
  {
  }

  predicate AllSpace(t: string) {
    forall k :: 0 <= k < |t| ==> IsSpace(t[k])
  }

  /** Every character lower-cased. */
  function LowerAll(w: string): (r: string)
    ensures |r| == |w|
    ensures forall i :: 0 <= i < |w| ==> r[i] == Lower(w[i])
  {
    if w == [] then [] else [Lower(w[0])] + LowerAll(w[1..])
  }

  /** Python's `str.capitalize` on ASCII text: first character upper-cased, the rest lower-cased. */
  function Capitalize(w: string): (r: string)
    ensures |r| == |w|
    ensures |w| > 0 ==> r[0] == Upper(w[0])
    ensures forall i :: 1 <= i < |w| ==> r[i] == Lower(w[i])
  {
    if w == [] then [] else [Upper(w[0])] + LowerAll(w[1..])
  }

  /** Two strings are equal when case is ignored. */
  predicate EqualFold(a: string, b: string) {
    LowerAll(a) == LowerAll(b)
  }

  /** Equal up to case means equal length and equal characters up to case. */
  lemma EqualFoldAt(a: string, b: string)
    requires EqualFold(a, b)
    ensures |a| == |b| && forall i :: 0 <= i < |a| ==> SameFold(a[i], b[i])
  {
    assert |a| == |LowerAll(a)|;
    forall i | 0 <= i < |a| ensures SameFold(a[i], b[i]) {
      assert LowerAll(a)[i] == LowerAll(b)[i];
    }
  }

  /** Capitalization only depends on the letters, not on their case. */
  lemma CapitalizeIgnoresCase(a: string, b: string)
    requires EqualFold(a, b)
    ensures Capitalize(a) == Capitalize(b)
  {
    EqualFoldAt(a, b);
    if |a| > 0 {
      SameFoldUpper(a[0], b[0]);
    }
  }

  /** Capitalizing only changes case. */
  lemma CapitalizeFolds(w: string)
    ensures EqualFold(Capitalize(w), w)
  {
    var c := Capitalize(w);
    var l := LowerAll(c);
    var r := LowerAll(w);
    forall i | 0 <= i < |l| ensures l[i] == r[i] {
      assert l[i] == Lower(c[i]);
    }
    assert |l| == |r|;
    assert l == r;
  }

  /** Upper-casing ignores an earlier lower-casing. */
  lemma UpperOfLower(c: char)
    ensures Upper(Lower(c)) == Upper(c)
  {
  }

  /** The capitalized form depends only on the lower-cased form. */
  lemma CapitalizeFromLower(w: string)
    requires |w| > 0
    ensures Capitalize(w) == [Upper(LowerAll(w)[0])] + LowerAll(w)[1..]
  {
    var l := LowerAll(w);
    var c := Capitalize(w);
    var r := [Upper(l[0])] + l[1..];
    UpperOfLower(w[0]);
    assert c[0] == r[0];
    forall i | 1 <= i < |c| ensures c[i] == r[i] {
      assert r[i] == l[1..][i - 1] == l[i];
    }
    assert c == r;
  }

  /** Capitalizing twice is capitalizing once. */
  lemma CapitalizeIdempotent(w: string)
    ensures Capitalize(Capitalize(w)) == Capitalize(w)
  {
    var c := Capitalize(w);
    var cc := Capitalize(c);
    assert |cc| == |c|;
    forall i | 0 <= i < |c| ensures cc[i] == c[i] {
    }
  }

  /** A capitalized non-empty run of letters starts upper-case and continues lower-case. */
  lemma CapitalizedLetters(w: string)
    requires |w| > 0 && forall i :: 0 <= i < |w| ==> IsLetter(w[i])
    ensures var r := Capitalize(w); IsUpper(r[0]) && forall i :: 1 <= i < |r| ==> IsLower(r[i])
  {
  }

  /** `w` occurs in `s` at index `i`. */
  predicate StartsAt(s: string, i: nat, w: string) {
    i + |w| <= |s| && s[i..i + |w|] == w
  }

  /** `low`, written in lower case, occurs in `s` at index `i` when case is ignored. */
  predicate StartsAtFold(s: string, i: nat, low: string)
    decreases |low|
  {
    |low| == 0 || (i < |s| && Lower(s[i]) == low[0] && StartsAtFold(s, i + 1, low[1..]))
  }

  /** `StartsAtFold` compares the lower-cased slice of the text with `low`. */
  lemma {:induction false} StartsAtFoldIff(s: string, i: nat, low: string)
    requires i <= |s|
    ensures StartsAtFold(s, i, low) <==> i + |low| <= |s| && LowerAll(s[i..i + |low|]) == low
    decreases |low|
  {
    if |low| > 0 && i < |s| {
      StartsAtFoldIff(s, i + 1, low[1..]);
      if i + |low| <= |s| {
        var t := s[i..i + |low|];
        assert t[1..] == s[i + 1..i + 1 + |low[1..]|];
        assert LowerAll(t) == [Lower(s[i])] + LowerAll(t[1..]);
        assert low == [low[0]] + low[1..];
      }
    }
  }

  /** An occurrence of a non-empty `w` begins with `w`'s first character. */
  lemma StartsAtHead(s: string, j: nat, w: string)
    requires |w| > 0
    ensures StartsAt(s, j, w) ==> j < |s| && s[j] == w[0]
  {
    if StartsAt(s, j, w) {
      var t := s[j..j + |w|];
      assert t == w;
      assert t[0] == s[j];
    }
  }

  /** An occurrence in a slice of `s` is an occurrence in `s`, shifted by the slice's start. */
  lemma StartsAtSlice(s: string, a: nat, b: nat, j: nat, w: string)
    requires a <= b <= |s|
    ensures StartsAt(s[a..b], j, w) <==> a + j + |w| <= b && StartsAt(s, a + j, w)
  {
    if a + j + |w| <= b {
      var t := s[a..b];
      forall i | j <= i < j + |w| ensures t[i] == s[a + i] {
      }
      assert t[j..j + |w|] == s[a + j..a + j + |w|];
    }
  }

  /** The first index at or after `from` where `sub` occurs. */
  function Find(s: string, sub: string, from: nat): (r: Option<nat>)
    requires from <= |s|
    ensures r.Some? ==> from <= r.value <= |s| && StartsAt(s, r.value, sub)
    ensures r.Some? ==> forall j :: from <= j < r.value ==> !StartsAt(s, j, sub)
    ensures r.None? ==> forall j :: from <= j <= |s| ==> !StartsAt(s, j, sub)
    decreases |s| - from
  {
    if StartsAt(s, from, sub) then Some(from)
    else if from == |s| then None
    else Find(s, sub, from + 1)
  }

  /** Python's `sub in s`. */
  predicate Contains(s: string, sub: string)
    ensures !Contains(s, sub) ==> forall j :: 0 <= j <= |s| ==> !StartsAt(s, j, sub)
  {
    Find(s, sub, 0).Some?
  }

  /** `Contains` is exactly "occurs at some index". */
  lemma ContainsIff(s: string, sub: string)
    ensures Contains(s, sub) <==> exists j :: 0 <= j <= |s| && StartsAt(s, j, sub)
  {
    if Contains(s, sub) {
      assert StartsAt(s, Find(s, sub, 0).value, sub);
    }
  }

  /** Appending nothing leaves a string as it is. */
  lemma AppendEmpty(s: string)
    ensures s + "" == s
  {
  }

  /** An occurrence in `a` is still one in `a + b`. */
  lemma StartsAtAppend(a: string, b: string, i: nat, w: string)
    requires StartsAt(a, i, w)
    ensures StartsAt(a + b, i, w)
  {
    assert (a + b)[i..i + |w|] == a[i..i + |w|];
  }

  /** An occurrence in `b` moves right by `|a|` in `a + b`. */
  lemma StartsAtShift(a: string, b: string, j: nat, w: string)
    requires StartsAt(b, j, w)
    ensures StartsAt(a + b, |a| + j, w)
  {
    assert (a + b)[|a| + j..|a| + j + |w|] == b[j..j + |w|];
  }

  /**
   * In `a + x + z`, the word `lead` starts right after `a` exactly when the
   * optional piece `x` is there, if `x` starts with `lead` and `z` does not.
   */
  lemma PieceIff(a: string, x: string, z: string, lead: string)
    requires |lead| > 0
    requires x != [] ==> StartsAt(x, 0, lead)
    requires z != [] ==> z[0] != lead[0]
    ensures StartsAt(a + x + z, |a|, lead) <==> x != []
  {
    if x != [] {
      StartsAtShift(a, x, 0, lead);
      StartsAtAppend(a + x, z, |a|, lead);
    } else {
      StartsAtHead(a + x + z, |a|, lead);
    }
  }

  /** The same as `PieceIff` with a second optional piece `y` between `x` and `z`. */
  lemma PieceIff3(a: string, x: string, y: string, z: string, lead: string)
    requires |lead| > 0
    requires x != [] ==> StartsAt(x, 0, lead)
    requires y != [] ==> y[0] != lead[0]
    requires z != [] ==> z[0] != lead[0]
    ensures StartsAt(a + x + y + z, |a|, lead) <==> x != []
  {
    if x != [] {
      StartsAtShift(a, x, 0, lead);
      StartsAtAppend(a + x, y, |a|, lead);
      StartsAtAppend(a + x + y, z, |a|, lead);
    } else {
      StartsAtHead(a + x + y + z, |a|, lead);
    }
  }

  /** `a + b` contains what `a` contains. */
  lemma ContainsAppend(a: string, b: string, w: string)
    requires Contains(a, w)
    ensures Contains(a + b, w)
  {
    ContainsIff(a, w);
    var j :| 0 <= j <= |a| && StartsAt(a, j, w);
    StartsAtAppend(a, b, j, w);
    ContainsIff(a + b, w);
  }

  /** `a + b` contains what `b` contains. */
  lemma ContainsPrepend(a: string, b: string, w: string)
    requires Contains(b, w)
    ensures Contains(a + b, w)
  {
    ContainsIff(b, w);
    var j :| 0 <= j <= |b| && StartsAt(b, j, w);
    StartsAtShift(a, b, j, w);
    ContainsIff(a + b, w);
  }

  /** A prefix without the first character of `w` neither creates nor hides an occurrence of `w`. */
  lemma ContainsAfterPrefix(a: string, m: string, w: string)
    requires |w| > 0 && Avoids(a, w[0])
    ensures Contains(a + m, w) <==> Contains(m, w)
  {
    ContainsIff(a + m, w);
    ContainsIff(m, w);
    forall j | 0 <= j < |a| ensures !StartsAt(a + m, j, w) {
      StartsAtHead(a + m, j, w);
      assert (a + m)[j] == a[j];
    }
    if Contains(a + m, w) {
      var j :| 0 <= j <= |a + m| && StartsAt(a + m, j, w);
      assert (a + m)[j..j + |w|] == m[j - |a|..j - |a| + |w|];
      assert StartsAt(m, j - |a|, w);
    }
    if Contains(m, w) {
      var j :| 0 <= j <= |m| && StartsAt(m, j, w);
      StartsAtShift(a, m, j, w);
    }
  }

  /** Every string contains itself. */
  lemma ContainsSelf(w: string)
    ensures Contains(w, w)
  {
    assert StartsAt(w, 0, w);
    ContainsIff(w, w);
  }

  /** Python's `s.endswith(w)`. */
  predicate EndsWith(s: string, w: string) {
    |w| <= |s| && s[|s| - |w|..] == w
  }

  /** `a + b` ends with what `b` ends with. */
  lemma EndsWithPrepend(a: string, b: string, w: string)
    requires EndsWith(b, w)
    ensures EndsWith(a + b, w)
  {
    assert (a + b)[|a + b| - |w|..] == b[|b| - |w|..];
  }

  /** A string holding no copy of the first character of `sub` does not contain `sub`. */
  lemma NotContainsWithoutFirstChar(s: string, sub: string)
    requires |sub| > 0
    requires forall k :: 0 <= k < |s| ==> s[k] != sub[0]
    ensures !Contains(s, sub)
  {
    forall j | 0 <= j <= |s| ensures !StartsAt(s, j, sub) {
      StartsAtHead(s, j, sub);
    }
    ContainsIff(s, sub);
  }

  /** A slice of a string that does not contain `sub` does not contain it either. */
  lemma NotContainsSlice(s: string, a: nat, b: nat, sub: string)
    requires a <= b <= |s|
    requires !Contains(s, sub)
    ensures !Contains(s[a..b], sub)
  {
    ContainsIff(s, sub);
    ContainsIff(s[a..b], sub);
    forall i | 0 <= i <= b - a ensures !StartsAt(s[a..b], i, sub) {
      StartsAtSlice(s, a, b, i, sub);
    }
  }

  /** The end of the run of characters satisfying `p` that starts at `i` (a greedy `[...]*`). */
  function SkipWhile(s: string, i: nat, p: char -> bool): (j: nat)
    requires i <= |s|
    ensures i <= j <= |s|
    ensures j < |s| ==> !p(s[j])
    decreases |s| - i
  {
    if i == |s| || !p(s[i]) then i else SkipWhile(s, i + 1, p)
  }

  /** Every character the skip passes over satisfies `p`. */
  lemma {:induction false} SkipWhileCovers(s: string, i: nat, p: char -> bool)
    requires i <= |s|
    ensures forall k :: i <= k < SkipWhile(s, i, p) ==> p(s[k])
    decreases |s| - i
  {
    if i < |s| && p(s[i]) {
      SkipWhileCovers(s, i + 1, p);
    }
  }

  /** A run of `p` characters from `e` to `k` is covered by the skip. */
  lemma {:induction false} SkipWhilePast(s: string, e: nat, k: nat, p: char -> bool)
    requires e <= k <= |s|
    requires forall i :: e <= i < k ==> p(s[i])
    ensures k <= SkipWhile(s, e, p)
    decreases k - e
  {
    if e < k {
      SkipWhilePast(s, e + 1, k, p);
    }
  }

  /** The skip stops at or before the first character that fails `p`. */
  lemma {:induction false} SkipWhileStops(s: string, e: nat, k: nat, p: char -> bool)
    requires e <= k < |s| && !p(s[k])
    ensures SkipWhile(s, e, p) <= k
    decreases k - e
  {
    if e < k && p(s[e]) {
      SkipWhileStops(s, e + 1, k, p);
    }
  }

  /** Trailing whitespace: the smallest index `j >= lo` with only whitespace in `s[j..e]`. */
  function BackSpaces(s: string, lo: nat, e: nat): (j: nat)
    requires lo <= e <= |s|
    ensures lo <= j <= e
    ensures forall k :: j <= k < e ==> IsSpace(s[k])
    ensures j > lo ==> !IsSpace(s[j - 1])
    decreases e - lo
  {
    if e == lo || !IsSpace(s[e - 1]) then e else BackSpaces(s, lo, e - 1)
  }

  /** Python's `str.strip()`: `s` without its leading and trailing whitespace. */
  function Strip(s: string): (r: string)
    ensures |r| <= |s|
    ensures r == [] || (!IsSpace(r[0]) && !IsSpace(r[|r| - 1]))
    ensures exists a: nat :: a + |r| <= |s| && s[a..a + |r|] == r && AllSpace(s[..a]) && AllSpace(s[a + |r|..])
  {
    var a := SkipWhile(s, 0, IsSpace);
    var b := BackSpaces(s, a, |s|);
    SkipWhileCovers(s, 0, IsSpace);
    assert AllSpace(s[..a]) && AllSpace(s[b..]);
    s[a..b]
  }

  /** The stripped text is the slice between the leading and the trailing whitespace. */
  lemma StripIsSlice(s: string)
    ensures var a := SkipWhile(s, 0, IsSpace); Strip(s) == s[a..BackSpaces(s, a, |s|)]
  {
  }

  /** Stripping keeps nothing that was not in the string. */
  lemma StripNotContains(s: string, sub: string)
    requires !Contains(s, sub)
    ensures !Contains(Strip(s), sub)
  {
    StripIsSlice(s);
    var a := SkipWhile(s, 0, IsSpace);
    NotContainsSlice(s, a, BackSpaces(s, a, |s|), sub);
  }

  /** Text without whitespace at either end is left as it is. */
  lemma StripUnchanged(s: string)
    requires Trimmed(s)
    ensures Strip(s) == s
  {
    StripIsSlice(s);
    if s != [] {
      assert SkipWhile(s, 0, IsSpace) == 0;
      assert BackSpaces(s, 0, |s|) == |s|;
    }
  }

  /** Neither end of `t` is white space. */
  predicate Trimmed(t: string) {
    t == [] || (!IsSpace(t[0]) && !IsSpace(t[|t| - 1]))
  }

  /** Python's `sep.join(parts)`. */
  function Join(parts: seq<string>, sep: string): (r: string)
    ensures |parts| == 1 ==> r == parts[0]
    ensures |parts| >= 2 ==> |r| >= |parts[0]| + |sep| && r[..|parts[0]|] == parts[0] && StartsAt(r, |parts[0]|, sep)
  {
    if |parts| == 0 then ""
    else if |parts| == 1 then parts[0]
    else parts[0] + sep + Join(parts[1..], sep)
  }

  /** Python's `s.split(sep)` for a non-empty separator. */
  function Split(s: string, sep: string): (r: seq<string>)
    requires |sep| > 0
    ensures |r| >= 1
    ensures Join(r, sep) == s
    ensures forall i :: 0 <= i < |r| ==> !Contains(r[i], sep)
    ensures |r| == 1 <==> !Contains(s, sep)
    decreases |s|
  {
    match Find(s, sep, 0)
    case None => [s]
    case Some(i) =>
      var rest := Split(s[i + |sep|..], sep);
      SplitAtFirst(s, sep, i);
      JoinCons(s[..i], rest, sep);
      [s[..i]] + rest
  }

  /** Around its first occurrence of `sep`, `s` is a `sep`-free head, `sep`, and the rest. */
  lemma SplitAtFirst(s: string, sep: string, i: nat)
    requires |sep| > 0 && Find(s, sep, 0) == Some(i)
    ensures !Contains(s[..i], sep)
    ensures s == s[..i] + sep + s[i + |sep|..]
  {
    var head := s[..i];
    ContainsIff(head, sep);
    forall j | 0 <= j <= i ensures !StartsAt(head, j, sep) {
      StartsAtSlice(s, 0, i, j, sep);
    }
    assert s[i..i + |sep|] == sep;
    assert s == s[..i] + s[i..i + |sep|] + s[i + |sep|..];
  }

  /** Joining a head before a non-empty list puts one separator between them. */
  lemma JoinCons(head: string, rest: seq<string>, sep: string)
    requires |rest| >= 1
    ensures Join([head] + rest, sep) == head + sep + Join(rest, sep)
  {
    assert ([head] + rest)[1..] == rest;
  }

  /** No character of `t` is `c`. */
  predicate Avoids(t: string, c: char) {
    forall k :: 0 <= k < |t| ==> t[k] != c
  }

  /** Splitting a joined list gives the list back when no part holds the separator's first character. */
  lemma {:induction false} SplitJoin(parts: seq<string>, sep: string)
    requires |parts| >= 1 && |sep| > 0
    requires forall i :: 0 <= i < |parts| ==> Avoids(parts[i], sep[0])
    ensures Split(Join(parts, sep), sep) == parts
    decreases |parts|
  {
    if |parts| == 1 {
      NotContainsWithoutFirstChar(parts[0], sep);
    } else {
      SplitAfterPart(parts[0], sep, Join(parts[1..], sep));
      SplitJoin(parts[1..], sep);
      assert [parts[0]] + parts[1..] == parts;
    }
  }

  /** A first part free of the separator's first character is the first piece. */
  lemma SplitAfterPart(p: string, sep: string, rest: string)
    requires |sep| > 0 && Avoids(p, sep[0])
    ensures Split(p + sep + rest, sep) == [p] + Split(rest, sep)
  {
    var s := p + sep + rest;
    assert StartsAt(s, |p|, sep) by {
      assert s[|p|..|p| + |sep|] == sep;
    }
    forall j | 0 <= j < |p| ensures !StartsAt(s, j, sep) {
      assert s[j] == p[j];
      StartsAtHead(s, j, sep);
    }
    FirstPiece(s, sep, |p|);
    assert s[..|p|] == p;
    assert s[|p| + |sep|..] == rest;
  }

  /** When the first occurrence of `sep` is at `n`, the first piece ends there and the
      second piece is the first piece of what follows the separator. */
  lemma FirstPiece(s: string, sep: string, n: nat)
    requires |sep| > 0 && StartsAt(s, n, sep)
    requires forall j :: 0 <= j < n ==> !StartsAt(s, j, sep)
    ensures Split(s, sep) == [s[..n]] + Split(s[n + |sep|..], sep)
    ensures |Split(s, sep)| >= 2
    ensures Split(s, sep)[0] == s[..n]
    ensures Split(s, sep)[1] == Split(s[n + |sep|..], sep)[0]
  {
    var f := Find(s, sep, 0);
    assert f.Some?;
    assert f.value == n;
  }

  /** With no occurrence of `sep` before `n`, the first piece keeps the first `n` characters. */
  lemma FirstPieceKeeps(s: string, sep: string, n: nat)
    requires |sep| > 0 && n <= |s|
    requires forall j :: 0 <= j < n ==> !StartsAt(s, j, sep)
    ensures |Split(s, sep)[0]| >= n && Split(s, sep)[0][..n] == s[..n]
  {
    var f := Find(s, sep, 0);
    if f.Some? {
      assert f.value >= n;
    }
  }

  /** Joining parts that avoid `c` with a separator that avoids `c` gives a string that avoids `c`. */
  lemma {:induction false} JoinAvoids(parts: seq<string>, sep: string, c: char)
    requires Avoids(sep, c)
    requires forall i :: 0 <= i < |parts| ==> Avoids(parts[i], c)
    ensures Avoids(Join(parts, sep), c)
    decreases |parts|
  {
    if |parts| > 1 {
      JoinAvoids(parts[1..], sep, c);
      var t := Join(parts[1..], sep);
      assert Join(parts, sep) == parts[0] + sep + t;
      forall k | 0 <= k < |parts[0] + sep + t| ensures (parts[0] + sep + t)[k] != c {
        if k < |parts[0]| {
          assert (parts[0] + sep + t)[k] == parts[0][k];
        } else if k < |parts[0]| + |sep| {
          assert (parts[0] + sep + t)[k] == sep[k - |parts[0]|];
        } else {
          assert (parts[0] + sep + t)[k] == t[k - |parts[0]| - |sep|];
        }
      }
    }
  }

  /** A part of a joined string contains nothing the joined string does not. */
  lemma {:induction false} JoinPartNotContains(parts: seq<string>, sep: string, w: string)
    requires !Contains(Join(parts, sep), w)
    ensures forall i :: 0 <= i < |parts| ==> !Contains(parts[i], w)
    decreases |parts|
  {
    if |parts| > 1 {
      var t := Join(parts[1..], sep);
      if Contains(parts[0], w) {
        ContainsAppend(parts[0], sep, w);
        ContainsAppend(parts[0] + sep, t, w);
      }
      if Contains(t, w) {
        ContainsPrepend(parts[0] + sep, t, w);
      }
      JoinPartNotContains(parts[1..], sep, w);
      assert forall i :: 1 <= i < |parts| ==> parts[i] == parts[1..][i - 1];
    }
  }

  /** The first piece of `s` is the part before the first `sep`, or all of `s`. */
  lemma FirstPieceShape(s: string, sep: string)
    requires |sep| > 0
    ensures var r := Split(s, sep)[0];
      |r| <= |s| && s[..|r|] == r && (|r| == |s| || StartsAt(s, |r|, sep))
  {
    var f := Find(s, sep, 0);
    if f.Some? {
      FirstPiece(s, sep, f.value);
    }
  }
}
