/**
 * The pieces the two parsers' regular expressions are made of, written as
 * explicit left-to-right scanners.  Both patterns end their content with a
 * lazy `(.*?)` followed by "optional whitespace, then a delimiter, or the end
 * of the text"; `ContentEnd` is that search.
 */
module Scan {
  import opened Text

  /** `\s*` followed by `d` matches at `e`.  Since each delimiter starts with a non-space
      character, the whitespace run can only stop where it ends (see `DelimAheadIff`). */
  predicate DelimAhead(s: string, e: nat, d: string)
    requires e <= |s|
    ensures DelimAhead(s, e, d) ==> exists k :: e <= k <= |s| && AllSpace(s[e..k]) && StartsAt(s, k, d)
  {
    SkipWhileCovers(s, e, IsSpace);
    StartsAt(s, SkipWhile(s, e, IsSpace), d)
  }

  /** `DelimAhead` is the regular-expression meaning of `\s*d`: some whitespace, then `d`. */
  lemma DelimAheadIff(s: string, e: nat, d: string)
    requires e <= |s| && |d| > 0 && !IsSpace(d[0])
    ensures DelimAhead(s, e, d) <==> exists k :: e <= k <= |s| && AllSpace(s[e..k]) && StartsAt(s, k, d)
  {
    var j := SkipWhile(s, e, IsSpace);
    SkipWhileCovers(s, e, IsSpace);
    assert AllSpace(s[e..j]);
    forall k | e <= k <= |s| && AllSpace(s[e..k]) && StartsAt(s, k, d) ensures k == j {
      StartsAtHead(s, k, d);
      forall i | e <= i < k ensures IsSpace(s[i]) {
        assert s[e..k][i - e] == s[i];
      }
      SkipWhilePast(s, e, k, IsSpace);
      SkipWhileStops(s, e, k, IsSpace);
    }
  }

  /** Where a lazy `(.*?)` that starts at `e` stops: the first position at or after `e`
      from which `\s*d` matches, or the end of the text. */
  function ContentEnd(s: string, e: nat, d: string): (r: nat)
    requires e <= |s|
    ensures e <= r <= |s|
    ensures r == |s| || DelimAhead(s, r, d)
    ensures forall k :: e <= k < r ==> !DelimAhead(s, k, d)
    decreases |s| - e
  {
    if e == |s| || DelimAhead(s, e, d) then e else ContentEnd(s, e + 1, d)
  }

  /** An occurrence of a delimiter that starts with a non-space is a place where `\s*d` matches. */
  lemma StartsAtDelimAhead(s: string, k: nat, d: string)
    requires k <= |s| && |d| > 0 && !IsSpace(d[0])
    ensures StartsAt(s, k, d) ==> DelimAhead(s, k, d)
  {
    StartsAtHead(s, k, d);
  }

  /** A stretch of text from none of whose positions `\s*d` matches does not contain `d`. */
  lemma NoDelimBefore(s: string, w: nat, e: nat, d: string)
    requires w <= e <= |s| && |d| > 0 && !IsSpace(d[0])
    requires forall k :: w <= k < e ==> !DelimAhead(s, k, d)
    ensures !Contains(s[w..e], d)
  {
    ContainsIff(s[w..e], d);
    forall i | 0 <= i <= e - w ensures !StartsAt(s[w..e], i, d) {
      StartsAtSlice(s, w, e, i, d);
      if w + i < e {
        StartsAtDelimAhead(s, w + i, d);
      }
    }
  }

  /** The content never contains the delimiter: it stops before the first one. */
  lemma ContentAvoidsDelim(s: string, w: nat, d: string)
    requires w <= |s| && |d| > 0 && !IsSpace(d[0])
    ensures !Contains(s[w..ContentEnd(s, w, d)], d)
  {
    NoDelimBefore(s, w, ContentEnd(s, w, d), d);
  }

  /** With no delimiter anywhere, the content runs to the end of the text. */
  lemma ContentEndWithoutDelim(s: string, w: nat, d: string)
    requires w <= |s| && !Contains(s, d)
    ensures ContentEnd(s, w, d) == |s|
  {
    var e := ContentEnd(s, w, d);
    ContainsIff(s, d);
    assert !DelimAhead(s, e, d);
  }
}
