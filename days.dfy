/**
 * `parse_meal_plan_by_day`: splits the generated plan into one block per day.
 *
 * The pattern is `(?i)(DAY\s+\d+[\s:.-]*([A-Za-z]+))\s*(.*?)(?:\s*-=\*=-|$)`
 * with `.` matching newlines.  Every repetition in the header is maximal: the
 * character classes that follow one another are disjoint, so giving back a
 * character never lets the rest match.  The content is lazy and stops at the
 * first position from which whitespace and `-=*=-` follow, or where `$`
 * matches (the end of the text, or just before a final newline).  Unlike the
 * meal pattern, the terminator is consumed, so the next search starts after
 * the delimiter.
 */
module Days {
  import opened Wrappers
  import opened Text
  import opened Dict
  import opened Scan

  /** The marker the model is told to put at the end of each day. */
  const DayDelimiter: string := "-=*=-"

  /** The single key used when no day header is found. */
  const FallbackKey: string := "Full Plan"

  /** `[\s:.-]`: the characters allowed between the day number and the day name. */
  predicate IsSeparator(c: char) {
    IsSpace(c) || c == ':' || c == '.' || c == '-'
  }

  /** Group 1 of the pattern at `p`: `DAY`, whitespace, digits, separators and the day name.
      The result holds where the day name starts and ends. */
  function HeaderAt(s: string, p: nat): (r: Option<(nat, nat)>)
    requires p <= |s|
    ensures r.Some? ==> StartsAtFold(s, p, "day") && p + 3 < r.value.0 < r.value.1 <= |s|
  {
    if p + 3 > |s| || !StartsAtFold(s, p, "day") then None
    else
      var a := SkipWhile(s, p + 3, IsSpace);
      var b := SkipWhile(s, a, IsDigit);
      var c := SkipWhile(s, b, IsSeparator);
      var e := SkipWhile(s, c, IsLetter);
      if a == p + 3 || b == a || e == c then None else Some((c, e))
  }

  /** The pieces of a header, as the regular expression reads them. */
  lemma HeaderShape(s: string, p: nat)
    requires p <= |s| && HeaderAt(s, p).Some?
    ensures var (c, e) := HeaderAt(s, p).value;
      var a := SkipWhile(s, p + 3, IsSpace);
      var b := SkipWhile(s, a, IsDigit);
      && LowerAll(s[p..p + 3]) == "day"
      && p + 3 < a < b <= c
      && (forall k :: p + 3 <= k < a ==> IsSpace(s[k]))
      && (forall k :: a <= k < b ==> IsDigit(s[k]))
      && (forall k :: b <= k < c ==> IsSeparator(s[k]))
      && c == SkipWhile(s, b, IsSeparator)
      && (forall k :: c <= k < e ==> IsLetter(s[k]))
      && (e == |s| || !IsLetter(s[e]))
  {
    StartsAtFoldIff(s, p, "day");
    var (c, e) := HeaderAt(s, p).value;
    var a := SkipWhile(s, p + 3, IsSpace);
    var b := SkipWhile(s, a, IsDigit);
    SkipWhileCovers(s, p + 3, IsSpace);
    SkipWhileCovers(s, a, IsDigit);
    SkipWhileCovers(s, b, IsSeparator);
    SkipWhileCovers(s, c, IsLetter);
  }

  /** The facts about a header that the key and the header text rely on. */
  lemma HeaderEnds(s: string, p: nat)
    requires p <= |s| && HeaderAt(s, p).Some?
    ensures var (c, e) := HeaderAt(s, p).value;
      && LowerAll(s[p..p + 3]) == "day"
      && (forall k :: c <= k < e ==> IsLetter(s[k]))
      && (e == |s| || !IsLetter(s[e]))
  {
    StartsAtFoldIff(s, p, "day");
    var (c, e) := HeaderAt(s, p).value;
    SkipWhileCovers(s, c, IsLetter);
  }

  /** `$` without MULTILINE: the end of the text, or just before a final newline. */
  predicate AtEnd(s: string, k: nat)
    ensures AtEnd(s, k) <==> k <= |s| && (s[k..] == "" || s[k..] == "\n")
  {
    k == |s| || (k + 1 == |s| && s[k] == '\n')
  }

  /** Where the lazy `(.*?)` that starts at `e` stops: the first position from which the
      terminator `\s*-=\*=-|$` matches. */
  function DayContentEnd(s: string, e: nat): (r: nat)
    requires e <= |s|
    ensures e <= r <= |s|
    ensures DelimAhead(s, r, DayDelimiter) || AtEnd(s, r)
    ensures forall k :: e <= k < r ==> !DelimAhead(s, k, DayDelimiter) && !AtEnd(s, k)
    decreases |s| - e
  {
    if DelimAhead(s, e, DayDelimiter) || AtEnd(s, e) then e else DayContentEnd(s, e + 1)
  }

  /** One match: group 1 is `s[start..nameEnd]`, group 2 `s[nameStart..nameEnd]`,
      group 3 `s[contentStart..contentEnd]`, and the match ends at `next`. */
  datatype DayMatch = DayMatch(start: nat, nameStart: nat, nameEnd: nat,
                               contentStart: nat, contentEnd: nat, next: nat)

  /** The positions of a match are in order and inside the text. */
  predicate WellFormed(s: string, m: DayMatch) {
    m.start < m.nameStart < m.nameEnd <= m.contentStart <= m.contentEnd <= m.next <= |s|
  }

  /** The match that starts at a header.  When the delimiter ends it, the match takes the
      whitespace and the delimiter with it. */
  function MatchAt(s: string, p: nat): (m: DayMatch)
    requires p <= |s| && HeaderAt(s, p).Some?
    ensures m.start == p && WellFormed(s, m)
  {
    var (c, e) := HeaderAt(s, p).value;
    var w := SkipWhile(s, e, IsSpace);
    var ce := DayContentEnd(s, w);
    var next := if DelimAhead(s, ce, DayDelimiter) then SkipWhile(s, ce, IsSpace) + |DayDelimiter| else ce;
    DayMatch(p, c, e, w, ce, next)
  }

  /** `m` is the match the pattern finds when it starts at `m.start`. */
  predicate IsMatch(s: string, m: DayMatch) {
    m.start <= |s| && HeaderAt(s, m.start).Some? && m == MatchAt(s, m.start)
  }

  /** The first position at or after `pos` where a header starts: none starts before it,
      and none at all when it finds nothing. */
  function NextDay(s: string, pos: nat): (r: Option<nat>)
    requires pos <= |s|
    ensures r.Some? ==> pos <= r.value < |s| && HeaderAt(s, r.value).Some?
    ensures r.Some? ==> forall j :: pos <= j < r.value ==> HeaderAt(s, j).None?
    ensures r.None? ==> forall j :: pos <= j <= |s| ==> HeaderAt(s, j).None?
    decreases |s| - pos
  {
    if pos == |s| then None
    else if HeaderAt(s, pos).Some? then Some(pos)
    else NextDay(s, pos + 1)
  }

  /** `re.finditer` from `pos`: every match, left to right, each search resuming where the
      previous match ended. */
  function DayMatches(s: string, pos: nat): (ms: seq<DayMatch>)
    requires pos <= |s|
    ensures forall i :: 0 <= i < |ms| ==> WellFormed(s, ms[i])
    decreases |s| - pos
  {
    match NextDay(s, pos)
    case None => []
    case Some(p) =>
      var m := MatchAt(s, p);
      [m] + DayMatches(s, m.next)
  }

  /** Every element is the match found at its own start, at or after `pos`; there are none
      exactly when no header occurs from `pos` on. */
  lemma {:induction false} DayMatchesAreMatches(s: string, pos: nat)
    requires pos <= |s|
    ensures var ms := DayMatches(s, pos);
      && (ms == [] <==> NextDay(s, pos).None?)
      && forall i :: 0 <= i < |ms| ==> IsMatch(s, ms[i]) && pos <= ms[i].start
    decreases |s| - pos
  {
    var next := NextDay(s, pos);
    if next.Some? {
      var m := MatchAt(s, next.value);
      var rest := DayMatches(s, m.next);
      var ms := [m] + rest;
      assert DayMatches(s, pos) == ms;
      DayMatchesAreMatches(s, m.next);
      assert IsMatch(s, m);
      forall i | 0 <= i < |ms| ensures IsMatch(s, ms[i]) && pos <= ms[i].start {
        if i > 0 {
          assert ms[i] == rest[i - 1];
        }
      }
    }
  }

  /** Matches come in text order and never overlap: each starts at or after the end of
      the one before it. */
  lemma {:induction false} DayMatchesInOrder(s: string, pos: nat)
    requires pos <= |s|
    ensures var ms := DayMatches(s, pos);
      forall i, j :: 0 <= i < j < |ms| ==> ms[i].next <= ms[j].start
    decreases |s| - pos
  {
    var next := NextDay(s, pos);
    if next.Some? {
      var m := MatchAt(s, next.value);
      var rest := DayMatches(s, m.next);
      assert DayMatches(s, pos) == [m] + rest;
      DayMatchesInOrder(s, m.next);
      DayMatchesAreMatches(s, m.next);
    }
  }

  /** The key a match writes: `group(2).capitalize()`. */
  function DayName(s: string, m: DayMatch): (r: string)
    requires WellFormed(s, m)
    ensures EqualFold(r, s[m.nameStart..m.nameEnd])
  {
    CapitalizeFolds(s[m.nameStart..m.nameEnd]);
    Capitalize(s[m.nameStart..m.nameEnd])
  }

  /** `group(1).strip()`: the header from `DAY` through the day name. */
  function Header(s: string, m: DayMatch): (r: string)
    requires WellFormed(s, m)
    ensures Trimmed(r) && |r| <= m.nameEnd - m.start
  {
    Strip(s[m.start..m.nameEnd])
  }

  /** `group(3).strip()`: the day's content. */
  function DayContent(s: string, m: DayMatch): (r: string)
    requires WellFormed(s, m)
    ensures Trimmed(r) && |r| <= m.contentEnd - m.contentStart
  {
    Strip(s[m.contentStart..m.contentEnd])
  }

  /** The `daily_plans[day_name] = f"{header}{day_content}"` writes, in order. */
  function DayWrites(s: string, ms: seq<DayMatch>): (ws: Entries)
    requires forall i :: 0 <= i < |ms| ==> WellFormed(s, ms[i])
    ensures |ws| == |ms|
    ensures forall i :: 0 <= i < |ms| ==> ws[i] == (DayName(s, ms[i]), Header(s, ms[i]) + DayContent(s, ms[i]))
  {
    if ms == [] then [] else [(DayName(s, ms[0]), Header(s, ms[0]) + DayContent(s, ms[0]))] + DayWrites(s, ms[1..])
  }

  /** The mapping `parse_meal_plan_by_day` returns. */
  function DailyPlansOf(s: string): (r: Entries)
    ensures |r| >= 1
    ensures DayMatches(s, 0) == [] ==> r == [(FallbackKey, s)]
  {
    var ws := DayWrites(s, DayMatches(s, 0));
    if ws == [] then [(FallbackKey, s)]
    else
      FirstKeyFirstWritten(ws);
      PutAll([], ws)
  }

  /** The header is kept exactly as matched: it starts with `D` or `d` and ends with a
      letter, so `strip()` leaves it alone. */
  lemma HeaderVerbatim(s: string, m: DayMatch)
    requires IsMatch(s, m)
    ensures Header(s, m) == s[m.start..m.nameEnd]
    ensures EqualFold(Header(s, m)[..3], "day")
  {
    HeaderEnds(s, m.start);
    var g := s[m.start..m.nameEnd];
    assert g[..3] == s[m.start..m.start + 3];
    HeaderTrimmed(s, m);
    StripUnchanged(g);
  }

  /** The matched header starts with a letter of `day` and ends with a letter of the name. */
  lemma HeaderTrimmed(s: string, m: DayMatch)
    requires IsMatch(s, m)
    ensures Trimmed(s[m.start..m.nameEnd])
  {
    HeaderEnds(s, m.start);
    var g := s[m.start..m.nameEnd];
    assert g[0] == s[m.start] && g[|g| - 1] == s[m.nameEnd - 1];
    assert LowerAll(s[m.start..m.start + 3])[0] == Lower(g[0]);
  }

  /** Every day key is a non-empty run of ASCII letters, upper case first and lower case after. */
  lemma DayNameShape(s: string, m: DayMatch)
    requires IsMatch(s, m)
    ensures var k := DayName(s, m);
      |k| > 0 && IsUpper(k[0]) && forall i :: 1 <= i < |k| ==> IsLower(k[i])
  {
    HeaderEnds(s, m.start);
    var w := s[m.nameStart..m.nameEnd];
    assert forall i :: 0 <= i < |w| ==> w[i] == s[m.nameStart + i];
    CapitalizedLetters(w);
  }

  /** A day key is never the fallback key, which holds a space. */
  lemma DayNameNotFallback(s: string, m: DayMatch)
    requires IsMatch(s, m)
    ensures DayName(s, m) != FallbackKey
  {
    DayNameShape(s, m);
    assert FallbackKey[4] == ' ';
  }

  /** The content stops before the first `-=*=-` and never contains it. */
  lemma DayContentAvoidsDelimiter(s: string, m: DayMatch)
    requires IsMatch(s, m)
    ensures !Contains(DayContent(s, m), DayDelimiter)
  {
    NoDelimBefore(s, m.contentStart, m.contentEnd, DayDelimiter);
    StripNotContains(s[m.contentStart..m.contentEnd], DayDelimiter);
  }

  /** A match ends at the first delimiter after its content, which it consumes, or at `$`. */
  lemma MatchEnd(s: string, m: DayMatch)
    requires IsMatch(s, m)
    ensures DelimAhead(s, m.contentEnd, DayDelimiter) ==>
      m.next == SkipWhile(s, m.contentEnd, IsSpace) + |DayDelimiter| &&
      s[m.next - |DayDelimiter|..m.next] == DayDelimiter
    ensures !DelimAhead(s, m.contentEnd, DayDelimiter) ==> AtEnd(s, m.contentEnd) && m.next == m.contentEnd
  {
  }

  /** The result is never empty. */
  lemma PlansNonEmpty(s: string)
    ensures |DailyPlansOf(s)| > 0
  {
    var ws := DayWrites(s, DayMatches(s, 0));
    if ws != [] {
      FirstKeyFirstWritten(ws);
    }
  }

  /** No header anywhere (the empty text included) gives exactly `{"Full Plan": s}`, and
      only then are there no matches. */
  lemma NoDaysFallback(s: string)
    ensures DayMatches(s, 0) == [] <==> forall p :: 0 <= p <= |s| ==> HeaderAt(s, p).None?
    ensures DayMatches(s, 0) == [] ==> DailyPlansOf(s) == [(FallbackKey, s)]
  {
    DayMatchesAreMatches(s, 0);
    var next := NextDay(s, 0);
    if next.Some? {
      assert HeaderAt(s, next.value).Some?;
    }
  }

  /** When some header matches, the keys are exactly the day names of the matches, each once,
      and the fallback key is absent. */
  lemma PlanKeys(s: string, ms: seq<DayMatch>)
    requires ms == DayMatches(s, 0) && ms != []
    ensures forall k :: k in Keys(DailyPlansOf(s)) <==> exists i :: 0 <= i < |ms| && DayName(s, ms[i]) == k
    ensures Distinct(Keys(DailyPlansOf(s)))
    ensures FallbackKey !in Keys(DailyPlansOf(s))
  {
    var ws := DayWrites(s, ms);
    DayMatchesAreMatches(s, 0);
    forall k ensures k in Keys(PutAll([], ws)) <==> exists i :: 0 <= i < |ms| && DayName(s, ms[i]) == k {
      PutAllKeys([], ws, k);
      WrittenKeys(s, ms, k);
    }
    PutAllDistinct([], ws);
    forall i | 0 <= i < |ms| ensures DayName(s, ms[i]) != FallbackKey {
      DayNameNotFallback(s, ms[i]);
    }
  }

  /** The keys the writes name are the day names of the matches. */
  lemma WrittenKeys(s: string, ms: seq<DayMatch>, k: string)
    requires forall i :: 0 <= i < |ms| ==> WellFormed(s, ms[i])
    ensures k in Keys(DayWrites(s, ms)) <==> exists i :: 0 <= i < |ms| && DayName(s, ms[i]) == k
  {
    var ws := DayWrites(s, ms);
    if k in Keys(ws) {
      var i :| 0 <= i < |ws| && Keys(ws)[i] == k;
      assert DayName(s, ms[i]) == k;
    }
    if exists i :: 0 <= i < |ms| && DayName(s, ms[i]) == k {
      var i :| 0 <= i < |ms| && DayName(s, ms[i]) == k;
      assert Keys(ws)[i] == k;
    }
  }

  /** Last match wins: a day holds the header and content of the last block with its name. */
  lemma PlanLastMatch(s: string, ms: seq<DayMatch>, i: nat)
    requires ms == DayMatches(s, 0) && i < |ms|
    requires forall j :: i < j < |ms| ==> DayName(s, ms[j]) != DayName(s, ms[i])
    ensures Get(DailyPlansOf(s), DayName(s, ms[i])) == Some(Header(s, ms[i]) + DayContent(s, ms[i]))
  {
    LastWriteWins([], DayWrites(s, ms), DayName(s, ms[i]), i);
  }

  /** A repeated day keeps the position of its first block: the first key is the name of
      the first header in the text. */
  lemma FirstDay(s: string, ms: seq<DayMatch>)
    requires ms == DayMatches(s, 0) && ms != []
    ensures |DailyPlansOf(s)| > 0 && Keys(DailyPlansOf(s))[0] == DayName(s, ms[0])
    ensures NextDay(s, 0) == Some(ms[0].start)
  {
    FirstKeyFirstWritten(DayWrites(s, ms));
    DayMatchesAreMatches(s, 0);
  }

  /** One round of the loop: the first match from `pos` writes first, then the search resumes
      where that match ended. */
  lemma WritesStep(s: string, pos: nat)
    requires pos <= |s| && NextDay(s, pos).Some?
    ensures var m := MatchAt(s, NextDay(s, pos).value);
      DayWrites(s, DayMatches(s, pos))
        == [(DayName(s, m), Header(s, m) + DayContent(s, m))] + DayWrites(s, DayMatches(s, m.next))
  {
    var m := MatchAt(s, NextDay(s, pos).value);
    var rest := DayMatches(s, m.next);
    assert DayMatches(s, pos) == [m] + rest;
    assert ([m] + rest)[1..] == rest;
  }

  /** `parse_meal_plan_by_day(meal_plan_text)`: fills the mapping in a loop over the matches,
      then falls back to the whole text when it stayed empty. */
  method ParseMealPlanByDay(text: string) returns (plans: Entries)
    ensures plans == DailyPlansOf(text)
  {
    plans := [];
    var pos := 0;
    var done := false;
    ghost var written: Entries := [];
    while !done
      invariant pos <= |text|
      invariant plans == PutAll([], written)
      invariant written + (if done then [] else DayWrites(text, DayMatches(text, pos)))
             == DayWrites(text, DayMatches(text, 0))
      decreases |text| - pos, !done
    {
      var next := NextDay(text, pos);
      if next.None? {
        done := true;
      } else {
        var m := MatchAt(text, next.value);
        var header := Strip(text[m.start..m.nameEnd]);
        var dayName := Capitalize(text[m.nameStart..m.nameEnd]);
        var dayContent := Strip(text[m.contentStart..m.contentEnd]);
        plans := Put(plans, dayName, header + dayContent);
        var rest := DayMatches(text, m.next);
        var w := (dayName, header + dayContent);
        WritesStep(text, pos);
        AppendAssoc(written, [w], DayWrites(text, rest));
        PutAllSnoc([], written, w);
        written := written + [w];
        pos := m.next;
      }
    }
    assert written == DayWrites(text, DayMatches(text, 0));
    if written != [] {
      FirstKeyFirstWritten(written);
    }
    if plans == [] {
      plans := [(FallbackKey, text)];
    }
  }
}
