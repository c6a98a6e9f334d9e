/**
 * `parse_meal_sections`: splits one day's text into the four meal sections.
 *
 * The pattern is `(?i)(Breakfast|Lunch|Dinner|Snacks):\s*(.*?)(?=\s*DELIM|\Z)`
 * with `.` matching newlines.  Scanning it left to right: find the first
 * position where a label (any case) and a colon occur; skip the whitespace
 * after the colon; the content runs to the first position from which
 * whitespace and the meal delimiter follow, or to the end of the text.  The
 * delimiter is only looked at (a lookahead), so the next search starts where
 * the content ended.
 */
module Meals {
  import opened Wrappers
  import opened Text
  import opened Dict
  import opened Scan

  /** The fixed glyph sequence the model is told to put after each meal section. */
  const MealDelimiter: string := "𓇼 ⋆.˚ 𓆉 𓆝 𓆡⋆.˚ 𓇼"

  /** The keys of the meal table, in the order the table is created. */
  const MealLabels: seq<string> := ["Breakfast", "Lunch", "Dinner", "Snacks"]

  /** The table every parse starts from: all four meals, each with no content. */
  function InitialSections(): (d: Entries)
    ensures Keys(d) == MealLabels
    ensures forall k :: k in MealLabels ==> Get(d, k) == Some("")
  {
    [("Breakfast", ""), ("Lunch", ""), ("Dinner", ""), ("Snacks", "")]
  }

  /** `low:` occurs at `p`, where `low` is a label written in lower case and the text may
      use any case. */
  predicate LabelColonAt(s: string, p: nat, low: string) {
    StartsAtFold(s, p, low) && p + |low| < |s| && s[p + |low|] == ':'
  }

  /** The alternative of `(Breakfast|Lunch|Dinner|Snacks):` that matches at `p`, as the meal
      it names.  The four labels begin with different letters, so at most one matches. */
  function LabelAt(s: string, p: nat): (r: Option<string>)
    ensures r.Some? ==> r.value in MealLabels
  {
    if LabelColonAt(s, p, "breakfast") then Some("Breakfast")
    else if LabelColonAt(s, p, "lunch") then Some("Lunch")
    else if LabelColonAt(s, p, "dinner") then Some("Dinner")
    else if LabelColonAt(s, p, "snacks") then Some("Snacks")
    else None
  }

  /** The singular `Snack:` is not one of the alternatives, so it never starts a match. */
  lemma SnackIsNotALabel(s: string, p: nat)
    requires LabelColonAt(s, p, "snack")
    ensures LabelAt(s, p).None?
  {
    assert Lower(s[p]) == 's';
    assert !LabelColonAt(s, p, "snacks") by {
      StartsAtFoldIff(s, p, "snacks");
      if p + 6 <= |s| {
        assert LowerAll(s[p..p + 6])[5] == Lower(s[p + 5]) == ':';
      }
    }
  }

  /** The first position at or after `pos` where the pattern can start. */
  function NextLabel(s: string, pos: nat): (r: Option<nat>)
    requires pos <= |s|
    ensures r.Some? ==> pos <= r.value < |s| && LabelAt(s, r.value).Some?
    ensures r.Some? ==> forall j :: pos <= j < r.value ==> LabelAt(s, j).None?
    ensures r.None? ==> forall j :: pos <= j <= |s| ==> LabelAt(s, j).None?
    decreases |s| - pos
  {
    if pos == |s| then None
    else if LabelAt(s, pos).Some? then Some(pos)
    else NextLabel(s, pos + 1)
  }

  /** One match of the pattern: group 1 is `s[start..labelEnd]`, the colon is at `labelEnd`,
      group 2 is `s[contentStart..contentEnd]`, and the match ends at `contentEnd`. */
  datatype MealMatch = MealMatch(start: nat, labelEnd: nat, contentStart: nat, contentEnd: nat)

  /** The match that starts at a position where a label and a colon occur. */
  function MatchAt(s: string, p: nat): (m: MealMatch)
    requires LabelAt(s, p).Some?
    ensures m.start == p && WellFormed(s, m)
  {
    var name := LabelAt(s, p).value;
    var labelEnd := p + |name|;
    var contentStart := SkipWhile(s, labelEnd + 1, IsSpace);
    MealMatch(p, labelEnd, contentStart, ContentEnd(s, contentStart, MealDelimiter))
  }

  /** The positions of a match are in order and inside the text. */
  predicate WellFormed(s: string, m: MealMatch) {
    m.start < m.labelEnd < m.contentStart <= m.contentEnd <= |s|
  }

  /** What a match consists of: the label in any case, a colon, whitespace, then content
      up to the first place where whitespace and the meal delimiter follow, or the end. */
  lemma MatchAtShape(s: string, p: nat)
    requires LabelAt(s, p).Some?
    ensures var m := MatchAt(s, p);
      && s[m.labelEnd] == ':'
      && AllSpace(s[m.labelEnd + 1..m.contentStart])
      && (m.contentStart == |s| || !IsSpace(s[m.contentStart]))
      && (m.contentEnd == |s| || DelimAhead(s, m.contentEnd, MealDelimiter))
      && (forall k :: m.contentStart <= k < m.contentEnd ==> !DelimAhead(s, k, MealDelimiter))
  {
    var m := MatchAt(s, p);
    LabelThenColon(s, p);
    SkipWhileCovers(s, m.labelEnd + 1, IsSpace);
    assert AllSpace(s[m.labelEnd + 1..m.contentStart]);
  }

  lemma LabelThenColon(s: string, p: nat)
    requires LabelAt(s, p).Some?
    ensures p + |LabelAt(s, p).value| < |s| && s[p + |LabelAt(s, p).value|] == ':'
  {
    if LabelColonAt(s, p, "breakfast") {
      assert |LabelAt(s, p).value| == |"breakfast"|;
    } else if LabelColonAt(s, p, "lunch") {
      assert |LabelAt(s, p).value| == |"lunch"|;
    } else if LabelColonAt(s, p, "dinner") {
      assert |LabelAt(s, p).value| == |"dinner"|;
    } else {
      assert |LabelAt(s, p).value| == |"snacks"|;
    }
  }

  /** `m` is the match the pattern finds when it starts at `m.start`. */
  predicate IsMatch(s: string, m: MealMatch) {
    LabelAt(s, m.start).Some? && m == MatchAt(s, m.start)
  }

  /** `re.finditer` from `pos`: every match, left to right, each search resuming where the
      previous match ended. */
  function MealMatches(s: string, pos: nat): (ms: seq<MealMatch>)
    requires pos <= |s|
    ensures forall i :: 0 <= i < |ms| ==> WellFormed(s, ms[i])
    decreases |s| - pos
  {
    match NextLabel(s, pos)
    case None => []
    case Some(p) =>
      var m := MatchAt(s, p);
      [m] + MealMatches(s, m.contentEnd)
  }

  /** Every element is the match found at its own start, at or after `pos`; there are none
      exactly when no label occurs from `pos` on. */
  lemma {:induction false} MatchesAreMatches(s: string, pos: nat)
    requires pos <= |s|
    ensures var ms := MealMatches(s, pos);
      && (ms == [] <==> NextLabel(s, pos).None?)
      && forall i :: 0 <= i < |ms| ==> IsMatch(s, ms[i]) && pos <= ms[i].start
    decreases |s| - pos
  {
    var next := NextLabel(s, pos);
    if next.Some? {
      var m := MatchAt(s, next.value);
      var rest := MealMatches(s, m.contentEnd);
      var ms := [m] + rest;
      assert MealMatches(s, pos) == ms;
      MatchesAreMatches(s, m.contentEnd);
      assert IsMatch(s, m);
      forall i | 0 <= i < |ms| ensures IsMatch(s, ms[i]) && pos <= ms[i].start {
        if i > 0 {
          assert ms[i] == rest[i - 1];
        }
      }
    }
  }

  /** Scanning resumes where the previous match ended: the first match is the first label
      from `pos`, each next one the first label after the previous match, and after the last
      match no label follows. */
  lemma {:induction false} MatchesChain(s: string, pos: nat)
    requires pos <= |s|
    ensures var ms := MealMatches(s, pos);
      && (ms != [] ==> NextLabel(s, pos) == Some(ms[0].start))
      && (forall i :: 0 < i < |ms| ==> NextLabel(s, ms[i - 1].contentEnd) == Some(ms[i].start))
      && (ms != [] ==> NextLabel(s, ms[|ms| - 1].contentEnd).None?)
    decreases |s| - pos
  {
    var ms := MealMatches(s, pos);
    MatchesHead(s, pos);
    if ms != [] {
      var rest := MealMatches(s, ms[0].contentEnd);
      MatchesHead(s, ms[0].contentEnd);
      MatchesChain(s, ms[0].contentEnd);
      forall i | 0 < i < |ms| ensures NextLabel(s, ms[i - 1].contentEnd) == Some(ms[i].start) {
        assert ms[i] == rest[i - 1];
        if i > 1 {
          assert ms[i - 1] == rest[i - 2];
        }
      }
      if rest != [] {
        assert ms[|ms| - 1] == rest[|rest| - 1];
      }
    }
  }

  /** The first match is at the first label, and the others are those found after it. */
  lemma MatchesHead(s: string, pos: nat)
    requires pos <= |s|
    ensures var ms := MealMatches(s, pos);
      && (ms == [] <==> NextLabel(s, pos).None?)
      && (ms != [] ==> NextLabel(s, pos) == Some(ms[0].start) && ms[1..] == MealMatches(s, ms[0].contentEnd))
  {
    var next := NextLabel(s, pos);
    if next.Some? {
      var m := MatchAt(s, next.value);
      var rest := MealMatches(s, m.contentEnd);
      assert MealMatches(s, pos) == [m] + rest;
      assert ([m] + rest)[1..] == rest;
    }
  }

  /** Matches never overlap: each later match starts at or after the end of every earlier one. */
  lemma {:induction false} MatchesDisjoint(s: string, pos: nat)
    requires pos <= |s|
    ensures var ms := MealMatches(s, pos);
      forall i, j :: 0 <= i < j < |ms| ==> ms[i].contentEnd <= ms[j].start
    decreases |s| - pos
  {
    var ms := MealMatches(s, pos);
    MatchesHead(s, pos);
    if ms != [] {
      var e := ms[0].contentEnd;
      var rest := ms[1..];
      MatchesDisjoint(s, e);
      MatchesStartAfter(s, e);
      forall i, j | 0 <= i < j < |ms| ensures ms[i].contentEnd <= ms[j].start {
        assert ms[j] == rest[j - 1];
        if i > 0 {
          assert ms[i] == rest[i - 1];
        }
      }
    }
  }

  /** Every match found from `pos` starts at or after `pos`. */
  lemma MatchesStartAfter(s: string, pos: nat)
    requires pos <= |s|
    ensures var ms := MealMatches(s, pos); forall i :: 0 <= i < |ms| ==> pos <= ms[i].start
  {
    MatchesAreMatches(s, pos);
  }

  /** The meal a match writes: `group(1).capitalize()`, with "Snack" renamed to "Snacks". */
  function MealType(s: string, m: MealMatch): (r: string)
    requires WellFormed(s, m)
    ensures r != "Snack"
    ensures r == "Snacks" || EqualFold(r, s[m.start..m.labelEnd])
  {
    var t := Capitalize(s[m.start..m.labelEnd]);
    CapitalizeFolds(s[m.start..m.labelEnd]);
    if t == "Snack" then "Snacks" else t
  }

  /** What a match writes: `group(2).strip()`. */
  function MealContent(s: string, m: MealMatch): (r: string)
    requires WellFormed(s, m)
    ensures Trimmed(r) && |r| <= m.contentEnd - m.contentStart
  {
    Strip(s[m.contentStart..m.contentEnd])
  }

  /** The `sections[meal_type] = content` writes of a list of matches, in order. */
  function Writes(s: string, ms: seq<MealMatch>): (ws: Entries)
    requires forall i :: 0 <= i < |ms| ==> WellFormed(s, ms[i])
    ensures |ws| == |ms|
    ensures forall i :: 0 <= i < |ms| ==> ws[i] == (MealType(s, ms[i]), MealContent(s, ms[i]))
  {
    if ms == [] then [] else [(MealType(s, ms[0]), MealContent(s, ms[0]))] + Writes(s, ms[1..])
  }

  /** The table `parse_meal_sections` returns. */
  function MealSectionsOf(s: string): (r: Entries)
    ensures |r| >= |MealLabels| && Keys(r)[..|MealLabels|] == MealLabels
  {
    var ws := Writes(s, MealMatches(s, 0));
    PutAll(InitialSections(), ws)
  }

  /** A label written in any case capitalizes to `name`, the label's canonical spelling. */
  lemma CapitalizeLabel(s: string, p: nat, low: string, name: string)
    requires LabelColonAt(s, p, low)
    requires |low| > 0 && |name| == |low| && name[0] == Upper(low[0]) && name[1..] == low[1..]
    ensures Capitalize(s[p..p + |low|]) == name
  {
    var g := s[p..p + |low|];
    StartsAtFoldIff(s, p, low);
    CapitalizeFromLower(g);
  }

  /** Each canonical meal name is its lower-case label with the first letter raised. */
  lemma LabelSpellings()
    ensures "Breakfast"[0] == Upper('b') && "Breakfast"[1..] == "breakfast"[1..]
    ensures "Lunch"[0] == Upper('l') && "Lunch"[1..] == "lunch"[1..]
    ensures "Dinner"[0] == Upper('d') && "Dinner"[1..] == "dinner"[1..]
    ensures "Snacks"[0] == Upper('s') && "Snacks"[1..] == "snacks"[1..]
  {
  }

  /** The label found at `p`, in whatever case the text writes it, capitalizes to the
      canonical meal name. */
  lemma CapitalizedLabelAt(s: string, p: nat)
    requires LabelAt(s, p).Some?
    ensures p + |LabelAt(s, p).value| <= |s|
    ensures Capitalize(s[p..p + |LabelAt(s, p).value|]) == LabelAt(s, p).value
  {
    LabelSpellings();
    if LabelColonAt(s, p, "breakfast") {
      CapitalizeLabel(s, p, "breakfast", "Breakfast");
    } else if LabelColonAt(s, p, "lunch") {
      CapitalizeLabel(s, p, "lunch", "Lunch");
    } else if LabelColonAt(s, p, "dinner") {
      CapitalizeLabel(s, p, "dinner", "Dinner");
    } else {
      CapitalizeLabel(s, p, "snacks", "Snacks");
    }
  }

  /** Whatever the case of the label in the text, a match writes the canonical meal name;
      the capitalized label is never "Snack", so the renaming never applies. */
  lemma MealTypeIsLabel(s: string, m: MealMatch)
    requires IsMatch(s, m)
    ensures Capitalize(s[m.start..m.labelEnd]) == LabelAt(s, m.start).value != "Snack"
    ensures MealType(s, m) == LabelAt(s, m.start).value
    ensures MealType(s, m) in MealLabels
  {
    CapitalizedLabelAt(s, m.start);
  }

  /** The table always has exactly the keys Breakfast, Lunch, Dinner and Snacks, in that order. */
  lemma SectionKeys(s: string)
    ensures Keys(MealSectionsOf(s)) == MealLabels
  {
    var ms := MealMatches(s, 0);
    MatchesAreMatches(s, 0);
    var ws := Writes(s, ms);
    forall i | 0 <= i < |ws| ensures ws[i].0 in Keys(InitialSections()) {
      MealTypeIsLabel(s, ms[i]);
    }
    PutAllSameKeys(InitialSections(), ws);
  }

  /** A meal no match writes keeps its empty content. */
  lemma SectionUnwritten(s: string, ms: seq<MealMatch>, l: string)
    requires ms == MealMatches(s, 0) && l in MealLabels
    requires forall i :: 0 <= i < |ms| ==> MealType(s, ms[i]) != l
    ensures Get(MealSectionsOf(s), l) == Some("")
  {
    NeverWritten(InitialSections(), Writes(s, ms), l);
  }

  /** Last match wins: a meal holds the stripped content of the last match that names it. */
  lemma SectionLastMatch(s: string, ms: seq<MealMatch>, i: nat)
    requires ms == MealMatches(s, 0) && i < |ms|
    requires forall j :: i < j < |ms| ==> MealType(s, ms[j]) != MealType(s, ms[i])
    ensures Get(MealSectionsOf(s), MealType(s, ms[i])) == Some(MealContent(s, ms[i]))
  {
    LastWriteWins(InitialSections(), Writes(s, ms), MealType(s, ms[i]), i);
  }

  /** The content a match writes never contains the meal delimiter and has no
      surrounding whitespace. */
  lemma ContentAvoidsDelimiter(s: string, m: MealMatch)
    requires IsMatch(s, m)
    ensures var v := MealContent(s, m);
      !Contains(v, MealDelimiter) && (v == "" || (!IsSpace(v[0]) && !IsSpace(v[|v| - 1])))
  {
    ContentAvoidsDelim(s, m.contentStart, MealDelimiter);
    StripNotContains(s[m.contentStart..m.contentEnd], MealDelimiter);
  }

  /** Where a stored section comes from: the last match that names the meal, if any. */
  lemma SectionStored(s: string, ms: seq<MealMatch>, l: string)
    requires ms == MealMatches(s, 0) && l in MealLabels
    ensures var w := LastWrite(Writes(s, ms), l);
      && (w.Some? ==> w.value < |ms| && IsMatch(s, ms[w.value]) && MealType(s, ms[w.value]) == l)
      && Get(MealSectionsOf(s), l) == if w.None? then Some("") else Some(MealContent(s, ms[w.value]))
  {
    PutAllGet(InitialSections(), Writes(s, ms), l);
    MatchesAreMatches(s, 0);
  }

  /** A stored section never contains the meal delimiter and has no surrounding whitespace. */
  lemma SectionsAvoidDelimiter(s: string, l: string)
    requires l in MealLabels
    ensures var r := Get(MealSectionsOf(s), l);
      && r.Some?
      && !Contains(r.value, MealDelimiter)
      && (r.value == "" || (!IsSpace(r.value[0]) && !IsSpace(r.value[|r.value| - 1])))
  {
    var ms := MealMatches(s, 0);
    SectionStored(s, ms, l);
    var w := LastWrite(Writes(s, ms), l);
    if w.None? {
      NotContainsWithoutFirstChar("", MealDelimiter);
    } else {
      ContentAvoidsDelimiter(s, ms[w.value]);
    }
  }

  /** Text without any `label:` leaves all four meals empty, and only such text has no matches. */
  lemma NoLabelsAllEmpty(s: string)
    ensures MealMatches(s, 0) == [] <==> forall p :: 0 <= p <= |s| ==> LabelAt(s, p).None?
    ensures MealMatches(s, 0) == [] ==> MealSectionsOf(s) == InitialSections()
  {
    MatchesAreMatches(s, 0);
    var next := NextLabel(s, 0);
    if next.Some? {
      assert LabelAt(s, next.value).Some?;
    }
  }

  /** Without the meal delimiter the first section runs to the end of the text, so every
      later label is swallowed by it: there is at most one match. */
  lemma WithoutDelimiterOneMatch(s: string)
    requires !Contains(s, MealDelimiter)
    ensures |MealMatches(s, 0)| <= 1
  {
    var next := NextLabel(s, 0);
    if next.Some? {
      var m := MatchAt(s, next.value);
      ContentEndWithoutDelim(s, m.contentStart, MealDelimiter);
      assert MealMatches(s, 0) == [m] + MealMatches(s, |s|);
    }
  }

  /** `parse_meal_sections(day_content)`: fills the table in a loop over the matches. */
  method ParseMealSections(dayContent: string) returns (sections: Entries)
    ensures sections == MealSectionsOf(dayContent)
  {
    sections := InitialSections();
    var pos := 0;
    var done := false;
    while !done
      invariant pos <= |dayContent|
      invariant PutAll(sections, Writes(dayContent, if done then [] else MealMatches(dayContent, pos)))
             == MealSectionsOf(dayContent)
      decreases |dayContent| - pos, !done
    {
      var next := NextLabel(dayContent, pos);
      if next.None? {
        done := true;
      } else {
        var m := MatchAt(dayContent, next.value);
        var mealType := Capitalize(dayContent[m.start..m.labelEnd]);
        var content := Strip(dayContent[m.contentStart..m.contentEnd]);
        if mealType == "Snack" {
          mealType := "Snacks";
        }
        sections := Put(sections, mealType, content);
        pos := m.contentEnd;
      }
    }
  }
}
