/**
 * The text request sent to the generation service for a first meal plan
 * (`generate_meal_plan`), and the profile the sidebar form assembles.
 *
 * Numbers in the profile (age, weight, height) are carried as the text
 * the request shows for them.
 */
module Prompt {
  import opened Text
  import Meals
  import Days

  /** The user profile of the sidebar form. */
  datatype Profile = Profile(
    age: string,
    gender: string,
    weight: string,
    height: string,
    activity: string,
    dietary: seq<string>,
    menstrualCycle: string,
    fitnessGoal: string,
    additionalPreferences: string)

  const Female := "Female"
  const NotApplicable := "Not Applicable"
  /** The form's choice list for the dietary preferences, and the value used when nothing is chosen. */
  const NoDiet := "None"
  const DietSeparator := ", "

  /** Opening sentence: who the plan is for. */
  function Intro(p: Profile): string {
    "Generate a personalized 7-day meal plan for a " + p.age + " year old " + p.gender + " "
    + "with weight " + p.weight + "kg, height " + p.height + "cm, activity level " + p.activity + ", "
    + "dietary preferences " + Join(p.dietary, DietSeparator) + ", and a fitness goal of " + p.fitnessGoal + ". "
  }

  /** The menstrual-cycle sentence is added for a female user with a phase chosen. */
  predicate HasPhase(p: Profile) {
    p.gender == Female && p.menstrualCycle != NotApplicable
  }

  const PhaseLead := "User is in menstrual cycle phase "

  function PhaseClause(p: Profile): string {
    PhaseLead + p.menstrualCycle + " " + "give suggestions to support hormonal health. "
  }

  function PhasePart(p: Profile): (r: string)
    ensures r == "" <==> !HasPhase(p)
    ensures HasPhase(p) ==>
      |r| >= |PhaseLead| + |p.menstrualCycle| && r[..|PhaseLead| + |p.menstrualCycle|] == PhaseLead + p.menstrualCycle
  {
    if HasPhase(p) then PhaseClause(p) else ""
  }

  const PreferencesLead := "Additional preferences: "

  function PreferencesPart(p: Profile): (r: string)
    ensures r == "" <==> p.additionalPreferences == ""
    ensures r != "" ==>
      |r| >= |PreferencesLead| + |p.additionalPreferences|
      && r[..|PreferencesLead| + |p.additionalPreferences|] == PreferencesLead + p.additionalPreferences
  {
    if p.additionalPreferences != "" then PreferencesLead + p.additionalPreferences + ". " else ""
  }

  /** Written in two pieces so that its first word is at hand for the proofs below. */
  const NutritionSentence := "Include " + "macronutrient and micronutrient breakdown, hydration tips, and balanced meals for the day. "
  /** The header shape the request asks for, and its example. */
  const HeaderTemplate := "DAY X: DAY_NAME"
  const HeaderExample := "DAY 1: MONDAY"
  const HeaderSentence := "Format each day clearly with '" + HeaderTemplate + "' as a header (e.g., '" + HeaderExample + "'). "
  const SectionsSentence := "For each day include clearly labeled sections for Breakfast, Lunch, Dinner, and Snacks. "
  const LabelsSentence := "Make sure each meal section starts with 'Breakfast:', 'Lunch:', 'Dinner:', or 'Snacks:' on its own line. "
  const DayMarkerLead := "Add this series of special symbols at the end of each day's meal plan '"
  /** No space separates the closing quote of this sentence from the next one. */
  const DayMarkerSentence := DayMarkerLead + Days.DayDelimiter + "'"
  const MealMarkerLead := "After each meal section, add the following special delimiter: "
  const MealMarkerSentence := MealMarkerLead + Meals.MealDelimiter

  /** The fixed closing instructions on content and layout. */
  const FormatInstructions := NutritionSentence + HeaderSentence + SectionsSentence + LabelsSentence
    + DayMarkerSentence + MealMarkerSentence

  /** A four-part text begins with its first part and ends with its last. */
  lemma FirstAndLast(a: string, b: string, c: string, d: string)
    ensures |a + b + c + d| >= |a| + |d|
    ensures (a + b + c + d)[..|a|] == a && (a + b + c + d)[|a + b + c + d| - |d|..] == d
  {
    var t := a + b + c + d;
    assert t == a + (b + c + d);
    assert t == (a + b + c) + d;
  }

  /** The whole request for a profile. */
  function PromptOf(p: Profile): (r: string)
    ensures |r| >= |Intro(p)| + |FormatInstructions|
    ensures r[..|Intro(p)|] == Intro(p) && r[|r| - |FormatInstructions|..] == FormatInstructions
  {
    FirstAndLast(Intro(p), PhasePart(p), PreferencesPart(p), FormatInstructions);
    Intro(p) + PhasePart(p) + PreferencesPart(p) + FormatInstructions
  }

  /** Builds the request step by step, as `generate_meal_plan` does with `+=`. */
  method BuildPrompt(p: Profile) returns (prompt: string)
    ensures prompt == PromptOf(p)
  {
    prompt := Intro(p);
    if p.gender == Female && p.menstrualCycle != NotApplicable {
      prompt := prompt + PhaseClause(p);
    } else {
      AppendEmpty(prompt);
    }
    assert prompt == Intro(p) + PhasePart(p);
    if p.additionalPreferences != "" {
      prompt := prompt + (PreferencesLead + p.additionalPreferences + ". ");
    } else {
      AppendEmpty(prompt);
    }
    assert prompt == Intro(p) + PhasePart(p) + PreferencesPart(p);
    prompt := prompt + FormatInstructions;
  }

  /** First characters of the pieces that may follow the opening sentence. */
  lemma LeadingCharacters(p: Profile)
    ensures FormatInstructions[0] == 'I'
    ensures PreferencesPart(p) != "" ==> PreferencesPart(p)[0] == 'A'
    ensures PhaseLead[0] == 'U' && PreferencesLead[0] == 'A'
  {
    assert ("Include " + "macronutrient and micronutrient breakdown, hydration tips, and balanced meals for the day. ")[0] == 'I';
  }

  /** The phase sentence starts with its lead words. */
  lemma PhaseClauseLead(p: Profile)
    ensures StartsAt(PhaseClause(p), 0, PhaseLead)
  {
    assert StartsAt(PhaseLead, 0, PhaseLead);
    StartsAtAppend(PhaseLead, p.menstrualCycle, 0, PhaseLead);
    StartsAtAppend(PhaseLead + p.menstrualCycle, " ", 0, PhaseLead);
    StartsAtAppend(PhaseLead + p.menstrualCycle + " ", "give suggestions to support hormonal health. ", 0, PhaseLead);
  }

  /** The preferences sentence starts with its lead words. */
  lemma PreferencesLeadFirst(p: Profile)
    ensures p.additionalPreferences != "" ==> StartsAt(PreferencesPart(p), 0, PreferencesLead)
  {
    if p.additionalPreferences != "" {
      assert StartsAt(PreferencesLead, 0, PreferencesLead);
      StartsAtAppend(PreferencesLead, p.additionalPreferences, 0, PreferencesLead);
      StartsAtAppend(PreferencesLead + p.additionalPreferences, ". ", 0, PreferencesLead);
    }
  }

  /** The request continues after the opening sentence with the phase sentence exactly when the user has a phase. */
  lemma PhaseClauseIff(p: Profile)
    ensures StartsAt(PromptOf(p), |Intro(p)|, PhaseLead) <==> HasPhase(p)
  {
    LeadingCharacters(p);
    if HasPhase(p) {
      PhaseClauseLead(p);
    }
    PieceIff3(Intro(p), PhasePart(p), PreferencesPart(p), FormatInstructions, PhaseLead);
  }

  /** The preferences sentence is present exactly when the user typed some preferences. */
  lemma PreferencesClauseIff(p: Profile)
    ensures StartsAt(PromptOf(p), |Intro(p) + PhasePart(p)|, PreferencesLead) <==> p.additionalPreferences != ""
  {
    LeadingCharacters(p);
    PreferencesLeadFirst(p);
    PieceIff(Intro(p) + PhasePart(p), PreferencesPart(p), FormatInstructions, PreferencesLead);
  }

  /** The header sentence names the header shape. */
  lemma HeaderSentenceAsks()
    ensures Contains(HeaderSentence, HeaderTemplate)
  {
    var a := "Format each day clearly with '";
    var b := "' as a header (e.g., '";
    ContainsSelf(HeaderTemplate);
    ContainsPrepend(a, HeaderTemplate, HeaderTemplate);
    ContainsAppend(a + HeaderTemplate, b, HeaderTemplate);
    ContainsAppend(a + HeaderTemplate + b, HeaderExample, HeaderTemplate);
    ContainsAppend(a + HeaderTemplate + b + HeaderExample, "'). ", HeaderTemplate);
  }

  /** The closing instructions name the header shape and the end-of-day marker, and end with the meal delimiter. */
  lemma FormatInstructionsAsk()
    ensures Contains(FormatInstructions, HeaderTemplate)
    ensures Contains(FormatInstructions, Days.DayDelimiter)
    ensures EndsWith(FormatInstructions, Meals.MealDelimiter)
  {
    var n := NutritionSentence;
    HeaderSentenceAsks();
    ContainsPrepend(n, HeaderSentence, HeaderTemplate);
    ContainsAppend(n + HeaderSentence, SectionsSentence, HeaderTemplate);
    ContainsAppend(n + HeaderSentence + SectionsSentence, LabelsSentence, HeaderTemplate);
    ContainsAppend(n + HeaderSentence + SectionsSentence + LabelsSentence, DayMarkerSentence, HeaderTemplate);
    ContainsAppend(n + HeaderSentence + SectionsSentence + LabelsSentence + DayMarkerSentence, MealMarkerSentence, HeaderTemplate);
    var before := n + HeaderSentence + SectionsSentence + LabelsSentence;
    ContainsSelf(Days.DayDelimiter);
    ContainsPrepend(DayMarkerLead, Days.DayDelimiter, Days.DayDelimiter);
    ContainsAppend(DayMarkerLead + Days.DayDelimiter, "'", Days.DayDelimiter);
    ContainsPrepend(before, DayMarkerSentence, Days.DayDelimiter);
    ContainsAppend(before + DayMarkerSentence, MealMarkerSentence, Days.DayDelimiter);
    assert EndsWith(Meals.MealDelimiter, Meals.MealDelimiter);
    EndsWithPrepend(MealMarkerLead, Meals.MealDelimiter, Meals.MealDelimiter);
    EndsWithPrepend(before + DayMarkerSentence, MealMarkerSentence, Meals.MealDelimiter);
  }

  /** Every request asks for the day header shape and the end-of-day marker, and ends with the meal delimiter. */
  lemma PromptAsksForMarkers(p: Profile)
    ensures Contains(PromptOf(p), HeaderTemplate)
    ensures Contains(PromptOf(p), Days.DayDelimiter)
    ensures EndsWith(PromptOf(p), Meals.MealDelimiter)
  {
    var head := Intro(p) + PhasePart(p) + PreferencesPart(p);
    FormatInstructionsAsk();
    ContainsPrepend(head, FormatInstructions, HeaderTemplate);
    ContainsPrepend(head, FormatInstructions, Days.DayDelimiter);
    EndsWithPrepend(head, FormatInstructions, Meals.MealDelimiter);
  }

  /**
   * The dietary list shown in the request gives back the chosen preferences
   * when split at ", ", provided no preference holds a comma.
   */
  lemma DietaryRoundTrip(p: Profile)
    requires |p.dietary| >= 1
    requires forall i :: 0 <= i < |p.dietary| ==> Avoids(p.dietary[i], ',')
    ensures Split(Join(p.dietary, DietSeparator), DietSeparator) == p.dietary
  {
    SplitJoin(p.dietary, DietSeparator);
  }

  /**
   * The profile the sidebar form assembles: the cycle phase is asked only
   * of a female user, an empty dietary choice becomes ["None"], and the
   * typed preferences are stripped of surrounding white space.
   */
  function ProfileFromForm(age: string, gender: string, weight: string, height: string, activity: string,
                           dietary: seq<string>, phaseChoice: string, fitnessGoal: string,
                           preferencesText: string): (p: Profile)
    ensures p.age == age && p.gender == gender && p.weight == weight && p.height == height
    ensures p.activity == activity && p.fitnessGoal == fitnessGoal
    ensures gender == Female ==> p.menstrualCycle == phaseChoice
    ensures gender != Female ==> p.menstrualCycle == NotApplicable
    ensures HasPhase(p) <==> gender == Female && phaseChoice != NotApplicable
    ensures |p.dietary| >= 1 && (dietary != [] ==> p.dietary == dietary)
    ensures dietary == [] ==> p.dietary == [NoDiet]
    ensures Trimmed(p.additionalPreferences) && |p.additionalPreferences| <= |preferencesText|
    ensures AllSpace(preferencesText) ==> p.additionalPreferences == ""
  {
    BlankStripsEmpty(preferencesText);
    Profile(age, gender, weight, height, activity,
            if dietary == [] then [NoDiet] else dietary,
            if gender == Female then phaseChoice else NotApplicable,
            fitnessGoal, Strip(preferencesText))
  }

  /** A form profile always lists at least one dietary preference, and its preferences have no surrounding white space. */
  lemma FormProfileShape(age: string, gender: string, weight: string, height: string, activity: string,
                         dietary: seq<string>, phaseChoice: string, fitnessGoal: string, preferencesText: string)
    ensures var p := ProfileFromForm(age, gender, weight, height, activity, dietary, phaseChoice, fitnessGoal, preferencesText);
      |p.dietary| >= 1 && Strip(p.additionalPreferences) == p.additionalPreferences
  {
    var r := Strip(preferencesText);
    StripUnchanged(r);
  }

  /** A form profile with only white space typed as preferences gets no preferences sentence. */
  lemma BlankPreferencesOmitted(age: string, gender: string, weight: string, height: string, activity: string,
                                dietary: seq<string>, phaseChoice: string, fitnessGoal: string, preferencesText: string)
    requires AllSpace(preferencesText)
    ensures var p := ProfileFromForm(age, gender, weight, height, activity, dietary, phaseChoice, fitnessGoal, preferencesText);
      PreferencesPart(p) == ""
  {
  }

  /** Stripping text made only of white space leaves nothing. */
  lemma BlankStripsEmpty(t: string)
    ensures AllSpace(t) ==> Strip(t) == ""
  {
    if AllSpace(t) {
      StripIsSlice(t);
      SkipWhilePast(t, 0, |t|, IsSpace);
    }
  }
}
