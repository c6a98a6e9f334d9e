# Seven-day meal planner: a verified model of its text core

This project models the text processing at the heart of the planner in
`foodbot3000v2.py`. The planner is a Streamlit app that asks a generation
service for a personalised seven-day meal plan and then shows it day by day
and meal by meal. The model covers:

- **Meal sections** (`Meals`). `parse_meal_sections` runs a case-insensitive
  regular expression over one day's text and fills a table that always holds
  the keys Breakfast, Lunch, Dinner and Snacks, in that order. Content runs
  up to the meal delimiter glyphs (a lookahead) or the end of the text. The
  last match for a meal wins.
- **Day blocks** (`Days`). `parse_meal_plan_by_day` splits the plan at the
  headers `DAY <n> <name>`. Each block is keyed by the capitalised day name
  and holds the header followed by the content, up to `-=*=-` (consumed) or
  the end. When there is no header at all, the result is `{"Full Plan": text}`.
- **The request** (`Prompt`). `generate_meal_plan` builds the request from the
  profile by successive `+=` steps. The phase sentence is only there for a
  female user who chose a phase. The preferences sentence is only there when
  some preferences were typed. The fixed format instructions ask for the day
  header, the end-of-day marker and the meal delimiter. The profile the
  sidebar form assembles is modelled too.
- **The generation service and the button** (`Generation`). The service is an
  oracle: a fixed function from the number of earlier requests and the
  request text to an answer or an exception message. It records every
  request it gets. The "Generate 7-Day Meal Plan" button sends the request.
  If the answer lacks `DAY 7:`, it sends one continuation request (the
  previous output, a line break, a fixed sentence) and appends the answer.
  It then splits the plan into days and selects the first key. A failed
  call becomes `Error: …` or `Error in continuation: …`.
- **Food-analysis extractors** (`Analysis`). These are
  `extract_detected_items` and `extract_nutritional_analysis`.

The supporting modules model the Python behaviour the core relies on:

- `Text`: `str.strip`, `str.capitalize`, `in`, `str.split`, `str.join` and
  ASCII case folding.
- `Dict`: an insertion-ordered dictionary, where `d[k] = v` keeps an
  existing key's position.
- `Scan`: the lazy `(.*?)` followed by "whitespace then delimiter, or the
  end", written as a left-to-right search.

Both parsers are imperative loops over the matches. Each is proved equal to a
specification function (`MealSectionsOf`, `DailyPlansOf`), and the lemmas
state what those functions guarantee.

The code has a branch that renames "Snack" to "Snacks". The pattern only has
the alternative `Snacks`, so `Snack:` never starts a match, and the branch can
never fire. The model keeps the branch as written: see
`Meals.SnackIsNotALabel` and `Meals.MealTypeIsLabel`.

## Model

| member | source | states |
|---|---|---|
| Meals.InitialSections | foodbot3000v2.py:24-29 | the table starts with the keys Breakfast, Lunch, Dinner, Snacks in that order, each holding "" |
| Meals.NextLabel | foodbot3000v2.py:31-32 | the search finds the first position at or after `pos` where a label and a colon match; none matches before it, and `None` means none matches at all |
| Meals.LabelAt | foodbot3000v2.py:31 | the alternative matched at a position, when there is one, is one of the four meals |
| Meals.SnackIsNotALabel | foodbot3000v2.py:31 | the singular `Snack:` (in any case) never starts a match |
| Meals.MatchAt | foodbot3000v2.py:31 | the match the pattern makes at a label starts there, and its label, content start and content end are in order within the text |
| Meals.MatchAtShape | foodbot3000v2.py:31 | a match is a label, a colon, a maximal run of whitespace, then content up to the first position where whitespace and the delimiter follow or the end; no position inside the content has the delimiter ahead |
| Meals.MealMatches | foodbot3000v2.py:32 | every match `finditer` yields has its positions in order within the text |
| Meals.MatchesAreMatches | foodbot3000v2.py:32 | every element `finditer` yields is the match at its own start, at or after the search start; there are none exactly when no label occurs |
| Meals.MatchesChain | foodbot3000v2.py:32 | the delimiter is only looked at: each search resumes where the previous content ended, and after the last match no label follows |
| Meals.MatchesHead | foodbot3000v2.py:32 | the first match is at the first label, and the rest are the matches found from where it ends |
| Meals.MatchesDisjoint | foodbot3000v2.py:32 | matches never overlap: each later match starts at or after the end of every earlier one |
| Meals.CapitalizedLabelAt | foodbot3000v2.py:35 | the label, in whatever case the text writes it, capitalises to the canonical meal name |
| Meals.MealType | foodbot3000v2.py:35-39 | the key a match writes is never "Snack"; it is "Snacks" or the matched label up to case |
| Meals.MealContent | foodbot3000v2.py:36 | the content written has no whitespace at either end and is no longer than the matched content |
| Meals.MealTypeIsLabel | foodbot3000v2.py:35-39 | the key a match writes is the canonical meal name; the capitalised label is never "Snack", so the rename is never applied |
| Meals.ContentAvoidsDelimiter | foodbot3000v2.py:36 | the stored content never contains the meal delimiter and has no whitespace at either end |
| Meals.MealSectionsOf | foodbot3000v2.py:23-41 | the table returned begins with the keys Breakfast, Lunch, Dinner, Snacks, in that order |
| Meals.SectionKeys | foodbot3000v2.py:23-41 | for every input, under the ASCII case folding modelled here, the keys are exactly Breakfast, Lunch, Dinner, Snacks, in that order |
| Meals.SectionUnwritten | foodbot3000v2.py:24-40 | a meal named by no match keeps "" |
| Meals.SectionLastMatch | foodbot3000v2.py:34-40 | a meal holds the stripped content of the last match that names it |
| Meals.SectionStored | foodbot3000v2.py:34-40 | each meal's value is "" when no match names it, otherwise the content of the last match that does |
| Meals.SectionsAvoidDelimiter | foodbot3000v2.py:23-41 | every stored section is present, free of the meal delimiter, and stripped |
| Meals.NoLabelsAllEmpty | foodbot3000v2.py:23-41 | there are no matches exactly when no label occurs, and then the table is the initial one |
| Meals.WithoutDelimiterOneMatch | foodbot3000v2.py:31 | without the delimiter the first section runs to the end, so there is at most one match |
| Meals.Writes | foodbot3000v2.py:34-40 | one write per match, in match order, each the match's meal key and stripped content |
| Meals.ParseMealSections | foodbot3000v2.py:23-41 | the loop over the matches returns `MealSectionsOf`: the initial table with every match's write applied in order |
| Scan.DelimAhead | foodbot3000v2.py:31 | when `\s*` followed by the delimiter matches at `e`, some whitespace run from `e` is followed by the delimiter |
| Scan.DelimAheadIff | foodbot3000v2.py:31 | `\s*` followed by the delimiter matches at `e` exactly when some whitespace run from `e` is followed by the delimiter |
| Scan.ContentEnd | foodbot3000v2.py:31 | the lazy content stops at the first position from which whitespace and the delimiter follow, or at the end |
| Scan.ContentAvoidsDelim | foodbot3000v2.py:31 | the content never contains the delimiter |
| Scan.ContentEndWithoutDelim | foodbot3000v2.py:31 | with no delimiter in the text, the content runs to the end |
| Days.HeaderAt | foodbot3000v2.py:56 | a header found at `p` begins with `day` in any case, and its name lies strictly after those three letters and within the text |
| Days.HeaderShape | foodbot3000v2.py:56 | a header is `day` in any case, then a non-empty run of whitespace, a non-empty run of digits, the run of `[\s:.-]` that follows them, then a non-empty maximal run of letters for the name |
| Days.AtEnd | foodbot3000v2.py:56 | `$` matches at `k` exactly when what follows `k` is nothing or a single newline |
| Days.DayContentEnd | foodbot3000v2.py:56 | the lazy content stops at the first position where whitespace and `-=*=-` follow or `$` matches |
| Days.NextDay | foodbot3000v2.py:57 | the search finds the first header: none starts before it, and none at all when it finds nothing |
| Days.MatchAt | foodbot3000v2.py:56 | the match the pattern makes at a header starts there, and its name, content and consumed end are in order within the text |
| Days.DayMatches | foodbot3000v2.py:57 | every match `finditer` yields has its positions in order within the text |
| Days.DayMatchesAreMatches | foodbot3000v2.py:57 | every element `finditer` yields is the match at its own start; there are none exactly when no header occurs |
| Days.DayMatchesInOrder | foodbot3000v2.py:57 | matches come in text order and never overlap |
| Days.MatchEnd | foodbot3000v2.py:56 | a match consumes the whitespace and the `-=*=-` that end it, or else ends where `$` matches |
| Days.DayName | foodbot3000v2.py:60 | the day key is the matched name up to case |
| Days.Header | foodbot3000v2.py:59 | the header written has no whitespace at either end and is no longer than the matched header |
| Days.DayContent | foodbot3000v2.py:61 | the content written has no whitespace at either end and is no longer than the matched content |
| Days.DailyPlansOf | foodbot3000v2.py:54-65 | the mapping returned is never empty, and is `{"Full Plan": text}` when there is no match |
| Days.HeaderVerbatim | foodbot3000v2.py:59 | `group(1).strip()` is the matched header unchanged, beginning with "day" in some case |
| Days.DayNameShape | foodbot3000v2.py:60 | every day key is a non-empty run of ASCII letters, upper case first and lower case after |
| Days.DayNameNotFallback | foodbot3000v2.py:60-64 | a day key never equals "Full Plan" |
| Days.DayContentAvoidsDelimiter | foodbot3000v2.py:61 | a day's content never contains `-=*=-` |
| Days.PlansNonEmpty | foodbot3000v2.py:54-65 | the result is never empty |
| Days.NoDaysFallback | foodbot3000v2.py:63-64 | there are no matches exactly when no header occurs, and then the result is `{"Full Plan": text}` |
| Days.PlanKeys | foodbot3000v2.py:58-62 | with some header, the keys are exactly the day names of the matches, each once, and "Full Plan" is absent |
| Days.PlanLastMatch | foodbot3000v2.py:62 | a day holds the header and content of the last block with that name |
| Days.FirstDay | foodbot3000v2.py:58-62 | a repeated day keeps its first position: the first key is the name of the first header |
| Days.DayWrites | foodbot3000v2.py:58-62 | one write per match, in match order, each the capitalised day name and the header followed by the content |
| Days.ParseMealPlanByDay | foodbot3000v2.py:54-65 | the loop over the matches, plus the fallback, returns `DailyPlansOf` |
| Dict.Get | foodbot3000v2.py:40 | looking a key up gives nothing exactly when the key is not in the dictionary |
| Dict.Put | foodbot3000v2.py:40 | `d[k] = v`: an existing key keeps its position, a new key is appended, `k` maps to `v`, other keys are unchanged |
| Dict.PutAllGet | foodbot3000v2.py:34-40 | after a series of writes, a key holds its last written value, or its old value when never written |
| Dict.LastWriteWins | foodbot3000v2.py:62 | a key written at position `i` and never again holds the value written at `i` |
| Dict.NeverWritten | foodbot3000v2.py:40 | a key no write touches keeps its value |
| Dict.PutAll | foodbot3000v2.py:34-40 | a series of `d[k] = v` writes never loses a key: the keys present before keep their positions at the front |
| Dict.PutAllKeys | foodbot3000v2.py:62 | a key is present after the writes exactly when it was present before or was written |
| Dict.PutAllSameKeys | foodbot3000v2.py:40 | writing only present keys leaves the key list unchanged |
| Dict.PutAllDistinct | foodbot3000v2.py:62 | the dictionary never holds a key twice |
| Dict.FirstKeyFirstWritten | foodbot3000v2.py:248 | filling an empty dictionary, the first key is the first key written |
| Text.Strip | foodbot3000v2.py:36 | the result is a slice of the input with whitespace on both sides cut off, and has no whitespace at either end |
| Text.StripUnchanged | foodbot3000v2.py:59 | text with no whitespace at either end is left unchanged |
| Text.StripNotContains | foodbot3000v2.py:36 | stripping never creates an occurrence of a substring |
| Text.Capitalize | foodbot3000v2.py:60 | the first character is upper-cased, every later character lower-cased, and the length is kept |
| Text.CapitalizeFolds | foodbot3000v2.py:60 | capitalising only changes case: the result equals the input up to case |
| Text.CapitalizeIdempotent | foodbot3000v2.py:60 | capitalising twice is the same as capitalising once |
| Text.CapitalizeIgnoresCase | foodbot3000v2.py:35 | strings equal up to case capitalise to the same string |
| Text.CapitalizedLetters | foodbot3000v2.py:60 | a capitalised run of letters starts upper-case and continues lower-case |
| Text.StartsAtFoldIff | foodbot3000v2.py:31 | `(?i)` matching of a lower-case word is equality of the lower-cased slice |
| Text.Find | foodbot3000v2.py:174 | the search returns the first occurrence at or after `from`, or `None` when there is none |
| Text.Contains | foodbot3000v2.py:174 | when `sub in s` is false, `sub` occurs at no index |
| Text.ContainsIff | foodbot3000v2.py:174 | `sub in s` holds exactly when `sub` occurs at some index |
| Text.Split | foodbot3000v2.py:175 | `split` gives at least one piece; joining the pieces gives back the text; no piece holds the separator; there is one piece exactly when the separator is absent |
| Text.FirstPiece | foodbot3000v2.py:175 | the first piece ends at the first separator, and the second is the first piece of what follows it |
| Text.FirstPieceShape | foodbot3000v2.py:188 | the first piece is a prefix that ends at the text's end or at an occurrence of the separator |
| Text.Join | foodbot3000v2.py:80 | `sep.join` of one part is that part; of several, it starts with the first part followed by the separator |
| Text.SplitJoin | foodbot3000v2.py:80 | splitting a joined list gives the list back when no part holds the separator's first character |
| Prompt.PromptOf | foodbot3000v2.py:77-100 | the request begins with the opening sentence and ends with the fixed format instructions |
| Prompt.BuildPrompt | foodbot3000v2.py:77-100 | the step-by-step `+=` build yields `PromptOf`: opening sentence, optional phase sentence, optional preferences sentence, then the fixed format instructions |
| Prompt.PhasePart | foodbot3000v2.py:83-87 | the phase sentence is empty exactly when there is no phase to state, and otherwise begins with the lead text followed by the phase |
| Prompt.PreferencesPart | foodbot3000v2.py:89-90 | the preferences sentence is empty exactly when no preferences were typed, and otherwise begins with the lead text followed by the preferences |
| Prompt.PhaseClauseIff | foodbot3000v2.py:83-87 | the phase sentence follows the opening sentence exactly when the user is female and chose a phase other than "Not Applicable" |
| Prompt.PreferencesClauseIff | foodbot3000v2.py:89-90 | the preferences sentence is present exactly when the preferences are non-empty |
| Prompt.HeaderSentenceAsks | foodbot3000v2.py:94 | the header sentence names the shape `DAY X: DAY_NAME` |
| Prompt.FormatInstructionsAsk | foodbot3000v2.py:92-100 | the format instructions name the header shape and `-=*=-`, and end with the meal delimiter |
| Prompt.PromptAsksForMarkers | foodbot3000v2.py:77-100 | for every profile, the request asks for the header shape and the end-of-day marker, and ends with the meal delimiter |
| Prompt.DietaryRoundTrip | foodbot3000v2.py:80 | splitting the `", "`-joined dietary list at `", "` gives back the preferences when none holds a comma |
| Prompt.ProfileFromForm | foodbot3000v2.py:216-232 | the form's profile keeps the answers as given; it gets a phase sentence exactly when a female user chose a phase other than "Not Applicable", and its phase is "Not Applicable" for any other gender; it lists at least one dietary preference, the chosen ones when there are some and `["None"]` otherwise; its preferences have no whitespace at either end, and are empty when only whitespace was typed |
| Prompt.FormProfileShape | foodbot3000v2.py:220-228 | a form profile lists at least one dietary preference, and its preferences are already stripped |
| Prompt.BlankPreferencesOmitted | foodbot3000v2.py:220 | preferences typed as only whitespace produce no preferences sentence |
| Generation.Rendered | foodbot3000v2.py:104-110 | an answer is returned as its text; a failure becomes the prefix followed by the message |
| Generation.ContinuationPrompt | foodbot3000v2.py:129 | the continuation request is the previous output, a line break, then the fixed request sentence |
| Generation.GenerationService.Generate | foodbot3000v2.py:105-107 | one call records the request and returns the oracle's reply for it |
| Generation.GenerateMealPlan | foodbot3000v2.py:71-110 | sends exactly the profile's request and returns its answer, or `Error: ` followed by the message |
| Generation.ContinueMealPlan | foodbot3000v2.py:113-137 | sends exactly the continuation request and returns its answer, or `Error in continuation: ` followed by the message |
| Generation.IsTruncated | foodbot3000v2.py:242 | a plan counts as truncated exactly when `DAY 7:` occurs at no index |
| Generation.Requests | foodbot3000v2.py:240-243 | the button sends the profile's request, and a second, continuation request exactly when the first answer lacks `DAY 7:` |
| Generation.RequestMealPlan | foodbot3000v2.py:240-244 | the requests recorded are `Requests`, and the plan is the first answer, with the continuation appended when the first answer is truncated |
| Generation.SelectDay | foodbot3000v2.py:246-248 | the days are `DailyPlansOf(plan)`; the current day is their first key when there is one, and otherwise the day selected before |
| Generation.ProduceMealPlan | foodbot3000v2.py:239-248 | the whole button handler: the requests sent, the plan kept, its days, and the selected day |
| Generation.CompletedPlan | foodbot3000v2.py:242-244 | a plan with `DAY 7:` is kept unchanged; otherwise it is the first output followed by the continuation |
| Generation.CurrentDay | foodbot3000v2.py:247-248 | with some days, the selection is the first key of the days; with none, it is the previous selection |
| Generation.CompletedStaysComplete | foodbot3000v2.py:242-244 | the kept plan contains `DAY 7:` when the first output or the continuation does |
| Generation.FailureTruncated | foodbot3000v2.py:110 | a failed first request leads to a continuation exactly when its message lacks `DAY 7:` |
| Generation.ContinuationFailureTruncated | foodbot3000v2.py:137 | the `Error in continuation: ` prefix never supplies `DAY 7:` |
| Generation.CurrentDayOfPlan | foodbot3000v2.py:247-248 | after the button a day is always selected: "Full Plan" exactly when no header occurs, otherwise the first header's day name |
| Analysis.DetectedItems | foodbot3000v2.py:168-178 | there is always at least one item, and without the marker the result is `["No foods detected."]` |
| Analysis.NutritionalAnalysis | foodbot3000v2.py:181-190 | without the marker the result is the fixed message; with it, the result holds no marker |
| Analysis.StripAll | foodbot3000v2.py:176 | the count is kept, every resulting item has no whitespace at either end, and an item that already had none is kept as it is |
| Analysis.DetectedItemsShape | foodbot3000v2.py:168-178 | there is always an item; without the marker the result is `["No foods detected."]`; with it, every item is stripped and holds no comma and no line break |
| Analysis.ItemsLine | foodbot3000v2.py:175 | the text taken after the first `Foods detected:` ends at the next line break |
| Analysis.ItemsLineBeforeMarker | foodbot3000v2.py:175 | the text taken after the first marker ends at a second marker on the same line |
| Analysis.ItemsLineAtEnd | foodbot3000v2.py:175 | the text taken after the first marker runs to the end when no line break or marker follows |
| Analysis.DetectedItemsOfLine | foodbot3000v2.py:174-176 | the items are the stripped comma-separated pieces of the text after the first marker, up to whichever comes first of a line break, a second marker and the end |
| Analysis.CommaItems | foodbot3000v2.py:176 | a comma-joined line of stripped, comma-free items is read back as those items |
| Analysis.NutritionalAnalysisShape | foodbot3000v2.py:181-190 | without the marker the result is the fixed message; with it, the result is the text after the first marker up to the next marker or the end, and holds no marker |

## Left out

- The generation client and its network calls are left out. The service is
  the oracle `respond`, so the model, the request parameters and the API key
  do not appear.
- A `response.text` of `None` is left out: an answer is always a string.
- The Streamlit interface is left out: widgets, spinners, expanders, day
  navigation buttons, the "Raw Plan Text" views and the session-state
  initialisation. `ProduceMealPlan` returns the three session values the
  button sets instead of storing them.
- `display_collapsible_meal_plan` is left out. It only renders the table
  `parse_meal_sections` returns.
- `recognize_food` is left out: image decoding and the image request are I/O.
  Its two text extractors are modelled.
- The `messages` list in `continue_meal_plan` is left out. It is built but
  never used.
- `Generation.ContinueMealPlan` ignores its profile parameter, as the source
  does.
- Number rendering is left out. Age, weight and height appear in the profile
  as the text an f-string shows for them, so the form's bounds are not
  modelled.
- Whitespace, `\d`, letters and case folding are modelled on ASCII only.
  `\s` and `strip()` use space, tab, newline, carriage return, vertical tab
  and form feed. Python also counts the separators `\x1c` to `\x1f` and the
  Unicode spaces as whitespace; those, and Unicode digits, are not modelled,
  nor are the special case mappings of a few non-ASCII letters under `(?i)`
  and `capitalize`. Under `re.IGNORECASE` Python also matches `ı` with `i`
  and `ſ` with `s`, so a label such as `Dınner:` may add a key beyond the
  four. The key set stated by `Meals.SectionKeys` holds for the ASCII
  folding only.
- The meal delimiter glyphs are kept as one fixed string. The proofs only use
  the fact that its first character is not whitespace.
- The regular expressions are not interpreted by a general engine. Each
  pattern is written as the scanner its backtracking amounts to. `$` matches
  at the end of the text or just before a final newline.
- Analysis.DetectedItemsOfLine: the round trip "items written as one comma-joined line after the marker are read
  back" is stated in two lemmas, `DetectedItemsOfLine` and `CommaItems`,
  rather than in one. Its three cases (the items end at a line break, at a
  second marker, or at the end) cover every answer that holds the marker, but
  no lemma states that they do.
