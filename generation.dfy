/**
 * The two requests to the generation service (`generate_meal_plan`,
 * `continue_meal_plan`) and what the "Generate 7-Day Meal Plan" button
 * does with their answers: one continuation when the plan lacks its
 * seventh day, then the split into days and the choice of the day shown.
 *
 * The service itself is an oracle: a fixed function from the number of
 * earlier requests and the request text to an answer or a failure.
 */
module Generation {
  import opened Wrappers
  import opened Text
  import opened Dict
  import Days
  import Prompt

  /** What one call to the service gives: the answer's text, or the message of the exception it raised. */
  datatype Reply = Answer(text: string) | Failure(message: string)

  const ErrorPrefix := "Error: "
  const ContinuationErrorPrefix := "Error in continuation: "

  /** A reply as the request functions return it: the text, or the prefix followed by the error message. */
  function Rendered(prefix: string, r: Reply): (out: string)
    ensures r.Answer? ==> out == r.text
    ensures r.Failure? ==> |out| == |prefix| + |r.message| && out[..|prefix|] == prefix && out[|prefix|..] == r.message
  {
    match r
    case Answer(t) => t
    case Failure(m) => prefix + m
  }

  /** The button asks for a continuation when the plan does not contain this text. */
  const CompletionMarker := "DAY 7:"

  predicate IsTruncated(plan: string)
    ensures IsTruncated(plan) <==> forall j :: 0 <= j <= |plan| ==> !StartsAt(plan, j, CompletionMarker)
  {
    ContainsIff(plan, CompletionMarker);
    !Contains(plan, CompletionMarker)
  }

  const ContinuationRequest := "Please continue the meal plan from where it left off, providing any missing days and details."

  /** The continuation request: the previous output, a line break, then the request. */
  function ContinuationPrompt(previous: string): (r: string)
    ensures |r| == |previous| + 1 + |ContinuationRequest|
    ensures r[..|previous|] == previous && r[|previous|] == '\n'
    ensures r[|previous| + 1..] == ContinuationRequest
  {
    previous + "\n" + ContinuationRequest
  }

  /** The generation service: answers are fixed in advance by `respond`; `prompts` records every request sent. */
  class GenerationService {
    const respond: (nat, string) -> Reply
    var prompts: seq<string>

    constructor (respond: (nat, string) -> Reply)
      ensures this.respond == respond && prompts == []
    {
      this.respond := respond;
      prompts := [];
    }

    /** The answer the service gives to the `n`-th request if it is `prompt`. */
    function ReplyTo(n: nat, prompt: string): Reply {
      respond(n, prompt)
    }

    /** Sends one request. */
    method Generate(prompt: string) returns (r: Reply)
      modifies this
      ensures prompts == old(prompts) + [prompt]
      ensures r == ReplyTo(|old(prompts)|, prompt)
    {
      r := respond(|prompts|, prompt);
      prompts := prompts + [prompt];
    }
  }

  /** `generate_meal_plan(profile)`: one request built from the profile. */
  method GenerateMealPlan(service: GenerationService, p: Prompt.Profile) returns (plan: string)
    modifies service
    ensures service.prompts == old(service.prompts) + [Prompt.PromptOf(p)]
    ensures plan == Rendered(ErrorPrefix, service.ReplyTo(|old(service.prompts)|, Prompt.PromptOf(p)))
  {
    var prompt := Prompt.BuildPrompt(p);
    var r := service.Generate(prompt);
    plan := Rendered(ErrorPrefix, r);
  }

  /** `continue_meal_plan(profile, previous_output)`: the profile is not used. */
  method ContinueMealPlan(service: GenerationService, p: Prompt.Profile, previous: string) returns (continuation: string)
    modifies service
    ensures service.prompts == old(service.prompts) + [ContinuationPrompt(previous)]
    ensures continuation == Rendered(ContinuationErrorPrefix, service.ReplyTo(|old(service.prompts)|, ContinuationPrompt(previous)))
  {
    var prompt := previous + "\n" + ContinuationRequest;
    var r := service.Generate(prompt);
    continuation := Rendered(ContinuationErrorPrefix, r);
  }

  /** The plan kept after the button: the first output, extended once by a continuation when it is truncated. */
  function CompletedPlan(first: string, continuation: string): (r: string)
    ensures !IsTruncated(first) ==> r == first
    ensures IsTruncated(first) ==> |r| == |first| + |continuation| && r[..|first|] == first && r[|first|..] == continuation
  {
    if IsTruncated(first) then first + continuation else first
  }

  /** The day selected after the button: the first key when there is one, otherwise what was selected before. */
  function CurrentDay(plans: Entries, previous: Option<string>): (r: Option<string>)
    ensures plans == [] ==> r == previous
    ensures plans != [] ==> r.Some? && r.value in Keys(plans) && r.value == plans[0].0
  {
    if plans != [] then Some(Keys(plans)[0]) else previous
  }

  /** The requests the button sends: the profile's prompt, then a continuation request when the first answer is truncated. */
  function Requests(prompt: string, first: string): (r: seq<string>)
    ensures 1 <= |r| <= 2 && r[0] == prompt
    ensures |r| == 2 <==> IsTruncated(first)
    ensures |r| == 2 ==> r[1] == ContinuationPrompt(first)
  {
    if IsTruncated(first) then [prompt, ContinuationPrompt(first)] else [prompt]
  }

  lemma AppendTwo<T>(a: seq<T>, x: T, y: T)
    ensures a + [x] + [y] == a + [x, y]
  {
  }

  /** The requests of the button: generate, and continue once if "DAY 7:" is missing. */
  method RequestMealPlan(service: GenerationService, p: Prompt.Profile) returns (mealPlan: string)
    modifies service
    ensures var n := |old(service.prompts)|;
      var first := Rendered(ErrorPrefix, service.ReplyTo(n, Prompt.PromptOf(p)));
      service.prompts == old(service.prompts) + Requests(Prompt.PromptOf(p), first) &&
      mealPlan == CompletedPlan(first, Rendered(ContinuationErrorPrefix, service.ReplyTo(n + 1, ContinuationPrompt(first))))
  {
    ghost var before := service.prompts;
    mealPlan := GenerateMealPlan(service, p);
    ghost var first := mealPlan;
    if !Contains(mealPlan, CompletionMarker) {
      var continuation := ContinueMealPlan(service, p, mealPlan);
      mealPlan := mealPlan + continuation;
      AppendTwo(before, Prompt.PromptOf(p), ContinuationPrompt(first));
    }
  }

  /** The rest of the button: split the plan into days and select the first one. */
  method SelectDay(mealPlan: string, previousDay: Option<string>) returns (dailyPlans: Entries, currentDay: Option<string>)
    ensures dailyPlans == Days.DailyPlansOf(mealPlan)
    ensures currentDay == CurrentDay(dailyPlans, previousDay)
  {
    dailyPlans := Days.ParseMealPlanByDay(mealPlan);
    currentDay := previousDay;
    if dailyPlans != [] {
      currentDay := Some(Keys(dailyPlans)[0]);
    }
  }

  /** The body of the button handler. */
  method ProduceMealPlan(service: GenerationService, p: Prompt.Profile, previousDay: Option<string>)
    returns (mealPlan: string, dailyPlans: Entries, currentDay: Option<string>)
    modifies service
    ensures var n := |old(service.prompts)|;
      var first := Rendered(ErrorPrefix, service.ReplyTo(n, Prompt.PromptOf(p)));
      service.prompts == old(service.prompts) + Requests(Prompt.PromptOf(p), first) &&
      mealPlan == CompletedPlan(first, Rendered(ContinuationErrorPrefix, service.ReplyTo(n + 1, ContinuationPrompt(first))))
    ensures dailyPlans == Days.DailyPlansOf(mealPlan)
    ensures currentDay == CurrentDay(dailyPlans, previousDay)
  {
    mealPlan := RequestMealPlan(service, p);
    dailyPlans, currentDay := SelectDay(mealPlan, previousDay);
  }

  /** Once complete, a plan stays complete: appending a continuation never removes "DAY 7:". */
  lemma CompletedStaysComplete(first: string, continuation: string)
    ensures !IsTruncated(first) ==> !IsTruncated(CompletedPlan(first, continuation))
    ensures !IsTruncated(continuation) ==> !IsTruncated(CompletedPlan(first, continuation))
  {
    if IsTruncated(first) && !IsTruncated(continuation) {
      ContainsPrepend(first, continuation, CompletionMarker);
    }
  }

  /** Neither error prefix holds a `D`. */
  lemma PrefixesAvoidMarker()
    ensures Avoids(ErrorPrefix, CompletionMarker[0])
    ensures Avoids(ContinuationErrorPrefix, CompletionMarker[0])
  {
  }

  /** A failed first request counts as truncated, and so leads to a continuation request,
      exactly when its message does not mention "DAY 7:". */
  lemma FailureTruncated(r: Reply)
    requires r.Failure?
    ensures IsTruncated(Rendered(ErrorPrefix, r)) <==> IsTruncated(r.message)
  {
    PrefixesAvoidMarker();
    ContainsAfterPrefix(ErrorPrefix, r.message, CompletionMarker);
  }

  /** The same for a failed continuation: its prefix never supplies the seventh day. */
  lemma ContinuationFailureTruncated(r: Reply)
    requires r.Failure?
    ensures IsTruncated(Rendered(ContinuationErrorPrefix, r)) <==> IsTruncated(r.message)
  {
    PrefixesAvoidMarker();
    ContainsAfterPrefix(ContinuationErrorPrefix, r.message, CompletionMarker);
  }

  /**
   * After the button a day is always selected: "Full Plan" exactly when the
   * plan has no day header, and otherwise the name of the first header.
   */
  lemma CurrentDayOfPlan(s: string, previous: Option<string>)
    ensures CurrentDay(Days.DailyPlansOf(s), previous).Some?
    ensures CurrentDay(Days.DailyPlansOf(s), previous) == Some(Days.FallbackKey)
      <==> forall q :: 0 <= q <= |s| ==> Days.HeaderAt(s, q).None?
    ensures var ms := Days.DayMatches(s, 0);
      ms != [] ==> CurrentDay(Days.DailyPlansOf(s), previous) == Some(Days.DayName(s, ms[0]))
  {
    var ms := Days.DayMatches(s, 0);
    Days.PlansNonEmpty(s);
    Days.NoDaysFallback(s);
    if ms != [] {
      Days.FirstDay(s, ms);
      Days.PlanKeys(s, ms);
      assert Keys(Days.DailyPlansOf(s))[0] in Keys(Days.DailyPlansOf(s));
    }
  }
}
