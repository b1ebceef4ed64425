/** The state of the `App` component and its two palette handlers. Each
    `useState` pair is a field; each handler is a method that changes the
    fields as the setters it calls do. The providers' network round trips
    are parameters from prompt to reply. */
module AppState {
  import opened Wrappers
  import opened Hex
  import opened Text
  import opened Replies
  import opened ColorUtils
  import O4Mini
  import GrokMini

  const PrimaryName: string := "O4-Mini"
  const SecondaryName: string := "Grok-3-Mini"
  const RateLimitNotice: string := "AI is not responding at the moment (rate limited). Please try again in a minute."
  const FallbackNotice: string := "O4-Mini failed. Used Grok-3-Mini as fallback."
  const GenericError: string := "AI error"

  /** Which provider a request went to. */
  datatype Provider = Primary | Secondary

  /** `Theme description: ${input.trim()}`. */
  function Prompt(input: string): string
  {
    "Theme description: " + Trim(input)
  }

  class App {
    var colors: seq<string>
    var input: string
    var loading: bool
    var error: Option<string>
    var aiUsed: Option<string>
    var toast: Option<string>

    /** A palette of five colours is always shown. */
    predicate Valid()
      reads this
    {
      IsPalette(colors)
    }

    /** The initial state: a random palette, nothing typed, nothing
        pending. */
    constructor(draws: seq<nat>)
      requires |draws| == 5 && forall i :: 0 <= i < 5 ==> IsDraw(draws[i])
      ensures Valid()
      ensures colors == RandomPalette(draws) && input == "" && !loading
      ensures error == None && aiUsed == None && toast == None
    {
      colors := RandomPalette(draws);
      input := "";
      loading := false;
      error := None;
      aiUsed := None;
      toast := None;
    }

    /** The text field's `onChange`. */
    method SetInput(text: string)
      modifies this
      ensures input == text
      ensures colors == old(colors) && loading == old(loading) && error == old(error)
      ensures aiUsed == old(aiUsed) && toast == old(toast)
    {
      input := text;
    }

    /** The toast's close button. */
    method DismissToast()
      modifies this
      ensures toast == None
      ensures colors == old(colors) && input == old(input) && loading == old(loading)
      ensures error == old(error) && aiUsed == old(aiUsed)
    {
      toast := None;
    }

    /** `disabled={loading || !input.trim()}`, negated: the AI button works
        when nothing is pending and the input has a character that is not
        whitespace. */
    predicate AiButtonEnabled(): (enabled: bool)
      reads this
      ensures enabled <==> !loading && !AllWhitespace(input)
    {
      TrimEmptyIff(input);
      !loading && Trim(input) != ""
    }

    /** `handleGenerate`: a fresh random palette, no AI attribution; the
        error shown stays as it was. */
    method HandleGenerate(draws: seq<nat>)
      requires |draws| == 5 && forall i :: 0 <= i < 5 ==> IsDraw(draws[i])
      modifies this
      ensures Valid()
      ensures colors == RandomPalette(draws) && aiUsed == None
      ensures error == old(error) && input == old(input) && loading == old(loading) && toast == old(toast)
    {
      colors := RandomPalette(draws);
      aiUsed := None;
    }

    /** `handleAIGenerate`: ask O4-Mini, and on failure Grok-3-Mini, with
        the same prompt. Returns the requests made, in order. */
    method HandleAIGenerate(primary: string -> ChatReply, secondary: string -> ChatReply)
      returns (sent: seq<(Provider, string)>)
      requires Valid()
      modifies this
      ensures Valid() && !loading && input == old(input)
      ensures var p := Prompt(old(input));
        var first := O4Mini.FetchPalette(primary(p));
        var second := GrokMini.FetchPalette(secondary(p));
        && (first.Success? ==>
              && sent == [(Primary, p)]
              && colors == first.value && aiUsed == Some(PrimaryName) && error == None
              && toast == old(toast))
        && (first.Failure? ==>
              && sent == [(Primary, p), (Secondary, p)]
              && toast == (if Contains(first.error, "429") then Some(RateLimitNotice) else old(toast)))
        && (first.Failure? && second.Success? ==>
              && colors == second.value && aiUsed == Some(SecondaryName) && error == Some(FallbackNotice))
        && (first.Failure? && second.Failure? ==>
              && colors == old(colors) && aiUsed == None && error == Some(OrElse(second.error, GenericError)))
    {
      loading := true;
      error := None;
      aiUsed := None;
      var prompt := Prompt(input);
      assert prompt == Prompt(old(input));
      sent := [(Primary, prompt)];
      var first := O4Mini.FetchPalette(primary(prompt));
      if first.Success? {
        colors := first.value;
        aiUsed := Some(PrimaryName);
      } else {
        Fallback(prompt, first.error, secondary);
        sent := sent + [(Secondary, prompt)];
      }
      loading := false;
    }

    /** The `catch` of `handleAIGenerate`: the rate-limit toast when the
        primary's message mentions 429, then the secondary provider. */
    method Fallback(prompt: string, message: string, secondary: string -> ChatReply)
      requires Valid()
      modifies this
      ensures Valid()
      ensures toast == (if Contains(message, "429") then Some(RateLimitNotice) else old(toast))
      ensures input == old(input) && loading == old(loading)
      ensures var second := GrokMini.FetchPalette(secondary(prompt));
        && (second.Success? ==>
              colors == second.value && aiUsed == Some(SecondaryName) && error == Some(FallbackNotice))
        && (second.Failure? ==>
              colors == old(colors) && aiUsed == old(aiUsed) && error == Some(OrElse(second.error, GenericError)))
    {
      if Contains(message, "429") {
        toast := Some(RateLimitNotice);
      }
      var second := GrokMini.FetchPalette(secondary(prompt));
      match second {
        case Success(palette) =>
          colors := palette;
          aiUsed := Some(SecondaryName);
          error := Some(FallbackNotice);
        case Failure(message2) =>
          error := Some(OrElse(message2, GenericError));
      }
    }
  }
}
