# colorApp palette pipeline, in Dafny

This project models the palette pipeline of colorApp, a React colour-palette generator. It has three parts:

- **Provider parsers** (`src/utils/*.ts`). Each parser turns one AI or colour service's reply into five hex colours, or into an error. A chat completion is first parsed as a JSON array of strings, after `'` has been rewritten to `"`. If that fails, the parser falls back to the global scan `/#([0-9a-fA-F]{6})/g`. If the scan also fails, the parser returns a default palette or raises, depending on the provider.
  - O4-Mini, Grok-3-Mini and Gemini accept "at least five, all valid".
  - DeepSeek accepts "exactly five, all valid, pairwise distinct". Its fallback de-duplicates the scan and wants exactly five unique matches.
  - OpenAI scans only.
  - Hugging Face dispatches on the shape of the decoded response, then validates.
  - Colormind renders `[r, g, b]` triples as `#rrggbb`.
- **Colour utilities** (`src/utils/colorUtils.ts`):
  - the random-colour formatting;
  - the hue and lightness schedule of `generateSimilarPalette`, including its clamp;
  - the expansion of 3-digit shorthand;
  - the Tailwind `@theme` snippet.
- **The `App` component** (`src/App.tsx`). It is a class whose fields are the component's state. Its methods are the two handlers, the input and toast setters, and the enable test of the AI button.

The modules are as follows:

- `Wrappers`: `Option` and `Result`.
- `Text`: the JavaScript string operations the source relies on:
  - `trim` with JavaScript's whitespace set;
  - `includes`;
  - `join`/`split`;
  - `toString(radix)`;
  - `padStart`.
- `Hex`: the colour predicate, the regex scan and the de-duplication. The scan `HexMatches` is proved equal to a reference definition that lists the text at every position where the pattern matches.
- `Json`: a parser for arrays of strings standing in for `JSON.parse`, the quote rewrite, and a serialiser. The two are related by a round-trip lemma.
- `Extract`: the "≥5 and all valid" path that several providers share.
- `Replies`: a provider's outcome: an unexpected response, a completion, or a thrown message.
- One module per provider file.
- `ColorUtils`.
- `AppState`.

The central result is that, within the model, the structured path never changes the answer. An array that the model's parser reads and that passes the "all valid" test is exactly the text's own scan (`Json.ParsedColorsAreScan`, `Extract.StructuredOrScan`). As a consequence:

- O4-Mini and Grok-3-Mini return the first five scan matches, or the default palette (`O4Mini.ParseCompletionIsScanOrDefault`).
- Gemini returns the first five scan matches, or its parse error (`Gemini.ParseTextIsScan`).

This result is limited to completions the model's parser reads: arrays whose elements are all strings, with no backslash escapes. `JSON.parse` also reads escapes and other values, so the source's structured path can accept an array that the scan of the raw text does not produce. Two examples:

- `["\u0023abcdef", ...]` decodes to `#abcdef`, but the raw text holds no `#abcdef` for the scan to find.
- A nested one-element array such as `[["#abcdef"], ...]` passes the regex `test` through coercion to a string.

The `JSON.parse` and Hugging Face lines under "Left out" say what the model does instead.

Inputs stand in for everything outside the pipeline:

- Network replies are inputs: `Replies.ChatReply` for the Azure SDK providers and `Replies.HttpReply` for the `fetch` providers.
- API keys and tokens are string parameters. The empty string means "not set".
- `Math.random() * 0xffffff`, floored, is a `draw` parameter.
- `hexToHSL` and `hslToHex` are function parameters.
- In `App`, each provider is a function from prompt to reply. `HandleAIGenerate` returns the requests it made, in order.

## Model

| member | source | states |
|---|---|---|
| Replies.OrElse | src/utils/o4mini.ts:42 | `a \|\| b` on strings: the message when it is non-empty, otherwise the fallback; never empty when the fallback is non-empty |
| Text.Contains | src/App.tsx:48 | `includes`: the empty string is always contained; a contained string is no longer than the text; at equal length, containment is equality |
| Text.ContainsInfix | src/App.tsx:48 | a message that has `429` anywhere in it contains `429` |
| Text.ContainsExtend | src/App.tsx:48 | containment survives adding text on either side |
| Text.Trim | src/App.tsx:42 | `trim()` leaves no JavaScript whitespace at either end and never lengthens the string |
| Text.TrimFrame | src/App.tsx:42 | the trimmed string is the input with a whitespace prefix and a whitespace suffix removed |
| Text.TrimEmptyIff | src/App.tsx:95 | the trimmed input is empty exactly when every character is whitespace |
| Text.SplitJoin | src/utils/colorUtils.ts:101-107 | splitting a `join` on a character that no part contains gives back the parts |
| Text.PadStart | src/utils/colorUtils.ts:8 | `padStart` leaves long strings alone; otherwise it prefixes pad characters up to the width and keeps the string as the suffix |
| Text.ToRadix | src/utils/colorUtils.ts:7 | `toString(radix)` yields at least one lower-case digit of the radix and no leading zero; 0 is written `0` |
| Text.RadixRoundTrip | src/utils/colorUtils.ts:7 | reading the digits of `toString(radix)` back gives the number |
| Text.PaddedNumber | src/utils/colorUtils.ts:7-8 | `padStart(width, "0")` of `toString(radix)` has at least `width` lower-case digits that read back as the number |
| Text.PaddedRadix | src/utils/colorUtils.ts:7-8 | a number below `radix^width`, padded with `0` to the width, has exactly `width` lower-case digits that read back as the number |
| Text.DecimalInjective | src/utils/colorUtils.ts:97 | different numbers have different decimal renderings |
| Text.JoinFrame | src/utils/colorUtils.ts:101-107 | a `join` of two or more parts starts with the first part and ends with the last |
| Hex.HexColorDigits | src/utils/o4mini.ts:72 | `/^#([0-9a-fA-F]{6})$/` accepts exactly `#` followed by six characters that `parseInt(_, 16)` reads as digits, in either case |
| Hex.HexMatches | src/utils/o4mini.ts:80 | every match of the global scan is a colour, and the scan has at most one match per seven characters |
| Hex.ScanFindsEveryMatch | src/utils/o4mini.ts:80 | the scan equals the reference list of the text at every position where the pattern matches |
| Hex.ScanFindsOccurrence | src/utils/o4mini.ts:80 | every colour written in the text is among the scan's matches |
| Hex.ScanConcat | src/utils/o4mini.ts:80 | the scan distributes over concatenation when no match straddles the seam |
| Hex.ScanOfProse | src/utils/openai.ts:35 | colours separated by text without `#` are scanned back exactly, in order |
| Hex.IndexOf | src/utils/deepseek.ts:44 | `indexOf` is -1 exactly when the value is absent, and otherwise is its first position |
| Hex.IndexOfSelfIffDistinct | src/utils/deepseek.ts:43-45 | "every element is at its own `indexOf`" holds exactly when no element repeats |
| Hex.Dedupe | src/utils/deepseek.ts:51 | `Array.from(new Set(xs))` has no repeats, the same members as `xs`, and is no longer |
| Hex.DedupeKeepsOrder | src/utils/deepseek.ts:51 | de-duplication keeps the order of first occurrence |
| Hex.DedupeOfDistinct | src/utils/deepseek.ts:51 | de-duplicating a list without repeats changes nothing |
| Json.ReplaceQuotes | src/utils/o4mini.ts:67 | `replace(/'/g, '"')` turns every `'` into `"`, leaves every other character, and leaves no `'` |
| Json.ReplaceQuotesKeepsScan | src/utils/o4mini.ts:67 | the quote rewrite does not change the scan's matches |
| Json.ParseStringArray | src/utils/o4mini.ts:67 | whatever parses starts with `[` after whitespace, and every string read is free of quotes, backslashes and control characters |
| Json.ParseSerialized | src/utils/o4mini.ts:67 | an array of plain strings parses back to the same strings. The array may have any whitespace before and after it, and one fixed whitespace `gap` after each comma. It has no whitespace after `[` or before `,` and `]` |
| Json.SerializedColoursParse | src/utils/o4mini.ts:67 | an array of colours written out survives the quote rewrite and parses back to the colours |
| Json.ScanOfParsedArray | src/utils/o4mini.ts:67 | the scan of text that parses as an array is the concatenated scans of its strings |
| Json.ParsedColorsAreScan | src/utils/o4mini.ts:67-84 | when the rewritten text parses to an all-colour array, that array is the scan of the text |
| Extract.FirstFiveColors | src/utils/o4mini.ts:69-75 | accepts exactly arrays of at least five elements that are all colours, even past index 4, and gives the first five |
| Extract.StructuredPalette | src/utils/o4mini.ts:65-78 | a structured answer is a palette of five colours |
| Extract.ScanPalette | src/utils/o4mini.ts:80-84 | succeeds exactly when there are five matches, and gives the first five, duplicates kept |
| Extract.StructuredIsScan | src/utils/o4mini.ts:65-84 | whenever the structured path succeeds, the scan fallback would have given the same palette |
| Extract.StructuredOrScan | src/utils/o4mini.ts:65-84 | structured-then-scan answers exactly when the scan has five matches, and then with the first five: the structured path never changes the answer |
| Extract.SerializedColors | src/utils/o4mini.ts:67-75 | a well-formed answer of at least five colours gives its first five |
| O4Mini.ParseCompletion | src/utils/o4mini.ts:65-90 | the parse of a completion is always a palette and never raises |
| O4Mini.FetchPalette | src/utils/o4mini.ts:40-90 | fails exactly on an unexpected response or a thrown call, with the upstream message or "O4-Mini API error"; otherwise gives a palette |
| O4Mini.ParseCompletionIsScanOrDefault | src/utils/o4mini.ts:65-90 | the result is the first five scan matches, or the default `#000000`…`#444444` when there are fewer |
| O4Mini.EmptyCompletionGivesDefault | src/utils/o4mini.ts:57-90 | missing or empty content gives the default palette |
| O4Mini.ArrayAnswerReturned | src/utils/o4mini.ts:67-75 | a compliant array answer yields its first five colours |
| GrokMini.ParseCompletion | src/utils/grokmini.ts:40-57 | the parse of a completion is always a palette and never raises |
| GrokMini.FetchPalette | src/utils/grokmini.ts:36-57 | fails exactly on an unexpected response or a thrown call, with the upstream message or "Grok-3-Mini API error"; otherwise gives a palette |
| GrokMini.ParseCompletionIsScanOrDefault | src/utils/grokmini.ts:40-57 | the result is the first five scan matches, or the default when there are fewer |
| GrokMini.ArrayAnswerReturned | src/utils/grokmini.ts:42-49 | a compliant array answer yields its first five colours |
| GrokMini.NonCompliantAnswerParses | src/utils/grokmini.ts:27 | the array that the prompt asks for on non-compliance parses to the default palette |
| GrokMini.DefaultIsPalette | src/utils/grokmini.ts:57 | the default is a palette |
| DeepSeek.ExactlyFiveDistinct | src/utils/deepseek.ts:40-48 | accepts exactly arrays of five distinct colours and returns them unchanged; six valid distinct colours are rejected |
| DeepSeek.StructuredPalette | src/utils/deepseek.ts:37-49 | a structured answer is five distinct colours, and it is what the rewritten text parses to |
| DeepSeek.UniqueScanPalette | src/utils/deepseek.ts:51-52 | succeeds exactly when the de-duplicated scan has five entries, and gives them |
| DeepSeek.ParseCompletion | src/utils/deepseek.ts:36-54 | the result is always five distinct colours |
| DeepSeek.FetchPalette | src/utils/deepseek.ts:33-54 | fails exactly on an unexpected response or a thrown call, with the upstream message or "DeepSeek API error"; otherwise gives five distinct colours |
| DeepSeek.ParseCompletionIsUniqueScanOrDefault | src/utils/deepseek.ts:38-54 | the result is the de-duplicated scan when it has exactly five entries, the default otherwise |
| DeepSeek.CaseVariantsAreDistinct | src/utils/deepseek.ts:51 | de-duplication is case-sensitive: `#ABCDEF` and `#abcdef` both stay |
| DeepSeek.ArrayAnswerReturned | src/utils/deepseek.ts:38-48 | a compliant answer of five distinct colours is returned as given |
| DeepSeek.DefaultPaletteIsDistinct | src/utils/deepseek.ts:54 | the default is five distinct colours |
| DeepSeek.NonCompliantAnswerParses | src/utils/deepseek.ts:26 | the array the prompt asks for on non-compliance parses to the default palette |
| Gemini.StatusError | src/utils/gemini.ts:24-27 | the error for a non-ok response contains the status in decimal |
| Gemini.ParseText | src/utils/gemini.ts:31-46 | succeeds with a palette, or fails with "Could not parse 5 hex codes from Gemini response" |
| Gemini.FetchPalette | src/utils/gemini.ts:4-46 | a missing key fails before anything else; a non-ok reply fails with the status error; an ok reply gives the parse of its text; any success is a palette |
| Gemini.ParseTextIsScan | src/utils/gemini.ts:31-46 | at least five scan matches give the first five; fewer give the parse error; there is no default palette |
| OpenAi.FetchPalette | src/utils/openai.ts:4-38 | a missing key, a non-ok reply and fewer than five matches fail with their own messages; otherwise the first five matches, duplicates kept |
| OpenAi.ProseAnswer | src/utils/openai.ts:33-38 | colours in prose without other `#` come back in order of appearance |
| HuggingFace.Headers | src/utils/huggingface.ts:7-10 | Content-Type is always sent; Authorization is present exactly when a token is set, and is `Bearer` plus the token |
| HuggingFace.Values | src/utils/huggingface.ts:26 | `Object.values` lists the values in property order |
| HuggingFace.ParsedItems | src/utils/huggingface.ts:31-37 | a parse failure leaves no candidates; a parsed array gives its strings |
| HuggingFace.Candidates | src/utils/huggingface.ts:22-37 | an array is taken as it is; an object gives its values when it has `"[0]"`, otherwise the parse of a string `generated_text`, otherwise nothing; a string is parsed; anything else gives nothing. Only an array or an object's values can bring non-string candidates |
| HuggingFace.Validate | src/utils/huggingface.ts:39-46 | succeeds exactly when there are at least five candidates and all are colour strings; gives the first five; otherwise the parse error |
| HuggingFace.FetchPalette | src/utils/huggingface.ts:19-46 | a non-ok reply gives "Hugging Face API error"; an ok reply gives the validation of its candidates; the only other error is the parse error; any success is a palette |
| HuggingFace.IndexKeyTakesPriority | src/utils/huggingface.ts:25-27 | an object with a `"[0]"` key uses its values, even when it also has `generated_text` |
| HuggingFace.ValidateColours | src/utils/huggingface.ts:39-46 | at least five colour strings validate to their first five |
| HuggingFace.GeneratedTextParsed | src/utils/huggingface.ts:27-46 | a `generated_text` that parses to at least five colours gives the first five |
| HuggingFace.UnparsableText | src/utils/huggingface.ts:34-45 | a string response that does not parse ends in the parse error |
| Colormind.FetchPalette | src/utils/colormind.ts:8-18 | a non-ok reply fails with "Colormind API error"; a missing, non-array or short `result` fails with "Invalid Colormind response"; otherwise five strings |
| Colormind.ComponentHex | src/utils/colormind.ts:16 | a component renders as at least two lower-case digits that read back as it, exactly two when it is below 256 |
| Colormind.RgbToHex | src/utils/colormind.ts:14-17 | a colour is `#` followed only by lower-case digits, at least two per component |
| Colormind.RgbToHexOfBytes | src/utils/colormind.ts:14-17 | a byte triple renders as a seven-character colour that reads back as the triple |
| Colormind.PaletteOfBytes | src/utils/colormind.ts:14-18 | five byte triples give a palette whose i-th colour reads back as the i-th triple |
| ColorUtils.RandomHexColor | src/utils/colorUtils.ts:6-9 | a draw below 0xffffff renders as `#` and six lower-case digits that read back as the draw; `#ffffff` never appears |
| ColorUtils.RandomPalette | src/utils/colorUtils.ts:2 | five draws give a palette whose i-th colour encodes the i-th draw |
| ColorUtils.GenerateRandomPalette | src/utils/colorUtils.ts:1-4 | five colours with or without a base colour: random when the base is absent or empty, the similar-palette schedule otherwise |
| ColorUtils.JsRem | src/utils/colorUtils.ts:19 | JavaScript `%`: Euclidean for non-negative dividends, otherwise in `(-b, 0]`; always congruent to the dividend modulo `b`, which pins the value |
| ColorUtils.Hue | src/utils/colorUtils.ts:19 | the hue is the base hue turned by 18 degrees per step from the middle, modulo 360, in `(-360, 360)`; it is non-negative when `h + offset * 18 + 360` is, and non-positive otherwise |
| ColorUtils.Lightness | src/utils/colorUtils.ts:20-23 | the lightness is the shifted base clamped to `[20, 85]`, with both clamp cases |
| ColorUtils.Step | src/utils/colorUtils.ts:19-24 | each colour keeps the base saturation and has a lightness in `[20, 85]` |
| ColorUtils.SimilarPalette | src/utils/colorUtils.ts:12-26 | `count` colours; the i-th is the converter applied to the i-th step of the schedule |
| ColorUtils.MiddleKeepsHue | src/utils/colorUtils.ts:19 | the element at `count / 2` has the base hue |
| ColorUtils.HuesInRange | src/utils/colorUtils.ts:19 | for a base hue in `[0, 360)` and at most 41 colours, every hue lies in `[0, 360)` |
| ColorUtils.NeighbourHuesStep | src/utils/colorUtils.ts:19 | neighbouring hues differ by 18 degrees, modulo 360 |
| ColorUtils.NegativeHueFromFortyTwo | src/utils/colorUtils.ts:19 | from 42 colours on, the first hue can be negative (-18 for a base hue of 0) |
| ColorUtils.FiveAroundTwoHundred | src/utils/colorUtils.ts:19 | five colours around hue 200 get hues 164, 182, 200, 218, 236 |
| ColorUtils.RemoveFirstHash | src/utils/colorUtils.ts:30 | `replace("#", "")` removes only the first `#`, and the rest stays in order |
| ColorUtils.DoubledSpec | src/utils/colorUtils.ts:31-35 | doubling each character gives twice the length, each character twice in place |
| ColorUtils.HexBody | src/utils/colorUtils.ts:30-35 | a three-character body is expanded by doubling each character; other lengths are left as they are |
| ColorUtils.ShorthandExample | src/utils/colorUtils.ts:30-35 | `#abc` expands to `aabbcc` |
| ColorUtils.KeysDistinct | src/utils/colorUtils.ts:97 | the keys `prefix-(idx+1)` of different indices differ |
| ColorUtils.Put | src/utils/colorUtils.ts:97 | assigning a new key appends it; assigning an existing key replaces the value of its first entry in place, leaving every other entry |
| ColorUtils.BuildRecord | src/utils/colorUtils.ts:96-99 | the `reduce` never overwrites: it builds one entry per colour, in order, under the key of its index |
| ColorUtils.SnippetLines | src/utils/colorUtils.ts:101-107 | the snippet has two lines more than the record |
| ColorUtils.ThemeSnippet | src/utils/colorUtils.ts:92-108 | the snippet is the joined lines of the entries, with `custom` as the default prefix; it opens with `@theme {` and closes with `}` |
| ColorUtils.SnippetShape | src/utils/colorUtils.ts:101-107 | the lines are `@theme {`, then `  --key: 'colour';` for each colour in order, then `}`, joined by newlines |
| ColorUtils.DefaultPrefixKeys | src/utils/colorUtils.ts:94-97 | without a prefix every key is `custom-` plus the 1-based index |
| ColorUtils.ThemeLineHasNoNewline | src/utils/colorUtils.ts:104 | a theme line contains no newline when the prefix and colour contain none |
| ColorUtils.SnippetLineCount | src/utils/colorUtils.ts:101-107 | splitting the snippet on newlines gives back its lines, `colors.length + 2` of them |
| ColorUtils.EmptySnippet | src/utils/colorUtils.ts:101-107 | no colours give `@theme {\n}` |
| AppState.App.constructor | src/App.tsx:23-28 | initial state: a random palette, empty input, not loading, no error, no AI attribution, no toast |
| AppState.App.SetInput | src/App.tsx:87 | the input takes the typed text; nothing else changes |
| AppState.App.DismissToast | src/App.tsx:115 | the toast is cleared; nothing else changes |
| AppState.App.AiButtonEnabled | src/App.tsx:95 | the AI button is enabled exactly when nothing is pending and the input is not all whitespace |
| AppState.App.HandleGenerate | src/App.tsx:30-33 | a fresh random palette and no AI attribution; the error, input, loading flag and toast are untouched |
| AppState.App.HandleAIGenerate | src/App.tsx:35-68 | both providers get `Theme description: ` plus the trimmed input. Primary success: its palette, `O4-Mini`, no error, Grok-3-Mini never called. Primary failure: Grok-3-Mini is called, and the rate-limit toast is set exactly when the message contains `429`. Then either its palette, `Grok-3-Mini` and the fallback notice, or the old colours, no attribution and its message or `AI error`. Loading ends false |
| AppState.App.Fallback | src/App.tsx:46-64 | the catch branch: the toast only on `429`, then the secondary's palette with the fallback notice, or its error with colours and attribution untouched |

## Left out

- Network and SDK calls (`ModelClient`, `fetch`, `response.json()`/`text()`) are not modelled. Only their outcome is an input: an unexpected or ok response with a completion or decoded data. A thrown SDK call is modelled for the three SDK providers (`Replies.ChatReply.Thrown`). A thrown `fetch` in the other providers simply propagates, so it is left out.
- The module-load token checks of o4mini, grokmini and deepseek are environment configuration that throws at import time; they are not modelled.
- The prompts are not modelled, except for the arrays the Grok-3-Mini and DeepSeek prompts request on non-compliance. The request bodies and model parameters are not modelled either.
- `JSON.parse` is modelled only for arrays of strings without backslash escapes. Any other JSON value, escape or syntax error is `None`. A value such as a number inside an array, which the regex `test` would coerce to a string, makes the parse fail in the model. For such completions the model's answer can differ from the source's. Example: for `["\u0023abcdef","#111111","#222222","#333333","#444444"]`, O4-Mini returns the five decoded colours in the source, but the default palette in the model, because the scan finds only four matches.
- Json.ParseStringArray: rejects every array that holds a non-string element. In the source such an array could still pass `test` through coercion, so the model's structured path is weaker there.
- HuggingFace.FetchPalette: a parsed value that is not an array, and `null` data, raise a JavaScript `TypeError` in the source. The model treats them as no candidates, so it reports the parse error instead. A non-string `generated_text` is treated the same way. A candidate that is not a string never counts as a colour, although the regex `test` would accept, say, a nested one-element array holding a colour. Object keys are assumed distinct, as they are in decoded JSON.
- Gemini.FetchPalette: the key check is modelled by ignoring the reply when the key is empty, since the request is never made.
- `hexToHSL` and `hslToHex` use floating-point arithmetic, which is not modelled. They are function parameters. Hues, saturations and lightnesses are integers.
- ColorUtils.HuesInRange: holds only up to 41 colours. From 42 on the source's formula yields negative hues, as `NegativeHueFromFortyTwo` shows. `generateRandomPalette` always asks for five.
- `Math.random` is not modelled. Each colour takes its floored draw as the parameter `draw`.
- Colormind.FetchPalette: components are natural numbers, so negative and fractional components are not modelled. Triples of other lengths are rendered but not read back. A `result` element that is not an array, which makes the source's `map` throw, is not modelled.
- Asynchrony, `console` logging, `setTimeout`, clipboard writes, and the React rendering in `src/components/*` and `src/main.tsx` are not modelled.
- AppState.App.HandleAIGenerate: the intermediate `loading == true` state is visible only during the awaits. The model states the final state, in which `loading` is false.
