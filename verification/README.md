# Speech-request preparation of the Gemini text-to-speech front end

This project models the first step of `generateSpeechFromText` in
`services/geminiService.ts`: everything it does before it calls the remote
text-to-speech model. Given the configured API key, the user's raw text and
the selected voice gender, it

1. fails with "API Key is missing. Please check your configuration." when no
   key (or an empty one) is configured, before looking at the text;
2. splits the text on line feeds; with more than one line, the first line,
   trimmed, is the *style instruction* and the remaining lines, re-joined with
   line feeds and trimmed, are the *content*; with one line, the trimmed line
   is the content and the style is empty;
3. fails with "Please enter text content to convert." when the content is
   empty, even if a style line was given;
4. picks the voice `Puck` for a male voice and `Kore` for a female one;
5. builds the prompt: the bare content when the style is empty, otherwise
   the fixed template `Please read the following text with this specific
   tone/accent: "<style>". Text: "<content>"`.

Files:

- `text.dfy` (module `Text`): the JavaScript string built-ins the code uses —
  `split` and `join` on a one-character separator and `trim` — as functions,
  with `Split`/`Join` proved inverse to each other in both directions and
  `Trim` characterised by what it drops and what it keeps.
- `optional.dfy` (module `Optional`): the `Option` type used for the
  configured API key.
- `types.dfy` (module `Types`): the `Gender` enumeration of `types.ts`.
- `gemini_service.dfy` (module `GeminiService`): parsing, validation, voice
  choice, prompt construction and the whole preparation `PrepareSpeech`,
  which returns a `Result` carrying either the request (key, voice, prompt) or
  one of the two errors.

The main result is `ParseAtFirstNewline`: splitting on `'\n'`, dropping the
first line and joining the rest again gives exactly the text after the first
line feed, so the content is the trimmed text after the first line feed, with
any later line feeds kept inside it.

The environment variable `process.env.API_KEY` is a parameter
(`Option<string>`): `None` stands for an unset variable, and an empty string
is falsy in the source, so both count as missing.

## Model

| member | source | states |
|---|---|---|
| Text.Split | services/geminiService.ts:18 | splitting always yields at least one line, so reading the first line never fails; no line contains the separator |
| Text.SplitWithoutSeparator | services/geminiService.ts:18 | text without a line feed splits into exactly one line, the whole text |
| Text.SplitAtFirst | services/geminiService.ts:18 | text with a line feed splits into more than one line; the first is the text before the first line feed and the rest are the split of the text after it |
| Text.Join | services/geminiService.ts:24 | joining at least one part gives a text that starts with the first part (with `JoinSplit` and `SplitJoin`, join is the inverse of split) |
| Text.JoinSplit | services/geminiService.ts:24 | joining the lines of a split with the same separator gives back the original text |
| Text.SplitJoin | services/geminiService.ts:18-24 | splitting a join of separator-free lines gives back the lines |
| Text.TrimStart | services/geminiService.ts:23 | the result is a suffix of the input, everything dropped is whitespace, and it does not start with whitespace |
| Text.TrimEnd | services/geminiService.ts:23 | the result is a prefix of the input, everything dropped is whitespace, and it does not end with whitespace |
| Text.Trim | services/geminiService.ts:23-27 | the trimmed text neither starts nor ends with whitespace, and it is empty exactly when the input is all whitespace |
| Text.TrimKeepsMiddle | services/geminiService.ts:23-27 | trimming keeps one contiguous piece of the input and drops only whitespace before and after it |
| Text.TrimUnchanged | services/geminiService.ts:23-27 | text that neither starts nor ends with whitespace is left as it is |
| Text.TrimIdempotent | services/geminiService.ts:23-27 | trimming an already trimmed text changes nothing |
| GeminiService.HasApiKey | services/geminiService.ts:13 | the key counts as missing exactly when the variable is unset or the empty string, the two falsy values it can take |
| GeminiService.Message | services/geminiService.ts:14 | every error has a non-empty message; `FailureMessage` ties each text (lines 14 and 31) to the condition that raises it |
| GeminiService.ParseInput | services/geminiService.ts:17-28 | the style instruction and the content never start or end with whitespace |
| GeminiService.ParseSingleLine | services/geminiService.ts:18-28 | without a line feed the style is empty and the content is the whole input, trimmed |
| GeminiService.ParseAtFirstNewline | services/geminiService.ts:22-24 | with a line feed, the style is the trimmed text before the first line feed and the content the trimmed text after it, later line feeds kept |
| GeminiService.SelectVoice | services/geminiService.ts:34 | the voice is `Puck` exactly when the gender is male and `Kore` exactly when it is female |
| GeminiService.BuildPrompt | services/geminiService.ts:37-39 | with no style the prompt is the content itself; otherwise it is the template's fixed opening, the style, the fixed middle `". Text: "`, the content and the closing quote, each at its own position |
| GeminiService.PrepareSpeech | services/geminiService.ts:13-39 | the result is the missing-key error exactly when no key is configured, whatever the text; with a key, the call fails as empty exactly when the parsed content is empty and succeeds otherwise; a produced request carries the key, the voice for the gender and the prompt for the parsed style and content |
| GeminiService.FailureMessage | services/geminiService.ts:13-32 | a failure's message is "API Key is missing. Please check your configuration." exactly when no key is configured, and "Please enter text content to convert." otherwise |
| GeminiService.EmptySingleLine | services/geminiService.ts:27-32 | a single line is rejected as empty exactly when it is all whitespace |
| GeminiService.EmptyAfterFirstNewline | services/geminiService.ts:22-32 | with a line feed, the call is rejected as empty exactly when everything after the first line feed is whitespace, whatever the style line holds |
| GeminiService.StyleLineAloneIsEmpty | services/geminiService.ts:30-32 | the input `"style\n"` is rejected as empty content although its style line is not empty |
| GeminiService.ParseLetter | services/geminiService.ts:27 | the one-line input `"a"` has no style and the content `"a"` |
| GeminiService.SingleLineSucceeds | services/geminiService.ts:30-39 | with a key, the input `"a"` and a male voice give the request with voice `Puck` and prompt `"a"` |
| GeminiService.RequestCarriesContent | services/geminiService.ts:30-39 | a produced request has non-empty content without edge whitespace, a non-empty prompt, and the content verbatim inside the prompt |

## Left out

- `decodeBase64` and `pcmToWav` (services/audioUtils.ts, imported at services/geminiService.ts:3): services/audioUtils.ts is not part of this model, so the Base64 decoding and the WAV container encoding are not modelled.
- The call to the text-to-speech model (services/geminiService.ts:41-55), including its model name, and the extraction of the audio data with its "No audio data received from Gemini." error (services/geminiService.ts:57-61): a third-party SDK call over the network.
- `URL.createObjectURL` (services/geminiService.ts:68) and the `catch` that logs and re-raises errors (services/geminiService.ts:70-73): browser API and console logging; neither of the two modelled errors passes through that `catch`.
- App.tsx and the components: React rendering and asynchronous UI state.
- Strings are sequences of Unicode scalar values, not UTF-16 code units as in JavaScript; nothing the modelled code does depends on the difference except for unpaired surrogates, which are not represented.
- `Text.IsWhitespace` lists the ECMAScript WhiteSpace and LineTerminator characters, taking the Unicode space separators (category Zs) as currently defined; a future Unicode version adding one would not be reflected.
