/**
 * The part of `generateSpeechFromText` that runs before the text-to-speech
 * model is called: it checks that an API key is configured, splits the
 * user's text into a style instruction (the first line) and the content to
 * speak (the remaining lines), rejects empty content, picks the voice for
 * the selected gender and builds the prompt sent to the model.
 */
module GeminiService {
  import opened Optional
  import opened Text
  import opened Types

  const MaleVoice: string := "Puck"
  const FemaleVoice: string := "Kore"

  /** The fixed pieces of the prompt template, around the style and the content. */
  const StylePrefix: string := "Please read the following text with this specific tone/accent: \""
  const StyleToText: string := "\". Text: \""
  const PromptSuffix: string := "\""

  /** The two errors the preparation can raise. */
  datatype SpeechError = MissingApiKey | EmptyContent

  datatype Result<+T> = Success(value: T) | Failure(error: SpeechError)

  /** The text of the error raised for each failure. */
  function Message(e: SpeechError): (m: string)
    ensures m != ""
  {
    match e
    case MissingApiKey => "API Key is missing. Please check your configuration."
    case EmptyContent => "Please enter text content to convert."
  }

  /** The user's text, split into the style instruction and the content. */
  datatype ParsedInput = ParsedInput(style: string, content: string)

  /** Everything the model call is given: the key, the voice and the prompt. */
  datatype SpeechRequest = SpeechRequest(apiKey: string, voiceName: string, prompt: string)

  /** Whether the configured key is truthy: an unset variable and the empty
      string are the two falsy values a string setting can take. */
  predicate HasApiKey(apiKey: Option<string>): (b: bool)
    ensures !b <==> apiKey == None || apiKey == Some("")
  {
    apiKey.Some? && apiKey.value != ""
  }

  /** First line (trimmed) is the style; the other lines, re-joined and
      trimmed, are the content. A single line is all content. */
  function ParseInput(fullText: string): (p: ParsedInput)
    ensures NoEdgeWhitespace(p.style) && NoEdgeWhitespace(p.content)
  {
    var lines := Split(fullText, '\n');
    if |lines| > 1 then
      ParsedInput(Trim(lines[0]), Trim(Join(lines[1..], '\n')))
    else
      ParsedInput("", Trim(lines[0]))
  }

  /** Input without a line feed has no style, and its content is the whole
      input, trimmed. */
  lemma ParseSingleLine(fullText: string)
    requires '\n' !in fullText
    ensures ParseInput(fullText) == ParsedInput("", Trim(fullText))
  {
    SplitWithoutSeparator(fullText, '\n');
  }

  /** Input with a line feed at position `i` (its first): the style is the
      trimmed text before it, the content the trimmed text after it, later
      line feeds included. */
  lemma ParseAtFirstNewline(fullText: string, i: nat)
    requires i < |fullText| && fullText[i] == '\n' && '\n' !in fullText[..i]
    ensures ParseInput(fullText) == ParsedInput(Trim(fullText[..i]), Trim(fullText[i + 1..]))
  {
    SplitAtFirst(fullText, '\n', i);
    JoinSplit(fullText[i + 1..], '\n');
  }

  /** `Puck` for a male voice, `Kore` otherwise. */
  function SelectVoice(gender: Gender): (v: string)
    ensures v == MaleVoice <==> gender == Male
    ensures v == FemaleVoice <==> gender == Female
  {
    assert MaleVoice[0] != FemaleVoice[0];
    match gender
    case Male => MaleVoice
    case Female => FemaleVoice
  }

  /** Where the content starts in the prompt built for `style`. */
  function ContentOffset(style: string): nat {
    if style == "" then 0 else |StylePrefix| + |style| + |StyleToText|
  }

  /** The bare content when there is no style; otherwise the template with
      the style in the first slot and the content in the second. */
  function BuildPrompt(style: string, content: string): (p: string)
    ensures style == "" ==> p == content
    ensures ContentOffset(style) + |content| <= |p|
    ensures p[ContentOffset(style)..ContentOffset(style) + |content|] == content
    ensures style != "" ==>
      |StylePrefix| + |style| <= |p|
      && p[..|StylePrefix|] == StylePrefix
      && p[|StylePrefix|..|StylePrefix| + |style|] == style
      && p[|StylePrefix| + |style|..ContentOffset(style)] == StyleToText
      && p[ContentOffset(style) + |content|..] == PromptSuffix
  {
    if style != "" then
      StylePrefix + style + StyleToText + content + PromptSuffix
    else
      content
  }

  /** The checks and request construction, in the source's order: key,
      then parsing, then the empty-content check, then voice and prompt. */
  function PrepareSpeech(apiKey: Option<string>, fullText: string, gender: Gender): (r: Result<SpeechRequest>)
    ensures r == Failure(MissingApiKey) <==> !HasApiKey(apiKey)
    ensures HasApiKey(apiKey) ==> (r == Failure(EmptyContent) <==> ParseInput(fullText).content == "")
    ensures HasApiKey(apiKey) && ParseInput(fullText).content != "" ==> r.Success?
    ensures r.Success? ==>
      r.value.apiKey == apiKey.value
      && r.value.voiceName == SelectVoice(gender)
      && r.value.prompt == BuildPrompt(ParseInput(fullText).style, ParseInput(fullText).content)
  {
    if !HasApiKey(apiKey) then
      Failure(MissingApiKey)
    else
      var parsed := ParseInput(fullText);
      if parsed.content == "" then
        Failure(EmptyContent)
      else
        Success(SpeechRequest(apiKey.value, SelectVoice(gender), BuildPrompt(parsed.style, parsed.content)))
  }

  /** The message raised for a failure is the missing-key text exactly when
      no key is configured, and the empty-content text otherwise. */
  lemma FailureMessage(apiKey: Option<string>, fullText: string, gender: Gender)
    requires PrepareSpeech(apiKey, fullText, gender).Failure?
    ensures Message(PrepareSpeech(apiKey, fullText, gender).error)
      == if HasApiKey(apiKey) then "Please enter text content to convert."
         else "API Key is missing. Please check your configuration."
  {
  }

  /** A single line fails as empty exactly when it is all whitespace. */
  lemma EmptySingleLine(apiKey: Option<string>, fullText: string, gender: Gender)
    requires HasApiKey(apiKey) && '\n' !in fullText
    ensures PrepareSpeech(apiKey, fullText, gender) == Failure(EmptyContent) <==> AllWhitespace(fullText)
  {
    ParseSingleLine(fullText);
  }

  /** With a line feed, the request fails as empty exactly when everything
      after the first line feed is whitespace, whatever the style line holds. */
  lemma EmptyAfterFirstNewline(apiKey: Option<string>, fullText: string, gender: Gender, i: nat)
    requires HasApiKey(apiKey)
    requires i < |fullText| && fullText[i] == '\n' && '\n' !in fullText[..i]
    ensures PrepareSpeech(apiKey, fullText, gender) == Failure(EmptyContent) <==> AllWhitespace(fullText[i + 1..])
  {
    ParseAtFirstNewline(fullText, i);
  }

  /** A style line followed by nothing is rejected as empty content. */
  lemma StyleLineAloneIsEmpty(gender: Gender)
    ensures PrepareSpeech(Some("key"), "style\n", gender) == Failure(EmptyContent)
  {
    EmptyAfterFirstNewline(Some("key"), "style\n", gender, 5);
  }

  /** The input `"a"` has no style and the content `"a"`. */
  lemma ParseLetter()
    ensures ParseInput("a") == ParsedInput("", "a")
  {
    var a := "a";
    assert a[0] == 'a' && !IsWhitespace('a');
    assert '\n' !in a;
    ParseSingleLine(a);
    TrimUnchanged(a);
  }

  /** A single non-blank line with a key gives a request that speaks that
      line, unchanged, in the male voice. */
  lemma SingleLineSucceeds()
    ensures PrepareSpeech(Some("k"), "a", Male) == Success(SpeechRequest("k", MaleVoice, "a"))
  {
    ParseLetter();
    assert HasApiKey(Some("k"));
    var r := PrepareSpeech(Some("k"), "a", Male);
    assert r.Success?;
    assert r.value == SpeechRequest("k", MaleVoice, "a");
  }

  /** A produced request speaks non-empty content with no whitespace at its
      edges, and that content appears verbatim in a non-empty prompt. */
  lemma RequestCarriesContent(apiKey: Option<string>, fullText: string, gender: Gender)
    requires PrepareSpeech(apiKey, fullText, gender).Success?
    ensures var req := PrepareSpeech(apiKey, fullText, gender).value;
      var parsed := ParseInput(fullText);
      parsed.content != ""
      && NoEdgeWhitespace(parsed.style) && NoEdgeWhitespace(parsed.content)
      && req.prompt != ""
      && ContentOffset(parsed.style) + |parsed.content| <= |req.prompt|
      && req.prompt[ContentOffset(parsed.style)..ContentOffset(parsed.style) + |parsed.content|] == parsed.content
  {
  }
}
