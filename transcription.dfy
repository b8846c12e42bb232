/**
 * What transcribe_audio does with the engine's answer: the text is
 * whitespace-stripped and the language defaults to "en" when the engine
 * reports none.  The engine itself is not modelled; its raw answer is an
 * input.
 */
module Transcription {
  import opened Wrappers
  import opened Text

  /** The speech-to-text engine's answer: its text and, if it detected one,
      a language code. */
  datatype RawResult = RawResult(text: string, language: Option<string>)

  /** The (text, lang) pair transcribe_audio returns. */
  datatype Transcript = Transcript(text: string, language: string)

  const DefaultLanguage: string := "en"

  function PostProcess(raw: RawResult): (t: Transcript)
    ensures Trimmed(t.text)
    ensures raw.language.Some? ==> t.language == raw.language.value
    ensures raw.language.None? ==> t.language == DefaultLanguage
  {
    Transcript(Strip(raw.text), raw.language.GetOr(DefaultLanguage))
  }

  /** Transcribing is stable: feeding a transcript back as the engine's answer
      gives the same transcript, because stripping again changes nothing. */
  lemma {:induction false} PostProcessStable(raw: RawResult)
    ensures var t := PostProcess(raw); PostProcess(RawResult(t.text, Some(t.language))) == t
  {
    StripIdempotent(raw.text);
  }

  /** The call loop's emptiness test: the transcript strips to nothing. */
  predicate IsBlank(t: Transcript) {
    Strip(t.text) == []
  }

  /** A transcript is blank exactly when the engine heard only whitespace. */
  lemma {:induction false} BlankIffWhitespace(raw: RawResult)
    ensures IsBlank(PostProcess(raw)) <==> AllSpace(raw.text)
    ensures IsBlank(PostProcess(raw)) <==> PostProcess(raw).text == []
  {
    StripBlank(raw.text);
    StripIdempotent(raw.text);
  }

  /** The speech language of a reply: "hi" when the caller spoke Hindi,
      "en" for any other detected language. */
  function SynthesisLanguage(lang: string): (r: string)
    ensures r == "hi" || r == "en"
    ensures r == "hi" <==> lang == "hi"
    ensures r == lang <==> (lang == "hi" || lang == "en")
  {
    if lang == "hi" then "hi" else "en"
  }
}
