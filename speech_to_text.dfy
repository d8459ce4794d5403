/** The speech-to-text service: the provider's transcription when a key is configured and
    the call succeeds, otherwise one of eight canned notes picked at random. */
module SpeechToText {
  import opened Notes
  import opened Text

  /** The canned notes the fallback picks from. */
  const MockTexts: seq<string> := [
    "Just remembered I need to water the plants tomorrow morning.",
    "Meeting with the team about the project proposal next Tuesday at 2 PM.",
    "Mom called - family dinner this Sunday at 6. Need to bring dessert.",
    "Car needs an oil change soon. Mechanic shop closes at 5 PM on weekdays.",
    "Grocery list: apples, chicken breast, yogurt, and pasta sauce.",
    "Doctor appointment scheduled for Friday at 10 AM. Don't forget insurance card.",
    "Called Mike about the weekend camping trip. He's bringing the tent and sleeping bags.",
    "Need to finish quarterly report by end of week. Schedule meeting with accounting team."
  ]

  /** `Math.floor(u * mockTexts.length)` for a value `u` drawn from [0, 1). */
  function PickIndex(u: real): (i: nat)
    requires 0.0 <= u < 1.0
    ensures i < |MockTexts|
    ensures i as real <= u * |MockTexts| as real < i as real + 1.0
  {
    (u * |MockTexts| as real).Floor
  }

  /** Each canned note is picked for the eighth of [0, 1) that starts at its index over eight. */
  lemma PickIndexReaches(i: nat)
    requires i < |MockTexts|
    ensures var u := i as real / |MockTexts| as real; 0.0 <= u < 1.0 && PickIndex(u) == i
  {
    var u := i as real / |MockTexts| as real;
    assert u * |MockTexts| as real == i as real;
  }

  /** `mockTranscription`, with the random draw `u` as a parameter. */
  function MockTranscription(u: real): (r: string)
    requires 0.0 <= u < 1.0
    ensures r in MockTexts
  {
    MockTexts[PickIndex(u)]
  }

  /** Every canned note is a possible fallback transcription. */
  lemma MockTranscriptionCovers(note: string)
    requires note in MockTexts
    ensures exists u :: 0.0 <= u < 1.0 && MockTranscription(u) == note
  {
    var i :| 0 <= i < |MockTexts| && MockTexts[i] == note;
    PickIndexReaches(i);
    var u := i as real / |MockTexts| as real;
    assert MockTranscription(u) == note;
  }

  /** `transcribeAudio`: `transcriber` is the outcome of the provider call on the uploaded
      file (Fail for a network error or a reply without a text field); `u` is the random draw
      the fallback would use. */
  function TranscribeAudio(apiKey: Option<string>, transcriber: Outcome, u: real): (r: string)
    requires 0.0 <= u < 1.0
    ensures !KeyConfigured(apiKey) ==> r == MockTranscription(u)
    ensures transcriber.Fail? ==> r == MockTranscription(u)
    ensures KeyConfigured(apiKey) && transcriber.Ok? ==> r == Trim(transcriber.content)
  {
    if !KeyConfigured(apiKey) then MockTranscription(u)
    else match transcriber
      case Fail => MockTranscription(u)
      case Ok(text) => Trim(text)
  }

  /** A provider transcription carries no surrounding white space. */
  lemma TranscriptionTrimmed(apiKey: Option<string>, text: string, u: real)
    requires 0.0 <= u < 1.0
    requires KeyConfigured(apiKey)
    ensures var r := TranscribeAudio(apiKey, Ok(text), u);
      (|r| > 0 ==> !IsSpace(r[0]) && !IsSpace(r[|r| - 1])) && Trim(r) == r
  {
    var r := TranscribeAudio(apiKey, Ok(text), u);
    assert r == Trim(text);
    TrimEnds(text);
    TrimIdempotent(text);
  }
}
