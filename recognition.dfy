/** What the recogniser hands to an audio callback for one block of audio. */
module Recognition {

  /** `AcceptWaveform` returned true: `Final` carries the `"text"` of
      `Result()`; otherwise `Partial` carries the `"partial"` of
      `PartialResult()`. A missing key is represented by the empty text,
      which every callback treats like an exception it catches: no change. */
  datatype Event = Partial(text: string) | Final(text: string)

  /** One block as the audio stream delivers it to the callback: the
      recogniser's outcome and the value `time()` would return while the
      callback handles it. */
  datatype Tick = Tick(event: Event, now: real)
}
