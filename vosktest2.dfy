/** `vosktests/vosktest2.py`: the time-gated transcriber without the
    truncation at start. An accepted final is appended straight to
    `transcription.txt` when more than two seconds have passed since the last
    write; a final accepted sooner is dropped from the file yet still enters
    the duplicate window. Texts are not stripped. */
module VoskTest2 {
  import opened Text
  import opened Window
  import opened Recognition
  import opened TimeGate

  class RealTimeTranscriber {
    var lastWriteTime: real
    var recentResults: seq<string>
    /** The contents of `transcription.txt`. */
    var transcript: string

    /** What `transcription.txt` held when the transcriber was created. */
    ghost const initialTranscript: string
    /** Every final accepted so far, in order. */
    ghost var accepted: seq<string>
    /** `persisted[k]` says whether `accepted[k]` passed the time gate and was written. */
    ghost var persisted: seq<bool>

    /** After what it held at the start, the file holds, one per line and in
        order, exactly the accepted finals that passed the time gate; the
        window is the last five accepted finals (written or not), pairwise
        dissimilar; no accepted final is empty. */
    ghost predicate Valid()
      reads this`accepted, this`persisted, this`transcript, this`recentResults
    {
      Logged(transcript, initialTranscript, accepted, persisted, recentResults)
    }

    /** The state `Step` and `Session` speak about. */
    ghost function State(): History
      reads this`accepted, this`persisted, this`lastWriteTime
    {
      History(accepted, persisted, lastWriteTime)
    }

    /** `__init__`: empty window and `last_write_time := time()`; the file
        is left as it is (writes only ever append). */
    constructor (now: real, existing: string)
      ensures Valid()
      ensures lastWriteTime == now && recentResults == [] && transcript == existing
      ensures accepted == []
    {
      lastWriteTime := now;
      recentResults := [];
      transcript := existing;
      initialTranscript := existing;
      accepted := [];
      persisted := [];
    }

    /** The decision logic of `audio_callback` for one recogniser outcome.
        A partial changes nothing. A final that is empty or equal, ignoring
        case, to an entry of the window changes nothing. Otherwise it enters
        the window, and it is appended to the file as one line if and only if
        more than two seconds have passed since the last write (and
        `lastWriteTime` becomes `now`). */
    method AudioCallback(e: Event, now: real)
      requires Valid()
      modifies this
      ensures Valid()
      ensures State() == Step(old(State()), Tick(e, now))
      ensures lastWriteTime == old(lastWriteTime) || lastWriteTime - old(lastWriteTime) > FlushInterval
      ensures !e.Final? || !Admits(SameIgnoringCase, old(recentResults), e.text) ==>
        unchanged(this)
      ensures e.Final? && Admits(SameIgnoringCase, old(recentResults), e.text) ==>
        && accepted == old(accepted) + [e.text]
        && recentResults == Recent(accepted)
        && if now - old(lastWriteTime) > FlushInterval then
             && persisted == old(persisted) + [true]
             && transcript == old(transcript) + e.text + "\n"
             && lastWriteTime == now
           else
             && persisted == old(persisted) + [false]
             && transcript == old(transcript)
             && lastWriteTime == old(lastWriteTime)
    {
      if e.Final? {
        var text := e.text;
        if text != [] && !AnySimilar(SameIgnoringCase, text, recentResults) {
          Accept(text, now);
        }
      }
    }

    /** The branch of `audio_callback` that accepts an admitted final: it enters
        the window, and it is appended to the file as one line if and only if
        more than two seconds have passed since the last write (and
        `lastWriteTime` becomes `now`). */
    method Accept(text: string, now: real)
      requires Valid()
      requires Admits(SameIgnoringCase, recentResults, text)
      modifies this
      ensures Valid()
      ensures accepted == old(accepted) + [text]
      ensures recentResults == Recent(accepted)
      ensures if now - old(lastWriteTime) > FlushInterval then
          && persisted == old(persisted) + [true]
          && transcript == old(transcript) + text + "\n"
          && lastWriteTime == now
        else
          && persisted == old(persisted) + [false]
          && transcript == old(transcript)
          && lastWriteTime == old(lastWriteTime)
    {
      var write := now - lastWriteTime > FlushInterval;
      var file := if write then transcript + text + "\n" else transcript;
      var window := recentResults + [text];
      if |window| > Capacity {
        window := window[1..];
      }
      AcceptKeepsLogged(transcript, initialTranscript, accepted, persisted, recentResults, text, write);
      RecentAfterAccept(accepted, text);
      assert Logged(file, initialTranscript, accepted + [text], persisted + [write], window);
      transcript := file;
      persisted := persisted + [write];
      accepted := accepted + [text];
      recentResults := window;
      lastWriteTime := if write then now else lastWriteTime;
    }

    /** `start`: the stream hands the callback one block after another
        until Ctrl+C or a stream error, neither of which writes anything.
        The transcriber then stands where `Session` says: the file holds what
        it held before, followed by the accepted finals that passed the time
        gate, in order. */
    method Start(blocks: seq<Tick>)
      requires Valid()
      modifies this
      ensures Valid()
      ensures State() == Session(old(State()), blocks)
      ensures |accepted| >= |old(accepted)| && accepted[..|old(accepted)|] == old(accepted)
      ensures lastWriteTime >= old(lastWriteTime)
    {
      ghost var start := State();
      assert |persisted| == |accepted|;
      SessionExtends(start, blocks);
      var i := 0;
      while i < |blocks|
        invariant 0 <= i <= |blocks|
        invariant Valid()
        invariant State() == Session(start, blocks[..i])
      {
        AudioCallback(blocks[i].event, blocks[i].now);
        assert blocks[..i + 1][..i] == blocks[..i];
        i := i + 1;
      }
      assert blocks[..i] == blocks;
    }
  }
}
