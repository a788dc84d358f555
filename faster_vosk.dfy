/** `fasterVosk.py`: the buffering transcriber. Accepted finals are
    stripped, queued in `transcription_buffer`, and the whole buffer is
    appended to `transcription.txt` when an accepted final arrives more than
    two seconds after the last write, and once more on Ctrl+C. */
module FasterVosk {
  import opened Text
  import opened Window
  import opened Recognition

  /** The part of the recogniser's state that the callback's decisions read
      and write: the finals accepted so far, the pending buffer and the time
      of the last write. The window is `Recent(accepted)`. */
  datatype History = History(accepted: seq<string>, buffer: seq<string>, lastWriteTime: real)

  /** What `_audio_callback` does with one block, as a function of the state
      before it: a final whose stripped text is admitted joins the history
      and the buffer, and the buffer is emptied into the file when more than
      two seconds have passed since the last write. */
  function Step(h: History, t: Tick): History {
    if t.event.Final? && Admits(SameIgnoringCase, Recent(h.accepted), Strip(t.event.text)) then
      var text := Strip(t.event.text);
      if t.now - h.lastWriteTime > FlushInterval then History(h.accepted + [text], [], t.now)
      else History(h.accepted + [text], h.buffer + [text], h.lastWriteTime)
    else h
  }

  /** The state after the stream has handed the callback `blocks`, in order. */
  function Session(h: History, blocks: seq<Tick>): History
    decreases |blocks|
  {
    if blocks == [] then h else Step(Session(h, blocks[..|blocks| - 1]), blocks[|blocks| - 1])
  }

  /** Over a session the accepted finals are only ever extended, the time
      of the last write never goes back, and the buffer stays a suffix of
      the accepted finals. */
  lemma {:induction false} SessionExtends(h: History, blocks: seq<Tick>, written: seq<string>)
    requires written + h.buffer == h.accepted
    ensures var r := Session(h, blocks);
      && |h.accepted| <= |r.accepted| && r.accepted[..|h.accepted|] == h.accepted
      && r.lastWriteTime >= h.lastWriteTime
      && exists w :: w + r.buffer == r.accepted
  {
    if blocks != [] {
      var m := Session(h, blocks[..|blocks| - 1]);
      SessionExtends(h, blocks[..|blocks| - 1], written);
      var w :| w + m.buffer == m.accepted;
      var r := Step(m, blocks[|blocks| - 1]);
      if r != m {
        var text := Strip(blocks[|blocks| - 1].event.text);
        assert r.accepted == m.accepted + [text];
        assert r.accepted[..|h.accepted|] == m.accepted[..|h.accepted|];
        if r.buffer == [] {
          assert r.accepted + r.buffer == r.accepted;
        } else {
          Regroup3(w, m.buffer, [text]);
          assert w + r.buffer == r.accepted;
        }
      }
    }
  }

  /** A history that extends `written + buffer` is `written` followed by the
      buffer and the newer entries. */
  lemma Regroup(written: seq<string>, buffer: seq<string>, history: seq<string>)
    requires |written + buffer| <= |history| && history[..|written + buffer|] == written + buffer
    ensures history == written + (buffer + history[|written + buffer|..])
  {
    var tail := history[|written + buffer|..];
    assert history == (written + buffer) + tail;
  }

  /** The invariant the recogniser keeps: the file holds, after `initial`,
      the written finals one per line; the written finals followed by the
      buffer are exactly the accepted finals; the window is the last five
      accepted finals, none equal ignoring case to an older one; every
      accepted final is stripped and not empty. */
  ghost predicate Buffered(file: string, initial: string, written: seq<string>, buffer: seq<string>,
                           accepted: seq<string>, window: seq<string>) {
    && written + buffer == accepted
    && file == initial + Lines(written)
    && window == Recent(accepted)
    && Distinct(SameIgnoringCase, window)
    && AllStripped(accepted)
  }

  /** Accepting an admitted, stripped final into the buffer keeps the
      invariant without touching the file. */
  lemma AcceptKeepsBuffered(file: string, initial: string, written: seq<string>, buffer: seq<string>,
                            accepted: seq<string>, window: seq<string>, text: string)
    requires Buffered(file, initial, written, buffer, accepted, window)
    requires Stripped(text) && Admits(SameIgnoringCase, window, text)
    ensures Buffered(file, initial, written, buffer + [text], accepted + [text], Recent(accepted + [text]))
  {
    StrippedFixed(text);
    AllStrippedAppend(accepted, text);
    DistinctAfterAccept(SameIgnoringCase, accepted, text);
    assert written + (buffer + [text]) == (written + buffer) + [text];
  }

  /** Appending the buffer to the file, one line per entry, and emptying it
      keeps the invariant. */
  lemma FlushKeepsBuffered(file: string, initial: string, written: seq<string>, buffer: seq<string>,
                           accepted: seq<string>, window: seq<string>)
    requires Buffered(file, initial, written, buffer, accepted, window)
    ensures Buffered(file + Lines(buffer), initial, written + buffer, [], accepted, window)
  {
    LinesAppend(written, buffer);
    Regroup3(initial, Lines(written), Lines(buffer));
    assert (written + buffer) + [] == written + buffer;
  }

  class SpeechRecognizer {
    var lastWriteTime: real
    var recentResults: seq<string>
    var transcriptionBuffer: seq<string>
    /** The contents of `transcription.txt`. */
    var transcript: string

    /** What `transcription.txt` held when the recogniser was created. */
    ghost const initialTranscript: string
    /** Every final accepted so far, in order. */
    ghost var accepted: seq<string>
    /** The accepted finals already appended to the file, in order. */
    ghost var written: seq<string>

    /** The file followed by the pending buffer is exactly the accepted
        finals; the window is the last five of them, pairwise dissimilar;
        no accepted final is blank or carries surrounding whitespace. */
    ghost predicate Valid()
      reads this`accepted, this`written, this`transcriptionBuffer, this`transcript, this`recentResults
    {
      Buffered(transcript, initialTranscript, written, transcriptionBuffer, accepted, recentResults)
    }

    /** `__init__`: empty window and buffer, `last_write_time := time()`; the
        file is left as it is (writes only ever append). */
    constructor (now: real, existing: string)
      ensures Valid()
      ensures lastWriteTime == now && recentResults == [] && transcriptionBuffer == []
      ensures transcript == existing && accepted == []
    {
      lastWriteTime := now;
      recentResults := [];
      transcriptionBuffer := [];
      transcript := existing;
      initialTranscript := existing;
      accepted := [];
      written := [];
    }

    /** `_write_transcription`: an empty buffer writes nothing; otherwise the
        buffered texts are appended to the file one per line, in order, and
        the buffer is cleared. */
    method WriteTranscription()
      requires Valid()
      modifies this
      ensures Valid()
      ensures transcriptionBuffer == []
      ensures transcript == old(transcript) + Lines(old(transcriptionBuffer))
      ensures written == accepted
      ensures lastWriteTime == old(lastWriteTime) && recentResults == old(recentResults)
      ensures accepted == old(accepted)
    {
      if transcriptionBuffer != [] {
        JoinedLines(transcriptionBuffer);
        FlushKeepsBuffered(transcript, initialTranscript, written, transcriptionBuffer, accepted, recentResults);
        transcript := transcript + (Join(transcriptionBuffer, "\n") + "\n");
        written := written + transcriptionBuffer;
        transcriptionBuffer := [];
      } else {
        assert written + [] == written;
      }
    }

    /** The decision logic of `_audio_callback` for one recogniser outcome.
        A partial changes nothing. A final is stripped; if it is empty or
        equal, ignoring case, to an entry of the window, nothing changes.
        Otherwise it joins the buffer and the window, and if more than two
        seconds have passed since the last write the whole buffer (this text
        included) is written and `lastWriteTime` becomes `now`. */
    method AudioCallback(e: Event, now: real)
      requires Valid()
      modifies this
      ensures Valid()
      ensures lastWriteTime == old(lastWriteTime) || lastWriteTime - old(lastWriteTime) > FlushInterval
      ensures !e.Final? || !Admits(SameIgnoringCase, old(recentResults), Strip(e.text)) ==>
        unchanged(this)
      ensures e.Final? && Admits(SameIgnoringCase, old(recentResults), Strip(e.text)) ==>
        var text := Strip(e.text);
        && accepted == old(accepted) + [text]
        && recentResults == Recent(accepted)
        && if now - old(lastWriteTime) > FlushInterval then
             && transcriptionBuffer == []
             && transcript == old(transcript) + Lines(old(transcriptionBuffer) + [text])
             && lastWriteTime == now
           else
             && transcriptionBuffer == old(transcriptionBuffer) + [text]
             && transcript == old(transcript)
             && lastWriteTime == old(lastWriteTime)
    {
      if e.Final? {
        var text := Strip(e.text);
        if text != [] && !AnySimilar(SameIgnoringCase, text, recentResults) {
          Accept(text, now);
        }
      }
    }

    /** The branch of `_audio_callback` that accepts an admitted, stripped
        final: it joins the buffer and the window, and if more than two
        seconds have passed since the last write, `_write_transcription`
        empties the buffer (this text included) into the file and
        `lastWriteTime` becomes `now`. */
    method Accept(text: string, now: real)
      requires Valid()
      requires Stripped(text) && Admits(SameIgnoringCase, recentResults, text)
      modifies this
      ensures Valid()
      ensures accepted == old(accepted) + [text]
      ensures recentResults == Recent(accepted)
      ensures if now - old(lastWriteTime) > FlushInterval then
          && transcriptionBuffer == []
          && transcript == old(transcript) + Lines(old(transcriptionBuffer) + [text])
          && lastWriteTime == now
        else
          && transcriptionBuffer == old(transcriptionBuffer) + [text]
          && transcript == old(transcript)
          && lastWriteTime == old(lastWriteTime)
    {
      var flush := now - lastWriteTime > FlushInterval;
      var window := recentResults + [text];
      if |window| > Capacity {
        window := window[1..];
      }
      AcceptKeepsBuffered(transcript, initialTranscript, written, transcriptionBuffer, accepted, recentResults, text);
      RecentAfterAccept(accepted, text);
      transcriptionBuffer := transcriptionBuffer + [text];
      accepted := accepted + [text];
      recentResults := window;
      if flush {
        WriteTranscription();
      }
      lastWriteTime := if flush then now else lastWriteTime;
    }

    /** The `with sd.InputStream(...)` block of `start_recording`: the stream
        hands the callback one block after another, and the recogniser ends
        where `Session` says. */
    method Listen(blocks: seq<Tick>)
      requires Valid()
      modifies this
      ensures Valid()
      ensures History(accepted, transcriptionBuffer, lastWriteTime) ==
        Session(History(old(accepted), old(transcriptionBuffer), old(lastWriteTime)), blocks)
    {
      ghost var start := History(accepted, transcriptionBuffer, lastWriteTime);
      var i := 0;
      while i < |blocks|
        invariant 0 <= i <= |blocks|
        invariant Valid()
        invariant History(accepted, transcriptionBuffer, lastWriteTime) == Session(start, blocks[..i])
      {
        ghost var h := History(accepted, transcriptionBuffer, lastWriteTime);
        AudioCallback(blocks[i].event, blocks[i].now);
        assert History(accepted, transcriptionBuffer, lastWriteTime) == Step(h, blocks[i]);
        assert blocks[..i + 1][..i] == blocks[..i];
        i := i + 1;
      }
      assert blocks[..i] == blocks;
    }

    /** `start_recording`: the stream is listened to until Ctrl+C
        (`interrupted`), whose handler writes what is still buffered, or
        until a stream error, which writes nothing more. After Ctrl+C the
        buffer is empty and the file holds every accepted final in order;
        after a stream error the buffered finals are missing from the file. */
    method StartRecording(blocks: seq<Tick>, interrupted: bool)
      requires Valid()
      modifies this
      ensures Valid()
      ensures var s := Session(History(old(accepted), old(transcriptionBuffer), old(lastWriteTime)), blocks);
        && accepted == s.accepted
        && lastWriteTime == s.lastWriteTime
        && transcriptionBuffer == if interrupted then [] else s.buffer
      ensures |accepted| >= |old(accepted)| && accepted[..|old(accepted)|] == old(accepted)
      ensures lastWriteTime >= old(lastWriteTime)
      ensures interrupted ==>
        transcript == old(transcript) + Lines(old(transcriptionBuffer) + accepted[|old(accepted)|..])
      ensures interrupted ==> transcript == initialTranscript + Lines(accepted)
      ensures !interrupted ==> transcript + Lines(transcriptionBuffer) == initialTranscript + Lines(accepted)
    {
      ghost var written0, buffer0, accepted0 := written, transcriptionBuffer, accepted;
      ghost var s := Session(History(accepted, transcriptionBuffer, lastWriteTime), blocks);
      assert |s.accepted| >= |accepted| && s.accepted[..|accepted|] == accepted &&
             s.lastWriteTime >= lastWriteTime by {
        SessionExtends(History(accepted, transcriptionBuffer, lastWriteTime), blocks, written);
      }
      Listen(blocks);
      if interrupted {
        WriteTranscription();
        Regroup(written0, buffer0, accepted);
        LinesAppend(written0, buffer0 + accepted[|accepted0|..]);
        Regroup3(initialTranscript, Lines(written0), Lines(buffer0 + accepted[|accepted0|..]));
      } else {
        LinesAppend(written, transcriptionBuffer);
        Regroup3(initialTranscript, Lines(written), Lines(transcriptionBuffer));
      }
    }
  }
}
