/** `vosktests/vosktest.py`: the earliest transcriber, written as module
    code. Every accepted final is appended to `transcription.txt` at once;
    duplicates are judged by a fuzzy similarity ratio, which the model takes
    as a parameter. */
module VoskTest {
  import opened Text
  import opened Window
  import opened Recognition

  /** The finals accepted after `audio_callback` has handled one outcome,
      as a function of those accepted before it: a final that is not empty
      and similar to no entry of the window is added. */
  function Step(similar: (string, string) -> bool, accepted: seq<string>, e: Event): seq<string> {
    if e.Final? && Admits(similar, Recent(accepted), e.text) then accepted + [e.text] else accepted
  }

  /** The finals accepted after the stream has handed the callback
      `blocks`, in order. */
  function Session(similar: (string, string) -> bool, accepted: seq<string>, blocks: seq<Event>): seq<string>
    decreases |blocks|
  {
    if blocks == [] then accepted
    else Step(similar, Session(similar, accepted, blocks[..|blocks| - 1]), blocks[|blocks| - 1])
  }

  /** Over a session the accepted finals are only ever extended, and only
      by finals that are not empty. */
  lemma {:induction false} SessionExtends(similar: (string, string) -> bool, accepted: seq<string>, blocks: seq<Event>)
    ensures var r := Session(similar, accepted, blocks);
      && |accepted| <= |r| && r[..|accepted|] == accepted
      && forall k :: |accepted| <= k < |r| ==> r[k] != []
  {
    if blocks != [] {
      var m := Session(similar, accepted, blocks[..|blocks| - 1]);
      SessionExtends(similar, accepted, blocks[..|blocks| - 1]);
      var r := Step(similar, m, blocks[|blocks| - 1]);
      if r != m {
        assert r[..|accepted|] == m[..|accepted|];
        assert forall k :: |accepted| <= k < |m| ==> r[k] == m[k];
      }
    }
  }

  /** The module-level state of the script: the global `recent_results`,
      the transcript file, and the similarity test `is_similar` (a
      `SequenceMatcher` ratio above 0.8), kept abstract. */
  class Script {
    const isSimilar: (string, string) -> bool
    var recentResults: seq<string>
    /** The contents of `transcription.txt`. */
    var transcript: string

    /** What `transcription.txt` held when the script started. */
    ghost const initialTranscript: string
    /** Every final accepted so far, in order. */
    ghost var accepted: seq<string>

    /** After what it held at the start, the file holds every accepted final,
        one per line and in order; the window is the last five of them, none
        judged similar to an older one; no accepted final is empty. */
    ghost predicate Valid()
      reads this`accepted, this`transcript, this`recentResults
    {
      && transcript == initialTranscript + Lines(accepted)
      && recentResults == Recent(accepted)
      && Distinct(isSimilar, recentResults)
      && [] !in accepted
    }

    /** The module's start-up: `recent_results = []`, the file untouched. */
    constructor (isSimilar: (string, string) -> bool, existing: string)
      ensures Valid()
      ensures this.isSimilar == isSimilar
      ensures recentResults == [] && transcript == existing && accepted == []
    {
      this.isSimilar := isSimilar;
      recentResults := [];
      transcript := existing;
      initialTranscript := existing;
      accepted := [];
    }

    /** The decision logic of `audio_callback` for one recogniser outcome.
        A partial changes nothing. A final that is empty or similar to an
        entry of the window changes nothing. Otherwise it is appended to the
        file as one line at once and enters the window. */
    method AudioCallback(e: Event)
      requires Valid()
      modifies this
      ensures Valid()
      ensures accepted == Step(isSimilar, old(accepted), e)
      ensures !e.Final? || !Admits(isSimilar, old(recentResults), e.text) ==>
        unchanged(this)
      ensures e.Final? && Admits(isSimilar, old(recentResults), e.text) ==>
        && accepted == old(accepted) + [e.text]
        && recentResults == Recent(accepted)
        && transcript == old(transcript) + e.text + "\n"
    {
      if e.Final? {
        var text := e.text;
        if text != [] && !AnySimilar(isSimilar, text, recentResults) {
          assert Distinct(isSimilar, Recent(accepted + [text])) by {
            DistinctAfterAccept(isSimilar, accepted, text);
          }
          RecentAfterAccept(accepted, text);
          AppendLine(initialTranscript, accepted, text);
          transcript := transcript + text + "\n";
          accepted := accepted + [text];
          recentResults := recentResults + [text];
          if |recentResults| > Capacity {
            recentResults := recentResults[1..];
          }
        }
      }
    }

    /** The module's `with sd.InputStream(...)` block: the stream hands the
        callback one block after another until Ctrl+C or a stream error,
        neither of which writes anything. The accepted finals are then those
        `Session` gives, and the file holds what it held before followed by
        every final accepted during the session. */
    method Run(blocks: seq<Event>)
      requires Valid()
      modifies this
      ensures Valid()
      ensures accepted == Session(isSimilar, old(accepted), blocks)
      ensures |accepted| >= |old(accepted)| && accepted[..|old(accepted)|] == old(accepted)
      ensures transcript == old(transcript) + Lines(accepted[|old(accepted)|..])
    {
      SessionExtends(isSimilar, accepted, blocks);
      var i := 0;
      while i < |blocks|
        invariant 0 <= i <= |blocks|
        invariant Valid()
        invariant accepted == Session(isSimilar, old(accepted), blocks[..i])
      {
        AudioCallback(blocks[i]);
        assert blocks[..i + 1][..i] == blocks[..i];
        i := i + 1;
      }
      assert blocks[..i] == blocks;
      assert accepted == old(accepted) + accepted[|old(accepted)|..];
      LinesAppend(old(accepted), accepted[|old(accepted)|..]);
      Regroup3(initialTranscript, Lines(old(accepted)), Lines(accepted[|old(accepted)|..]));
    }
  }
}
