/** The per-event rule shared by `vosktests/autoDelTranscription.py` and
    `vosktests/vosktest2.py`: an accepted final is appended to
    `transcription.txt` straight away, but only when more than two seconds
    have passed since the last write; either way it enters the duplicate
    window. Texts are not stripped, and duplicates are judged ignoring case. */
module TimeGate {
  import opened Text
  import opened Window
  import opened Recognition

  /** The part of a transcriber's state that the callback's decisions read
      and write: the finals accepted so far, for each of them whether it was
      written, and the time of the last write. The window is
      `Recent(accepted)`. */
  datatype History = History(accepted: seq<string>, persisted: seq<bool>, lastWriteTime: real)

  /** What the callback does with one block, as a function of the state
      before it. */
  function Step(h: History, t: Tick): History {
    if t.event.Final? && Admits(SameIgnoringCase, Recent(h.accepted), t.event.text) then
      if t.now - h.lastWriteTime > FlushInterval then
        History(h.accepted + [t.event.text], h.persisted + [true], t.now)
      else
        History(h.accepted + [t.event.text], h.persisted + [false], h.lastWriteTime)
    else h
  }

  /** The state after the stream has handed the callback `blocks`, in order. */
  function Session(h: History, blocks: seq<Tick>): History
    decreases |blocks|
  {
    if blocks == [] then h else Step(Session(h, blocks[..|blocks| - 1]), blocks[|blocks| - 1])
  }

  /** Over a session the accepted finals and their write flags are only
      ever extended, one flag per final, and the time of the last write never
      goes back. */
  lemma {:induction false} SessionExtends(h: History, blocks: seq<Tick>)
    requires |h.persisted| == |h.accepted|
    ensures var r := Session(h, blocks);
      && |r.persisted| == |r.accepted|
      && |h.accepted| <= |r.accepted| && r.accepted[..|h.accepted|] == h.accepted
      && r.persisted[..|h.persisted|] == h.persisted
      && r.lastWriteTime >= h.lastWriteTime
  {
    if blocks != [] {
      var m := Session(h, blocks[..|blocks| - 1]);
      SessionExtends(h, blocks[..|blocks| - 1]);
      var r := Step(m, blocks[|blocks| - 1]);
      if r != m {
        assert r.accepted[..|h.accepted|] == m.accepted[..|h.accepted|];
        assert r.persisted[..|h.persisted|] == m.persisted[..|h.persisted|];
      }
    }
  }

  /** The invariant both transcribers keep: after `initial`, the file holds
      one line per accepted final whose flag is set, in order; the window is
      the last five accepted finals, written or not, none equal ignoring case
      to an older one; no accepted final is empty. */
  ghost predicate Logged(file: string, initial: string, accepted: seq<string>, persisted: seq<bool>, window: seq<string>) {
    && |persisted| == |accepted|
    && file == initial + Lines(Select(accepted, persisted))
    && window == Recent(accepted)
    && Distinct(SameIgnoringCase, window)
    && [] !in accepted
  }

  /** Accepting an admitted final, written (`write`) or not, keeps the
      invariant: a written final adds exactly one line to the file, an
      unwritten one leaves the file as it was. */
  lemma AcceptKeepsLogged(file: string, initial: string, accepted: seq<string>, persisted: seq<bool>,
                          window: seq<string>, text: string, write: bool)
    requires Logged(file, initial, accepted, persisted, window)
    requires Admits(SameIgnoringCase, window, text)
    ensures Logged(if write then file + text + "\n" else file, initial,
                   accepted + [text], persisted + [write], Recent(accepted + [text]))
  {
    DistinctAfterAccept(SameIgnoringCase, accepted, text);
    var lines := Select(accepted, persisted);
    SelectSnoc(accepted, persisted, text, write);
    if write {
      AppendLine(initial, lines, text);
    } else {
      assert lines + [] == lines;
    }
  }
}
