/** The duplicate filter shared by the four transcribers: `recent_results`,
    the last five accepted final texts, oldest first, and the test
    `any(is_similar(text, recent) for recent in recent_results)`. */
module Window {

  /** How many accepted texts `recent_results` keeps. */
  const Capacity: nat := 5

  /** Seconds that must have passed (strictly) since the last write before
      the time-gated transcribers write again. */
  const FlushInterval: real := 2.0

  /** The window that a history of accepted texts leaves behind: its last
      `Capacity` entries, oldest first. Every transcriber keeps
      `recent_results` equal to this function of what it has accepted. */
  function Recent(accepted: seq<string>): (r: seq<string>)
    ensures |r| <= Capacity
    ensures |r| == if |accepted| < Capacity then |accepted| else Capacity
  {
    if |accepted| <= Capacity then accepted else accepted[|accepted| - Capacity..]
  }

  /** The window's entries are the newest accepted texts, oldest first. */
  lemma RecentEntries(accepted: seq<string>)
    ensures var r := Recent(accepted);
      forall k :: 0 <= k < |r| ==> r[k] == accepted[|accepted| - |r| + k]
  {
  }

  /** The in-place update the callbacks perform on an acceptance
      (`append(text)`, then `pop(0)` once the length exceeds five) keeps the
      window equal to the last five accepted texts. */
  lemma {:induction false} RecentAfterAccept(accepted: seq<string>, text: string)
    ensures var w := Recent(accepted) + [text];
      Recent(accepted + [text]) == if |w| > Capacity then w[1..] else w
  {
    var w := Recent(accepted) + [text];
    var h := accepted + [text];
    if |w| > Capacity {
      assert |accepted| >= Capacity;
      assert w[1..] == h[|h| - Capacity..];
    } else {
      assert |accepted| < Capacity;
    }
  }

  /** The newest accepted text is always the window's last entry. */
  lemma NewestIsLast(accepted: seq<string>, text: string)
    ensures var r := Recent(accepted + [text]);
      |r| > 0 && r[|r| - 1] == text
  {
    var h := accepted + [text];
    assert h[|h| - 1] == text;
  }

  /** Once `Capacity` further texts have been accepted, nothing older than
      them is left in the window: earlier history no longer matters. */
  lemma {:induction false} OlderHistoryForgotten(older: seq<string>, later: seq<string>)
    requires |later| >= Capacity
    ensures Recent(older + later) == Recent(later)
  {
    var h := older + later;
    assert h[|h| - Capacity..] == later[|later| - Capacity..];
  }

  /** `any(similar(text, recent) for recent in window)`, scanned front to back. */
  function AnySimilar(similar: (string, string) -> bool, text: string, window: seq<string>): (r: bool)
    ensures r <==> exists k :: 0 <= k < |window| && similar(text, window[k])
  {
    if window == [] then false
    else if similar(text, window[0]) then true
    else
      var r := AnySimilar(similar, text, window[1..]);
      assert forall k :: 1 <= k < |window| ==> window[k] == window[1..][k - 1];
      r
  }

  /** The acceptance test of every callback: `text and not any(...)`. */
  predicate Admits(similar: (string, string) -> bool, window: seq<string>, text: string) {
    text != [] && !AnySimilar(similar, text, window)
  }

  /** No entry of the window is judged similar to an older entry: each one
      passed the filter against the window it joined. */
  ghost predicate Distinct(similar: (string, string) -> bool, window: seq<string>) {
    forall i, j :: 0 <= i < j < |window| ==> !similar(window[j], window[i])
  }

  /** Dropping the oldest entry keeps a window distinct. */
  lemma DistinctDropOldest(similar: (string, string) -> bool, window: seq<string>)
    requires window != [] && Distinct(similar, window)
    ensures Distinct(similar, window[1..])
  {
    forall i, j | 0 <= i < j < |window| - 1 ensures !similar(window[1..][j], window[1..][i]) {
      assert window[1..][j] == window[j + 1] && window[1..][i] == window[i + 1];
    }
  }

  /** Accepting an admitted text keeps the window's entries distinct. */
  lemma DistinctAfterAccept(similar: (string, string) -> bool, accepted: seq<string>, text: string)
    requires Distinct(similar, Recent(accepted))
    requires Admits(similar, Recent(accepted), text)
    ensures Distinct(similar, Recent(accepted + [text]))
  {
    var w := Recent(accepted);
    var full := w + [text];
    forall i, j | 0 <= i < j < |full| ensures !similar(full[j], full[i]) {
      assert full[i] == w[i];
      if j < |w| {
        assert full[j] == w[j];
      }
    }
    RecentAfterAccept(accepted, text);
    if |full| > Capacity {
      DistinctDropOldest(similar, full);
    }
  }

  /** A text similar to nothing left in the window is admitted, even if it
      is similar to an entry evicted long ago: only the last `Capacity`
      acceptances are consulted. */
  lemma AdmittedAfterEviction(similar: (string, string) -> bool, older: seq<string>, later: seq<string>, text: string)
    requires |later| == Capacity
    requires text != []
    requires forall k :: 0 <= k < |later| ==> !similar(text, later[k])
    ensures Admits(similar, Recent(older + later), text)
  {
    OlderHistoryForgotten(older, later);
  }

  /** While an accepted text is among the last `Capacity` acceptances, any
      text similar to it is rejected. */
  lemma {:induction false} RejectedWhileRecent(similar: (string, string) -> bool, accepted: seq<string>, i: nat, text: string)
    requires |accepted| - Capacity <= i < |accepted|
    requires similar(text, accepted[i])
    ensures !Admits(similar, Recent(accepted), text)
  {
    var w := Recent(accepted);
    var k := i - (|accepted| - |w|);
    RecentEntries(accepted);
    assert 0 <= k < |w| && similar(text, w[k]);
  }
}
