/** Short recognition sessions played against the transcribers, with the
    file each one leaves behind. */
module Scenarios {
  import opened Text
  import opened Window
  import opened Recognition
  import FasterVosk
  import AutoDelTranscription

  /** "Hello" in the window rejects "hello" and "HELLO" but not "world". */
  lemma HelloFilter()
    ensures !Admits(SameIgnoringCase, ["Hello"], "hello")
    ensures !Admits(SameIgnoringCase, ["Hello"], "HELLO")
    ensures Admits(SameIgnoringCase, ["Hello"], "world")
  {
    assert Lower("Hello") == "hello";
    assert Lower("hello") == "hello";
    assert Lower("HELLO") == "hello";
    assert Lower("world")[0] != Lower("Hello")[0];
  }

  /** Five later acceptances that are all different from "hello" push
      "Hello" out of the window, after which "hello" is accepted again. */
  lemma HelloReadmittedAfterFive(later: seq<string>)
    requires |later| == Capacity
    requires forall k :: 0 <= k < |later| ==> !SameIgnoringCase("hello", later[k])
    ensures Admits(SameIgnoringCase, Recent(["Hello"] + later), "hello")
  {
    AdmittedAfterEviction(SameIgnoringCase, ["Hello"], later, "hello");
  }

  /** What stripping does to the texts of the buffered session. */
  lemma SessionStrips()
    ensures Strip("  Hello ") == "Hello"
    ensures Strip("hello") == "hello"
    ensures Strip("world") == "world"
  {
  }

  /** The file text of the two lines "Hello" and "world". */
  lemma HelloWorldLines()
    ensures Lines(["Hello"] + ["world"]) == "Hello\nworld\n"
  {
    AppendLine([], ["Hello"], "world");
    assert ["Hello"][1..] == [];
    assert Lines(["Hello"]) == "Hello" + "\n";
  }

  /** The file text of the single line "world". */
  lemma WorldLine()
    ensures [] + "world" + "\n" == "world\n"
  {
  }

  /** The window after the first acceptance of a session. */
  lemma FirstWindow()
    ensures Recent([] + ["Hello"]) == ["Hello"]
    ensures Admits(SameIgnoringCase, [], "Hello")
  {
    assert [] + ["Hello"] == ["Hello"];
  }

  /** The buffering transcriber: a padded "Hello" is stripped and buffered,
      a case variant of it and a partial change nothing, and "world" arriving
      more than two seconds after start-up flushes both lines at once. */
  method BufferedSession() returns (file: string, pending: seq<string>)
    ensures file == "Hello\nworld\n"
    ensures pending == []
  {
    SessionStrips();
    HelloFilter();
    FirstWindow();
    HelloWorldLines();
    var r := new FasterVosk.SpeechRecognizer(0.0, "");
    r.AudioCallback(Final("  Hello "), 1.0);
    assert r.transcriptionBuffer == [] + ["Hello"] == ["Hello"];
    r.AudioCallback(Final("hello"), 1.5);
    r.AudioCallback(Partial("wor"), 2.5);
    assert r.transcript == [] && r.lastWriteTime == 0.0 && r.recentResults == ["Hello"];
    r.AudioCallback(Final("world"), 3.0);
    assert r.transcript == [] + Lines(["Hello"] + ["world"]);
    file := r.transcript;
    pending := r.transcriptionBuffer;
  }

  /** The truncating, time-gated transcriber: the old file content is gone,
      "Hello" arriving within two seconds of start-up is not written, and yet
      it still rejects "HELLO" later; "world" is written. */
  method GatedSession() returns (file: string)
    ensures file == "world\n"
  {
    HelloFilter();
    FirstWindow();
    var r := new AutoDelTranscription.SpeechRecognizer(0.0, "old content\n");
    assert Admits(SameIgnoringCase, r.recentResults, "Hello");
    r.AudioCallback(Final("Hello"), 1.0);
    assert r.transcript == [] && r.recentResults == ["Hello"] && r.lastWriteTime == 0.0;
    assert !Admits(SameIgnoringCase, r.recentResults, "HELLO");
    r.AudioCallback(Final("HELLO"), 2.5);
    assert r.transcript == [] && r.recentResults == ["Hello"] && r.lastWriteTime == 0.0;
    assert Admits(SameIgnoringCase, r.recentResults, "world");
    r.AudioCallback(Final("world"), 3.0);
    assert r.transcript == [] + "world" + "\n";
    WorldLine();
    file := r.transcript;
  }
}
