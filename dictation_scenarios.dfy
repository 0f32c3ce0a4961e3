/** Runs of the dictation state machine from a fresh view, each returning
    what an observer of the buffer would see. The view's own writes to the
    buffer are followed by the change notification they cause. */
module DictationScenarios {
  import opened Dictation

  /** Two partial results and a final one: the buffer shows each partial in
      turn, the final text is committed with a trailing space, and exactly one
      restart is scheduled. When it runs, the new session's base is the
      committed text. */
  method SpokenSentence() returns (buffers: seq<string>, restarts: nat, newBase: string)
    ensures buffers == ["hello", "hello world", "hello world. "]
    ensures restarts == 1 && newBase == "hello world. "
  {
    var d := new DictationState("");
    d.Begin(true, true);
    d.OnResult("hello", false);
    assert d.text == [] + "hello";
    d.OnTextChange(d.text);
    var first := d.text;
    d.OnResult("hello world", false);
    assert d.text == [] + "hello world";
    d.OnTextChange(d.text);
    var second := d.text;
    d.OnResult("hello world.", true);
    assert "hello world." + " " == "hello world. ";
    assert d.text == "hello world. ";
    d.OnTextChange(d.text);
    assert first == "hello";
    assert second == "hello world";
    buffers, restarts := [first, second, d.text], d.pendingRestarts;
    assert buffers == ["hello", "hello world", "hello world. "];
    d.FireRestart(true, true);
    newBase := d.baseTextBeforeDictation;
  }

  /** A manual edit in the middle of recognition: the next result is
      discarded, the edited buffer stays as typed, one restart is scheduled,
      and the restarted session builds on the edited text. */
  method EditWinsOverTranscript() returns (buffer: string, restarts: nat, recording: bool, newBase: string)
    ensures buffer == "draft: NOTE ONE!!" && restarts == 1 && !recording
    ensures newBase == "draft: NOTE ONE!!"
  {
    var d := new DictationState("draft: ");
    d.Begin(true, true);
    d.OnResult("note one", false);
    d.OnTextChange(d.text);
    d.OnTextChange("draft: NOTE ONE!!");
    d.OnResult("note one two", false);
    buffer, restarts, recording := d.text, d.pendingRestarts, d.isRecording;
    d.FireRestart(true, true);
    newBase := d.baseTextBeforeDictation;
  }

  /** A recognition error stops dictation and schedules nothing. The buffer
      is unchanged when no partial result is showing; a partial still showing
      is kept and gets a separating space. */
  method ErrorStops() returns (idle: string, withPartial: string, recording: bool, restarts: nat)
    ensures idle == "notes" && withPartial == "notes and more " && !recording && restarts == 0
  {
    var d := new DictationState("notes");
    d.Begin(true, true);
    d.OnError();
    idle := d.text;
    var e := new DictationState("notes ");
    e.Begin(true, true);
    e.OnResult("and more", false);
    e.OnTextChange(e.text);
    e.OnError();
    e.OnTextChange(e.text);
    withPartial, recording, restarts := e.text, e.isRecording, e.pendingRestarts;
  }

  /** An empty final result keeps the partial text already in the buffer, and
      stopping adds a space after it. */
  method EmptyFinalKeepsPartial() returns (buffer: string, restarts: nat)
    ensures buffer == "a b " && restarts == 1
  {
    var d := new DictationState("a ");
    d.Begin(true, true);
    d.OnResult("b", false);
    d.OnTextChange(d.text);
    d.OnResult("", true);
    d.OnTextChange(d.text);
    buffer, restarts := d.text, d.pendingRestarts;
  }

  /** Stopping does not cancel a restart already scheduled: a session
      started and stopped by hand before the deferred block runs is resumed
      by it. */
  method StopDoesNotCancelRestart() returns (resumed: bool)
    ensures resumed
  {
    var d := new DictationState("");
    d.Begin(true, true);
    d.OnResult("one", true);
    d.OnTextChange(d.text);
    d.Begin(true, true);
    d.Stop();
    d.OnTextChange(d.text);
    d.FireRestart(true, true);
    resumed := d.isRecording;
  }

  /** Results and errors delivered after dictation stopped change nothing. */
  method LateCallbacksIgnored() returns (buffer: string, restarts: nat)
    ensures buffer == "kept " && restarts == 0
  {
    var d := new DictationState("");
    d.Begin(true, true);
    d.OnResult("kept", false);
    d.OnTextChange(d.text);
    d.Stop();
    d.OnTextChange(d.text);
    d.OnResult("stale", false);
    d.OnResult("stale", true);
    d.OnError();
    buffer, restarts := d.text, d.pendingRestarts;
  }
}
