/** Live dictation into the journal's text buffer. Two writers share `text`:
    the speech recognizer's result callback and the person typing. The view
    remembers the committed part of the buffer (`baseTextBeforeDictation`) and
    the latest provisional transcript (`currentPartialText`); while recording,
    the buffer is their concatenation, and any other change to it is taken as
    a manual edit. The next recognition result after such an edit is thrown
    away and the session is restarted on top of the edited text; a final
    result is committed with a trailing space and also restarts the session.

    Every event handler runs to completion on the main queue, so each method
    below is one atomic step. The deferred restart block is counted in
    `pendingRestarts` and runs as FireRestart. */
module Dictation {

  predicate EndsWithSpace(s: string) {
    |s| > 0 && s[|s| - 1] == ' '
  }

  /** The buffer as stopping leaves it: one space is appended when the buffer
      holds more than the base and does not already end in a space. */
  function Flushed(text: string, base: string): (r: string)
    ensures r == text || r == text + " "
    ensures |text| > |base| ==> EndsWithSpace(r)
    ensures r != text <==> |text| > |base| && !EndsWithSpace(text)
  {
    if |text| > |base| && !EndsWithSpace(text) then text + " " else text
  }

  class DictationState {
    /** The text buffer the editor shows and the journal saves. */
    var text: string
    var baseTextBeforeDictation: string
    var currentPartialText: string
    var userEditedDuringRecording: bool
    var isProcessingUserEdit: bool
    var isRecording: bool
    /** Deferred restart blocks scheduled and not yet run. */
    var pendingRestarts: nat

    /** The state between events. While recording, the buffer is the base
        followed by the partial transcript. A detected edit has already been
        folded into the base. The edit-processing flag is only ever true in
        the middle of a handler: stopping always resets it. */
    ghost predicate Valid()
      reads this
    {
      !isProcessingUserEdit
      && (isRecording ==> text == baseTextBeforeDictation + currentPartialText)
      && (userEditedDuringRecording ==> isRecording && currentPartialText == [])
      && (!isRecording ==> currentPartialText == [])
    }

    constructor (initialText: string)
      ensures Valid() && text == initialText && !isRecording && pendingRestarts == 0
      ensures baseTextBeforeDictation == [] && currentPartialText == []
      ensures !userEditedDuringRecording && !isProcessingUserEdit
    {
      text := initialText;
      baseTextBeforeDictation := [];
      currentPartialText := [];
      userEditedDuringRecording := false;
      isProcessingUserEdit := false;
      isRecording := false;
      pendingRestarts := 0;
    }

    /** stopRecording. A second call is a no-op. It does not cancel restarts
        already scheduled. */
    method Stop()
      modifies this
      ensures !old(isRecording) ==> unchanged(this)
      ensures old(isRecording) ==>
        Valid() && !isRecording
        && text == Flushed(old(text), old(baseTextBeforeDictation))
        && baseTextBeforeDictation == [] && currentPartialText == []
        && !userEditedDuringRecording && !isProcessingUserEdit
      ensures pendingRestarts == old(pendingRestarts)
    {
      if !isRecording {
        return;
      }
      if |text| > |baseTextBeforeDictation| && !EndsWithSpace(text) {
        text := text + " ";
      }
      currentPartialText := [];
      baseTextBeforeDictation := [];
      userEditedDuringRecording := false;
      isProcessingUserEdit := false;
      isRecording := false;
    }

    /** proceedWithRecording, reached through startDictation or
        startRecording. `ready` is the outcome of the checks made on the way
        (a recognizer is available, speech and microphone access granted);
        `engineStarted` is whether the audio engine started. A session still
        running is stopped first, then the current buffer becomes the base.
        When the engine fails to start, the stop that follows is a no-op
        because recording is already off. */
    method Begin(ready: bool, engineStarted: bool)
      requires Valid()
      modifies this
      ensures Valid() && pendingRestarts == old(pendingRestarts)
      ensures !ready ==> unchanged(this)
      ensures ready ==>
        text == (if old(isRecording) then Flushed(old(text), old(baseTextBeforeDictation)) else old(text))
        && baseTextBeforeDictation == text && currentPartialText == []
        && !userEditedDuringRecording && isRecording == engineStarted
    {
      if !ready {
        return;
      }
      if isRecording {
        Stop();
      }
      baseTextBeforeDictation := text;
      userEditedDuringRecording := false;
      isProcessingUserEdit := false;
      if engineStarted {
        isRecording := true;
      } else {
        Stop();
      }
    }

    /** The microphone button: it stops a running session, and otherwise
        starts one through startDictation. */
    method Toggle(ready: bool, engineStarted: bool)
      requires Valid()
      modifies this
      ensures Valid() && pendingRestarts == old(pendingRestarts)
      ensures old(isRecording) ==>
        !isRecording && text == Flushed(old(text), old(baseTextBeforeDictation))
        && baseTextBeforeDictation == [] && currentPartialText == [] && !userEditedDuringRecording
      ensures !old(isRecording) && !ready ==> unchanged(this)
      ensures !old(isRecording) && ready ==>
        text == old(text) && baseTextBeforeDictation == text && currentPartialText == []
        && !userEditedDuringRecording && isRecording == engineStarted
    {
      if isRecording {
        Stop();
      } else {
        Begin(ready, engineStarted);
      }
    }

    /** The buffer changed to `newText` and handleTextChange ran. While
        recording, a buffer that differs from base plus partial is a manual
        edit: it is flagged and becomes the new base. The view's own writes
        reach here too, with the buffer it has just written, and are never
        flagged. */
    method OnTextChange(newText: string)
      requires Valid()
      modifies this
      ensures Valid()
      ensures text == newText && isRecording == old(isRecording) && pendingRestarts == old(pendingRestarts)
      ensures var divergent := old(isRecording) && newText != old(baseTextBeforeDictation) + old(currentPartialText);
        userEditedDuringRecording == (old(userEditedDuringRecording) || divergent)
        && baseTextBeforeDictation == (if divergent then newText else old(baseTextBeforeDictation))
        && currentPartialText == (if divergent then [] else old(currentPartialText))
      ensures newText == old(text) ==> unchanged(this)
    {
      text := newText;
      if isRecording {
        var expectedText := baseTextBeforeDictation + currentPartialText;
        if text != expectedText {
          userEditedDuringRecording := true;
          baseTextBeforeDictation := text;
          currentPartialText := [];
        }
      }
    }

    /** The recognition callback delivering a result. After a manual edit the
        transcript is discarded, the session stops without adding a space and
        one restart is scheduled. A partial result replaces the previous
        partial. A final result is appended to the base with a trailing space
        (an empty one appends nothing), then the session stops and one restart
        is scheduled. While not recording nothing happens. */
    method OnResult(transcript: string, isFinal: bool)
      requires Valid()
      modifies this
      ensures Valid()
      ensures !old(isRecording) ==> unchanged(this)
      ensures old(isRecording) && old(userEditedDuringRecording) ==>
        text == old(text) && !isRecording && baseTextBeforeDictation == [] && currentPartialText == []
        && !userEditedDuringRecording && pendingRestarts == old(pendingRestarts) + 1
      ensures old(isRecording) && !old(userEditedDuringRecording) && !isFinal ==>
        text == old(baseTextBeforeDictation) + transcript && isRecording
        && baseTextBeforeDictation == old(baseTextBeforeDictation) && currentPartialText == transcript
        && !userEditedDuringRecording && pendingRestarts == old(pendingRestarts)
      ensures old(isRecording) && !old(userEditedDuringRecording) && isFinal ==>
        text == (if transcript != [] then old(baseTextBeforeDictation) + transcript + " "
                 else Flushed(old(text), old(baseTextBeforeDictation)))
        && !isRecording && baseTextBeforeDictation == [] && currentPartialText == []
        && !userEditedDuringRecording && pendingRestarts == old(pendingRestarts) + 1
    {
      if !isRecording || isProcessingUserEdit {
        return;
      }
      if userEditedDuringRecording {
        isProcessingUserEdit := true;
        baseTextBeforeDictation := text;
        currentPartialText := [];
        userEditedDuringRecording := false;
        Stop();
        pendingRestarts := pendingRestarts + 1;
        return;
      }
      if isFinal {
        if transcript != [] {
          text := baseTextBeforeDictation + transcript + " ";
          baseTextBeforeDictation := text;
        }
        currentPartialText := [];
        isProcessingUserEdit := true;
        Stop();
        pendingRestarts := pendingRestarts + 1;
      } else {
        currentPartialText := transcript;
        text := baseTextBeforeDictation + transcript;
      }
    }

    /** The recognition callback reporting an error: a running session stops;
        nothing is retried. */
    method OnError()
      requires Valid()
      modifies this
      ensures Valid()
      ensures !old(isRecording) ==> unchanged(this)
      ensures old(isRecording) ==>
        text == Flushed(old(text), old(baseTextBeforeDictation)) && !isRecording
        && baseTextBeforeDictation == [] && currentPartialText == [] && !userEditedDuringRecording
        && pendingRestarts == old(pendingRestarts)
    {
      if isRecording {
        Stop();
      }
    }

    /** A scheduled restart block running 0.05 s later: it clears the
        edit-processing flag and calls startRecording, whose checks and
        engine start are the inputs. */
    method FireRestart(ready: bool, engineStarted: bool)
      requires Valid() && pendingRestarts > 0
      modifies this
      ensures Valid() && pendingRestarts == old(pendingRestarts) - 1
      ensures !ready ==>
        text == old(text) && baseTextBeforeDictation == old(baseTextBeforeDictation)
        && currentPartialText == old(currentPartialText) && isRecording == old(isRecording)
        && userEditedDuringRecording == old(userEditedDuringRecording)
      ensures ready ==>
        text == (if old(isRecording) then Flushed(old(text), old(baseTextBeforeDictation)) else old(text))
        && baseTextBeforeDictation == text && currentPartialText == []
        && !userEditedDuringRecording && isRecording == engineStarted
    {
      pendingRestarts := pendingRestarts - 1;
      isProcessingUserEdit := false;
      Begin(ready, engineStarted);
    }
  }
}
