/**
 * The per-frame gesture-to-text state machine of app.py: `update_gui`
 * without its camera and GUI lines, and `toggle_mode`. A frame brings the
 * detected sign (the empty string when nothing was detected; None and ""
 * behave the same in every comparison the update makes) and the time.
 */
module Interaction {
  import opened Options
  import opened Calculator
  import Recognition

  const DeleteHoldTime: real := 5.0
  const WordCooldown: real := 1.5
  const CursorBlinkTime: real := 0.5

  /** The module state of app.py, one field per global the update changes. */
  datatype AppState = AppState(
    calculatorMode: bool,
    formedText: seq<string>,
    calcExpression: string,
    lastDetected: string,
    deleteStartTime: Option<real>,
    lastWordTime: real,
    cursorVisible: bool,
    lastCursorToggle: real)

  /** One frame: the detected sign and the time it was read. */
  datatype Frame = Frame(sign: string, time: real)

  /** The state at start-up; the cursor clock starts at the start-up time. */
  function Initial(startTime: real): (s: AppState)
    ensures !s.calculatorMode && s.deleteStartTime == None
    ensures AllWords(s.formedText) && WellFormed(s.calcExpression)
    ensures WordAccepted(s, "HELLO", WordCooldown)
  {
    AppState(false, [], "", "", None, 0.0, true, startTime)
  }

  /** Python's `sign in allowed_symbols`: the sign is one allowed character. */
  predicate IsCalculatorSymbol(sign: string)
    ensures IsCalculatorSymbol(sign) ==> PassesGuard(sign)
  {
    |sign| == 1 && sign[0] in AllowedSymbols
  }

  /** A token sentence mode may hold: non-empty, not the delete sentinel, not a calculator symbol. */
  predicate IsWord(sign: string)
    ensures IsWord(sign) ==> sign != ""
    ensures |sign| > 1 && sign != DeleteSign ==> IsWord(sign)
  {
    sign != "" && sign != DeleteSign && !IsCalculatorSymbol(sign)
  }

  predicate AllWords(tokens: seq<string>) {
    forall i :: 0 <= i < |tokens| ==> IsWord(tokens[i])
  }

  /** The append condition of sentence mode (app.py lines 156-162). */
  predicate WordAccepted(s: AppState, sign: string, now: real)
    ensures WordAccepted(s, sign, now) ==> !PassesGuard(sign) || |sign| > 1
    ensures WordAccepted(s, sign, now) ==> now >= s.lastWordTime + WordCooldown
  {
    !s.calculatorMode && IsWord(sign) && sign != s.lastDetected && now - s.lastWordTime >= WordCooldown
  }

  /** The hold timer after a sentence-mode frame: started on the first delete frame, reset by any other. */
  function HoldStart(s: AppState, sign: string, now: real): (h: Option<real>)
    ensures h.Some? <==> sign == DeleteSign
    ensures h.Some? ==> h == s.deleteStartTime || (s.deleteStartTime == None && h == Some(now))
  {
    if sign != DeleteSign then None
    else if s.deleteStartTime.Some? then s.deleteStartTime
    else Some(now)
  }

  /** The sentence buffer after the delete handling of a sentence-mode frame (app.py lines 142-153). */
  function AfterDelete(s: AppState, sign: string, now: real): (t: seq<string>)
    ensures t <= s.formedText
    ensures sign != DeleteSign ==> t == s.formedText
    ensures t == [] || |t| + 1 >= |s.formedText|
  {
    if sign != DeleteSign then s.formedText
    else if now - HoldStart(s, sign, now).value >= DeleteHoldTime then []
    else if sign != s.lastDetected && s.formedText != [] then s.formedText[..|s.formedText| - 1]
    else s.formedText
  }

  /** The state after one frame of `update_gui`. */
  function Next(s: AppState, sign: string, now: real): (r: AppState)
    ensures r.lastDetected == sign && r.calculatorMode == s.calculatorMode
    // each mode leaves the other mode's buffer alone
    ensures s.calculatorMode ==> r.formedText == s.formedText
    ensures !s.calculatorMode ==> r.calcExpression == s.calcExpression
    // calculator mode touches no timer
    ensures s.calculatorMode ==>
      (r.deleteStartTime == s.deleteStartTime && r.lastWordTime == s.lastWordTime
       && r.cursorVisible == s.cursorVisible && r.lastCursorToggle == s.lastCursorToggle)
    // a frame that is not a delete appends the sign or nothing
    ensures sign != DeleteSign ==> r.formedText == s.formedText + (if WordAccepted(s, sign, now) then [sign] else [])
    // a delete frame only shortens the buffer
    ensures sign == DeleteSign ==> r.formedText <= s.formedText
    ensures |r.formedText| <= |s.formedText| + 1
    ensures AllWords(s.formedText) ==> AllWords(r.formedText)
    // the word clock moves only on an append, and only forward by at least the cooldown
    ensures r.lastWordTime == (if WordAccepted(s, sign, now) then now else s.lastWordTime)
    ensures r.lastWordTime >= s.lastWordTime
    // the hold timer is cleared by every sentence-mode frame that is not a delete
    ensures !s.calculatorMode && sign != DeleteSign ==> r.deleteStartTime == None
    // the cursor flips only in sentence mode, once the blink time has passed
    ensures r.cursorVisible != s.cursorVisible <==> !s.calculatorMode && now - s.lastCursorToggle >= CursorBlinkTime
    ensures r.cursorVisible != s.cursorVisible ==> r.lastCursorToggle == now
    ensures r.cursorVisible == s.cursorVisible ==> r.lastCursorToggle == s.lastCursorToggle
  {
    if s.calculatorMode then
      s.(calcExpression := Accept(s.calcExpression, sign, s.lastDetected), lastDetected := sign)
    else
      var afterDelete := AfterDelete(s, sign, now);
      var accepted := WordAccepted(s, sign, now);
      var blink := now - s.lastCursorToggle >= CursorBlinkTime;
      s.(formedText := if accepted then afterDelete + [sign] else afterDelete,
         deleteStartTime := HoldStart(s, sign, now),
         lastWordTime := if accepted then now else s.lastWordTime,
         cursorVisible := if blink then !s.cursorVisible else s.cursorVisible,
         lastCursorToggle := if blink then now else s.lastCursorToggle,
         lastDetected := sign)
  }

  /** `toggle_mode`: flips the mode and empties both buffers. */
  function Toggle(s: AppState): (r: AppState)
    ensures r.calculatorMode == !s.calculatorMode
    ensures r.formedText == [] && r.calcExpression == ""
    ensures r.lastDetected == s.lastDetected && r.deleteStartTime == s.deleteStartTime
    ensures r.lastWordTime == s.lastWordTime
    ensures r.cursorVisible == s.cursorVisible && r.lastCursorToggle == s.lastCursorToggle
  {
    s.(calculatorMode := !s.calculatorMode, calcExpression := "", formedText := [])
  }

  /** The state after a run of frames, one `update_gui` call per frame. */
  function Run(s: AppState, frames: seq<Frame>): (r: AppState)
    ensures |r.formedText| <= |s.formedText| + |frames|
    ensures r.lastWordTime >= s.lastWordTime
    decreases |frames|
  {
    if frames == [] then s
    else
      var last := frames[|frames| - 1];
      Next(Run(s, frames[..|frames| - 1]), last.sign, last.time)
  }

  // ---------------------------------------------------------------------
  // Runs of frames

  lemma RunSnoc(s: AppState, frames: seq<Frame>, f: Frame)
    ensures Run(s, frames + [f]) == Next(Run(s, frames), f.sign, f.time)
  {
    assert (frames + [f])[..|frames|] == frames;
  }

  /** Frames never change the mode. */
  lemma {:induction false} RunKeepsMode(s: AppState, frames: seq<Frame>)
    ensures Run(s, frames).calculatorMode == s.calculatorMode
    decreases |frames|
  {
    if frames != [] {
      RunKeepsMode(s, frames[..|frames| - 1]);
    }
  }

  /** Frames where nothing is detected never change either buffer or the word clock. */
  lemma {:induction false} IdleFramesKeepBuffers(s: AppState, frames: seq<Frame>)
    requires forall i :: 0 <= i < |frames| ==> frames[i].sign == ""
    ensures Run(s, frames).formedText == s.formedText
    ensures Run(s, frames).calcExpression == s.calcExpression
    ensures Run(s, frames).lastWordTime == s.lastWordTime
    decreases |frames|
  {
    if frames != [] {
      IdleFramesKeepBuffers(s, frames[..|frames| - 1]);
      assert !IsWord("");
    }
  }

  /**
   * Debounce: holding one non-delete sign over any number of frames appends
   * it to the sentence at most once.
   */
  lemma {:induction false} HeldSignAppendsOnce(s: AppState, frames: seq<Frame>, w: string)
    requires !s.calculatorMode && w != DeleteSign && frames != []
    requires forall i :: 0 <= i < |frames| ==> frames[i].sign == w
    ensures Run(s, frames).formedText == s.formedText || Run(s, frames).formedText == s.formedText + [w]
    ensures Run(s, frames).lastDetected == w
    decreases |frames|
  {
    var p := frames[..|frames| - 1];
    if p != [] {
      HeldSignAppendsOnce(s, p, w);
      RunKeepsMode(s, p);
    }
  }

  /** Debounce in calculator mode: a held sign is applied to the expression at most once. */
  lemma {:induction false} HeldSignAppliedOnce(s: AppState, frames: seq<Frame>, w: string)
    requires s.calculatorMode && frames != []
    requires forall i :: 0 <= i < |frames| ==> frames[i].sign == w
    ensures Run(s, frames).calcExpression == Accept(s.calcExpression, w, s.lastDetected)
    decreases |frames|
  {
    var p := frames[..|frames| - 1];
    if p != [] {
      HeldSignAppliedOnce(s, p, w);
      RunKeepsMode(s, p);
      RepeatedSignIgnored(Run(s, p).calcExpression, w);
    }
  }

  /** While the delete sign is held, the hold timer keeps the time of the first delete frame. */
  lemma {:induction false} HoldTimerKeepsStart(s: AppState, frames: seq<Frame>)
    requires !s.calculatorMode && frames != []
    requires forall i :: 0 <= i < |frames| ==> frames[i].sign == DeleteSign
    ensures Run(s, frames).deleteStartTime == Some(HoldOrigin(s, frames))
    ensures Run(s, frames).lastDetected == DeleteSign
    decreases |frames|
  {
    var p := frames[..|frames| - 1];
    if p != [] {
      HoldTimerKeepsStart(s, p);
      RunKeepsMode(s, p);
      assert HoldOrigin(s, p) == HoldOrigin(s, frames);
    }
  }

  /** The time the hold timer counts from: the running timer, or the first delete frame. */
  function HoldOrigin(s: AppState, frames: seq<Frame>): real
    requires frames != []
  {
    if s.deleteStartTime.Some? then s.deleteStartTime.value else frames[0].time
  }

  /** Holding the delete sign until the hold time has passed empties the sentence, whatever its length. */
  lemma HoldDeleteClears(s: AppState, frames: seq<Frame>)
    requires !s.calculatorMode && frames != []
    requires forall i :: 0 <= i < |frames| ==> frames[i].sign == DeleteSign
    requires frames[|frames| - 1].time - HoldOrigin(s, frames) >= DeleteHoldTime
    ensures Run(s, frames).formedText == []
  {
    var p := frames[..|frames| - 1];
    if p != [] {
      HoldTimerKeepsStart(s, p);
      RunKeepsMode(s, p);
      assert HoldOrigin(s, p) == HoldOrigin(s, frames);
    }
  }

  /** The sentence with its last token removed, if it has one. */
  function DropLastToken(t: seq<string>): seq<string> {
    if t == [] then t else t[..|t| - 1]
  }

  /**
   * Holding the delete sign for less than the hold time, after a frame that
   * was not a delete, removes exactly one token (when there is one).
   */
  lemma {:induction false} ShortHoldPopsOne(s: AppState, frames: seq<Frame>)
    requires !s.calculatorMode && s.lastDetected != DeleteSign && frames != []
    requires forall i :: 0 <= i < |frames| ==> frames[i].sign == DeleteSign
    requires forall i :: 0 <= i < |frames| ==> frames[i].time - HoldOrigin(s, frames) < DeleteHoldTime
    ensures Run(s, frames).formedText == DropLastToken(s.formedText)
    decreases |frames|
  {
    var p := frames[..|frames| - 1];
    if p != [] {
      assert HoldOrigin(s, p) == HoldOrigin(s, frames);
      ShortHoldPopsOne(s, p);
      HoldTimerKeepsStart(s, p);
      RunKeepsMode(s, p);
    } else {
      assert Run(s, p) == s;
    }
  }

  /** The word clock never goes back over a run. */
  lemma {:induction false} WordClockMonotone(s: AppState, frames: seq<Frame>, k: nat)
    requires k <= |frames|
    ensures Run(s, frames[..k]).lastWordTime <= Run(s, frames).lastWordTime
    decreases |frames|
  {
    if k < |frames| {
      var p := frames[..|frames| - 1];
      assert frames[..k] == p[..k];
      WordClockMonotone(s, p, k);
    } else {
      assert frames[..k] == frames;
    }
  }

  /** Frame `k` of the run appends its sign to the sentence. */
  predicate AppendsAt(s: AppState, frames: seq<Frame>, k: nat)
    requires k < |frames|
  {
    WordAccepted(Run(s, frames[..k]), frames[k].sign, frames[k].time)
  }

  /** Cooldown: two appends in one run are at least the word cooldown apart. */
  lemma CooldownBetweenAppends(s: AppState, frames: seq<Frame>, i: nat, j: nat)
    requires i < j < |frames|
    requires AppendsAt(s, frames, i) && AppendsAt(s, frames, j)
    ensures frames[j].time - frames[i].time >= WordCooldown
  {
    var upToI := frames[..i + 1];
    assert upToI == frames[..i] + [frames[i]];
    RunSnoc(s, frames[..i], frames[i]);
    assert Run(s, upToI).lastWordTime == frames[i].time;
    assert frames[..j][..i + 1] == upToI;
    WordClockMonotone(s, frames[..j], i + 1);
  }

  /** A run of five frames is five steps. */
  lemma RunFive(s: AppState, a: Frame, b: Frame, c: Frame, d: Frame, e: Frame)
    ensures Run(s, [a, b, c, d, e]) ==
      Next(Next(Next(Next(Next(s, a.sign, a.time), b.sign, b.time), c.sign, c.time), d.sign, d.time), e.sign, e.time)
  {
    var r1 := Run(s, [a]);
    assert r1 == Next(s, a.sign, a.time) by {
      RunSnoc(s, [], a);
    }
    var r2 := Run(s, [a, b]);
    assert r2 == Next(r1, b.sign, b.time) by {
      RunSnoc(s, [a], b);
      assert [a] + [b] == [a, b];
    }
    var r3 := Run(s, [a, b, c]);
    assert r3 == Next(r2, c.sign, c.time) by {
      RunSnoc(s, [a, b], c);
      assert [a, b] + [c] == [a, b, c];
    }
    var r4 := Run(s, [a, b, c, d]);
    assert r4 == Next(r3, d.sign, d.time) by {
      RunSnoc(s, [a, b, c], d);
      assert [a, b, c] + [d] == [a, b, c, d];
    }
    assert Run(s, [a, b, c, d, e]) == Next(r4, e.sign, e.time) by {
      RunSnoc(s, [a, b, c, d], e);
      assert [a, b, c, d] + [e] == [a, b, c, d, e];
    }
  }

  /**
   * A word `h`, nothing, `h` again, nothing, a word `y` (which may be `h`
   * once more), at 0, 0.1, 0.3, 0.4 and 2.0 seconds after `t`, leave the
   * sentence `h y`: the second `h` passes the debounce but falls inside the
   * cooldown, and the last word passes both.
   */
  lemma ScenarioWords(h: string, y: string, t: real, start: real)
    requires IsWord(h) && IsWord(y) && t >= WordCooldown
    ensures Run(Initial(start), [Frame(h, t), Frame("", t + 0.1), Frame(h, t + 0.3),
                                 Frame("", t + 0.4), Frame(y, t + 2.0)]).formedText == [h, y]
  {
    var s1 := Next(Initial(start), h, t);
    assert s1.formedText == [h] && s1.lastWordTime == t && !s1.calculatorMode;
    var s2 := Next(s1, "", t + 0.1);
    assert s2.formedText == [h] && s2.lastWordTime == t && s2.lastDetected == "";
    assert !WordAccepted(s2, h, t + 0.3);
    var s3 := Next(s2, h, t + 0.3);
    assert s3.formedText == [h] && s3.lastWordTime == t;
    var s4 := Next(s3, "", t + 0.4);
    assert s4.formedText == [h] && s4.lastWordTime == t && s4.lastDetected == "";
    RunFive(Initial(start), Frame(h, t), Frame("", t + 0.1), Frame(h, t + 0.3), Frame("", t + 0.4), Frame(y, t + 2.0));
  }

  /** The worked example with "HELLO" and "YES". */
  lemma ScenarioHelloYes(t: real, start: real)
    requires t >= WordCooldown
    ensures Run(Initial(start), [Frame("HELLO", t), Frame("", t + 0.1), Frame("HELLO", t + 0.3),
                                 Frame("", t + 0.4), Frame("YES", t + 2.0)]).formedText == ["HELLO", "YES"]
  {
    assert IsWord("HELLO") && IsWord("YES");
    ScenarioWords("HELLO", "YES", t, start);
  }

  /** Toggling twice restores the mode; the buffers stay empty and nothing else changes. */
  lemma ToggleTwice(s: AppState)
    ensures Toggle(Toggle(s)) == s.(formedText := [], calcExpression := "")
  {
  }

  /**
   * The recognizer's delete gesture (label 9) is "DELETE", never "[DEL]":
   * in sentence mode it is appended as a word instead of deleting.
   */
  lemma DeleteGestureAppendedAsWord(s: AppState, now: real)
    requires !s.calculatorMode && s.lastDetected != "DELETE" && now - s.lastWordTime >= WordCooldown
    ensures Recognition.Decide(9, false) == Some("DELETE")
    ensures Next(s, "DELETE", now).formedText == s.formedText + ["DELETE"]
  {
    assert IsWord("DELETE") by {
      assert "DELETE" != DeleteSign by { assert "DELETE"[0] != DeleteSign[0]; }
    }
  }

  /** Every sign the recognizer can produce keeps a well-formed expression well formed. */
  lemma RecognizedSignsAreNotOperatorRuns(index: int, calculatorMode: bool)
    requires Recognition.Decide(index, calculatorMode).Some?
    ensures NotOperatorRun(Recognition.Decide(index, calculatorMode).value)
  {
    var sign := Recognition.LabelOf(index);
    if 0 <= index < 10 {
      assert !IsOperatorChar(sign[0]);
      if |sign| > 1 && IsOperator(sign) {
        OperatorSignChars(sign);
      }
    } else if 10 <= index < |Recognition.Labels| {
      assert |sign| == 1;
    }
  }

  /** The live object: app.py's module globals and the two handlers that change them. */
  class HandSpeak {
    var calculatorMode: bool
    var formedText: seq<string>
    var calcExpression: string
    var lastDetected: string
    var deleteStartTime: Option<real>
    var lastWordTime: real
    var cursorVisible: bool
    var lastCursorToggle: real

    function State(): AppState
      reads this
    {
      AppState(calculatorMode, formedText, calcExpression, lastDetected,
               deleteStartTime, lastWordTime, cursorVisible, lastCursorToggle)
    }

    /** The sentence only ever holds words. */
    ghost predicate Valid()
      reads this
    {
      AllWords(formedText)
    }

    constructor (startTime: real)
      ensures Valid() && State() == Initial(startTime)
    {
      calculatorMode, formedText, calcExpression, lastDetected := false, [], "", "";
      deleteStartTime, lastWordTime := None, 0.0;
      cursorVisible, lastCursorToggle := true, startTime;
    }

    /**
     * One frame of `update_gui`. `spoken` is the token handed to speech
     * ("" when none); `evaluated` says whether live evaluation is attempted.
     */
    method Step(sign: string, now: real) returns (spoken: string, evaluated: bool)
      requires Valid()
      modifies this
      ensures Valid()
      ensures State() == Next(old(State()), sign, now)
      ensures spoken == (if WordAccepted(old(State()), sign, now) then sign else "")
      ensures evaluated == (calculatorMode && EvaluationAttempted(calcExpression))
      ensures old(WellFormed(calcExpression)) && NotOperatorRun(sign) ==> WellFormed(calcExpression)
    {
      ghost var before := State();
      spoken, evaluated := "", false;
      if calculatorMode {
        AcceptKeepsWellFormedIf(calcExpression, sign, lastDetected);
        calcExpression := Accept(calcExpression, sign, lastDetected);
        evaluated := calcExpression != "" && !IsOperatorChar(calcExpression[|calcExpression| - 1]);
      } else {
        if sign == DeleteSign {
          if deleteStartTime == None {
            deleteStartTime := Some(now);
          }
          var elapsed := now - deleteStartTime.value;
          if elapsed >= DeleteHoldTime {
            formedText := [];
          } else if sign != lastDetected && formedText != [] {
            formedText := formedText[..|formedText| - 1];
          }
        } else {
          deleteStartTime := None;
        }
        if sign != "" && sign != DeleteSign && !IsCalculatorSymbol(sign) && sign != lastDetected
           && now - lastWordTime >= WordCooldown {
          formedText := formedText + [sign];
          lastWordTime := now;
          spoken := sign;
        }
        if now - lastCursorToggle >= CursorBlinkTime {
          cursorVisible := !cursorVisible;
          lastCursorToggle := now;
        }
      }
      lastDetected := sign;
      assert Next(before, sign, now).formedText == formedText;
    }

    /** `toggle_mode`: the key handler for 'c'. */
    method ToggleMode()
      requires Valid()
      modifies this
      ensures Valid()
      ensures State() == Toggle(old(State()))
    {
      calculatorMode := !calculatorMode;
      calcExpression := "";
      formedText := [];
    }
  }

  lemma AcceptKeepsWellFormedIf(expr: string, sign: string, lastDetected: string)
    ensures WellFormed(expr) && NotOperatorRun(sign) ==> WellFormed(Accept(expr, sign, lastDetected))
  {
    if WellFormed(expr) && NotOperatorRun(sign) {
      AcceptKeepsWellFormed(expr, sign, lastDetected);
    }
  }
}
