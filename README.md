# HandSpeak in Dafny

HandSpeak turns a webcam stream of hand gestures into text. The recognizer
flattens the 21 landmarks of the first detected hand into a feature vector.
A classifier predicts a label index, and a label table maps the index to a
word ("HELLO", "THANK YOU", …), a digit, an operator, `=`, `.` or a
parenthesis. On every video frame the application feeds the detected sign
into a state machine. It has two modes:

- **Sentence mode** appends words to a sentence and speaks each one. It has
  three timing rules: a held sign is taken once (the debounce), two words
  are at least 1.5 s apart (the cooldown), and the delete sentinel `[DEL]`
  pops one word or, held for 5 s, clears the sentence. A cursor blinks
  every 0.5 s.
- **Calculator mode** builds an arithmetic expression string, accepting
  operators, dots and digits by fixed rules, and evaluates it live.

Pressing `c` switches modes and empties both buffers. Two offline tools
produce the training data. `collect_data.py` saves landmark samples into
one folder per gesture, giving unsafe characters safe folder names.
`rotate.py` augments each sample with a horizontally flipped and a rotated
copy.

The project has six modules:

- `Options` holds the Option datatype.
- `Calculator` holds the calculator acceptance rule (app.py lines 108-130)
  and the shape it keeps the expression in (`WellFormed`).
- `Interaction` holds the per-frame update as the function `Next` and the
  mode toggle as `Toggle`. Runs of frames are `Run`. The class `HandSpeak`
  holds app.py's module globals as fields. Its methods `Step` and
  `ToggleMode` update those fields and are proved to agree with `Next` and
  `Toggle`.
- `Recognition` holds feature extraction, the label table and the
  calculator-mode gate of recognition.py.
- `Collection` holds the folder-name sanitizer, the gesture cycle and the
  `Collector` class with the key handler of collect_data.py.
- `Augmentation` holds the flip and rotation loops of rotate.py, on arrays.

Behaviour of the code that the model keeps as written:

- `is_operator(detected_sign)` is Python's substring test `sign in "+-*/"`,
  so a multi-character sign such as `"+-"` counts as an operator. The model
  keeps the substring test (`Calculator.IsOperator`). Well-formedness
  therefore holds only for signs that are not operator runs, and every
  recognizer label is such a sign (`Interaction.RecognizedSignsAreNotOperatorRuns`).
- The calculator's `[DEL]` branch can never run: `[` is not an allowed
  symbol, so the guard before it rejects `"[DEL]"`.
- The recognizer's delete gesture (label 9) is the string `"DELETE"`, not
  the sentinel `"[DEL]"` the update compares against. In sentence mode it is
  therefore appended as a word.
- `app.py` calls `recognize_hand_sign(frame)` without passing the mode, so
  the calculator gate of recognition.py is never applied there. In
  calculator mode, words reach the update and fail its allowed-symbol guard
  there instead.
- `(`, `)` and `=` pass the allowed-symbol guard but match no branch, so
  they never enter the expression.
- `last_word_time` starts at 0, so the cooldown never blocks the first word
  at real clock times.
- `toggle_mode` does not reset `last_detected`, `delete_start_time` or
  `last_word_time`. It flips the mode and empties both buffers, nothing else.
- `=` is never appended to the expression.
- Calculator mode has no hold-to-delete; its only delete is the unreachable
  `[DEL]` branch.
- Live evaluation uses Python's `eval`. The model states only when
  evaluation is attempted (`Calculator.EvaluationAttempted`).

Signs are strings, with the empty string for "nothing detected" (None and
"" take the same branches in `update_gui`). Times are reals.

## Model

| member | source | states |
|---|---|---|
| Calculator.Occurs | app.py:109 | Python's `s in t` on two strings: `s` occurs contiguously in `t`, so it is no longer than `t`. |
| Calculator.IsDigits | app.py:125 | `sign.isdigit()`: a non-empty run of digits, which always passes the allowed-symbol guard. |
| Calculator.IsOperator | app.py:109 | Python's substring test against "+-*/": the empty sign passes it and no sign longer than four characters does. |
| Calculator.PassesGuard | app.py:114 | The guard: a non-empty sign made only of allowed characters; "[DEL]" never passes. |
| Calculator.DropLast | app.py:116 | Python's `e[:-1]`: a prefix one character shorter, or the empty string kept empty. |
| Calculator.EvaluationAttempted | app.py:130 | Evaluation is attempted exactly when the expression is non-empty and `is_operator` rejects its last character. |
| Calculator.LastRun | app.py:122 | The result is the longest suffix of the expression holding no operator: a suffix, free of operators, and preceded by an operator whenever it is shorter than the expression. |
| Calculator.Accept | app.py:114-126 | A sign that fails the allowed-symbol guard, or repeats the previous frame's sign, leaves the expression unchanged. Otherwise the expression stays, gains the sign at its end, or (delete branch) loses its last character. A change by a non-delete sign happens only for an operator, the dot or digits. |
| Calculator.SingleCharOperator | app.py:109 | A one-character sign passes the substring operator test exactly when it is one of + - * /. |
| Calculator.OperatorSignChars | app.py:109 | Every character of a sign passing the operator test is an operator. |
| Calculator.OccursSingle | app.py:109 | A one-character string occurs in a string exactly when its character is a member of it. |
| Calculator.OccursChars | app.py:109 | Every character of a substring is a character of the string. |
| Calculator.DeleteNeverPassesGuard | app.py:114-116 | "[DEL]" fails the allowed-symbol guard, so the calculator delete branch never changes the expression. |
| Calculator.OperatorRule | app.py:118-120 | A new one-character operator is appended exactly when the expression is non-empty and does not end in an operator; otherwise nothing changes. |
| Calculator.DotRule | app.py:121-124 | A new dot is appended exactly when the numeric run after the last operator holds no dot. |
| Calculator.DigitsNotOperator | app.py:118-125 | A digit sign never takes the operator branch. |
| Calculator.DigitRule | app.py:125-126 | A new digit sign is always appended. |
| Calculator.ParensAndEqualsIgnored | app.py:114-126 | (, ) and = pass the guard but never change the expression. |
| Calculator.RepeatedSignIgnored | app.py:117 | Repeating the previous frame's sign never changes the expression. |
| Calculator.DoubleOperatorExample | app.py:118-120 | "5+" stays "5+" when "+" is detected again. |
| Calculator.SecondDotRejectedExample | app.py:121-124 | A digit followed by a dot does not take a second dot. |
| Calculator.NewRunDotExample | app.py:121-124 | After digit, operator, digit the new run takes a dot. |
| Calculator.AppendDotFree | app.py:121-126 | Appending characters other than the dot keeps every dot the only one in its run. |
| Calculator.AcceptKeepsAlphabet | app.py:114-126 | Only digits, operators and dots ever enter the expression. |
| Calculator.AppendOperatorKeepsWellFormed | app.py:119-120 | Appending an operator after a non-operator keeps the expression well formed. |
| Calculator.AppendOperandKeepsShape | app.py:121-126 | Appending a digit or a dot keeps the alphabet, the no-adjacent-operators rule and the non-operator first character. |
| Calculator.AppendDotKeepsWellFormed | app.py:122-124 | Appending a dot to a dot-free run keeps the expression well formed. |
| Calculator.AppendDigitsKeepsWellFormed | app.py:125-126 | Appending digits keeps the expression well formed. |
| Calculator.DropLastKeepsWellFormed | app.py:115-116 | Dropping the last character keeps the expression well formed. |
| Calculator.AcceptKeepsWellFormed | app.py:114-126 | For any sign that is not an operator run, accepting it keeps the expression well formed: no leading operator, no two operators in a row, one dot per numeric run, only digits, operators and dots. |
| Calculator.OperatorRunBreaksWellFormed | app.py:118-120 | The substring test lets "+-" through after "5", giving the malformed "5+-". |
| Calculator.DotsSeparatedByOperator | app.py:121-124 | Any two dots of the expression have an operator between them. |
| Calculator.EvaluatedExpressionShape | app.py:130 | When evaluation is attempted on a well-formed expression, every operator has a non-operator on each side. |
| Interaction.Initial | app.py:20-30 | The start-up state is in sentence mode with no hold timer, holds only words and a well-formed (empty) expression, and a first word at the cooldown time is accepted since the word clock starts at 0. |
| Interaction.IsWord | app.py:157-159 | The sign filter of sentence mode: a word is never empty, and every sign longer than one character other than "[DEL]" is one. |
| Interaction.IsCalculatorSymbol | app.py:159 | `sign in allowed_symbols`: a one-character allowed sign, which therefore passes the calculator guard. |
| Interaction.WordAccepted | app.py:156-162 | The append condition; an accepted word is never a one-character allowed symbol and comes at least the cooldown after the last append. |
| Interaction.HoldStart | app.py:143-144 | The hold timer after a sentence frame is set exactly on a delete frame: it keeps a running timer or starts at the frame's time (cleared otherwise, line 153). |
| Interaction.AfterDelete | app.py:142-151 | The delete handling leaves a prefix of the sentence: unchanged for a non-delete frame, otherwise at most one token shorter or empty. |
| Interaction.Next | app.py:108-179 | One frame: records the sign as last detected and keeps the mode. Each mode leaves the other mode's buffer alone, and calculator mode touches no timer. A non-delete frame appends the sign or nothing; a delete frame leaves a prefix. The word clock moves only on an append; the hold timer is cleared by every non-delete sentence frame. The cursor flips exactly in sentence mode once the blink time has passed, and the cursor clock moves only with a flip. The sentence keeps holding only words. |
| Interaction.Toggle | app.py:191-195 | Flips the mode and empties both buffers; the last sign, hold timer, word clock and cursor are kept. |
| Interaction.Run | app.py:189 | One `update_gui` call per frame, in order: the sentence grows by at most one token per frame and the word clock never goes back. |
| Interaction.RunSnoc | app.py:189 | A run with one more frame is one more update. |
| Interaction.RunKeepsMode | app.py:108-179 | Frames never change the mode. |
| Interaction.IdleFramesKeepBuffers | app.py:114-163 | Frames with nothing detected change neither buffer nor the word clock. |
| Interaction.HeldSignAppendsOnce | app.py:156-164 | A non-delete sign held over any number of sentence-mode frames is appended at most once. |
| Interaction.HeldSignAppliedOnce | app.py:117 | A sign held over any number of calculator-mode frames is applied to the expression once. |
| Interaction.HoldTimerKeepsStart | app.py:142-144 | While the delete sign is held, the hold timer keeps the time of the first delete frame. |
| Interaction.HoldDeleteClears | app.py:142-149 | Holding the delete sign until the hold time has passed empties the sentence, whatever its length. |
| Interaction.ShortHoldPopsOne | app.py:142-151 | Holding the delete sign for less than the hold time, after another sign, removes exactly one word. |
| Interaction.WordClockMonotone | app.py:164 | The word clock never goes back over a run. |
| Interaction.CooldownBetweenAppends | app.py:156-164 | Any two appends in one run are at least the word cooldown apart. |
| Interaction.RunFive | app.py:189 | A five-frame run is five updates in order. |
| Interaction.ScenarioWords | app.py:156-164 | A word, nothing, the same word 0.3 s later, nothing, and a word 2 s later (the same word or another) give a two-word sentence: the repeat passes the debounce but not the cooldown. |
| Interaction.ScenarioHelloYes | app.py:156-164 | The same run with "HELLO" and "YES" gives the sentence HELLO YES. |
| Interaction.ToggleTwice | app.py:191-195 | Toggling twice restores the mode with both buffers empty and nothing else changed. |
| Interaction.DeleteGestureAppendedAsWord | recognition.py:14 | The recognizer's delete gesture is "DELETE", which sentence mode appends as a word. |
| Interaction.RecognizedSignsAreNotOperatorRuns | recognition.py:12-19 | No sign the recognizer produces is a multi-character operator run. |
| Interaction.AcceptKeepsWellFormedIf | app.py:114-126 | Accepting a sign that is not an operator run keeps a well-formed expression well formed. |
| Interaction.HandSpeak.constructor | app.py:20-30 | The start-up state: sentence mode, empty buffers, no last sign, no hold timer, word clock 0, visible cursor toggled at start-up. |
| Interaction.HandSpeak.Step | app.py:106-179 | The new fields are `Next` of the old ones. The spoken token is the sign exactly when it was appended. Evaluation is attempted exactly in calculator mode on a non-empty expression not ending in an operator. A well-formed expression stays well formed. |
| Interaction.HandSpeak.ToggleMode | app.py:191-195 | The new fields are `Toggle` of the old ones. |
| Recognition.Flatten | recognition.py:26-30 | The flat feature vector of a hand: three values per landmark. |
| Recognition.FlattenLayout | recognition.py:26-30 | The feature vector holds three values per landmark: x, y, z of landmark i at 3i, 3i+1, 3i+2. |
| Recognition.ExtractFeatures | recognition.py:26-30 | The loop builds the flat vector of the landmarks: length three per landmark, x, y, z in order. |
| Recognition.LabelOf | recognition.py:43 | A known index gives the table entry at that index; an unknown index gives "", which no entry is. |
| Recognition.Decide | recognition.py:43-49 | Outside calculator mode the label is returned as is. In calculator mode any returned sign is a calculator symbol or the delete sentinel. |
| Recognition.Recognize | recognition.py:32-51 | No hand gives None. With a hand and calculator mode off, the result is the table label of the index predicted from the first hand's features. In calculator mode a sign is returned exactly when that index is 10 to 27, and it is a calculator symbol. No result is ever the delete sentinel. |
| Recognition.DeleteSentinelNotALabel | recognition.py:12-19 | No label index yields "[DEL]". |
| Recognition.OnlyFirstHandCounts | recognition.py:38-49 | Only the first detected hand decides the result. |
| Recognition.CalculatorSymbolsAreLabels | recognition.py:12-24 | Labels 10 to 27 are calculator symbols and labels 0 to 9 are not. Every calculator symbol is a one-character label from 10 on. |
| Recognition.CalculatorGate | recognition.py:43-47 | In calculator mode exactly the indices 10 to 27 pass the gate; the delete gesture, words and unknown indices give None. |
| Collection.SnakeCaseIsSafe | collect_data.py:13-22 | A snake-case name holds no unsafe character. |
| Collection.SafeGestureMapKeys | collect_data.py:13-22 | The map's keys are exactly the one-character unsafe names. |
| Collection.SafeGestureMapValues | collect_data.py:13-22 | Every mapped folder name is safe and differs from its key. |
| Collection.Sanitize | collect_data.py:25-26 | Unmapped names stay. A changed name was in the map. A safe name stays. A one-character name becomes safe. |
| Collection.GestureFoldersSafe | collect_data.py:37-39 | No gesture's folder name holds an unsafe character. |
| Collection.GestureFolders | collect_data.py:37-39 | The folder names of the 28 gestures, in order. |
| Collection.FoldersDistinct | collect_data.py:37-39 | The 28 folder names are pairwise distinct. |
| Collection.GestureFoldersDistinct | collect_data.py:37-39 | Distinct gestures get distinct folders. |
| Collection.NextGesture | collect_data.py:91 | The next index stays in range, moves up by one, and wraps from the last gesture to the first. |
| Collection.Advance | collect_data.py:91 | Any number of 'n' presses keeps the index in range. |
| Collection.ModularStep | collect_data.py:91 | One step of the wrap-around agrees with adding one modulo 28. |
| Collection.AdvanceIsModular | collect_data.py:91 | k presses of 'n' move k places around the cycle of 28 gestures. |
| Collection.Collector.constructor | collect_data.py:50-51 | Starts on the first gesture with the given sample count. |
| Collection.Collector.HandleKey | collect_data.py:83-96 | With a hand, 's' increments the count and saves sample number count in the current gesture's folder. 'n' moves to the next gesture and takes its folder's count. Any other key changes nothing, and only 'q' quits. |
| Augmentation.Flipped | rotate.py:41-43 | The flip keeps the length and leaves the y and z entries alone; `FlipChangesOnlyX` adds that each x entry is negated. |
| Augmentation.RotX | rotate.py:21 | Definition of the new x of a pair, cos·x − sin·y; its meaning is stated by `PairRotatedTwice`, `PairMirrored` and `PairKeepsLength`. |
| Augmentation.RotY | rotate.py:22 | Definition of the new y of a pair, sin·x + cos·y; its meaning is stated by the same three pair lemmas. |
| Augmentation.Rotated | rotate.py:19-22 | The rotation keeps the length; `RotatedAt` gives each entry (rotated x, rotated y, copied z). |
| Augmentation.FlipHorizontally | rotate.py:41-43 | A fresh array equal to the input with every x entry (index 0 mod 3) negated. |
| Augmentation.RotatedAt | rotate.py:19-22 | Entry by entry: x entries get the rotated x, y entries the rotated y, z entries are copied. |
| Augmentation.RotatedTriple | rotate.py:19-22 | Each triple of the rotated array is the rotated pair followed by the copied z. |
| Augmentation.RotateLandmarks | rotate.py:13-24 | A fresh array equal to the input with every (x, y) pair rotated from the original values. |
| Augmentation.FlipChangesOnlyX | rotate.py:41-43 | The flip keeps y and z entries and negates x entries, changing exactly the nonzero ones. |
| Augmentation.FlipTwice | rotate.py:41-43 | Flipping twice gives the input back. |
| Augmentation.RotateKeepsZ | rotate.py:19-22 | The rotation copies every z entry. |
| Augmentation.RotateByZero | rotate.py:13-24 | Rotating by the zero angle gives the input back. |
| Augmentation.PairRotatedTwice | rotate.py:21-22 | Rotating a pair twice is rotating it once by the summed angle. |
| Augmentation.RotateTwice | rotate.py:13-24 | Rotating an array twice is rotating it once by the summed angle. |
| Augmentation.PairMirrored | rotate.py:21-22 | Mirroring a rotated pair is rotating the mirrored pair by the opposite angle. |
| Augmentation.FlipMirrorsRotation | rotate.py:13-24 | Flipping a rotated array is rotating the flipped array by the opposite angle. |
| Augmentation.PairKeepsLength | rotate.py:21-22 | For a cosine and sine on the unit circle, a rotated pair keeps its squared length. |
| Augmentation.RotateKeepsLength | rotate.py:21-22 | For a cosine and sine on the unit circle, each (x, y) pair keeps its squared length. |

## Left out

- The webcam, frame resizing and colour conversion, the Tk window, the labels and `root.after` scheduling are left out (I/O and GUI). The camera-failure early return of `update_gui` is left out too.
- The display strings (sentence text with cursor, mode banner, result label) are left out; the cursor state that feeds them is modelled.
- Speech (pyttsx3) is left out; `HandSpeak.Step` returns the token it would speak.
- Live evaluation with `eval`, including its result and error marker, is left out; the model states only when evaluation is attempted (app.py line 130).
- The clock (`time.time`) is a parameter of each frame. Float rounding is not modelled; times and coordinates are reals.
- MediaPipe hand detection, the Keras model, `argmax` and `reshape(1, -1)` are left out. The classifier is a function parameter from features to a label index, and the detector's output is the list of hands passed in. Landmark drawing is left out.
- Train.py is not part of this model.
- The file system in collect_data.py and rotate.py is left out: `os.listdir`, `os.makedirs`, `np.load` and `np.save`. Folder file counts are parameters. A saved sample is its folder and number only, not the landmark array (collect_data.py line 65).
- The directory walk and the three saved files of rotate.py (lines 26-51) are left out.
- `np.radians`, `np.cos` and `np.sin` are left out; the rotation takes the cosine and sine of its angle (15 degrees by default) as parameters.
- Augmentation.RotateLandmarks: requires an array length that does not leave remainder 1 by 3. At such a length the source raises an index error on the last x entry; saved samples always hold 63 entries.
- Collection.Collector.HandleKey: the key is the character after masking with 0xFF; key codes above 255 are not modelled.
- The `print` messages of both tools and of `toggle_mode` are left out.
