/**
 * The recognizer's decision (recognition.py): landmark flattening, the
 * label table, and the calculator-mode gate applied after prediction. The
 * landmark detector and the classifier are foreign; the classifier is a
 * function parameter from features to a label index.
 */
module Recognition {
  import opened Options
  import Calculator

  /** One detected landmark with its three coordinates. */
  datatype Landmark = Landmark(x: real, y: real, z: real)

  /** `LABELS`: the symbol of each label index the classifier can predict. */
  const Labels: seq<string> := [
    "HELLO", "YES", "NO", "PLEASE", "THANK YOU",
    "BYE", "I", "YOU", "LOVE", "DELETE",
    "0", "1", "2", "3", "4", "5",
    "6", "7", "8", "9",
    "+", "-", "*", "/", "=", ".",
    "(", ")"
  ]

  /** `CALCULATOR_SYMBOLS`: the signs calculator mode lets through. */
  const CalculatorSymbols: set<string> :=
    {"0", "1", "2", "3", "4", "5", "6", "7", "8", "9", "+", "-", "*", "/", "=", ".", "(", ")"}

  /** The coordinates of one landmark, in the order they are extended into the features. */
  function Coordinates(l: Landmark): seq<real> {
    [l.x, l.y, l.z]
  }

  /** The flat feature vector x0, y0, z0, x1, ... of a hand: three values per landmark. */
  function Flatten(hand: seq<Landmark>): (features: seq<real>)
    ensures |features| == 3 * |hand|
    decreases |hand|
  {
    if hand == [] then [] else Flatten(hand[..|hand| - 1]) + Coordinates(hand[|hand| - 1])
  }

  /** The feature vector holds three values per landmark, coordinate-major. */
  lemma {:induction false} FlattenLayout(hand: seq<Landmark>)
    ensures |Flatten(hand)| == 3 * |hand|
    ensures forall i :: 0 <= i < |hand| ==>
      Flatten(hand)[3 * i] == hand[i].x && Flatten(hand)[3 * i + 1] == hand[i].y && Flatten(hand)[3 * i + 2] == hand[i].z
    decreases |hand|
  {
    if hand != [] {
      var p := hand[..|hand| - 1];
      FlattenLayout(p);
      forall i | 0 <= i < |hand|
        ensures Flatten(hand)[3 * i] == hand[i].x && Flatten(hand)[3 * i + 1] == hand[i].y && Flatten(hand)[3 * i + 2] == hand[i].z
      {
        if i < |p| {
          assert hand[i] == p[i];
        }
      }
    }
  }

  /** `extract_features`: one pass over the landmarks, extending the list by each landmark's coordinates. */
  method ExtractFeatures(hand: seq<Landmark>) returns (features: seq<real>)
    ensures features == Flatten(hand)
    ensures |features| == 3 * |hand|
    ensures forall i :: 0 <= i < |hand| ==>
      features[3 * i] == hand[i].x && features[3 * i + 1] == hand[i].y && features[3 * i + 2] == hand[i].z
  {
    features := [];
    var i := 0;
    while i < |hand|
      invariant 0 <= i <= |hand|
      invariant features == Flatten(hand[..i])
    {
      assert hand[..i + 1][..i] == hand[..i];
      features := features + Coordinates(hand[i]);
      i := i + 1;
    }
    assert hand[..i] == hand;
    FlattenLayout(hand);
  }

  /** `LABELS.get(predicted_label, "")`. */
  function LabelOf(index: int): (name: string)
    ensures 0 <= index < |Labels| ==> name == Labels[index]
    ensures name == "" <==> !(0 <= index < |Labels|)
    ensures name != "" ==> name in Labels
  {
    if 0 <= index < |Labels| then Labels[index] else ""
  }

  /** The decision of recognition.py lines 43-49 once the first hand's label index is known. */
  function Decide(index: int, calculatorMode: bool): (r: Option<string>)
    ensures !calculatorMode ==> r == Some(LabelOf(index))
    ensures calculatorMode && r.Some? ==> r.value in CalculatorSymbols || r.value == Calculator.DeleteSign
  {
    var sign := LabelOf(index);
    if calculatorMode && sign !in CalculatorSymbols && sign != Calculator.DeleteSign then None else Some(sign)
  }

  /**
   * `recognize_hand_sign` on the hands the detector found (outermost list)
   * and a classifier `predict`: only the first hand is ever looked at.
   */
  function Recognize(hands: seq<seq<Landmark>>, predict: seq<real> -> int, calculatorMode: bool): (r: Option<string>)
    ensures hands == [] ==> r == None
    ensures calculatorMode && r.Some? ==> r.value in CalculatorSymbols
    ensures r.Some? ==> r.value != Calculator.DeleteSign
    ensures hands != [] && !calculatorMode ==> r == Some(LabelOf(predict(Flatten(hands[0]))))
    ensures hands != [] && calculatorMode ==> (r.Some? <==> 10 <= predict(Flatten(hands[0])) < |Labels|)
  {
    if hands == [] then None
    else
      var index := predict(Flatten(hands[0]));
      DeleteSentinelNotALabel(index);
      CalculatorGate(index);
      Decide(index, calculatorMode)
  }

  /** No label index yields the delete sentinel; the table's delete entry is "DELETE". */
  lemma DeleteSentinelNotALabel(index: int)
    ensures LabelOf(index) != Calculator.DeleteSign
    ensures Decide(index, false) != Some(Calculator.DeleteSign)
    ensures Decide(index, true) != Some(Calculator.DeleteSign)
  {
  }

  /** Only the first detected hand decides the result. */
  lemma OnlyFirstHandCounts(hands: seq<seq<Landmark>>, others: seq<seq<Landmark>>, predict: seq<real> -> int, calculatorMode: bool)
    requires hands != [] && others != [] && hands[0] == others[0]
    ensures Recognize(hands, predict, calculatorMode) == Recognize(others, predict, calculatorMode)
  {
  }

  /** The label indices 10 to 27 hold exactly the calculator symbols; indices 0 to 9 hold none. */
  lemma CalculatorSymbolsAreLabels()
    ensures forall i :: 10 <= i < |Labels| ==> Labels[i] in CalculatorSymbols
    ensures forall i :: 0 <= i < 10 ==> Labels[i] !in CalculatorSymbols
    ensures forall s :: s in CalculatorSymbols ==> s in Labels[10..] && |s| == 1
  {
    assert Labels[10..] == ["0", "1", "2", "3", "4", "5", "6", "7", "8", "9", "+", "-", "*", "/", "=", ".", "(", ")"];
    forall i | 0 <= i < 10 ensures Labels[i] !in CalculatorSymbols {
      assert |Labels[i]| != 1 || Labels[i] == "I";
    }
  }

  /**
   * In calculator mode the gate passes exactly the label indices 10 to 27;
   * the delete gesture (index 9), the words and unknown indices become None.
   */
  lemma CalculatorGate(index: int)
    ensures Decide(index, true) == if 10 <= index < |Labels| then Some(Labels[index]) else None
  {
    CalculatorSymbolsAreLabels();
    var sign := LabelOf(index);
    if 10 <= index < |Labels| {
      assert sign in CalculatorSymbols;
    } else if 0 <= index < 10 {
      assert sign !in CalculatorSymbols;
      DeleteSentinelNotALabel(index);
    } else {
      assert sign == "";
    }
  }
}
