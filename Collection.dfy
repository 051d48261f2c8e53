/**
 * The data-collection tool (collect_data.py): the folder-name sanitizer and
 * the gesture/sample counters its key handler updates. The webcam loop,
 * drawing and file system are left to the caller; the number of files in a
 * folder is passed in.
 */
module Collection {
  import opened Options

  /** `GESTURES`: the gestures samples are collected for, in cycling order. */
  const Gestures: seq<string> := [
    "HELLO", "YES", "NO", "PLEASE", "THANK YOU", "BYE", "I", "YOU", "LOVE", "DELETE",
    "0", "1", "2", "3", "4", "5", "6", "7", "8", "9",
    "+", "-", "*", "/", "=", ".", "(", ")"
  ]

  /** `SAFE_GESTURE_MAP`: folder names for the gestures that cannot name a folder. */
  const SafeGestureMap: map<string, string> := map[
    "*" := "multiply",
    "/" := "divide",
    "+" := "plus",
    "-" := "minus",
    "=" := "equals",
    "." := "dot",
    "(" := "open_paren",
    ")" := "close_paren"
  ]

  /** The characters the map exists to keep out of folder names. */
  const UnsafeChars: set<char> := {'*', '/', '+', '-', '=', '.', '(', ')'}

  predicate FolderSafe(name: string) {
    forall i :: 0 <= i < |name| ==> name[i] !in UnsafeChars
  }

  /** Lower-case letters and underscores only. */
  predicate SnakeCase(name: string) {
    forall i :: 0 <= i < |name| ==> 'a' <= name[i] <= 'z' || name[i] == '_'
  }

  lemma SnakeCaseIsSafe(name: string)
    requires SnakeCase(name)
    ensures FolderSafe(name)
  {
  }

  /** The map's keys are exactly the one-character names of the unsafe characters. */
  lemma SafeGestureMapKeys()
    ensures forall k :: k in SafeGestureMap <==> |k| == 1 && k[0] in UnsafeChars
  {
    forall k | |k| == 1 && k[0] in UnsafeChars ensures k in SafeGestureMap {
      assert k == [k[0]];
    }
  }

  /** Every folder name the map gives is a safe snake-case word, never the key itself. */
  lemma SafeGestureMapValues()
    ensures forall k :: k in SafeGestureMap ==> FolderSafe(SafeGestureMap[k]) && SafeGestureMap[k] != k
  {
    assert forall k :: k in SafeGestureMap ==> SnakeCase(SafeGestureMap[k]) && |SafeGestureMap[k]| > 1;
    forall k | k in SafeGestureMap ensures FolderSafe(SafeGestureMap[k]) && SafeGestureMap[k] != k {
      SnakeCaseIsSafe(SafeGestureMap[k]);
      SafeGestureMapKeys();
    }
  }

  /** `sanitize_gesture_name`. */
  function Sanitize(name: string): (folder: string)
    ensures name !in SafeGestureMap ==> folder == name
    ensures folder != name ==> name in SafeGestureMap
    ensures FolderSafe(name) ==> folder == name
    ensures |name| == 1 ==> FolderSafe(folder)
  {
    SafeGestureMapKeys();
    SafeGestureMapValues();
    if name in SafeGestureMap then SafeGestureMap[name] else name
  }

  /** No gesture's folder name contains a character the map exists to avoid. */
  lemma GestureFoldersSafe()
    ensures forall i :: 0 <= i < |Gestures| ==> FolderSafe(Sanitize(Gestures[i]))
  {
    forall i | 0 <= i < |Gestures| ensures FolderSafe(Sanitize(Gestures[i])) {
      if |Gestures[i]| != 1 {
        assert FolderSafe(Gestures[i]);
      }
    }
  }

  /** The folder names of the gestures, in gesture order. */
  const Folders: seq<string> := [
    "HELLO", "YES", "NO", "PLEASE", "THANK YOU", "BYE", "I", "YOU", "LOVE", "DELETE",
    "0", "1", "2", "3", "4", "5", "6", "7", "8", "9",
    "plus", "minus", "multiply", "divide", "equals", "dot", "open_paren", "close_paren"
  ]

  /** Distinct gestures get distinct folders, so no two gestures share their samples. */
  lemma GestureFoldersDistinct()
    ensures forall i, j :: 0 <= i < j < |Gestures| ==> Sanitize(Gestures[i]) != Sanitize(Gestures[j])
  {
    GestureFolders();
    FoldersDistinct();
  }

  /** The folder of each gesture, in gesture order. */
  lemma GestureFolders()
    ensures forall i :: 0 <= i < |Gestures| ==> Sanitize(Gestures[i]) == Folders[i]
  {
  }

  lemma FoldersDistinct()
    ensures forall i, j :: 0 <= i < j < |Folders| ==> Folders[i] != Folders[j]
  {
  }

  /** The index `(current_gesture + 1) % len(GESTURES)` the 'n' key moves to. */
  function NextGesture(i: nat): (j: nat)
    requires i < |Gestures|
    ensures j < |Gestures|
    ensures i < |Gestures| - 1 ==> j == i + 1
    ensures i == |Gestures| - 1 ==> j == 0
  {
    (i + 1) % |Gestures|
  }

  /** The index after pressing 'n' `k` times. */
  function Advance(i: nat, k: nat): (j: nat)
    requires i < |Gestures|
    ensures j < |Gestures|
  {
    if k == 0 then i else NextGesture(Advance(i, k - 1))
  }

  /** Pressing 'n' k times moves k places around the cycle; 28 presses return to the start. */
  lemma {:induction false} AdvanceIsModular(i: nat, k: nat)
    requires i < |Gestures|
    ensures Advance(i, k) == (i + k) % |Gestures|
  {
    if k > 0 {
      AdvanceIsModular(i, k - 1);
      ModularStep(i + k - 1);
    }
  }

  lemma ModularStep(a: nat)
    ensures (a % |Gestures| + 1) % |Gestures| == (a + 1) % |Gestures|
  {
  }

  /** Where a saved sample goes: `DATA_DIR/<folder>/sample_<number>.npy`. */
  datatype SampleFile = SampleFile(folder: string, number: nat)

  /** The counters of the collection loop. */
  class Collector {
    var currentGesture: nat
    var sampleCount: nat

    ghost predicate Valid()
      reads this
    {
      currentGesture < |Gestures|
    }

    /** Start on the first gesture, counting the samples already in its folder. */
    constructor (existingSamples: nat)
      ensures Valid() && currentGesture == 0 && sampleCount == existingSamples
    {
      currentGesture, sampleCount := 0, existingSamples;
    }

    /**
     * The key handler of one loop pass. `handDetected` says whether the frame
     * had a hand; `samplesInFolder` is the file count of the folder the 'n'
     * key switches to.
     */
    method HandleKey(key: char, handDetected: bool, samplesInFolder: nat) returns (saved: Option<SampleFile>, quit: bool)
      requires Valid()
      modifies this
      ensures Valid()
      ensures key == 's' && handDetected ==>
        sampleCount == old(sampleCount) + 1 && currentGesture == old(currentGesture)
        && saved == Some(SampleFile(Sanitize(Gestures[currentGesture]), sampleCount)) && !quit
      ensures key == 'n' ==>
        currentGesture == NextGesture(old(currentGesture)) && sampleCount == samplesInFolder
        && saved == None && !quit
      ensures !(key == 's' && handDetected) && key != 'n' ==>
        sampleCount == old(sampleCount) && currentGesture == old(currentGesture)
        && saved == None && quit == (key == 'q')
    {
      saved, quit := None, false;
      if key == 's' && handDetected {
        var folder := Sanitize(Gestures[currentGesture]);
        sampleCount := sampleCount + 1;
        saved := Some(SampleFile(folder, sampleCount));
      } else if key == 'n' {
        currentGesture := (currentGesture + 1) % |Gestures|;
        sampleCount := samplesInFolder;
      } else if key == 'q' {
        quit := true;
      }
    }
  }
}
