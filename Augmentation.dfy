/**
 * The landmark augmentation of rotate.py: the horizontal flip and the
 * in-plane rotation of a flat landmark array x0, y0, z0, x1, ... . The
 * cosine and sine of the rotation angle are parameters.
 */
module Augmentation {

  /** The array after negating every x coordinate (the entries at indices 0, 3, 6, ...). */
  function Flipped(s: seq<real>): (f: seq<real>)
    ensures |f| == |s|
    ensures forall i :: 0 <= i < |s| && i % 3 != 0 ==> f[i] == s[i]
  {
    seq(|s|, i requires 0 <= i < |s| => if i % 3 == 0 then -s[i] else s[i])
  }

  /**
   * The array after rotating every (x, y) pair by the angle whose cosine is
   * `c` and sine is `sn`, from the original x and y; z entries are copied.
   * An array whose length leaves remainder 1 by 3 has an x with no y after it.
   */
  function Rotated(s: seq<real>, c: real, sn: real): (r: seq<real>)
    requires |s| % 3 != 1
    ensures |r| == |s|
  {
    seq(|s|, i requires 0 <= i < |s| =>
      if i % 3 == 0 then RotX(c, sn, s[i], s[i + 1])
      else if i % 3 == 1 then RotY(c, sn, s[i - 1], s[i])
      else s[i])
  }

  /** The new x of a pair rotated by the angle with cosine `c` and sine `sn`. */
  function RotX(c: real, sn: real, x: real, y: real): real
  {
    c * x - sn * y
  }

  /** The new y of a pair rotated by the angle with cosine `c` and sine `sn`. */
  function RotY(c: real, sn: real, x: real, y: real): real
  {
    sn * x + c * y
  }

  /** The flip loop of rotate.py lines 41-43 on a copy of `data`. */
  method FlipHorizontally(data: array<real>) returns (flipped: array<real>)
    ensures fresh(flipped)
    ensures flipped[..] == Flipped(data[..])
  {
    flipped := new real[data.Length];
    forall k | 0 <= k < data.Length {
      flipped[k] := data[k];
    }
    var i := 0;
    while i < flipped.Length
      invariant i % 3 == 0 && 0 <= i < flipped.Length + 3
      invariant forall k :: 0 <= k < flipped.Length ==>
        flipped[k] == (if k < i && k % 3 == 0 then -data[k] else data[k])
    {
      assert (i + 3) % 3 == 0;
      flipped[i] := -flipped[i];
      i := i + 3;
    }
  }

  /** The entries of a rotated array, by position within their triple. */
  lemma RotatedAt(s: seq<real>, c: real, sn: real, i: int)
    requires |s| % 3 != 1 && 0 <= i < |s|
    ensures |Rotated(s, c, sn)| == |s|
    ensures i % 3 == 0 ==> i + 1 < |s| && (i + 1) % 3 == 1 && Rotated(s, c, sn)[i] == RotX(c, sn, s[i], s[i + 1])
    ensures i % 3 == 1 ==> 0 < i && (i - 1) % 3 == 0 && Rotated(s, c, sn)[i] == RotY(c, sn, s[i - 1], s[i])
    ensures i % 3 == 2 ==> Rotated(s, c, sn)[i] == s[i]
  {
  }

  /** The triple starting at `i` (the `t`-th triple) of a rotated array. */
  lemma RotatedTriple(s: seq<real>, c: real, sn: real, i: int, t: nat)
    requires |s| % 3 != 1 && 0 <= i < |s| && i == 3 * t
    ensures i + 1 < |s| && |Rotated(s, c, sn)| == |s|
    ensures Rotated(s, c, sn)[i] == RotX(c, sn, s[i], s[i + 1])
    ensures Rotated(s, c, sn)[i + 1] == RotY(c, sn, s[i], s[i + 1])
    ensures i + 2 < |s| ==> Rotated(s, c, sn)[i + 2] == s[i + 2]
  {
    RotatedAt(s, c, sn, i);
    RotatedAt(s, c, sn, i + 1);
    if i + 2 < |s| {
      RotatedAt(s, c, sn, i + 2);
    }
  }

  /** `rotate_landmarks`: a copy of `landmarks` with every (x, y) pair rotated. */
  method RotateLandmarks(landmarks: array<real>, c: real, sn: real) returns (rotated: array<real>)
    requires landmarks.Length % 3 != 1
    ensures fresh(rotated)
    ensures rotated[..] == Rotated(landmarks[..], c, sn)
  {
    ghost var orig := landmarks[..];
    ghost var spec := Rotated(orig, c, sn);
    assert |spec| == landmarks.Length;
    rotated := new real[landmarks.Length];
    forall k | 0 <= k < landmarks.Length {
      rotated[k] := landmarks[k];
    }
    var i := 0;
    ghost var t: nat := 0;
    while i < landmarks.Length
      invariant i == 3 * t && i < landmarks.Length + 3
      invariant landmarks[..] == orig
      invariant forall k :: 0 <= k < i && k < landmarks.Length ==> rotated[k] == spec[k]
      invariant forall k :: i <= k < landmarks.Length ==> rotated[k] == orig[k]
    {
      RotatedTriple(orig, c, sn, i, t);
      var x, y := landmarks[i], landmarks[i + 1];
      assert x == orig[i] && y == orig[i + 1];
      ghost var prev := rotated[..];
      rotated[i] := RotX(c, sn, x, y);
      rotated[i + 1] := RotY(c, sn, x, y);
      forall k | 0 <= k < i + 3 && k < landmarks.Length ensures rotated[k] == spec[k] {
        if k < i {
          assert rotated[k] == prev[k];
        } else if k == i + 2 {
          assert rotated[k] == prev[k] == orig[k];
        }
      }
      i, t := i + 3, t + 1;
    }
    assert forall k :: 0 <= k < landmarks.Length ==> rotated[k] == spec[k];
  }

  /** The flip changes exactly the x entries (the nonzero ones), leaving y and z alone. */
  lemma FlipChangesOnlyX(s: seq<real>, i: int)
    requires 0 <= i < |s|
    ensures |Flipped(s)| == |s|
    ensures i % 3 != 0 ==> Flipped(s)[i] == s[i]
    ensures i % 3 == 0 ==> Flipped(s)[i] == -s[i] && (Flipped(s)[i] == s[i] <==> s[i] == 0.0)
  {
  }

  /** Flipping twice gives back the original array. */
  lemma FlipTwice(s: seq<real>)
    ensures Flipped(Flipped(s)) == s
  {
    assert forall i :: 0 <= i < |s| ==> Flipped(Flipped(s))[i] == s[i];
  }

  /** The rotation copies every z entry and keeps the length. */
  lemma RotateKeepsZ(s: seq<real>, c: real, sn: real, i: int)
    requires |s| % 3 != 1 && 0 <= i < |s| && i % 3 == 2
    ensures |Rotated(s, c, sn)| == |s| && Rotated(s, c, sn)[i] == s[i]
  {
  }

  /** Rotating by the zero angle (cosine 1, sine 0) leaves the array as it was. */
  lemma RotateByZero(s: seq<real>)
    requires |s| % 3 != 1
    ensures Rotated(s, 1.0, 0.0) == s
  {
    assert forall i :: 0 <= i < |s| ==> Rotated(s, 1.0, 0.0)[i] == s[i];
  }

  /** One pair rotated twice is the pair rotated once by the sum of the angles. */
  lemma PairRotatedTwice(c1: real, s1: real, c2: real, s2: real, x: real, y: real)
    ensures RotX(c2, s2, RotX(c1, s1, x, y), RotY(c1, s1, x, y)) == RotX(c2 * c1 - s2 * s1, s2 * c1 + c2 * s1, x, y)
    ensures RotY(c2, s2, RotX(c1, s1, x, y), RotY(c1, s1, x, y)) == RotY(c2 * c1 - s2 * s1, s2 * c1 + c2 * s1, x, y)
  {
    calc {
      RotX(c2, s2, RotX(c1, s1, x, y), RotY(c1, s1, x, y));
      c2 * (c1 * x - s1 * y) - s2 * (s1 * x + c1 * y);
      { assert c2 * (c1 * x - s1 * y) == c2 * c1 * x - c2 * s1 * y;
        assert s2 * (s1 * x + c1 * y) == s2 * s1 * x + s2 * c1 * y; }
      (c2 * c1 - s2 * s1) * x - (s2 * c1 + c2 * s1) * y;
    }
    calc {
      RotY(c2, s2, RotX(c1, s1, x, y), RotY(c1, s1, x, y));
      s2 * (c1 * x - s1 * y) + c2 * (s1 * x + c1 * y);
      { assert s2 * (c1 * x - s1 * y) == s2 * c1 * x - s2 * s1 * y;
        assert c2 * (s1 * x + c1 * y) == c2 * s1 * x + c2 * c1 * y; }
      (s2 * c1 + c2 * s1) * x + (c2 * c1 - s2 * s1) * y;
    }
  }

  /** Rotating twice is rotating once by the sum of the angles (the angle-addition formulas). */
  lemma RotateTwice(s: seq<real>, c1: real, s1: real, c2: real, s2: real)
    requires |s| % 3 != 1
    ensures Rotated(Rotated(s, c1, s1), c2, s2) == Rotated(s, c2 * c1 - s2 * s1, s2 * c1 + c2 * s1)
  {
    var r1 := Rotated(s, c1, s1);
    var lhs := Rotated(r1, c2, s2);
    var rhs := Rotated(s, c2 * c1 - s2 * s1, s2 * c1 + c2 * s1);
    forall i | 0 <= i < |s| ensures lhs[i] == rhs[i] {
      RotatedAt(s, c1, s1, i);
      RotatedAt(r1, c2, s2, i);
      RotatedAt(s, c2 * c1 - s2 * s1, s2 * c1 + c2 * s1, i);
      if i % 3 == 0 {
        RotatedAt(s, c1, s1, i + 1);
        PairRotatedTwice(c1, s1, c2, s2, s[i], s[i + 1]);
      } else if i % 3 == 1 {
        RotatedAt(s, c1, s1, i - 1);
        PairRotatedTwice(c1, s1, c2, s2, s[i - 1], s[i]);
      }
    }
  }

  /** Mirroring x turns a rotated pair into the mirrored pair rotated by the opposite angle. */
  lemma PairMirrored(c: real, sn: real, x: real, y: real)
    ensures -RotX(c, sn, x, y) == RotX(c, -sn, -x, y)
    ensures RotY(c, sn, x, y) == RotY(c, -sn, -x, y)
  {
  }

  /** Flipping a rotated array is rotating the flipped array by the opposite angle. */
  lemma FlipMirrorsRotation(s: seq<real>, c: real, sn: real)
    requires |s| % 3 != 1
    ensures Flipped(Rotated(s, c, sn)) == Rotated(Flipped(s), c, -sn)
  {
    var f := Flipped(s);
    var lhs := Flipped(Rotated(s, c, sn));
    var rhs := Rotated(f, c, -sn);
    forall i | 0 <= i < |s| ensures lhs[i] == rhs[i] {
      RotatedAt(s, c, sn, i);
      RotatedAt(f, c, -sn, i);
      if i % 3 == 0 {
        PairMirrored(c, sn, s[i], s[i + 1]);
        assert f[i] == -s[i] && f[i + 1] == s[i + 1];
      } else if i % 3 == 1 {
        PairMirrored(c, sn, s[i - 1], s[i]);
        assert f[i - 1] == -s[i - 1] && f[i] == s[i];
      }
    }
  }

  /** A rotation (cosine and sine on the unit circle) keeps a pair's squared length. */
  lemma PairKeepsLength(c: real, sn: real, x: real, y: real)
    requires c * c + sn * sn == 1.0
    ensures RotX(c, sn, x, y) * RotX(c, sn, x, y) + RotY(c, sn, x, y) * RotY(c, sn, x, y) == x * x + y * y
  {
    calc {
      RotX(c, sn, x, y) * RotX(c, sn, x, y) + RotY(c, sn, x, y) * RotY(c, sn, x, y);
      (c * x - sn * y) * (c * x - sn * y) + (sn * x + c * y) * (sn * x + c * y);
      (c * c + sn * sn) * (x * x + y * y);
      x * x + y * y;
    }
  }

  /** A rotation (cosine and sine on the unit circle) keeps each (x, y) pair's squared length. */
  lemma RotateKeepsLength(s: seq<real>, c: real, sn: real, i: int)
    requires |s| % 3 != 1 && 0 <= i < |s| && i % 3 == 0
    requires c * c + sn * sn == 1.0
    ensures i + 1 < |s|
    ensures Rotated(s, c, sn)[i] * Rotated(s, c, sn)[i] + Rotated(s, c, sn)[i + 1] * Rotated(s, c, sn)[i + 1]
         == s[i] * s[i] + s[i + 1] * s[i + 1]
  {
    RotatedAt(s, c, sn, i);
    RotatedAt(s, c, sn, i + 1);
    PairKeepsLength(c, sn, s[i], s[i + 1]);
  }
}
