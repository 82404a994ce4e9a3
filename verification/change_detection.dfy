/** The frame-differencing trigger (SDM_logic/change_detection.py): a new
    object is reported when enough of the picture differs from a reference
    picture and some changed region is large. Grey conversion with blurring
    and contour extraction are OpenCV internals and enter as functions; the
    camera is reduced to whether the detector holds it. */
module ChangeDetection {
  import opened Values

  /** A grey picture: rows of equal length. */
  predicate Rectangular(img: seq<seq<int>>) {
    forall i :: 0 <= i < |img| ==> |img[i]| == Width(img)
  }

  function Width(img: seq<seq<int>>): nat {
    if |img| == 0 then 0 else |img[0]|
  }

  type Image = img: seq<seq<int>> | Rectangular(img) witness []

  predicate SameShape(a: Image, b: Image) {
    |a| == |b| && Width(a) == Width(b)
  }

  /** Grey levels further apart than this mark a pixel as changed. */
  const PixelCutoff := 25
  /** Value `cv2.threshold` gives a changed pixel. */
  const MaskOn := 255
  /** A contour must enclose more than this area to count as an object. */
  const MinArea: real := 500.0

  function Abs(x: int): nat {
    if x < 0 then -x else x
  }

  predicate PixelChanged(a: int, b: int) {
    Abs(a - b) > PixelCutoff
  }

  /** `cv2.absdiff` followed by `cv2.threshold(diff, 25, 255, THRESH_BINARY)`. */
  function Mask(reference: Image, current: Image): (m: Image)
    requires SameShape(reference, current)
    ensures SameShape(m, reference)
    ensures forall i, j :: 0 <= i < |m| && 0 <= j < Width(m) ==>
      m[i][j] == (if PixelChanged(reference[i][j], current[i][j]) then MaskOn else 0)
  {
    var w := Width(reference);
    var m := seq(|reference|, i requires 0 <= i < |reference| =>
      seq(w, j requires 0 <= j < w => if PixelChanged(reference[i][j], current[i][j]) then MaskOn else 0));
    assert Rectangular(m);
    m
  }

  /** `np.count_nonzero` of one row. */
  function CountRow(row: seq<int>): (n: nat)
    ensures n <= |row|
    ensures (forall j :: 0 <= j < |row| ==> row[j] == 0) ==> n == 0
    ensures (forall j :: 0 <= j < |row| ==> row[j] != 0) ==> n == |row|
  {
    if |row| == 0 then 0
    else
      var rest := CountRow(row[1..]);
      assert forall j :: 1 <= j < |row| ==> row[1..][j - 1] == row[j];
      (if row[0] != 0 then 1 else 0) + rest
  }

  /** `np.count_nonzero` of a picture: never more than its pixel count. */
  function CountNonZero(img: seq<seq<int>>, w: nat): (n: nat)
    requires forall i :: 0 <= i < |img| ==> |img[i]| == w
    ensures n <= |img| * w
  {
    if |img| == 0 then 0
    else
      var rest := CountNonZero(img[1..], w);
      MulSucc(|img| - 1, w);
      CountRow(img[0]) + rest
  }

  lemma MulSucc(k: nat, w: nat)
    ensures (k + 1) * w == k * w + w
  {
  }

  /** A picture with no set pixel counts zero. */
  lemma {:induction false} CountAllZero(img: seq<seq<int>>, w: nat)
    requires forall i :: 0 <= i < |img| ==> |img[i]| == w
    requires forall i, j :: 0 <= i < |img| && 0 <= j < w ==> img[i][j] == 0
    ensures CountNonZero(img, w) == 0
    decreases |img|
  {
    if |img| > 0 {
      TailRows(img, w);
      CountAllZero(img[1..], w);
    }
  }

  /** A picture with every pixel set counts all of them. */
  lemma {:induction false} CountAllSet(img: seq<seq<int>>, w: nat)
    requires forall i :: 0 <= i < |img| ==> |img[i]| == w
    requires forall i, j :: 0 <= i < |img| && 0 <= j < w ==> img[i][j] != 0
    ensures CountNonZero(img, w) == |img| * w
    decreases |img|
  {
    if |img| > 0 {
      TailRows(img, w);
      CountAllSet(img[1..], w);
      MulSucc(|img| - 1, w);
    }
  }

  lemma TailRows(img: seq<seq<int>>, w: nat)
    requires |img| > 0 && forall i :: 0 <= i < |img| ==> |img[i]| == w
    ensures forall i, j :: 1 <= i < |img| && 0 <= j < w ==> img[1..][i - 1][j] == img[i][j]
    ensures forall i :: 0 <= i < |img| - 1 ==> img[1..][i] == img[i + 1]
  {
  }

  /** Counting a row split in two adds the counts of the halves. */
  lemma {:induction false} CountRowAppend(a: seq<int>, b: seq<int>)
    ensures CountRow(a + b) == CountRow(a) + CountRow(b)
    decreases |a|
  {
    if |a| > 0 {
      assert (a + b)[0] == a[0] && (a + b)[1..] == a[1..] + b;
      CountRowAppend(a[1..], b);
    } else {
      assert a + b == b;
    }
  }

  /** A one-pixel row counts one exactly when the pixel is set. */
  lemma CountRowPixel(p: int)
    ensures CountRow([p]) == if p != 0 then 1 else 0
  {
    assert [p][1..] == [];
  }

  /** Counting a picture split into an upper and a lower part adds the
      counts of the parts; a picture of one row counts that row. With
      `CountRowAppend` and `CountRowPixel` this pins the count down to the
      number of non-zero pixels. */
  lemma {:induction false} CountNonZeroAppend(a: seq<seq<int>>, b: seq<seq<int>>, w: nat)
    requires forall i :: 0 <= i < |a| ==> |a[i]| == w
    requires forall i :: 0 <= i < |b| ==> |b[i]| == w
    ensures CountNonZero(a + b, w) == CountNonZero(a, w) + CountNonZero(b, w)
    decreases |a|
  {
    if |a| > 0 {
      assert (a + b)[0] == a[0] && (a + b)[1..] == a[1..] + b;
      CountNonZeroAppend(a[1..], b, w);
    } else {
      assert a + b == b;
    }
  }

  lemma CountNonZeroRow(row: seq<int>)
    ensures CountNonZero([row], |row|) == CountRow(row)
  {
    assert [row][1..] == [];
  }

  /** The number of changed pixels between two pictures of one shape. */
  function ChangedCount(reference: Image, current: Image): (n: nat)
    requires SameShape(reference, current)
    ensures n <= |reference| * Width(reference)
  {
    var m := Mask(reference, current);
    CountNonZero(m, Width(m))
  }

  /** The `change_threshold` argument, as a fraction `num / den`. */
  datatype Fraction = Fraction(num: int, den: int)

  predicate ValidFraction(t: Fraction) {
    t.den > 0
  }

  /** The default threshold, one percent. */
  const DefaultThreshold := Fraction(1, 100)

  /** With the default threshold a pass triggers when more than one pixel
      in a hundred changed. */
  lemma DefaultThresholdOnePercent(changed: nat, pixels: nat)
    ensures RatioExceeds(changed, pixels, DefaultThreshold) <==> 100 * changed > pixels
  {
  }

  /** `changed / (h * w) > num / den`, decided on integers. */
  predicate RatioExceeds(changed: nat, pixels: nat, t: Fraction) {
    changed * t.den > t.num * pixels
  }

  /** Deciding by cross-multiplication gives the same answer as dividing. */
  lemma CrossMultiplication(changed: nat, pixels: nat, t: Fraction)
    requires pixels > 0 && ValidFraction(t)
    ensures RatioExceeds(changed, pixels, t) <==>
      (changed as real) / (pixels as real) > (t.num as real) / (t.den as real)
  {
    var c, p, a, d := changed as real, pixels as real, t.num as real, t.den as real;
    assert (c / p > a / d) <==> (c * d > a * p) by {
      assert c / p - a / d == (c * d - a * p) / (p * d);
      assert p * d > 0.0;
    }
    assert (changed * t.den) as real == c * d;
    assert (t.num * pixels) as real == a * p;
  }

  /** One pixel counts as changed exactly when it moved past the cutoff. */
  lemma ChangedPixel(a: int, b: int)
    ensures ChangedCount([[a]], [[b]]) == if PixelChanged(a, b) then 1 else 0
  {
    var m := Mask([[a]], [[b]]);
    assert |m| == 1 && |m[0]| == 1;
    assert m[0][0] == (if PixelChanged(a, b) then MaskOn else 0);
    assert m[0] == [m[0][0]];
    assert m == [m[0]];
    CountNonZeroRow(m[0]);
    CountRowPixel(m[0][0]);
  }

  /** Changed pixels of a row split in two add up. */
  lemma ChangedSideBySide(a1: seq<int>, a2: seq<int>, b1: seq<int>, b2: seq<int>)
    requires |a1| == |b1| && |a2| == |b2|
    ensures ChangedCount([a1 + a2], [b1 + b2]) == ChangedCount([a1], [b1]) + ChangedCount([a2], [b2])
  {
    var m := Mask([a1 + a2], [b1 + b2]);
    var m1 := Mask([a1], [b1]);
    var m2 := Mask([a2], [b2]);
    assert m[0] == m1[0] + m2[0];
    CountNonZeroRow(m[0]);
    CountNonZeroRow(m1[0]);
    CountNonZeroRow(m2[0]);
    assert m == [m[0]] && m1 == [m1[0]] && m2 == [m2[0]];
    CountRowAppend(m1[0], m2[0]);
  }

  /** Changed pixels of a picture split into an upper and a lower part add
      up. With `ChangedSideBySide` and `ChangedPixel` this makes the count
      the number of changed pixels. */
  lemma ChangedStacked(a1: Image, a2: Image, b1: Image, b2: Image)
    requires SameShape(a1, b1) && SameShape(a2, b2)
    requires |a1| > 0 && |a2| > 0 && Width(a1) == Width(a2)
    ensures Rectangular(a1 + a2) && Rectangular(b1 + b2)
    ensures ChangedCount(a1 + a2, b1 + b2) == ChangedCount(a1, b1) + ChangedCount(a2, b2)
  {
    assert forall i :: 0 <= i < |a1 + a2| ==> (a1 + a2)[i] == (if i < |a1| then a1[i] else a2[i - |a1|]);
    assert forall i :: 0 <= i < |b1 + b2| ==> (b1 + b2)[i] == (if i < |b1| then b1[i] else b2[i - |b1|]);
    var m := Mask(a1 + a2, b1 + b2);
    var m1 := Mask(a1, b1);
    var m2 := Mask(a2, b2);
    assert m == m1 + m2;
    CountNonZeroAppend(m1, m2, Width(a1));
  }

  /** The change ratio lies between zero and one. */
  lemma RatioInUnitRange(reference: Image, current: Image)
    requires SameShape(reference, current) && |reference| * Width(reference) > 0
    ensures 0.0 <= (ChangedCount(reference, current) as real) / ((|reference| * Width(reference)) as real) <= 1.0
  {
    var n := |reference| * Width(reference);
    FractionOfWhole(ChangedCount(reference, current), n);
  }

  lemma FractionOfWhole(c: nat, p: nat)
    requires 0 < p && c <= p
    ensures 0.0 <= (c as real) / (p as real) <= 1.0
  {
    var x := (c as real) / (p as real);
    assert x * (p as real) == c as real;
  }

  /** Whether some contour encloses more than the minimum area. */
  predicate LargeRegion(areas: seq<real>) {
    exists k :: 0 <= k < |areas| && areas[k] > MinArea
  }

  // ---------------------------------------------------------------------
  // Detector state

  /** The module's globals: the reference picture and whether the camera is
      held (`cap` is not `None`). */
  datatype Detector = Detector(reference: Option<Image>, holdsCamera: bool)

  const Fresh := Detector(None, false)

  /** What one `cap.read()` gives. */
  datatype CameraRead = ReadFailed | Captured(frame: Image)

  /** The outcome of a call and the globals it leaves, also when it raises. */
  datatype Step<T> = Step(result: Result<T, string>, after: Detector)

  /** `init_camera`: open a camera unless one is held; finding none raises. */
  function InitCamera(d: Detector, cameraFound: bool): (r: Step<()>)
    ensures r.result.Ok? <==> d.holdsCamera || cameraFound
    ensures r.result.Ok? ==> r.after == d.(holdsCamera := true)
    ensures r.result.Err? ==> r.after == d
  {
    if d.holdsCamera then Step(Ok(()), d)
    else if cameraFound then Step(Ok(()), d.(holdsCamera := true))
    else Step(Err("No working camera found"), d)
  }

  /** `release_camera`: give the camera up; the reference is kept. */
  function ReleaseCamera(d: Detector): (r: Detector)
    ensures !r.holdsCamera && r.reference == d.reference
  {
    d.(holdsCamera := false)
  }

  /** `capture_reference_frame`: make sure a camera is held, read a frame,
      and store its grey, blurred version; a failed read raises and keeps
      the old reference. */
  function CaptureReferenceFrame(d: Detector, cameraFound: bool, read: CameraRead, prepare: Image -> Image): (r: Step<()>)
    ensures r.result.Ok? <==> (d.holdsCamera || cameraFound) && read.Captured?
    ensures r.result.Ok? ==> r.after == Detector(Some(prepare(read.frame)), true)
    ensures r.result.Err? ==> r.after.reference == d.reference
    ensures (d.holdsCamera || cameraFound) ==> r.after.holdsCamera
  {
    var init := InitCamera(d, cameraFound);
    if init.result.Err? then init
    else
      match read
      case ReadFailed => Step(Err("Could not capture reference frame"), init.after)
      case Captured(frame) => Step(Ok(()), init.after.(reference := Some(prepare(frame))))
  }

  /** The decision itself, once both pictures are at hand. */
  predicate Triggers(reference: Image, current: Image, t: Fraction, areas: seq<real>)
    requires SameShape(reference, current) && ValidFraction(t)
  {
    RatioExceeds(ChangedCount(reference, current), |reference| * Width(reference), t) && LargeRegion(areas)
  }

  /** `detect_new_object`: compare a fresh grey frame with the reference;
      report an object, and release the camera, iff the changed fraction
      exceeds the threshold and some contour of the mask is large. Raises
      without a reference, without a camera, on pictures of different
      shapes (`cv2.absdiff`) and on an empty picture (division by zero). */
  function DetectNewObject(d: Detector, t: Fraction, cameraFound: bool, read: CameraRead,
                           prepare: Image -> Image, contourAreas: Image -> seq<real>): (r: Step<bool>)
    requires ValidFraction(t)
    ensures d.reference.None? ==> r == Step(Err("Reference frame not set"), d)
    ensures r.result.Err? <==>
      || d.reference.None?
      || !(d.holdsCamera || cameraFound)
      || (read.Captured? && (!SameShape(d.reference.value, prepare(read.frame))
                             || |d.reference.value| * Width(d.reference.value) == 0))
    ensures r.after.reference == d.reference
    ensures r.result == Ok(true) ==> !r.after.holdsCamera
    ensures r.result == Ok(false) ==> r.after.holdsCamera
    ensures d.reference.Some? && (d.holdsCamera || cameraFound) && read.ReadFailed? ==> r == Step(Ok(false), d.(holdsCamera := true))
    ensures r.result == Ok(true) <==>
      d.reference.Some? && (d.holdsCamera || cameraFound) && read.Captured?
      && SameShape(d.reference.value, prepare(read.frame))
      && |d.reference.value| * Width(d.reference.value) > 0
      && Triggers(d.reference.value, prepare(read.frame), t, contourAreas(Mask(d.reference.value, prepare(read.frame))))
  {
    if d.reference.None? then Step(Err("Reference frame not set"), d)
    else
      var init := InitCamera(d, cameraFound);
      if init.result.Err? then Step(Err(init.result.error), init.after)
      else
        var held := init.after;
        match read
        case ReadFailed => Step(Ok(false), held)
        case Captured(frame) =>
          var reference := d.reference.value;
          var gray := prepare(frame);
          if !SameShape(reference, gray) then Step(Err("absdiff: sizes differ"), held)
          else if |reference| * Width(reference) == 0 then Step(Err("division by zero"), held)
          else if Triggers(reference, gray, t, contourAreas(Mask(reference, gray))) then Step(Ok(true), ReleaseCamera(held))
          else Step(Ok(false), held)
  }

  // ---------------------------------------------------------------------
  // Properties

  /** Two equal pictures have no changed pixel. */
  lemma IdenticalFramesUnchanged(img: Image)
    ensures ChangedCount(img, img) == 0
  {
    var m := Mask(img, img);
    assert forall i, j :: 0 <= i < |m| && 0 <= j < Width(m) ==> m[i][j] == 0;
    CountAllZero(m, Width(m));
  }

  /** With a non-negative threshold, a frame equal to the reference never
      triggers, whatever the contours are. */
  lemma IdenticalFramesNeverTrigger(img: Image, t: Fraction, areas: seq<real>)
    requires ValidFraction(t) && t.num >= 0
    ensures !Triggers(img, img, t, areas)
  {
    IdenticalFramesUnchanged(img);
    assert t.num * (|img| * Width(img)) >= 0;
  }

  /** Which of the two pictures is the reference does not matter. */
  lemma ChangeSymmetric(a: Image, b: Image)
    requires SameShape(a, b)
    ensures ChangedCount(a, b) == ChangedCount(b, a)
  {
    assert Mask(a, b) == Mask(b, a) by {
      forall i | 0 <= i < |a|
        ensures Mask(a, b)[i] == Mask(b, a)[i]
      {
        forall j | 0 <= j < Width(a)
          ensures Mask(a, b)[i][j] == Mask(b, a)[i][j]
        {
          assert Abs(a[i][j] - b[i][j]) == Abs(b[i][j] - a[i][j]);
        }
      }
    }
  }

  /** A detection releases the camera and keeps the reference; a miss
      leaves the camera held. */
  lemma TriggerReleasesCamera(d: Detector, t: Fraction, cameraFound: bool, read: CameraRead,
                              prepare: Image -> Image, contourAreas: Image -> seq<real>)
    requires d.reference.Some? && d.holdsCamera && ValidFraction(t)
    ensures var r := DetectNewObject(d, t, cameraFound, read, prepare, contourAreas);
      && (r.result == Ok(true) ==> r.after == Detector(d.reference, false))
      && (r.result == Ok(false) ==> r.after == d)
  {
  }

  /** A picture in which every pixel moved by more than the cutoff changes
      completely, and then any threshold below one triggers on a large
      contour. */
  lemma FullChangeTriggers(reference: Image, current: Image, t: Fraction, areas: seq<real>)
    requires SameShape(reference, current) && |reference| * Width(reference) > 0
    requires forall i, j :: 0 <= i < |reference| && 0 <= j < Width(reference) ==> PixelChanged(reference[i][j], current[i][j])
    requires ValidFraction(t) && t.num < t.den && LargeRegion(areas)
    ensures Triggers(reference, current, t, areas)
  {
    var m := Mask(reference, current);
    var n := |reference| * Width(reference);
    assert forall i, j :: 0 <= i < |m| && 0 <= j < Width(m) ==> m[i][j] != 0;
    CountAllSet(m, Width(m));
    MoreThanFraction(n, t.num, t.den);
  }

  lemma MoreThanFraction(n: nat, a: int, d: int)
    requires n > 0 && a < d
    ensures n * d > a * n
  {
    assert n * d - a * n == n * (d - a);
  }
}
