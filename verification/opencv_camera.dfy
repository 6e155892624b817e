/**
 * The Qt scanner's OpenCV camera: the `active` / `currentCameraIndex`
 * flags across `start`, `stop` and `captureFrame`, the matrix-type to
 * image-format map, and camera discovery.
 */
module OpenCvCamera {
  import opened Wrappers
  import Text

  /** The camera object's state: `active`, `currentCameraIndex`, whether the capture device is open, whether the frame timer runs. */
  datatype Camera = Camera(active: bool, index: int, deviceOpen: bool, timerRunning: bool)
  {
    /** An inactive camera has index -1, nothing open and no timer; an active one has both. */
    predicate Valid()
    {
      (active <==> deviceOpen) && (active <==> timerRunning) && (!active ==> index == -1)
    }
  }

  /** The constructed camera. */
  function NewCamera(): (c: Camera)
    ensures c.Valid() && !c.active
  {
    Camera(false, -1, false, false)
  }

  /** `stop`: an active camera stops its timer, releases the device and forgets its index; an inactive one is untouched. */
  function Stop(c: Camera): (d: Camera)
    requires c.Valid()
    ensures d.Valid() && !d.active && d.index == -1
    ensures !c.active ==> d == c
  {
    if c.active then Camera(false, -1, false, false) else c
  }

  /** Stopping twice is stopping once. */
  lemma StopIdempotent(c: Camera)
    requires c.Valid()
    ensures Stop(Stop(c)) == Stop(c)
  {
  }

  /** The result of `start`: the new state, the return value and the `error` signal, if any. */
  datatype Started = Started(camera: Camera, ok: bool, error: Option<string>)

  /**
   * `start`: stops a running camera first, then opens the device and reads a
   * test frame. `openOk` and `frameOk` are what the device reports; the
   * resolution negotiation in between changes no flag.
   */
  function Start(c: Camera, cameraIndex: int, openOk: bool, frameOk: bool): (r: Started)
    requires c.Valid()
    ensures r.camera.Valid()
    ensures r.ok <==> openOk && frameOk
    ensures r.ok ==> r.camera.active && r.camera.index == cameraIndex && r.error.None?
    ensures !r.ok ==> r.camera == NewCamera() && r.error.Some?
    ensures !openOk ==> r.error == Some("Failed to open camera " + Text.IntToString(cameraIndex))
    ensures openOk && !frameOk ==> r.error == Some("Camera " + Text.IntToString(cameraIndex) + " opened but cannot read frames")
  {
    var stopped := Stop(c);
    if !openOk then Started(stopped, false, Some("Failed to open camera " + Text.IntToString(cameraIndex)))
    else if !frameOk then
      Started(stopped, false, Some("Camera " + Text.IntToString(cameraIndex) + " opened but cannot read frames"))
    else Started(Camera(true, cameraIndex, true, true), true, None)
  }

  /** A failed `start` leaves even a previously running camera stopped, not running on its old index. */
  lemma FailedStartStops(c: Camera, cameraIndex: int, openOk: bool, frameOk: bool)
    requires c.Valid() && c.active
    requires !(openOk && frameOk)
    ensures Start(c, cameraIndex, openOk, frameOk).camera == Stop(c)
  {
  }

  // ---------------------------------------------------------------------------
  // Matrix types and image formats

  /** OpenCV's element depths (`CV_8U` .. `CV_16F`) and the channel limit. */
  const Depth8U: int := 0
  const Depth16U: int := 2
  const Depth32F: int := 5
  const MaxChannels: int := 512

  /** `CV_MAKETYPE(depth, channels)`. */
  function CvType(depth: int, channels: int): int
    requires 0 <= depth < 8 && 1 <= channels <= MaxChannels
  {
    depth + (channels - 1) * 8
  }

  const Cv8UC1: int := 0
  const Cv8UC3: int := 16
  const Cv8UC4: int := 24

  /** A `QImage` format, or the null image. */
  datatype ImageFormat = NullImage | Grayscale8 | Rgb888 | Rgba8888

  /** `matToQImage`: three 8-bit matrix types have a matching image format; any other type gives a null image. */
  function MatToQImage(matType: int): (f: ImageFormat)
    ensures f != NullImage <==> matType in {Cv8UC1, Cv8UC3, Cv8UC4}
  {
    if matType == Cv8UC3 then Rgb888
    else if matType == Cv8UC1 then Grayscale8
    else if matType == Cv8UC4 then Rgba8888
    else NullImage
  }

  /** A matrix type fixes its depth and channel count. */
  lemma CvTypeInjective(d1: int, c1: int, d2: int, c2: int)
    requires 0 <= d1 < 8 && 1 <= c1 <= MaxChannels
    requires 0 <= d2 < 8 && 1 <= c2 <= MaxChannels
    requires CvType(d1, c1) == CvType(d2, c2)
    ensures d1 == d2 && c1 == c2
  {
    assert (d1 - d2) == (c2 - c1) * 8;
  }

  /**
   * Over all well-formed matrix types, the image is non-null exactly for
   * 8-bit matrices with 1, 3 or 4 channels, and the format follows the
   * channel count.
   */
  lemma MatToQImageByChannels(depth: int, channels: int)
    requires 0 <= depth < 8 && 1 <= channels <= MaxChannels
    ensures MatToQImage(CvType(depth, channels)) != NullImage <==> depth == Depth8U && channels in {1, 3, 4}
    ensures depth == Depth8U && channels == 1 ==> MatToQImage(CvType(depth, channels)) == Grayscale8
    ensures depth == Depth8U && channels == 3 ==> MatToQImage(CvType(depth, channels)) == Rgb888
    ensures depth == Depth8U && channels == 4 ==> MatToQImage(CvType(depth, channels)) == Rgba8888
  {
    var t := CvType(depth, channels);
    if t == Cv8UC1 { CvTypeInjective(depth, channels, 0, 1); }
    if t == Cv8UC3 { CvTypeInjective(depth, channels, 0, 3); }
    if t == Cv8UC4 { CvTypeInjective(depth, channels, 0, 4); }
  }

  /**
   * `cvtColor(frame, rgb, COLOR_BGR2RGB)`: a 3- or 4-channel 8-bit, 16-bit or
   * float matrix becomes a 3-channel one of the same depth; anything else
   * makes OpenCV throw (`None`).
   */
  function BgrToRgb(depth: int, channels: int): (r: Option<int>)
    requires 0 <= depth < 8 && 1 <= channels <= MaxChannels
    ensures r.Some? <==> depth in {Depth8U, Depth16U, Depth32F} && channels in {3, 4}
    ensures r.Some? ==> r.value == CvType(depth, 3)
  {
    if depth in {Depth8U, Depth16U, Depth32F} && channels in {3, 4} then Some(CvType(depth, 3)) else None
  }

  /** A signal the camera emits. */
  datatype CameraSignal = FrameReadyImage(format: ImageFormat) | FrameReadyPixmap(format: ImageFormat) | Error(message: string)

  /** What one timer tick does: signals, or an exception out of `cvtColor`. */
  datatype Tick = Emitted(signals: seq<CameraSignal>) | Thrown

  /**
   * `captureFrame` for a device that reads `readOk` (and a non-empty frame
   * when `frameNonEmpty`) of the given depth and channel count. The camera
   * state never changes.
   */
  function CaptureFrame(c: Camera, readOk: bool, frameNonEmpty: bool, depth: int, channels: int): (t: Tick)
    requires c.Valid()
    requires 0 <= depth < 8 && 1 <= channels <= MaxChannels
    ensures !c.active ==> t == Emitted([])
    ensures c.active && !(readOk && frameNonEmpty) ==> t == Emitted([Error("Failed to capture frame from camera")])
  {
    if !c.active || !c.deviceOpen then Emitted([])
    else if !readOk || !frameNonEmpty then Emitted([Error("Failed to capture frame from camera")])
    else match BgrToRgb(depth, channels)
      case None => Thrown
      case Some(rgbType) =>
        var format := MatToQImage(rgbType);
        Emitted([FrameReadyImage(format), FrameReadyPixmap(format)])
  }

  /**
   * A frame read from an active camera is emitted twice with one format:
   * RGB888 for an 8-bit frame, but a null image for 16-bit or float frames,
   * which `matToQImage` does not handle after the colour conversion.
   */
  lemma CapturedFormat(c: Camera, depth: int, channels: int)
    requires c.Valid() && c.active
    requires 0 <= depth < 8 && 1 <= channels <= MaxChannels
    requires depth in {Depth8U, Depth16U, Depth32F} && channels in {3, 4}
    ensures var t := CaptureFrame(c, true, true, depth, channels);
      t.Emitted? && |t.signals| == 2
      && t.signals[0] == FrameReadyImage(if depth == Depth8U then Rgb888 else NullImage)
      && t.signals[1] == FrameReadyPixmap(t.signals[0].format)
  {
    MatToQImageByChannels(depth, 3);
  }

  // ---------------------------------------------------------------------------
  // Discovery

  const ProbedIndices: nat := 10

  /** The indices below `n` that open, ascending (reference definition). */
  function Openable(openable: set<int>, n: nat): seq<nat>
  {
    if n == 0 then [] else Openable(openable, n - 1) + (if n - 1 in openable then [n - 1] else [])
  }

  /** "Camera i". */
  function CameraName(i: nat): string
  {
    "Camera " + Text.NatToString(i)
  }

  /** The names of a list of indices. */
  function Names(indices: seq<nat>): (r: seq<string>)
    ensures |r| == |indices|
    ensures forall k :: 0 <= k < |r| ==> r[k] == CameraName(indices[k])
  {
    if indices == [] then [] else Names(indices[..|indices| - 1]) + [CameraName(indices[|indices| - 1])]
  }

  /** `availableCameras`: tries indices 0..9; `openable` is the set the device layer can open. */
  method AvailableCameras(openable: set<int>) returns (cameras: seq<string>)
    ensures cameras == Names(Openable(openable, ProbedIndices))
  {
    cameras := ProbeCameras(openable, ProbedIndices);
  }

  /** The probing loop over indices below `n`. */
  method ProbeCameras(openable: set<int>, n: nat) returns (cameras: seq<string>)
    ensures cameras == Names(Openable(openable, n))
  {
    cameras := [];
    var i: nat := 0;
    while i < n
      invariant i <= n
      invariant cameras == Names(Openable(openable, i))
    {
      NamesStep(openable, i);
      if i in openable {
        cameras := cameras + [CameraName(i)];
      }
      i := i + 1;
    }
  }

  lemma NamesStep(openable: set<int>, i: nat)
    ensures Names(Openable(openable, i + 1))
         == Names(Openable(openable, i)) + (if i in openable then [CameraName(i)] else [])
  {
    var front := Openable(openable, i);
    if i in openable {
      assert Openable(openable, i + 1) == front + [i];
      assert (front + [i])[..|front|] == front;
    } else {
      assert Openable(openable, i + 1) == front;
    }
  }

  /** The listed indices are exactly the openable ones below `n`, strictly ascending. */
  lemma {:induction false} OpenableIff(openable: set<int>, n: nat)
    ensures forall i :: i in Openable(openable, n) <==> 0 <= i < n && i in openable
    ensures forall k, m :: 0 <= k < m < |Openable(openable, n)| ==> Openable(openable, n)[k] < Openable(openable, n)[m]
  {
    if n > 0 {
      OpenableIff(openable, n - 1);
      var front := Openable(openable, n - 1);
      assert forall k :: 0 <= k < |front| ==> front[k] < n - 1 by {
        forall k | 0 <= k < |front| ensures front[k] < n - 1 {
          assert front[k] in front;
        }
      }
    }
  }

  /** Camera names are told apart by their index. */
  lemma CameraNameInjective(i: nat, j: nat)
    requires CameraName(i) == CameraName(j)
    ensures i == j
  {
    var p := "Camera ";
    assert CameraName(i)[|p|..] == Text.NatToString(i);
    assert CameraName(j)[|p|..] == Text.NatToString(j);
    Text.ParseNatToString(i);
    Text.ParseNatToString(j);
  }

  /** `isAvailable`: whether any index 0..9 opens. */
  function IsAvailable(openable: set<int>): (r: bool)
    ensures r <==> exists i :: 0 <= i < ProbedIndices && i in openable
  {
    exists i :: 0 <= i < ProbedIndices && i in openable
  }

  /** A camera is available exactly when the list of cameras is non-empty. */
  lemma AvailableIffListed(openable: set<int>)
    ensures IsAvailable(openable) <==> Names(Openable(openable, ProbedIndices)) != []
  {
    OpenableIff(openable, ProbedIndices);
    var listed := Openable(openable, ProbedIndices);
    if listed != [] {
      assert listed[0] in listed;
    }
  }
}
