/**
 * The image checks of the hosted editor's upload path (hosted_editor/editor.js):
 * the GIF animation heuristic, the sampled PNG transparency test and the
 * output-type and width decision of the client-side optimiser.
 */
module ImageFormat {
  import opened Wrappers

  // -----------------------------------------------------------------------
  // GIF animation heuristic
  // -----------------------------------------------------------------------

  /** A frame marker at offset `i`: a Graphic Control Extension introducer
      and label (0x21 0xF9, GIF89a section 23) whose Image Separator (0x2C,
      section 20) sits 8 bytes further on. Only offsets with `i + 9` inside
      the data are examined. */
  predicate IsFrameMarker(bytes: seq<bv8>, i: int) {
    0 <= i && i + 9 < |bytes| && bytes[i] == 0x21 && bytes[i + 1] == 0xF9 && bytes[i + 8] == 0x2C
  }

  /** At least two frame markers: the heuristic's notion of an animated GIF. */
  predicate HasTwoFrameMarkers(bytes: seq<bv8>) {
    exists i, j | 0 <= i < j < |bytes| :: IsFrameMarker(bytes, i) && IsFrameMarker(bytes, j)
  }

  /** Scans the offsets in order, counting frame markers, and answers as
      soon as a second one is found. */
  method IsAnimatedGif(bytes: seq<bv8>) returns (animated: bool)
    ensures animated <==> HasTwoFrameMarkers(bytes)
  {
    var frames := 0;
    ghost var first := -1;
    var i := 0;
    while i + 9 < |bytes|
      invariant 0 <= i
      invariant 0 <= frames <= 1
      invariant frames == 0 ==> forall j :: 0 <= j < i ==> !IsFrameMarker(bytes, j)
      invariant frames == 1 ==> 0 <= first < i && IsFrameMarker(bytes, first)
      invariant frames == 1 ==> forall j :: 0 <= j < i && j != first ==> !IsFrameMarker(bytes, j)
      decreases |bytes| - i
    {
      if bytes[i] == 0x21 && bytes[i + 1] == 0xF9 && bytes[i + 8] == 0x2C {
        frames := frames + 1;
        if frames > 1 {
          assert IsFrameMarker(bytes, first) && IsFrameMarker(bytes, i);
          return true;
        }
        first := i;
      }
      i := i + 1;
    }
    assert forall j :: i <= j ==> !IsFrameMarker(bytes, j);
    return false;
  }

  /** Fewer than ten bytes can never be animated. */
  lemma ShortDataIsStatic(bytes: seq<bv8>)
    requires |bytes| < 10
    ensures !HasTwoFrameMarkers(bytes)
  {
  }

  /** One frame as GIF89a lays it out: a Graphic Control Extension (0x21,
      0xF9, block size 4, four bytes of control data, block terminator 0x00)
      followed by the frame's Image Descriptor, which starts with 0x2C. */
  function ControlledFrame(control: seq<bv8>, image: seq<bv8>): (r: seq<bv8>)
    requires |control| == 4
    ensures |r| == 9 + |image| && r[0] == 0x21 && r[1] == 0xF9 && r[8] == 0x2C
  {
    [0x21, 0xF9, 0x04] + control + [0x00, 0x2C] + image
  }

  /** Two frames that each carry a Graphic Control Extension are detected
      as animated, whatever the header before them, as long as at least one
      byte follows the second frame's separator. */
  lemma TwoControlledFramesAreAnimated(header: seq<bv8>, c1: seq<bv8>, i1: seq<bv8>, c2: seq<bv8>, i2: seq<bv8>)
    requires |c1| == 4 && |c2| == 4 && i2 != []
    ensures HasTwoFrameMarkers(header + ControlledFrame(c1, i1) + ControlledFrame(c2, i2))
  {
    var f1 := ControlledFrame(c1, i1);
    var f2 := ControlledFrame(c2, i2);
    var bytes := header + f1 + f2;
    var p, q := |header|, |header| + |f1|;
    assert bytes[p..p + |f1|] == f1;
    assert bytes[q..] == f2;
    assert bytes[p] == f1[0] && bytes[p + 1] == f1[1] && bytes[p + 8] == f1[8];
    assert bytes[q] == f2[0] && bytes[q + 1] == f2[1] && bytes[q + 8] == f2[8];
    assert IsFrameMarker(bytes, p) && IsFrameMarker(bytes, q);
  }

  // -----------------------------------------------------------------------
  // PNG transparency sample
  // -----------------------------------------------------------------------

  /** The alpha byte of every 20th pixel of RGBA data: offsets 3, 83, 163, ... */
  function SampleIndex(k: nat): nat {
    3 + 80 * k
  }

  /** Some sampled alpha byte is below 255. */
  predicate HasTranslucentSample(rgba: seq<bv8>) {
    exists k: nat | k < |rgba| && SampleIndex(k) < |rgba| :: rgba[SampleIndex(k)] < 255
  }

  /** Reads the canvas pixels (`None` when reading them fails, which the
      source treats as transparent) and tests the sampled alpha bytes. */
  method PngHasTransparency(pixels: Option<seq<bv8>>) returns (transparent: bool)
    ensures pixels.None? ==> transparent
    ensures pixels.Some? ==> (transparent <==> HasTranslucentSample(pixels.value))
  {
    if pixels.None? {
      return true;
    }
    var data := pixels.value;
    var i := 3;
    ghost var k: nat := 0;
    while i < |data|
      invariant i == SampleIndex(k)
      invariant forall j: nat :: j < k ==> SampleIndex(j) < |data| && data[SampleIndex(j)] == 255
      decreases |data| - i
    {
      if data[i] < 255 {
        return true;
      }
      i := i + 80;
      k := k + 1;
    }
    forall j: nat | SampleIndex(j) < |data| ensures data[SampleIndex(j)] == 255 {
      assert j < k;
    }
    return false;
  }

  /** Fully opaque pixel data is never reported as transparent. */
  lemma OpaqueDataHasNoTranslucentSample(rgba: seq<bv8>)
    requires forall i :: 0 <= i < |rgba| ==> rgba[i] == 255
    ensures !HasTranslucentSample(rgba)
  {
  }

  // -----------------------------------------------------------------------
  // Output decision of the optimiser
  // -----------------------------------------------------------------------

  /** The encodings the optimiser writes: `image/jpeg`, `image/png`, `image/gif`. */
  datatype ImageType = Jpeg | Png | Gif

  /** The encoding the optimiser writes and the width it draws at: a PNG
      stays PNG only when transparent, a GIF stays GIF only when animated,
      everything else becomes JPEG; the width is capped at `maxWidth`. The
      canvas pixels (after resizing) and the original bytes are inputs. */
  method ChooseOutput(sourceType: seq<char>, width: nat, maxWidth: nat,
                      pixels: Option<seq<bv8>>, bytes: seq<bv8>)
    returns (outputType: ImageType, outputWidth: nat)
    ensures outputType == Png <==>
      sourceType == "image/png" && (pixels.None? || HasTranslucentSample(pixels.value))
    ensures outputType == Gif <==> sourceType == "image/gif" && HasTwoFrameMarkers(bytes)
    ensures outputWidth <= maxWidth && outputWidth <= width
    ensures outputWidth == width || outputWidth == maxWidth
  {
    outputWidth := width;
    if width > maxWidth {
      outputWidth := maxWidth;
    }
    outputType := Jpeg;
    if sourceType == "image/png" {
      var transparent := PngHasTransparency(pixels);
      outputType := if transparent then Png else Jpeg;
    }
    if sourceType == "image/gif" {
      var animated := IsAnimatedGif(bytes);
      outputType := if animated then Gif else Jpeg;
    }
  }
}
