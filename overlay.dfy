/**
 * The decorative filter applied to the segmented face photo during registration
 * (`POST /api/registrar`): the filter name picks an overlay file, and the glasses or the
 * animal mask is sized and placed from three landmark points of the detected face.
 *
 * Coordinates are exact reals with the image's y axis pointing down. Jimp rounds sizes
 * and positions to whole pixels and does the compositing; neither is modelled.
 */
module Overlay {
  import opened Wrappers
  import opened Text

  datatype Point = Point(x: real, y: real)

  /** The landmark groups of a 68-point detection that the placement reads. */
  datatype FaceLandmarks = FaceLandmarks(leftEye: seq<Point>, rightEye: seq<Point>, jawOutline: seq<Point>)

  /** The group sizes every 68-point landmark set has: six points per eye, seventeen on
      the jaw outline. */
  predicate Has68PointShape(lm: FaceLandmarks)
  {
    |lm.leftEye| == 6 && |lm.rightEye| == 6 && |lm.jawOutline| == 17
  }

  /** The size of the overlay image as read from its file. */
  datatype ImageSize = ImageSize(width: real, height: real)

  /** Where the resized overlay goes: top-left corner and size. */
  datatype Placement = Placement(x: real, y: real, width: real, height: real)

  function Abs(r: real): real
  {
    if r < 0.0 then -r else r
  }

  function Min(a: real, b: real): real { if a <= b then a else b }
  function Max(a: real, b: real): real { if a <= b then b else a }

  /** The outer corner of the first eye group and the fourth point of the second. */
  function OuterLeft(lm: FaceLandmarks): Point requires Has68PointShape(lm) { lm.leftEye[0] }
  function OuterRight(lm: FaceLandmarks): Point requires Has68PointShape(lm) { lm.rightEye[3] }
  /** The chin: the middle point of the jaw outline. */
  function Chin(lm: FaceLandmarks): Point requires Has68PointShape(lm) { lm.jawOutline[8] }

  /** Horizontal distance between the two eye corners. */
  function EyeSpan(lm: FaceLandmarks): real
    requires Has68PointShape(lm)
  {
    Abs(OuterRight(lm).x - OuterLeft(lm).x)
  }

  /** Vertical distance between the left eye corner and the chin. */
  function FaceHeight(lm: FaceLandmarks): real
    requires Has68PointShape(lm)
  {
    Abs(Chin(lm).y - OuterLeft(lm).y)
  }

  // ---------------------------------------------------------------------------
  // Filter name and overlay file
  // ---------------------------------------------------------------------------

  /** `(filtro || "ninguno").toLowerCase()`: an absent or empty field means "ninguno",
      which is already lower-case; a sent name is lower-cased character by character. */
  function SelectedFilter(filtro: Option<string>): (name: string)
    ensures IsLowerCase(name)
    ensures !Truthy(filtro) ==> name == "ninguno"
    ensures Truthy(filtro) ==> |name| == |filtro.value| && forall i :: 0 <= i < |name| ==> name[i] == LowerChar(filtro.value[i])
  {
    if !Truthy(filtro) then
      NingunoIsLowerCase("ninguno");
      "ninguno"
    else
      ToLowerIsIdempotent(filtro.value);
      ToLower(filtro.value)
  }

  lemma NingunoIsLowerCase(s: string)
    requires s == "ninguno"
    ensures IsLowerCase(s) && ToLower(s) == s
  {
    assert forall i :: 0 <= i < |s| ==> 'a' <= s[i] <= 'z';
    ToLowerIsIdempotent(s);
  }

  /** The filter names that have an overlay image. */
  predicate HasOverlay(name: string)
  {
    name == "perro" || name == "gato" || name == "lentes" || name == "mapache"
  }

  /** The filter switch: each known name maps to the file of the same name, any other
      name to the empty string. */
  function OverlayFile(name: string): (file: string)
    ensures file != "" <==> HasOverlay(name)
    ensures file != "" ==> file == name + ".png"
  {
    if name == "perro" then "perro.png"
    else if name == "gato" then "gato.png"
    else if name == "lentes" then "lentes.png"
    else if name == "mapache" then "mapache.png"
    else ""
  }

  // ---------------------------------------------------------------------------
  // Placement rules
  // ---------------------------------------------------------------------------

  /** Glasses: resized to 2.4 eye spans wide with the height following the overlay's
      aspect ratio, centred on the eye corners' midpoint, and raised so that the eye line
      sits 1/1.9 of the overlay height below its top. */
  function GlassesPlacement(lm: FaceLandmarks, overlay: ImageSize): (p: Placement)
    requires Has68PointShape(lm)
    requires overlay.width > 0.0
    ensures p.width == 2.4 * EyeSpan(lm)
    ensures p.height * overlay.width == overlay.height * p.width
    ensures p.x + p.width / 2.0 == (OuterLeft(lm).x + OuterRight(lm).x) / 2.0
    ensures p.y + p.height / 1.9 == (OuterLeft(lm).y + OuterRight(lm).y) / 2.0
  {
    var centerX := (OuterLeft(lm).x + OuterRight(lm).x) / 2.0;
    var centerY := (OuterLeft(lm).y + OuterRight(lm).y) / 2.0;
    var width := EyeSpan(lm) * 2.4;
    var height := overlay.height * width / overlay.width;
    Placement(centerX - width / 2.0, centerY - height / 1.9, width, height)
  }

  /** Animal masks: resized to 2.4 eye spans by 2.2 face heights and centred
      horizontally on the eye corners' midpoint; the top edge lands 0.84 face heights
      above the left eye corner. */
  function AnimalPlacement(lm: FaceLandmarks): (p: Placement)
    requires Has68PointShape(lm)
    ensures p.width == 2.4 * EyeSpan(lm) && p.height == 2.2 * FaceHeight(lm)
    ensures p.x + p.width / 2.0 == (OuterLeft(lm).x + OuterRight(lm).x) / 2.0
    ensures p.y == OuterLeft(lm).y - 0.84 * FaceHeight(lm)
  {
    var faceHeight := FaceHeight(lm) * 2.2;
    var faceWidth := EyeSpan(lm) * 2.4;
    var centerX := (OuterLeft(lm).x + OuterRight(lm).x) / 2.0 - faceWidth / 2.0;
    var centerY := OuterLeft(lm).y - faceHeight * 0.45 + FaceHeight(lm) * 0.15;
    Placement(centerX, centerY, faceWidth, faceHeight)
  }

  /** The glasses reach past both eye corners and straddle the eye line. */
  lemma GlassesCoverEyeCorners(lm: FaceLandmarks, overlay: ImageSize)
    requires Has68PointShape(lm)
    requires overlay.width > 0.0 && overlay.height > 0.0
    ensures var p := GlassesPlacement(lm, overlay);
      && p.x <= Min(OuterLeft(lm).x, OuterRight(lm).x)
      && Max(OuterLeft(lm).x, OuterRight(lm).x) <= p.x + p.width
      && p.y <= (OuterLeft(lm).y + OuterRight(lm).y) / 2.0 <= p.y + p.height
  {
    var p := GlassesPlacement(lm, overlay);
    assert p.width >= 0.0;
    assert p.height >= 0.0 by {
      assert p.height * overlay.width >= 0.0;
    }
  }

  /** When the chin is below the eye, the mask reaches from above the eye corners to
      below the chin and past both eye corners sideways. */
  lemma AnimalMaskCoversFace(lm: FaceLandmarks)
    requires Has68PointShape(lm)
    requires OuterLeft(lm).y <= Chin(lm).y
    ensures var p := AnimalPlacement(lm);
      && p.y <= OuterLeft(lm).y
      && Chin(lm).y <= p.y + p.height
      && p.x <= Min(OuterLeft(lm).x, OuterRight(lm).x)
      && Max(OuterLeft(lm).x, OuterRight(lm).x) <= p.x + p.width
  {
  }

  // ---------------------------------------------------------------------------
  // The filter step
  // ---------------------------------------------------------------------------

  /** What the filter step does to the segmented photo. */
  datatype PhotoEffect =
    | ContrastAndBrightness            // no overlay file for the name: contrast 0.2, brightness 0.1
    | OverlayFileMissing(file: string) // warning; photo written unchanged
    | LandmarksMissing                 // warning; photo written unchanged
    | Glasses(placement: Placement)
    | AnimalMask(name: string, placement: Placement)
    | OverlayAtOrigin                  // composite at (0, 0) for any other overlay name

  /** The branch structure of the filter step. `overlayExists` says whether the overlay
      file is on disk, `landmarks` is the detection's landmark set (`None` when no face
      or no landmarks were found), `overlay` the overlay image's size. */
  function ChoosePhotoEffect(filtro: Option<string>, overlayExists: bool,
                             landmarks: Option<FaceLandmarks>, overlay: ImageSize): PhotoEffect
    requires landmarks.Some? ==> Has68PointShape(landmarks.value)
    requires overlay.width > 0.0
  {
    var name := SelectedFilter(filtro);
    var file := OverlayFile(name);
    if file == "" then ContrastAndBrightness
    else if !overlayExists then OverlayFileMissing(file)
    else if landmarks.None? then LandmarksMissing
    else if name == "lentes" then Glasses(GlassesPlacement(landmarks.value, overlay))
    else if name == "perro" || name == "gato" || name == "mapache" then
      AnimalMask(name, AnimalPlacement(landmarks.value))
    else OverlayAtOrigin
  }

  /** The filter step's outcome by case: only the four known names (in any letter case)
      get an overlay, the glasses and masks are placed by their rules, and the fallback
      composite at the origin can never be reached. */
  lemma PhotoEffectCases(filtro: Option<string>, overlayExists: bool,
                         landmarks: Option<FaceLandmarks>, overlay: ImageSize)
    requires landmarks.Some? ==> Has68PointShape(landmarks.value)
    requires overlay.width > 0.0
    ensures var e := ChoosePhotoEffect(filtro, overlayExists, landmarks, overlay);
      && e != OverlayAtOrigin
      && (e == ContrastAndBrightness <==> !HasOverlay(SelectedFilter(filtro)))
      && (e.Glasses? <==> SelectedFilter(filtro) == "lentes" && overlayExists && landmarks.Some?)
      && (e.AnimalMask? <==> HasOverlay(SelectedFilter(filtro)) && SelectedFilter(filtro) != "lentes"
                             && overlayExists && landmarks.Some?)
      && (filtro.None? ==> e == ContrastAndBrightness)
  {
    NoFilterIsNinguno(filtro);
    var name := SelectedFilter(filtro);
    assert OverlayFile(name) == "" <==> !HasOverlay(name);
  }

  /** An absent or empty filter field selects "ninguno", which has no overlay. */
  lemma NoFilterIsNinguno(filtro: Option<string>)
    ensures !Truthy(filtro) ==> SelectedFilter(filtro) == "ninguno" && !HasOverlay(SelectedFilter(filtro))
  {
  }
}
