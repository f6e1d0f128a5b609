/** The configuration constants the modelled rules read (config.py and main.py). */
module Config {

  /** Approved clothing classes, in normalised (lower-case) form. */
  const CompliantClothes: set<string> :=
    {"full sleeves shirt", "half sleeves shirt", "pants", "kurti", "id card"}

  /** Prohibited clothing classes, in normalised form. */
  const NonCompliantClothes: set<string> := {"t-shirt", "shorts"}

  /** Detections below this confidence (on the detector's 0..1 scale) are skipped. */
  const MinConfidence: real := 0.5

  /** Good frames in a row needed before the webcam stream starts detecting. */
  const WebcamRequiredGoodFrames: int := 5

  /** Bad frames in a row after which the webcam stream goes back to distance checking. */
  const WebcamAllowedBadFrames: int := 10

  /** Largest accepted upload, in bytes (10 MiB). */
  const MaxFileSize: int := 10 * 1024 * 1024

  /** Accepted upload extensions, with their leading dot. */
  const AllowedExtensions: set<string> := {".jpg", ".jpeg", ".png", ".bmp", ".webp"}

  const MinImageDimension: int := 50
  const MaxImageDimension: int := 4096

  lemma ConfiguredSetsDisjoint()
    ensures CompliantClothes !! NonCompliantClothes
  {
  }
}
