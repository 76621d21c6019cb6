/** The motion rule shared by both recorders: the changed regions between
    two frames are abstracted to their areas, and motion is present when one
    of them is larger than the minimum. */
module Motion {

  const MIN_MOTION_AREA: int := 500

  /** `any(area > MIN_MOTION_AREA for area in areas)`. */
  predicate HasMotion(areas: seq<int>) {
    exists k :: 0 <= k < |areas| && areas[k] > MIN_MOTION_AREA
  }
}
