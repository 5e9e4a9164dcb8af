/** Value types shared by the correspondence filter, the track store and the
    continuity scanner: pixel and 3D coordinates, detected keypoints, and the
    optional/result wrappers used for lookups and error returns. */
module Features {

  /** A 2D pixel position (the `pt` of a detected keypoint). */
  datatype Pixel = Pixel(x: real, y: real)

  /** A triangulated 3D coordinate. */
  datatype Point3 = Point3(x: real, y: real, z: real)

  /** A detected keypoint; only its pixel position is used by the core. */
  datatype KeyPoint = KeyPoint(pt: Pixel)

  datatype Option<+T> = None | Some(value: T)

  datatype Result<+T, +E> = Ok(value: T) | Err(error: E)
}
