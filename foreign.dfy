/**
 * Values that the orchestration core receives from its collaborators and
 * never looks inside: decoded images (OpenCV/NumPy rasters), the per-image
 * output of a loaded network, preprocessing strategies and loaded networks.
 */
module Foreign {

  /** A decoded raster: height x width x channels, pixel values row by row. */
  datatype Image = Image(height: nat, width: nat, channels: nat, pixels: seq<int>)

  /** One output row of a network for one image (class scores). */
  type Scores = seq<real>

  /** A preprocessing strategy's `apply`: a pure image-to-image transform. */
  type Strategy = Image -> Image

  /**
   * A loaded network, seen through `model.predict(np.expand_dims(x, axis=0))[0]`:
   * the single-image batch in and the first output row out.
   */
  type Network = Image -> Scores

  /**
   * The artifact files as a loader finds them at the moment it runs: path to
   * bytes. Files can appear, vanish or change between two loads.
   */
  type Files = map<string, seq<bv8>>
}
