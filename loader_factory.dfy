/**
 * ModelLoaderFactory: a fixed table from a lower-cased extension tag to the
 * loader that materialises a network from an artifact path.
 */
module LoaderFactory {
  import opened Wrappers
  import opened Foreign

  /** The two artifact formats with a registered loader. */
  datatype Format = Keras | SavedModel

  /** The exception a foreign loader raises (a missing or corrupt artifact, say). */
  datatype LoadFailure = LoadFailure(message: string)

  /** What constructing a model can raise. */
  datatype LoadError =
    | /** `ValueError("Unsupported model format: <extension>")`, carrying the tag as given. */
      UnsupportedFormat(extension: string)
    | /** The loader's own exception, propagated unchanged. */
      LoaderRaised(failure: LoadFailure)

  /** A foreign loader: the artifact path and the files it finds give a network or an exception. */
  type LoaderFunction = (string, Files) -> Result<Network, LoadFailure>

  /** The foreign loaders: `tf.keras.models.load_model` and `tf.saved_model.load`. */
  datatype Backend = Backend(loadKeras: LoaderFunction, loadSavedModel: LoaderFunction)

  /** The registered loaders, keyed by lower-case tag. */
  const Loaders: map<string, Format> := map["h5" := Keras, "pb" := SavedModel]

  /** The loader function registered for a format. */
  function Loader(backend: Backend, format: Format): LoaderFunction {
    match format
    case Keras => backend.loadKeras
    case SavedModel => backend.loadSavedModel
  }

  /** The table holds exactly `h5` for the Keras loader and `pb` for the SavedModel loader. */
  lemma LoaderTable(backend: Backend)
    ensures Loaders.Keys == {"h5", "pb"}
    ensures Loader(backend, Loaders["h5"]) == backend.loadKeras
    ensures Loader(backend, Loaders["pb"]) == backend.loadSavedModel
  {
  }

  /** `str.lower` on one character, for the ASCII letters. */
  function LowerChar(c: char): (d: char)
    ensures !('A' <= d <= 'Z')
    ensures 'A' <= c <= 'Z' ==> d == "abcdefghijklmnopqrstuvwxyz"[c as int - 'A' as int]
    ensures !('A' <= c <= 'Z') ==> d == c
  {
    if 'A' <= c <= 'Z' then (c as int - 'A' as int + 'a' as int) as char else c
  }

  /** `str.lower`: every character lowered, the length unchanged. */
  function Lower(s: string): (r: string)
    ensures |r| == |s|
    ensures forall i :: 0 <= i < |s| ==> r[i] == LowerChar(s[i])
  {
    if s == [] then [] else [LowerChar(s[0])] + Lower(s[1..])
  }

  /** Lowering twice is lowering once. */
  lemma LowerIdempotent(s: string)
    ensures Lower(Lower(s)) == Lower(s)
  {
    var l := Lower(s);
    assert forall i :: 0 <= i < |s| ==> Lower(l)[i] == l[i];
  }

  /**
   * `ModelLoaderFactory.get_loader(extension)`: the loader registered for
   * the lower-cased tag, or the unsupported-format error naming the tag.
   */
  function GetLoader(extension: string): (r: Result<Format, LoadError>)
    ensures r == Ok(Keras) <==> Lower(extension) == "h5"
    ensures r == Ok(SavedModel) <==> Lower(extension) == "pb"
    ensures r.Err? <==> Lower(extension) != "h5" && Lower(extension) != "pb"
    ensures r.Err? ==> r.error == UnsupportedFormat(extension)
  {
    var key := Lower(extension);
    if key in Loaders then Ok(Loaders[key]) else Err(UnsupportedFormat(extension))
  }

  /** Tags that lower to the same text select the same loader. */
  lemma GetLoaderIgnoresCase(a: string, b: string)
    requires Lower(a) == Lower(b)
    ensures GetLoader(a).Ok? <==> GetLoader(b).Ok?
    ensures GetLoader(a).Ok? ==> GetLoader(a) == GetLoader(b)
  {
  }

  /** Looking up a tag or its lower-cased form selects the same loader. */
  lemma GetLoaderOfLowered(extension: string)
    ensures GetLoader(Lower(extension)).Ok? <==> GetLoader(extension).Ok?
    ensures GetLoader(extension).Ok? ==> GetLoader(Lower(extension)) == GetLoader(extension)
  {
    LowerIdempotent(extension);
  }

  /** The characters that lower to a given character other than an upper-case letter. */
  lemma LowerCharPreimage(c: char, d: char)
    requires LowerChar(c) == d
    ensures 'a' <= d <= 'z' ==> c == d || c as int == d as int - 'a' as int + 'A' as int
    ensures !('a' <= d <= 'z') ==> c == d
  {
  }

  /** A two-character tag lowers to `[x, y]` exactly when each character lowers to its partner. */
  lemma LowerPair(s: string, x: char, y: char)
    requires Lower(s) == [x, y]
    ensures |s| == 2 && LowerChar(s[0]) == x && LowerChar(s[1]) == y
    ensures s == [s[0], s[1]]
  {
    assert Lower(s)[0] == LowerChar(s[0]) && Lower(s)[1] == LowerChar(s[1]);
  }

  /** Exactly the six spellings of "h5" and "pb" in any case are accepted. */
  lemma AcceptedTags(extension: string)
    ensures GetLoader(extension).Ok? <==>
      extension in {"h5", "H5", "pb", "pB", "Pb", "PB"}
  {
    var l := Lower(extension);
    if l == "h5" {
      LowerPair(extension, 'h', '5');
      LowerCharPreimage(extension[0], 'h');
      LowerCharPreimage(extension[1], '5');
    } else if l == "pb" {
      LowerPair(extension, 'p', 'b');
      LowerCharPreimage(extension[0], 'p');
      LowerCharPreimage(extension[1], 'b');
    }
  }
}
