/** The name under which both rotation programs save their OpenCV reference
    image: the manual output path with `_opencv_verify` inserted before its
    last '.', or appended when it has none. */
module VerifyPath {

  /** `std::string::find_last_of`: an index, or `npos`. */
  datatype Position = NotFound | At(index: nat)

  const Marker: string := "_opencv_verify"

  /** `path.find_last_of(".")`. */
  function LastDot(path: string): (r: Position)
    ensures r.At? ==> r.index < |path| && path[r.index] == '.'
    ensures r.At? ==> forall i :: r.index < i < |path| ==> path[i] != '.'
    ensures r.NotFound? ==> forall i :: 0 <= i < |path| ==> path[i] != '.'
  {
    if |path| == 0 then NotFound
    else if path[|path| - 1] == '.' then At(|path| - 1)
    else LastDot(path[..|path| - 1])
  }

  /** Any '.' with no '.' after it is the one `LastDot` finds. */
  lemma LastDotIsUnique(path: string, j: nat)
    requires j < |path| && path[j] == '.'
    requires forall i :: j < i < |path| ==> path[i] != '.'
    ensures LastDot(path) == At(j)
  {
    var r := LastDot(path);
    assert r.At?;
    assert !(r.index < j) && !(j < r.index);
  }

  /** `verify_output_path` from `output_path`. */
  function VerifyOutputPath(path: string): (r: string)
    ensures |r| == |path| + |Marker|
  {
    match LastDot(path)
    case At(k) => path[..k] + Marker + path[k..]
    case NotFound => path + Marker
  }

  /** Cutting a string inserted at `k` back out leaves the original. */
  lemma CutInserted(path: string, k: nat, m: string)
    requires k <= |path|
    ensures (path[..k] + m + path[k..])[..k] + (path[..k] + m + path[k..])[k + |m|..] == path
  {
    var r := path[..k] + m + path[k..];
    assert r[..k] == path[..k];
    assert r[k + |m|..] == path[k..];
    assert path[..k] + path[k..] == path;
  }

  /** Taking the marker back out of the name gives the manual output path. */
  lemma MarkerRemovable(path: string, k: nat)
    requires LastDot(path) == At(k)
    ensures VerifyOutputPath(path)[k..k + |Marker|] == Marker
    ensures VerifyOutputPath(path)[..k] + VerifyOutputPath(path)[k + |Marker|..] == path
  {
    CutInserted(path, k, Marker);
    assert (path[..k] + Marker + path[k..])[k..k + |Marker|] == Marker;
  }

  /** Without a '.', the name starts with the whole output path. */
  lemma MarkerAppended(path: string)
    requires LastDot(path) == NotFound
    ensures VerifyOutputPath(path)[..|path|] == path
    ensures VerifyOutputPath(path)[|path|..] == Marker
  {
    assert (path + Marker)[..|path|] == path;
    assert (path + Marker)[|path|..] == Marker;
  }

  /** The reference image keeps the manual output's extension: the last '.'
      of the new name starts the same suffix, and a name without a '.' still
      has none. */
  lemma ExtensionKept(path: string)
    ensures match LastDot(path)
      case At(k) => LastDot(VerifyOutputPath(path)) == At(k + |Marker|)
        && VerifyOutputPath(path)[k + |Marker|..] == path[k..]
      case NotFound => LastDot(VerifyOutputPath(path)) == NotFound
  {
    var r := VerifyOutputPath(path);
    match LastDot(path)
    case At(k) =>
      assert r[k + |Marker|..] == path[k..];
      forall i | k + |Marker| < i < |r|
        ensures r[i] != '.'
      {
        assert r[i] == path[i - |Marker|];
      }
      LastDotIsUnique(r, k + |Marker|);
    case NotFound =>
      forall i | 0 <= i < |r|
        ensures r[i] != '.'
      {
        if i >= |path| {
          assert r[i] == Marker[i - |path|];
        }
      }
  }
}
