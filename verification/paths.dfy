/**
 * File-system paths as sequences of components, and the relativization the
 * printer applies to the source file of every log location.
 */
module Paths {
  import opened Wrappers

  /** A path as its components; an absolute path starts with the root component "/". */
  type Path = seq<string>

  /** `base` is a component-wise prefix of `path`. */
  predicate IsPrefix(base: Path, path: Path)
  {
    |base| <= |path| && path[..|base|] == base
  }

  /**
   * `Path::strip_prefix`: walks both paths component by component; succeeds
   * with the components of `path` that follow `base` exactly when `base` is a
   * prefix of `path`.
   */
  function StripPrefix(path: Path, base: Path): (r: Option<Path>)
    ensures r.Some? <==> IsPrefix(base, path)
    ensures r.Some? ==> base + r.value == path
    decreases base
  {
    if base == [] then Some(path)
    else if path == [] || path[0] != base[0] then None
    else
      var r := StripPrefix(path[1..], base[1..]);
      PrefixAfterHead(base, path);
      assert r.Some? ==> base + r.value == [base[0]] + (base[1..] + r.value);
      r
  }

  /** Once the first components agree, `base` is a prefix of `path` iff their tails are. */
  lemma PrefixAfterHead(base: Path, path: Path)
    requires base != [] && path != [] && path[0] == base[0]
    ensures IsPrefix(base, path) <==> IsPrefix(base[1..], path[1..])
  {
    if IsPrefix(base[1..], path[1..]) {
      forall i | 0 <= i < |base|
        ensures path[i] == base[i]
      {
        if i > 0 {
          assert path[1..][..|base| - 1][i - 1] == path[i];
          assert base[1..][i - 1] == base[i];
        }
      }
      assert path[..|base|] == base;
    }
    if IsPrefix(base, path) {
      assert path[1..][..|base| - 1] == path[..|base|][1..];
    }
  }

  /** Stripping a directory from a path built under it gives back the relative part. */
  lemma {:induction false} StripPrefixRoundTrip(base: Path, rest: Path)
    ensures StripPrefix(base + rest, base) == Some(rest)
  {
    var r := StripPrefix(base + rest, base);
    assert (base + rest)[..|base|] == base;
    assert base + r.value == base + rest;
    assert r.value == (base + r.value)[|base|..] == (base + rest)[|base|..] == rest;
  }

  /**
   * The file the printer shows for a location: `file` relative to `cwd` when it
   * lies under `cwd`, the full path otherwise.
   */
  function Relativize(file: Path, cwd: Path): (r: Path)
    ensures IsPrefix(cwd, file) ==> cwd + r == file
    ensures !IsPrefix(cwd, file) ==> r == file
  {
    match StripPrefix(file, cwd)
    case Some(rel) => rel
    case None => file
  }

  /** A file under /home/u/proj is shown relative to it; /other/lib.c is shown in full. */
  lemma RelativizeExamples()
    ensures Relativize(["/", "home", "u", "proj", "src", "main.c"], ["/", "home", "u", "proj"]) == ["src", "main.c"]
    ensures Relativize(["/", "other", "lib.c"], ["/", "home", "u", "proj"]) == ["/", "other", "lib.c"]
  {
    StripPrefixRoundTrip(["/", "home", "u", "proj"], ["src", "main.c"]);
    assert ["/", "home", "u", "proj", "src", "main.c"] == ["/", "home", "u", "proj"] + ["src", "main.c"];
  }
}
