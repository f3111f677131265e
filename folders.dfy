/**
 * The part of the file system the measurement service touches: the set of
 * directories that exist. A path is its sequence of components; the empty
 * path is the current directory, which always exists. Files, permissions and
 * path separators inside a component are not part of this model.
 */
module Folders {
  import opened Wrappers

  type Path = seq<string>

  /** pathlib's `p / part`: joining the empty string or "." leaves the path as it is. */
  function Join(p: Path, part: string): (r: Path)
    ensures part == "" || part == "." ==> r == p
    ensures part != "" && part != "." ==> |r| == |p| + 1 && r[..|p|] == p && r[|p|] == part
  {
    if part == "" || part == "." then p else p + [part]
  }

  /** Every non-empty leading part of `p`: what `mkdir(parents=True)` makes sure exists. */
  function Ancestry(p: Path): (r: set<Path>)
    ensures p != [] ==> p in r
    ensures forall k | 1 <= k <= |p| :: p[..k] in r
    ensures forall q | q in r :: q != [] && q <= p
  {
    assert p != [] ==> p[..|p|] == p;
    set k | 1 <= k <= |p| :: p[..k]
  }

  /** `mkdir` without `parents=True` raises FileNotFoundError when the parent is missing. */
  datatype FsError = FileNotFound(path: Path)

  class FileSystem {
    var dirs: set<Path>

    /** The directories form a tree: the parent of every directory is a directory or the current one. */
    ghost predicate Valid()
      reads this
    {
      forall p | p in dirs :: p != [] && (|p| > 1 ==> p[..|p| - 1] in dirs)
    }

    predicate Exists(p: Path)
      reads this
    {
      p == [] || p in dirs
    }

    constructor (initial: set<Path>)
      ensures dirs == initial
    {
      dirs := initial;
    }

    /** `p.mkdir(parents=True, exist_ok=True)`: `p` and all its ancestors exist afterwards; nothing is removed. */
    method MakeDirs(p: Path)
      modifies this
      ensures dirs == old(dirs) + Ancestry(p)
      ensures old(Valid()) ==> Valid()
    {
      ghost var wasValid := Valid();
      dirs := dirs + Ancestry(p);
      if wasValid {
        forall q | q in dirs && |q| > 1
          ensures q[..|q| - 1] in dirs
        {
          if q in Ancestry(p) {
            assert q[..|q| - 1] == p[..|q| - 1];
          }
        }
      }
    }

    /**
     * `p.mkdir(exist_ok=True)`: succeeds when `p` already exists or its parent
     * does, and otherwise fails and creates nothing.
     */
    method MakeDir(p: Path) returns (r: Outcome<FsError>)
      modifies this
      ensures r == Pass <==> old(Exists(p)) || |p| == 1 || p[..|p| - 1] in old(dirs)
      ensures r == Pass ==> dirs == old(dirs) + (if p == [] then {} else {p})
      ensures r != Pass ==> r == Fail(FileNotFound(p)) && dirs == old(dirs)
      ensures old(Valid()) ==> Valid()
    {
      if p == [] || p in dirs {
        return Pass;
      }
      if |p| > 1 && p[..|p| - 1] !in dirs {
        return Fail(FileNotFound(p));
      }
      dirs := dirs + {p};
      r := Pass;
    }
  }

  /** Making the same directories twice is making them once. */
  lemma MakeDirsIdempotent(dirs: set<Path>, p: Path)
    ensures dirs + Ancestry(p) + Ancestry(p) == dirs + Ancestry(p)
  {
  }
}
