/** `path.basename` of Node's POSIX path module: the last segment of a path,
    ignoring trailing separators. */
module PosixPath {

  const Separator := '/'

  /** The path without its trailing separators. */
  function StripTrailingSeparators(p: string): (r: string)
    ensures |r| <= |p| && r == p[..|r|]
    ensures forall i :: |r| <= i < |p| ==> p[i] == Separator
    ensures |r| > 0 ==> r[|r| - 1] != Separator
    decreases |p|
  {
    if |p| > 0 && p[|p| - 1] == Separator then StripTrailingSeparators(p[..|p| - 1]) else p
  }

  /** Index just past the last separator of p, or 0 when p has none. */
  function SegmentStart(p: string): (k: nat)
    ensures k <= |p|
    ensures k > 0 ==> p[k - 1] == Separator
    ensures forall i :: k <= i < |p| ==> p[i] != Separator
    decreases |p|
  {
    if |p| == 0 then 0
    else if p[|p| - 1] == Separator then |p|
    else SegmentStart(p[..|p| - 1])
  }

  /** `path.basename(p)`: the text after the last separator once trailing
      separators are dropped; empty for an empty path or one made only of
      separators. */
  function Basename(p: string): (r: string)
    ensures Separator !in r
    ensures |r| <= |p|
    // the last segment: a suffix of the stripped path that is all of it or follows a separator
    ensures var q := StripTrailingSeparators(p);
            && |r| <= |q| && r == q[|q| - |r|..]
            && (|r| == |q| || q[|q| - |r| - 1] == Separator)
  {
    var q := StripTrailingSeparators(p);
    q[SegmentStart(q)..]
  }

  /** A path without separators is its own basename. */
  lemma BasenameOfPlainName(name: string)
    requires Separator !in name
    ensures Basename(name) == name
  {
    assert StripTrailingSeparators(name) == name by {
      if |name| > 0 {
        assert name[|name| - 1] in name;
      }
    }
  }

  /** Joining a directory and a file name with a separator, then taking the
      basename, gives the file name back. */
  lemma {:induction false} BasenameOfJoin(dir: string, name: string)
    requires |name| > 0 && Separator !in name
    ensures Basename(dir + [Separator] + name) == name
  {
    var p := dir + [Separator] + name;
    assert p[|p| - 1] == name[|name| - 1];
    assert name[|name| - 1] in name;
    assert StripTrailingSeparators(p) == p;
    var k := SegmentStart(p);
    assert p[|dir|] == Separator;
    assert k == |dir| + 1;
    assert p[k..] == name;
  }

  /** Taking the basename twice changes nothing. */
  lemma BasenameIdempotent(p: string)
    ensures Basename(Basename(p)) == Basename(p)
  {
    BasenameOfPlainName(Basename(p));
  }
}
