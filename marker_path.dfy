/**
 * The completion marker of scripts/segment.py: an empty file whose path
 * encodes the model, the tomogram and the fold, and which the workflow
 * scheduler waits for.  The fold enters as its printed form `str(fold)`.
 */
module MarkerPath {

  const MarkerDir: string := ".done_patterns"
  const MarkerSuffix: string := ".segmentation.done"

  /** Lines 44-45. */
  function MarkerFilePath(modelName: string, tomoName: string, fold: string): (p: string)
    ensures |p| == |MarkerDir| + 1 + |modelName| + 1 + |tomoName| + 1 + |fold| + |MarkerSuffix|
    ensures p[..|MarkerDir| + 1] == MarkerDir + "/"
    ensures p[|p| - |MarkerSuffix|..] == MarkerSuffix
  {
    ".done_patterns/" + modelName + "." + tomoName + "." + fold + ".segmentation.done"
  }

  /** Index just past the last '/' of `p`, 0 when there is none
      (`p.rfind('/') + 1`). */
  function AfterLastSlash(p: string): (i: nat)
    ensures i <= |p|
    ensures i > 0 ==> p[i - 1] == '/'
    ensures forall j :: i <= j < |p| ==> p[j] != '/'
  {
    if p == [] then 0
    else if p[|p| - 1] == '/' then |p|
    else AfterLastSlash(p[..|p| - 1])
  }

  predicate AllSlashes(s: string) {
    forall j :: 0 <= j < |s| ==> s[j] == '/'
  }

  /** `s.rstrip('/')`. */
  function StripTrailingSlashes(s: string): (r: string)
    ensures |r| <= |s| && r == s[..|r|]
    ensures r != [] ==> r[|r| - 1] != '/'
    ensures AllSlashes(s[|r|..])
  {
    if s != [] && s[|s| - 1] == '/' then
      var front := s[..|s| - 1];
      var r := StripTrailingSlashes(front);
      assert s[|r|..] == front[|r|..] + [s[|s| - 1]];
      r
    else s
  }

  /** POSIX `os.path.dirname`, which line 110 applies to the marker path. */
  function Dirname(p: string): (d: string)
    ensures |d| <= |p| && d == p[..|d|]
    ensures d == [] <==> AfterLastSlash(p) == 0
  {
    var head := p[..AfterLastSlash(p)];
    assert head[0..] == head;
    if head != [] && !AllSlashes(head) then StripTrailingSlashes(head) else head
  }

  /** POSIX `os.path.basename`. */
  function Basename(p: string): (b: string)
    ensures |b| <= |p| && b == p[|p| - |b|..]
    ensures forall j :: 0 <= j < |b| ==> b[j] != '/'
    ensures |b| < |p| ==> p[|p| - |b| - 1] == '/'
  {
    p[AfterLastSlash(p)..]
  }

  lemma {:induction false} AfterLastSlashOfJoin(dir: string, name: string)
    requires '/' !in name
    ensures AfterLastSlash(dir + "/" + name) == |dir| + 1
  {
    var p := dir + "/" + name;
    if name != [] {
      var front := name[..|name| - 1];
      assert name[|name| - 1] in name;
      assert p[..|p| - 1] == dir + "/" + front;
      assert '/' !in front by {
        forall j | 0 <= j < |front| ensures front[j] != '/' { assert front[j] == name[j]; }
      }
      AfterLastSlashOfJoin(dir, front);
    }
  }

  /** `dirname(dir + "/" + name)` is `dir` and `basename` is `name`, for a
      slash-free name and a directory that does not end in '/'. */
  lemma SplitJoin(dir: string, name: string)
    requires '/' !in name
    requires dir != [] && dir[|dir| - 1] != '/'
    ensures Dirname(dir + "/" + name) == dir
    ensures Basename(dir + "/" + name) == name
  {
    var p := dir + "/" + name;
    AfterLastSlashOfJoin(dir, name);
    assert p[..|dir| + 1] == dir + "/";
    assert !AllSlashes(dir + "/") by { assert (dir + "/")[|dir| - 1] != '/'; }
    assert (dir + "/")[..|dir|] == dir;
    assert p[|dir| + 1..] == name;
  }

  /** The file-name part of the marker path. */
  function MarkerFileName(modelName: string, tomoName: string, fold: string): string {
    modelName + "." + tomoName + "." + fold + MarkerSuffix
  }

  lemma MarkerPathIsJoin(modelName: string, tomoName: string, fold: string)
    ensures MarkerFilePath(modelName, tomoName, fold) == MarkerDir + "/" + MarkerFileName(modelName, tomoName, fold)
  {
  }

  lemma MarkerFileNameHasNoSlash(modelName: string, tomoName: string, fold: string)
    requires '/' !in modelName && '/' !in tomoName && '/' !in fold
    ensures '/' !in MarkerFileName(modelName, tomoName, fold)
  {
  }

  /** With slash-free names, the marker sits directly in the marker directory
      and its file name is the three names and the suffix joined by dots. */
  lemma MarkerPathSplits(modelName: string, tomoName: string, fold: string)
    requires '/' !in modelName && '/' !in tomoName && '/' !in fold
    ensures Dirname(MarkerFilePath(modelName, tomoName, fold)) == MarkerDir
    ensures Basename(MarkerFilePath(modelName, tomoName, fold)) == MarkerFileName(modelName, tomoName, fold)
  {
    MarkerPathIsJoin(modelName, tomoName, fold);
    MarkerFileNameHasNoSlash(modelName, tomoName, fold);
    SplitJoin(MarkerDir, MarkerFileName(modelName, tomoName, fold));
  }

  /** A prefix of a string is recovered from it by its length. */
  lemma PrefixOf(q: string, rest: string)
    ensures (q + rest)[..|q|] == q
  {
  }

  /** For one model and tomogram, distinct folds get distinct markers. */
  lemma MarkerPathDistinguishesFolds(modelName: string, tomoName: string, fold1: string, fold2: string)
    requires MarkerFilePath(modelName, tomoName, fold1) == MarkerFilePath(modelName, tomoName, fold2)
    ensures fold1 == fold2
  {
    var head := ".done_patterns/" + modelName + "." + tomoName + ".";
    PrefixOf(head + fold1, MarkerSuffix);
    PrefixOf(head + fold2, MarkerSuffix);
    assert fold1 == (head + fold1)[|head|..];
    assert fold2 == (head + fold2)[|head|..];
  }

  /** For one model and fold, distinct tomograms get distinct markers. */
  lemma MarkerPathDistinguishesTomograms(modelName: string, tomo1: string, tomo2: string, fold: string)
    requires MarkerFilePath(modelName, tomo1, fold) == MarkerFilePath(modelName, tomo2, fold)
    ensures tomo1 == tomo2
  {
    var head := ".done_patterns/" + modelName + ".";
    var p := MarkerFilePath(modelName, tomo1, fold);
    assert |tomo1| == |tomo2|;
    assert p == head + tomo1 + "." + fold + MarkerSuffix;
    assert p == head + tomo2 + "." + fold + MarkerSuffix;
    assert p[..|head| + |tomo1|] == head + tomo1;
    assert p[..|head| + |tomo2|] == head + tomo2;
    assert tomo1 == (head + tomo1)[|head|..];
    assert tomo2 == (head + tomo2)[|head|..];
  }

  /** Names containing dots can collide: the path alone does not tell the
      tomogram from the fold. */
  lemma MarkerPathCanCollide()
    ensures MarkerFilePath("m", "a.b", "1") == MarkerFilePath("m", "a", "b.1")
  {
  }
}
