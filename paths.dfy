/**
 * The POSIX behaviour of Node's `path.resolve`, `path.relative`,
 * `path.dirname` and `path.basename`, on paths seen as lists of segments.
 * A normalised absolute path is the list of its segments below the root.
 */
module PosixPath {
  import opened Strings

  predicate IsSegment(s: string) {
    s != "" && s != "." && s != ".." && '/' !in s
  }

  /** A normalised absolute path: no empty, `.` or `..` segment is left. */
  predicate IsNormal(p: seq<string>) {
    forall i :: 0 <= i < |p| ==> IsSegment(p[i])
  }

  predicate NoSeparator(segs: seq<string>) {
    forall i :: 0 <= i < |segs| ==> '/' !in segs[i]
  }

  /** One segment of normalisation: empty and `.` vanish, `..` climbs (never above the root). */
  function Step(acc: seq<string>, seg: string): seq<string> {
    if seg == "" || seg == "." then acc
    else if seg == ".." then (if acc == [] then [] else acc[..|acc| - 1])
    else acc + [seg]
  }

  function Fold(acc: seq<string>, segs: seq<string>): seq<string>
    decreases |segs|
  {
    if segs == [] then acc else Fold(Step(acc, segs[0]), segs[1..])
  }

  function Normalize(segs: seq<string>): seq<string> {
    Fold([], segs)
  }

  lemma {:induction false} FoldNormal(acc: seq<string>, segs: seq<string>)
    requires IsNormal(acc) && NoSeparator(segs)
    ensures IsNormal(Fold(acc, segs))
    decreases |segs|
  {
    if segs != [] {
      FoldNormal(Step(acc, segs[0]), segs[1..]);
    }
  }

  lemma {:induction false} FoldAppend(acc: seq<string>, a: seq<string>, b: seq<string>)
    ensures Fold(acc, a + b) == Fold(Fold(acc, a), b)
    decreases |a|
  {
    if a == [] {
      assert a + b == b;
    } else {
      assert (a + b)[1..] == a[1..] + b;
      FoldAppend(Step(acc, a[0]), a[1..], b);
    }
  }

  /** Plain segments are appended as they are. */
  lemma {:induction false} FoldPlain(acc: seq<string>, segs: seq<string>)
    requires IsNormal(segs)
    ensures Fold(acc, segs) == acc + segs
    decreases |segs|
  {
    if segs != [] {
      FoldPlain(acc + [segs[0]], segs[1..]);
      assert acc + [segs[0]] + segs[1..] == acc + segs;
    }
  }

  function Ups(n: nat): (r: seq<string>)
    ensures |r| == n
    ensures forall i :: 0 <= i < n ==> r[i] == ".."
  {
    if n == 0 then [] else [".."] + Ups(n - 1)
  }

  /** Each `..` drops one trailing segment. */
  lemma {:induction false} FoldUps(acc: seq<string>, n: nat)
    requires n <= |acc|
    ensures Fold(acc, Ups(n)) == acc[..|acc| - n]
    decreases n
  {
    if n > 0 {
      assert Ups(n)[1..] == Ups(n - 1);
      FoldUps(acc[..|acc| - 1], n - 1);
      assert acc[..|acc| - 1][..|acc| - 1 - (n - 1)] == acc[..|acc| - n];
    }
  }

  predicate IsAbsolute(spec: string) {
    |spec| > 0 && spec[0] == '/'
  }

  lemma SplitNoSeparators(s: string)
    ensures NoSeparator(Split(s, '/'))
  {
    var parts := Split(s, '/');
    forall i | 0 <= i < |parts| ensures '/' !in parts[i] {
      assert parts[i] in parts;
    }
  }

  /**
   * `path.resolve(dir, spec)`: an absolute specifier replaces the directory;
   * otherwise the specifier's segments follow the directory's.
   */
  function Resolve(dir: seq<string>, spec: string): (p: seq<string>)
    ensures NoSeparator(dir) ==> IsNormal(p)
  {
    var segs := if IsAbsolute(spec) then Split(spec, '/') else dir + Split(spec, '/');
    if NoSeparator(dir) then
      SplitNoSeparators(spec);
      FoldNormal([], segs);
      Normalize(segs)
    else
      Normalize(segs)
  }

  /** The number of leading segments two paths share. */
  function CommonPrefix(a: seq<string>, b: seq<string>): (k: nat)
    ensures k <= |a| && k <= |b|
    ensures a[..k] == b[..k]
    ensures k < |a| && k < |b| ==> a[k] != b[k]
  {
    if a == [] || b == [] || a[0] != b[0] then 0
    else
      var k := CommonPrefix(a[1..], b[1..]);
      assert a[..k + 1] == [a[0]] + a[1..][..k];
      assert b[..k + 1] == [b[0]] + b[1..][..k];
      k + 1
  }


  lemma NormalSuffix(p: seq<string>, k: nat)
    requires IsNormal(p) && k <= |p|
    ensures IsNormal(p[k..])
  {
    forall i | 0 <= i < |p[k..]| ensures IsSegment(p[k..][i]) {
      assert p[k..][i] == p[k + i];
    }
  }

  /** The segments `path.relative` joins: `..` for each segment left, then the rest of `to`. */
  function RelativeParts(from: seq<string>, to: seq<string>): seq<string> {
    var k := CommonPrefix(from, to);
    Ups(|from| - k) + to[k..]
  }

  /** `path.relative(from, to)`: climb out of what `from` does not share, then descend into `to`. */
  function Relative(from: seq<string>, to: seq<string>): (r: string)
    ensures IsNormal(to) ==> (r == "" <==> from == to)
  {
    var parts := RelativeParts(from, to);
    var k := CommonPrefix(from, to);
    if parts == [] then
      assert from == from[..k] && to == to[..k];
      ""
    else
      assert |Join(parts, "/")| >= |parts[0]|;
      assert IsNormal(to) ==> parts[0] != "" by {
        if IsNormal(to) && |from| - k == 0 { assert parts[0] == to[k]; }
      }
      assert k < |from| || k < |to|;
      Join(parts, "/")
  }

  lemma RelativePartsNoSeparator(from: seq<string>, to: seq<string>)
    requires IsNormal(to)
    ensures forall p :: p in RelativeParts(from, to) ==> '/' !in p
  {
    var k := CommonPrefix(from, to);
    var ups := Ups(|from| - k);
    var parts := ups + to[k..];
    NormalSuffix(to, k);
    forall p | p in parts
      ensures '/' !in p
    {
      var i :| 0 <= i < |parts| && parts[i] == p;
      if i >= |ups| { assert p == to[k..][i - |ups|]; }
    }
  }

  /** Climbing out of all but a shared prefix, then descending, lands on `to`. */
  lemma {:induction false} FoldClimbDescend(from: seq<string>, to: seq<string>, k: nat)
    requires k <= |from| && k <= |to| && from[..k] == to[..k]
    requires IsNormal(to[k..])
    ensures Fold(from, Ups(|from| - k) + to[k..]) == to
  {
    FoldAppend(from, Ups(|from| - k), to[k..]);
    FoldUps(from, |from| - k);
    assert from[..|from| - (|from| - k)] == to[..k];
    FoldPlain(to[..k], to[k..]);
    assert to[..k] + to[k..] == to;
  }

  /** Normalising `from` followed by the relative parts lands on `to`. */
  lemma FoldRelativeParts(from: seq<string>, to: seq<string>)
    requires IsNormal(to)
    ensures Fold(from, RelativeParts(from, to)) == to
  {
    var k := CommonPrefix(from, to);
    NormalSuffix(to, k);
    FoldClimbDescend(from, to, k);
  }

  /** Resolving the relative path against `from` leads back to `to`. */
  lemma RelativeRoundTrip(from: seq<string>, to: seq<string>)
    requires IsNormal(from) && IsNormal(to)
    ensures Normalize(from + Split(Relative(from, to), '/')) == to
  {
    var parts := RelativeParts(from, to);
    FoldPlain([], from);
    assert [] + from == from;
    FoldRelativeParts(from, to);
    if parts == [] {
      assert Split(Relative(from, to), '/') == [""];
      FoldAppend([], from, [""]);
      assert Fold(from, [""]) == Fold(from, []);
    } else {
      RelativePartsNoSeparator(from, to);
      SplitJoin(parts, '/');
      FoldAppend([], from, parts);
    }
  }

  /** Drops the empty parts that trailing separators leave, keeping at least one part. */
  function TrimTrailing(parts: seq<string>): (r: seq<string>)
    requires |parts| >= 1
    ensures 1 <= |r| <= |parts| && r == parts[..|r|]
    ensures |r| == 1 || r[|r| - 1] != ""
    ensures forall i :: |r| <= i < |parts| ==> parts[i] == ""
    decreases |parts|
  {
    if |parts| > 1 && parts[|parts| - 1] == "" then
      var r := TrimTrailing(parts[..|parts| - 1]);
      assert parts[..|parts| - 1][..|r|] == parts[..|r|];
      r
    else parts
  }

  /** The parts of the resource path, trailing separators ignored as `path.posix` does. */
  function PathParts(resource: string): (parts: seq<string>)
    ensures |parts| >= 1
    ensures forall i :: 0 <= i < |parts| ==> '/' !in parts[i]
  {
    var all := Split(resource, '/');
    var parts := TrimTrailing(all);
    assert forall i :: 0 <= i < |parts| ==> parts[i] == all[i] && all[i] in all;
    parts
  }

  /** `path.basename(resource)`: the last part, trailing separators ignored. */
  function Basename(resource: string): (name: string)
    ensures '/' !in name
  {
    var parts := PathParts(resource);
    parts[|parts| - 1]
  }

  /** The segments of `path.dirname(resource)`: all parts but the last, trailing separators ignored. */
  function DirSegments(resource: string): (dir: seq<string>)
    ensures NoSeparator(dir)
  {
    var parts := PathParts(resource);
    parts[..|parts| - 1]
  }

  /** A trailing separator changes neither the base name nor the directory. */
  lemma TrailingSeparatorIgnored(resource: string)
    ensures Basename(resource + "/") == Basename(resource)
    ensures DirSegments(resource + "/") == DirSegments(resource)
  {
    SplitAppendSeparator(resource, '/');
    var all := Split(resource, '/');
    assert (all + [""])[..|all|] == all;
    assert PathParts(resource + "/") == PathParts(resource);
  }

  lemma {:induction false} JoinTrailingEmpties(parts: seq<string>, m: nat)
    requires |parts| > m
    requires forall i :: |parts| - m <= i < |parts| ==> parts[i] == ""
    ensures Join(parts, "/") == Join(parts[..|parts| - m], "/") + Repeat('/', m)
    decreases m
  {
    if m > 0 {
      var front := parts[..|parts| - 1];
      assert parts == front + [""];
      JoinAppendEmpty(front, "/");
      JoinTrailingEmpties(front, m - 1);
      assert front[..|front| - (m - 1)] == parts[..|parts| - m];
      assert Repeat('/', m - 1) + "/" == Repeat('/', m);
    } else {
      assert parts[..|parts|] == parts;
      assert Join(parts, "/") + [] == Join(parts, "/");
    }
  }

  /**
   * The resource is its directory, a separator and its basename, followed by
   * the trailing separators `path.posix` ignores; there are none when the
   * resource does not end with a separator.
   */
  lemma DirnameBasename(resource: string)
    ensures exists n: nat :: resource == Join(DirSegments(resource) + [Basename(resource)], "/") + Repeat('/', n)
    ensures resource == [] || resource[|resource| - 1] != '/' ==>
              resource == Join(DirSegments(resource) + [Basename(resource)], "/")
  {
    var all := Split(resource, '/');
    var parts := PathParts(resource);
    var m := |all| - |parts|;
    assert DirSegments(resource) + [Basename(resource)] == parts by {
      assert parts[..|parts| - 1] + [parts[|parts| - 1]] == parts;
    }
    JoinSplit(resource, '/');
    assert "/" == ['/'];
    JoinTrailingEmpties(all, m);
    assert all[..|all| - m] == parts;
    var joined := Join(parts, "/");
    assert resource == joined + Repeat('/', m);
    if m > 0 {
      assert resource[|resource| - 1] == '/';
    }
  }

  /** A `./name` specifier resolves to the entry `name` of the directory. */
  lemma ResolveSibling(dir: seq<string>, name: string)
    requires IsNormal(dir) && IsSegment(name)
    ensures Resolve(dir, "./" + name) == dir + [name]
  {
    assert "./" + name == "." + ['/'] + name;
    assert !IsAbsolute("./" + name);
    SplitAfterPart(".", '/', name);
    SplitNoSeparator(name, '/');
    assert Split("./" + name, '/') == [".", name];
    FoldAppend([], dir, [".", name]);
    FoldPlain([], dir);
    assert [] + dir == dir;
    assert [".", name][1..] == [name];
    assert Fold(dir, [".", name]) == Fold(dir, [name]);
    FoldPlain(dir, [name]);
  }
}
