/**
 * The resolution chain of index.js: each collected specifier is resolved
 * against the module's directory, made relative to the project root, turned
 * into a `./`-prefixed forward-slash path, and probed on the filesystem bare
 * and then with each recognised extension; unresolved specifiers are dropped.
 * The filesystem is the set of path strings `fs.existsSync` reports as existing.
 */
module Resolver {
  import opened Wrappers
  import opened Strings
  import opened PosixPath

  /** The path probed for one specifier, before any extension is added. */
  function ProbeBase(root: seq<string>, dir: seq<string>, specifier: string): (base: string)
    ensures |base| >= 2 && base[..2] == "./"
    ensures '\\' !in base
  {
    "./" + ReplaceBackslashes(Relative(root, Resolve(dir, specifier)))
  }

  lemma {:induction false} JoinWithout(parts: seq<string>, sep: string, c: char)
    requires forall i :: 0 <= i < |parts| ==> c !in parts[i]
    requires c !in sep
    ensures c !in Join(parts, sep)
  {
    if |parts| > 1 {
      JoinWithout(parts[1..], sep, c);
    }
  }

  lemma {:induction false} ReplaceNothing(s: string)
    requires '\\' !in s
    ensures ReplaceBackslashes(s) == s
  {
    if s != [] {
      ReplaceNothing(s[1..]);
    }
  }

  /**
   * Read back against the root, the probed path names the file the specifier
   * names (when no segment holds a backslash, which the rewrite would turn
   * into a separator).
   */
  lemma ProbeBaseNamesTarget(root: seq<string>, dir: seq<string>, specifier: string)
    requires IsNormal(root) && NoSeparator(dir)
    requires forall i :: 0 <= i < |Resolve(dir, specifier)| ==> '\\' !in Resolve(dir, specifier)[i]
    ensures Normalize(root + Split(ProbeBase(root, dir, specifier)[2..], '/')) == Resolve(dir, specifier)
  {
    var target := Resolve(dir, specifier);
    var parts := RelativeParts(root, target);
    var k := CommonPrefix(root, target);
    forall i | 0 <= i < |parts| ensures '\\' !in parts[i] {
      if i >= |root| - k { assert parts[i] == target[k + (i - (|root| - k))]; }
    }
    JoinWithout(parts, "/", '\\');
    ReplaceNothing(Relative(root, target));
    RelativeRoundTrip(root, target);
  }

  /** `candidates.find(ext => fs.existsSync(base + ext))`, returning the path found. */
  function FindExisting(base: string, candidates: seq<string>, existing: set<string>): (r: Option<string>)
    ensures r.Some? <==> exists i :: 0 <= i < |candidates| && base + candidates[i] in existing
    ensures r.Some? ==> exists i :: 0 <= i < |candidates| && r.value == base + candidates[i]
                          && r.value in existing
                          && forall j :: 0 <= j < i ==> base + candidates[j] !in existing
  {
    if candidates == [] then None
    else if base + candidates[0] in existing then Some(base + candidates[0])
    else
      var r := FindExisting(base, candidates[1..], existing);
      assert forall i :: 1 <= i < |candidates| ==> candidates[i] == candidates[1..][i - 1];
      if r.Some? then
        assert exists i :: 0 <= i < |candidates| && r.value == base + candidates[i]
                 && forall j :: 0 <= j < i ==> base + candidates[j] !in existing by {
          var i :| 0 <= i < |candidates[1..]| && r.value == base + candidates[1..][i]
                   && forall j :: 0 <= j < i ==> base + candidates[1..][j] !in existing;
          assert r.value == base + candidates[i + 1];
          forall j | 0 <= j < i + 1 ensures base + candidates[j] !in existing {
            if j > 0 { assert candidates[j] == candidates[1..][j - 1]; }
          }
        }
        r
      else
        r
  }

  lemma CandidatesExist(base: string, extensions: seq<string>, existing: set<string>)
    ensures (exists i :: 0 <= i < |[""] + extensions| && base + ([""] + extensions)[i] in existing)
        <==> base in existing || exists e :: e in extensions && base + e in existing
  {
    var candidates := [""] + extensions;
    assert base + candidates[0] == base;
    if exists e :: e in extensions && base + e in existing {
      var e :| e in extensions && base + e in existing;
      var j :| 0 <= j < |extensions| && extensions[j] == e;
      assert candidates[j + 1] == e;
    }
    if exists i :: 0 <= i < |candidates| && base + candidates[i] in existing {
      var i :| 0 <= i < |candidates| && base + candidates[i] in existing;
      if i > 0 { assert candidates[i] in extensions; }
    }
  }

  /** The bare path first, then the recognised extensions in their configured order. */
  function Probe(base: string, extensions: seq<string>, existing: set<string>): (r: Option<string>)
    ensures r.Some? <==> base in existing || exists e :: e in extensions && base + e in existing
    ensures r.Some? ==> r.value in existing
  {
    CandidatesExist(base, extensions, existing);
    FindExisting(base, [""] + extensions, existing)
  }

  /**
   * Probe precedence: an existing bare path wins; otherwise the first
   * extension whose path exists, in configured order.
   */
  lemma ProbePrecedence(base: string, extensions: seq<string>, existing: set<string>)
    ensures base in existing ==> Probe(base, extensions, existing) == Some(base)
    ensures base !in existing ==> Probe(base, extensions, existing) == FindExisting(base, extensions, existing)
  {
    var cs := [""] + extensions;
    assert base + cs[0] == base;
    assert cs[1..] == extensions;
  }

  /** With `.ts` configured before `.js` and both files present, `./foo` becomes `./foo.ts`. */
  lemma ProbePrefersEarlierExtension()
    ensures Probe("./foo", [".ts", ".js"], {"./foo.ts", "./foo.js"}) == Some("./foo.ts")
  {
    var existing: set<string> := {"./foo.ts", "./foo.js"};
    assert "./foo" + "" == "./foo";
    assert "./foo" !in existing;
    ProbePrecedence("./foo", [".ts", ".js"], existing);
    assert "./foo" + ".ts" == "./foo.ts";
  }

  /** One specifier through the whole chain: resolve, make relative, probe. */
  function ResolveOne(root: seq<string>, dir: seq<string>, extensions: seq<string>,
                      existing: set<string>, specifier: string): (r: Option<string>)
    ensures r.Some? ==> r.value in existing
    ensures r.Some? ==> exists j :: 0 <= j < |[""] + extensions|
                          && r.value == ProbeBase(root, dir, specifier) + ([""] + extensions)[j]
  {
    Probe(ProbeBase(root, dir, specifier), extensions, existing)
  }

  /** `.filter(filepath => filepath)`: keeps the found paths, in order. */
  function Found(outcomes: seq<Option<string>>): (r: seq<string>)
    ensures |r| <= |outcomes|
    ensures forall k :: 0 <= k < |r| ==> Some(r[k]) in outcomes
  {
    if outcomes == [] then []
    else
      var rest := Found(outcomes[1..]);
      assert forall o :: o in outcomes[1..] ==> o in outcomes;
      if outcomes[0].Some? then [outcomes[0].value] + rest else rest
  }

  function Shift(s: seq<nat>): (r: seq<nat>)
    ensures |r| == |s|
    ensures forall k :: 0 <= k < |s| ==> r[k] == s[k] + 1
  {
    seq(|s|, k requires 0 <= k < |s| => s[k] + 1)
  }

  /** The positions of the found paths. */
  function FoundPositions(outcomes: seq<Option<string>>): seq<nat> {
    if outcomes == [] then []
    else
      var shifted := Shift(FoundPositions(outcomes[1..]));
      if outcomes[0].Some? then [0] + shifted else shifted
  }

  /** The k-th path kept is the value found at the k-th kept position. */
  lemma {:induction false} FoundAtPositions(outcomes: seq<Option<string>>)
    ensures |FoundPositions(outcomes)| == |Found(outcomes)|
    ensures forall k :: 0 <= k < |FoundPositions(outcomes)| ==>
              FoundPositions(outcomes)[k] < |outcomes|
              && outcomes[FoundPositions(outcomes)[k]] == Some(Found(outcomes)[k])
  {
    if outcomes != [] {
      FoundAtPositions(outcomes[1..]);
    }
  }

  /** The kept positions increase: the filter keeps the order of the specifiers. */
  lemma {:induction false} FoundPositionsIncrease(outcomes: seq<Option<string>>)
    ensures forall k, l :: 0 <= k < l < |FoundPositions(outcomes)| ==>
              FoundPositions(outcomes)[k] < FoundPositions(outcomes)[l]
  {
    if outcomes != [] {
      FoundPositionsIncrease(outcomes[1..]);
    }
  }

  /** Silent drop: a position is kept exactly when its probe found a path. */
  lemma {:induction false} FoundPositionsExact(outcomes: seq<Option<string>>)
    ensures forall i :: 0 <= i < |outcomes| ==> (i in FoundPositions(outcomes) <==> outcomes[i].Some?)
  {
    if outcomes != [] {
      var tail := outcomes[1..];
      FoundPositionsExact(tail);
      var rest := FoundPositions(tail);
      var shifted := Shift(rest);
      forall i | 1 <= i < |outcomes|
        ensures (i in shifted <==> outcomes[i].Some?)
      {
        assert outcomes[i] == tail[i - 1];
        if i - 1 in rest {
          var k :| 0 <= k < |rest| && rest[k] == i - 1;
          assert shifted[k] == i;
        }
      }
      assert 0 !in shifted;
    }
  }

  /** The outcome of each specifier's probe, in specifier order. */
  function Outcomes(root: seq<string>, dir: seq<string>, extensions: seq<string>,
                    existing: set<string>, specifiers: seq<string>): (o: seq<Option<string>>)
    ensures |o| == |specifiers|
    ensures forall i :: 0 <= i < |o| ==> o[i] == ResolveOne(root, dir, extensions, existing, specifiers[i])
  {
    if specifiers == [] then []
    else
      var rest := Outcomes(root, dir, extensions, existing, specifiers[1..]);
      [ResolveOne(root, dir, extensions, existing, specifiers[0])] + rest
  }

  /** The filter keeps only values drawn from the outcomes. */
  lemma FoundWithin(outcomes: seq<Option<string>>, existing: set<string>)
    requires forall i :: 0 <= i < |outcomes| && outcomes[i].Some? ==> outcomes[i].value in existing
    ensures forall k :: 0 <= k < |Found(outcomes)| ==> Found(outcomes)[k] in existing
  {
    var r := Found(outcomes);
    forall k | 0 <= k < |r| ensures r[k] in existing {
      var i :| 0 <= i < |outcomes| && outcomes[i] == Some(r[k]);
    }
  }

  /** The whole `map`/`find`/`filter` chain over the collected specifiers. */
  function ResolveAll(root: seq<string>, dir: seq<string>, extensions: seq<string>,
                      existing: set<string>, specifiers: seq<string>): (r: seq<string>)
    ensures |r| <= |specifiers|
    ensures forall k :: 0 <= k < |r| ==> r[k] in existing
  {
    var outcomes := Outcomes(root, dir, extensions, existing, specifiers);
    assert forall i :: 0 <= i < |outcomes| && outcomes[i].Some? ==> outcomes[i].value in existing;
    FoundWithin(outcomes, existing);
    Found(outcomes)
  }

  /** A path found for one specifier is its probed base plus one of the candidates. */
  lemma FoundShape(root: seq<string>, dir: seq<string>, extensions: seq<string>,
                   existing: set<string>, specifier: string, path: string)
    requires ResolveOne(root, dir, extensions, existing, specifier) == Some(path)
    ensures exists e :: e in [""] + extensions && path == ProbeBase(root, dir, specifier) + e
  {
    var e := PickCandidate(path, ProbeBase(root, dir, specifier), [""] + extensions);
  }

  lemma PickCandidate(path: string, base: string, candidates: seq<string>) returns (e: string)
    requires exists j :: 0 <= j < |candidates| && path == base + candidates[j]
    ensures e in candidates && path == base + e
  {
    var j :| 0 <= j < |candidates| && path == base + candidates[j];
    e := candidates[j];
  }

  /** The k-th kept path comes from some position of the outcomes. */
  lemma FoundFrom(outcomes: seq<Option<string>>, k: nat) returns (i: nat)
    requires k < |Found(outcomes)|
    ensures i < |outcomes| && outcomes[i] == Some(Found(outcomes)[k])
  {
    var r := Found(outcomes);
    assert Some(r[k]) in outcomes;
    i :| 0 <= i < |outcomes| && outcomes[i] == Some(r[k]);
  }

  /**
   * Resolved path shape: each output is the probed base of some specifier
   * followed by the empty extension or one of the recognised ones.
   */
  lemma ResolvedShape(root: seq<string>, dir: seq<string>, extensions: seq<string>,
                      existing: set<string>, specifiers: seq<string>, k: nat)
    requires k < |ResolveAll(root, dir, extensions, existing, specifiers)|
    ensures var r := ResolveAll(root, dir, extensions, existing, specifiers);
            exists i, e :: 0 <= i < |specifiers| && e in [""] + extensions
              && r[k] == ProbeBase(root, dir, specifiers[i]) + e
  {
    var outcomes := Outcomes(root, dir, extensions, existing, specifiers);
    var i := FoundFrom(outcomes, k);
    var path := Found(outcomes)[k];
    FoundShape(root, dir, extensions, existing, specifiers[i], path);
    var e :| e in [""] + extensions && path == ProbeBase(root, dir, specifiers[i]) + e;
    assert ResolveAll(root, dir, extensions, existing, specifiers)[k] == path;
  }

  /** No output holds a backslash, as long as no recognised extension does. */
  lemma ResolvedWithoutBackslash(root: seq<string>, dir: seq<string>, extensions: seq<string>,
                                 existing: set<string>, specifiers: seq<string>, k: nat)
    requires forall e :: e in extensions ==> '\\' !in e
    requires k < |ResolveAll(root, dir, extensions, existing, specifiers)|
    ensures '\\' !in ResolveAll(root, dir, extensions, existing, specifiers)[k]
  {
    ResolvedShape(root, dir, extensions, existing, specifiers, k);
  }
}
