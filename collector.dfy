/**
 * The dependency collector of index.js: a pre-order walk over the parsed
 * module that pushes the source of every import declaration, and the literal
 * first argument of every call to the bare identifier `require`, onto the
 * `dependencies` array.
 */
module Collector {

  /** A syntax-tree node, reduced to the shapes the collector tells apart. */
  datatype Node =
    | ImportDeclaration(source: string)
    | CallExpression(callee: Node, args: seq<Node>)
    | Identifier(name: string)
    | StringLiteral(value: string)
    | Other(children: seq<Node>)

  /** What the visitor's `enter` callback does on one node. */
  datatype Action = Record(specifier: string) | Pass | Throw

  /** The outcome of a walk: the specifiers pushed, or the `TypeError` it raised. */
  datatype Traversal = Completed(dependencies: seq<string>) | Threw

  /** The `enter` callback's effect on one node. */
  function ActionOf(n: Node): Action
  {
    match n
    case ImportDeclaration(source) => Record(source)
    case CallExpression(callee, args) =>
      if callee != Identifier("require") then Pass
      // `arguments[0]` is undefined, so reading its `type` throws
      else if |args| == 0 then Throw
      else if args[0].StringLiteral? then Record(args[0].value)
      else Pass
    case _ => Pass
  }

  function Own(a: Action): Traversal {
    match a
    case Record(s) => Completed([s])
    case Pass => Completed([])
    case Throw => Threw
  }

  /** Run one part of the walk after another; an exception ends the walk. */
  function Then(t: Traversal, u: Traversal): Traversal {
    if t.Completed? && u.Completed? then Completed(t.dependencies + u.dependencies) else Threw
  }

  /** The walk of `n` and everything below it: `enter(n)` first, then the children in order. */
  function Walk(n: Node): (t: Traversal)
    ensures ActionOf(n).Throw? ==> t.Threw?
    ensures t.Completed? && ActionOf(n).Record? ==>
              |t.dependencies| > 0 && t.dependencies[0] == ActionOf(n).specifier
    decreases n, 1
  {
    Then(Own(ActionOf(n)), WalkChildren(n))
  }

  /** The walk below `n`: a call's callee then its arguments, or the children of any other node. */
  function WalkChildren(n: Node): Traversal
    decreases n, 0
  {
    match n
    case CallExpression(callee, args) => Then(Walk(callee), WalkAll(args))
    case Other(children) => WalkAll(children)
    case _ => Completed([])
  }

  /** The walk of a list of siblings, in order. */
  function WalkAll(ns: seq<Node>): Traversal
    decreases ns, 2
  {
    if ns == [] then Completed([]) else Then(Walk(ns[0]), WalkAll(ns[1..]))
  }

  /**
   * What `enter` does with one node: it throws exactly on a `require` call
   * with no argument, and records exactly an import's source or the literal
   * first argument of a `require` call.
   */
  lemma ActionOfCases(n: Node)
    ensures ActionOf(n).Throw? <==> IsRequireCall(n) && |n.args| == 0
    ensures ActionOf(n).Record? <==>
              n.ImportDeclaration? || (IsRequireCall(n) && |n.args| > 0 && n.args[0].StringLiteral?)
    ensures ActionOf(n).Record? && n.ImportDeclaration? ==> ActionOf(n).specifier == n.source
    ensures ActionOf(n).Record? && n.CallExpression? ==> ActionOf(n).specifier == n.args[0].value
  {
  }

  /** A list of siblings completes exactly when every sibling's walk completes. */
  lemma {:induction false} WalkAllCompletesIffEach(ns: seq<Node>)
    ensures WalkAll(ns).Completed? <==> forall i :: 0 <= i < |ns| ==> Walk(ns[i]).Completed?
    decreases |ns|
  {
    if ns != [] {
      WalkAllCompletesIffEach(ns[1..]);
      assert forall i :: 1 <= i < |ns| ==> ns[i] == ns[1..][i - 1];
    }
  }

  // ---------------------------------------------------------------------------
  // The reference definition: the nodes in pre-order, and what each contributes.

  function PreOrder(n: Node): seq<Node>
    decreases n
  {
    [n] +
      match n
      case CallExpression(callee, args) => PreOrder(callee) + PreOrderAll(args)
      case Other(children) => PreOrderAll(children)
      case _ => []
  }

  function PreOrderAll(ns: seq<Node>): seq<Node>
    decreases ns
  {
    if ns == [] then [] else PreOrder(ns[0]) + PreOrderAll(ns[1..])
  }

  /** The specifiers the visited nodes record, in visiting order, duplicates kept. */
  function Recorded(vs: seq<Node>): seq<string> {
    if vs == [] then []
    else (if ActionOf(vs[0]).Record? then [ActionOf(vs[0]).specifier] else []) + Recorded(vs[1..])
  }

  /** Some visited node is a `require()` call with no argument. */
  predicate Throws(vs: seq<Node>) {
    exists i :: 0 <= i < |vs| && ActionOf(vs[i]).Throw?
  }

  predicate IsRequireCall(n: Node) {
    n.CallExpression? && n.callee == Identifier("require")
  }

  lemma {:induction false} ThenAssociative(a: Traversal, b: Traversal, c: Traversal)
    ensures Then(Then(a, b), c) == Then(a, Then(b, c))
  {
    if a.Completed? && b.Completed? && c.Completed? {
      assert (a.dependencies + b.dependencies) + c.dependencies
          == a.dependencies + (b.dependencies + c.dependencies);
    }
  }

  /** Walking a concatenation walks one part after the other. */
  lemma {:induction false} WalkAllAppend(xs: seq<Node>, ys: seq<Node>)
    ensures WalkAll(xs + ys) == Then(WalkAll(xs), WalkAll(ys))
    decreases |xs|
  {
    if xs == [] {
      assert xs + ys == ys;
      assert WalkAll(ys).Completed? ==> [] + WalkAll(ys).dependencies == WalkAll(ys).dependencies;
    } else {
      assert (xs + ys)[1..] == xs[1..] + ys;
      WalkAllAppend(xs[1..], ys);
      ThenAssociative(Walk(xs[0]), WalkAll(xs[1..]), WalkAll(ys));
    }
  }

  lemma {:induction false} RecordedAppend(xs: seq<Node>, ys: seq<Node>)
    ensures Recorded(xs + ys) == Recorded(xs) + Recorded(ys)
    decreases |xs|
  {
    if xs == [] {
      assert xs + ys == ys;
    } else {
      var head := if ActionOf(xs[0]).Record? then [ActionOf(xs[0]).specifier] else [];
      assert (xs + ys)[0] == xs[0];
      assert (xs + ys)[1..] == xs[1..] + ys;
      assert Recorded(xs + ys) == head + Recorded(xs[1..] + ys);
      RecordedAppend(xs[1..], ys);
      assert Recorded(xs) == head + Recorded(xs[1..]);
      assert head + (Recorded(xs[1..]) + Recorded(ys)) == (head + Recorded(xs[1..])) + Recorded(ys);
    }
  }

  lemma ThrowsAppend(xs: seq<Node>, ys: seq<Node>)
    ensures Throws(xs + ys) <==> Throws(xs) || Throws(ys)
  {
    if Throws(xs + ys) {
      var i :| 0 <= i < |xs + ys| && ActionOf((xs + ys)[i]).Throw?;
      if i >= |xs| { assert ActionOf(ys[i - |xs|]).Throw?; }
    }
    if Throws(ys) {
      var i :| 0 <= i < |ys| && ActionOf(ys[i]).Throw?;
      assert (xs + ys)[|xs| + i] == ys[i];
    }
    if Throws(xs) {
      var i :| 0 <= i < |xs| && ActionOf(xs[i]).Throw?;
      assert (xs + ys)[i] == xs[i];
    }
  }

  /** The traversal a list of visited nodes amounts to. */
  function Gathered(vs: seq<Node>): Traversal {
    if Throws(vs) then Threw else Completed(Recorded(vs))
  }

  lemma GatheredAppend(xs: seq<Node>, ys: seq<Node>)
    ensures Gathered(xs + ys) == Then(Gathered(xs), Gathered(ys))
  {
    ThrowsAppend(xs, ys);
    RecordedAppend(xs, ys);
  }

  lemma GatheredOne(n: Node)
    ensures Gathered([n]) == Own(ActionOf(n))
  {
    assert [n][0] == n && [n][1..] == [];
    if ActionOf(n).Throw? {
      assert Throws([n]);
    } else {
      assert !Throws([n]);
      assert Recorded([n]) == (if ActionOf(n).Record? then [ActionOf(n).specifier] else []) + Recorded([]);
    }
  }

  /**
   * The walk records, in pre-order and without deduplication, the specifier
   * of every node whose `enter` records one, and it throws exactly when some
   * node it visits is a `require()` call without an argument.
   */
  lemma {:induction false} WalkIsPreOrder(n: Node)
    ensures Walk(n) == Gathered(PreOrder(n))
    decreases n
  {
    var rest := match n
      case CallExpression(callee, args) => PreOrder(callee) + PreOrderAll(args)
      case Other(children) => PreOrderAll(children)
      case _ => [];
    assert PreOrder(n) == [n] + rest;
    GatheredAppend([n], rest);
    GatheredOne(n);
    match n {
      case CallExpression(callee, args) =>
        WalkIsPreOrder(callee);
        WalkAllIsPreOrder(args);
        GatheredAppend(PreOrder(callee), PreOrderAll(args));
      case Other(children) =>
        WalkAllIsPreOrder(children);
      case _ =>
        assert !Throws([]);
    }
  }

  lemma {:induction false} WalkAllIsPreOrder(ns: seq<Node>)
    ensures WalkAll(ns) == Gathered(PreOrderAll(ns))
    decreases ns
  {
    if ns == [] {
      assert !Throws([]);
    } else {
      WalkIsPreOrder(ns[0]);
      WalkAllIsPreOrder(ns[1..]);
      GatheredAppend(PreOrder(ns[0]), PreOrderAll(ns[1..]));
    }
  }

  /**
   * Collector order and error case for a whole module body: the result is
   * the recorded specifiers of the pre-order node list, or the `TypeError`
   * exactly when a bare `require()` is reached.
   */
  lemma CollectedInPreOrder(body: seq<Node>)
    ensures WalkAll(body).Threw? <==> Throws(PreOrderAll(body))
    ensures WalkAll(body).Completed? ==> WalkAll(body).dependencies == Recorded(PreOrderAll(body))
  {
    WalkAllIsPreOrder(body);
  }

  lemma {:induction false} RecordedNone(vs: seq<Node>)
    requires forall i :: 0 <= i < |vs| ==> !vs[i].ImportDeclaration? && !IsRequireCall(vs[i])
    ensures Recorded(vs) == [] && !Throws(vs)
  {
    if vs != [] {
      RecordedNone(vs[1..]);
    }
    forall i | 0 <= i < |vs|
      ensures !ActionOf(vs[i]).Throw?
    {
    }
  }

  /** A module with no import declaration and no `require` call yields no specifier. */
  lemma NoSitesNoDependencies(body: seq<Node>)
    requires forall i :: 0 <= i < |PreOrderAll(body)| ==>
      !PreOrderAll(body)[i].ImportDeclaration? && !IsRequireCall(PreOrderAll(body)[i])
    ensures WalkAll(body) == Completed([])
  {
    WalkAllIsPreOrder(body);
    RecordedNone(PreOrderAll(body));
  }

  /**
   * Collector filter: a call whose callee is not the identifier `require`
   * contributes nothing of its own; only its callee and arguments are walked.
   */
  lemma CallOfOtherCalleeContributesNothing(callee: Node, args: seq<Node>)
    requires callee != Identifier("require")
    ensures Walk(CallExpression(callee, args)) == Then(Walk(callee), WalkAll(args))
  {
    var t := Then(Walk(callee), WalkAll(args));
    assert t.Completed? ==> [] + t.dependencies == t.dependencies;
  }

  /** Collector filter: a `require` whose first argument is not a string literal records nothing of its own. */
  lemma RequireOfNonLiteralContributesNothing(first: Node, more: seq<Node>)
    requires !first.StringLiteral?
    ensures Walk(CallExpression(Identifier("require"), [first] + more))
         == WalkAll([first] + more)
  {
    var args := [first] + more;
    var t := Then(Walk(Identifier("require")), WalkAll(args));
    assert Walk(Identifier("require")) == Completed([]) by {
      assert Then(Completed([]), Completed([])) == Completed([]);
    }
    assert t.Completed? ==> [] + t.dependencies == t.dependencies;
    assert t == WalkAll(args);
  }

  /** `foo(require('a'))` records `a`; `require(require('x'))` records only `x`. */
  lemma NestedRequireExamples()
    ensures WalkAll([CallExpression(Identifier("foo"),
              [CallExpression(Identifier("require"), [StringLiteral("a")])])]) == Completed(["a"])
    ensures WalkAll([CallExpression(Identifier("require"),
              [CallExpression(Identifier("require"), [StringLiteral("x")])])]) == Completed(["x"])
  {
    var inner := CallExpression(Identifier("require"), [StringLiteral("a")]);
    assert Walk(StringLiteral("a")) == Completed([]);
    assert WalkAll([StringLiteral("a")]) == Completed([]);
    assert Walk(Identifier("require")) == Completed([]);
    assert Walk(inner) == Completed(["a"]);
    assert WalkAll([inner]) == Completed(["a"]);
    assert Walk(Identifier("foo")) == Completed([]);
    var innerX := CallExpression(Identifier("require"), [StringLiteral("x")]);
    assert Walk(StringLiteral("x")) == Completed([]);
    assert WalkAll([StringLiteral("x")]) == Completed([]);
    assert Walk(innerX) == Completed(["x"]);
    assert WalkAll([innerX]) == Completed(["x"]);
  }

  /** Walking one more sibling: the walk so far, then that sibling. */
  lemma WalkAllSnoc(ns: seq<Node>, i: nat)
    requires i < |ns|
    ensures WalkAll(ns[..i + 1]) == Then(WalkAll(ns[..i]), Walk(ns[i]))
  {
    assert ns[..i + 1] == ns[..i] + [ns[i]];
    WalkAllAppend(ns[..i], [ns[i]]);
    var w := Walk(ns[i]);
    assert w.Completed? ==> w.dependencies + [] == w.dependencies;
  }

  /** Once a prefix of the siblings throws, so does the walk of all of them. */
  lemma WalkAllThrewPrefix(ns: seq<Node>, i: nat)
    requires i <= |ns| && WalkAll(ns[..i]).Threw?
    ensures WalkAll(ns).Threw?
  {
    assert ns == ns[..i] + ns[i..];
    WalkAllAppend(ns[..i], ns[i..]);
  }

  /**
   * `require()` without an argument anywhere in the module, at any depth,
   * makes the whole collection throw.
   */
  lemma RequireWithoutArgumentThrows(body: seq<Node>)
    requires CallExpression(Identifier("require"), []) in PreOrderAll(body)
    ensures WalkAll(body).Threw?
  {
    var vs := PreOrderAll(body);
    var i :| 0 <= i < |vs| && vs[i] == CallExpression(Identifier("require"), []);
    assert ActionOf(vs[i]).Throw?;
    CollectedInPreOrder(body);
  }

  /** `f(require())`, the call nested in a statement, throws. */
  lemma NestedBareRequireThrows()
    ensures WalkAll([Other([CallExpression(Identifier("f"), [CallExpression(Identifier("require"), [])])])]).Threw?
  {
    var bare := CallExpression(Identifier("require"), []);
    var call := CallExpression(Identifier("f"), [bare]);
    var body := [Other([call])];
    assert PreOrder(bare)[0] == bare;
    assert PreOrderAll([bare])[0] == bare;
    assert PreOrder(Identifier("f")) == [Identifier("f")];
    assert PreOrder(call)[2] == bare;
    assert PreOrderAll([call])[2] == bare;
    assert PreOrder(Other([call]))[3] == bare;
    assert PreOrderAll(body)[3] == bare;
    RequireWithoutArgumentThrows(body);
  }

  // ---------------------------------------------------------------------------
  // The visitor as index.js runs it: a callback pushing onto a mutable array.

  class Visitor {
    var dependencies: seq<string>

    constructor ()
      ensures dependencies == []
    {
      dependencies := [];
    }

    /** The `enter` callback; `ok` is false when it throws. */
    method Enter(n: Node) returns (ok: bool)
      modifies this
      ensures ok <==> !ActionOf(n).Throw?
      ensures ok ==> dependencies == old(dependencies) + Own(ActionOf(n)).dependencies
    {
      ok := true;
      match n {
        case ImportDeclaration(source) =>
          dependencies := dependencies + [source];
        case CallExpression(callee, args) =>
          if !callee.Identifier? || callee.name != "require" {
            return;
          }
          if |args| == 0 {
            ok := false;
            return;
          }
          var firstArg := args[0];
          if !firstArg.StringLiteral? {
            return;
          }
          dependencies := dependencies + [firstArg.value];
        case _ =>
      }
    }

    method Traverse(n: Node) returns (ok: bool)
      modifies this
      decreases n, 1
      ensures ok <==> Walk(n).Completed?
      ensures ok ==> dependencies == old(dependencies) + Walk(n).dependencies
    {
      ok := Enter(n);
      if !ok {
        return;
      }
      ok := TraverseChildren(n);
      if ok {
        assert dependencies == old(dependencies) + (Own(ActionOf(n)).dependencies + WalkChildren(n).dependencies);
      }
    }

    /** Visits what lies below `n`, in the order `WalkChildren` gives. */
    method TraverseChildren(n: Node) returns (ok: bool)
      modifies this
      decreases n, 0
      ensures ok <==> WalkChildren(n).Completed?
      ensures ok ==> dependencies == old(dependencies) + WalkChildren(n).dependencies
    {
      match n {
        case CallExpression(callee, args) =>
          ok := Traverse(callee);
          if ok {
            ok := TraverseAll(args);
          }
        case Other(children) =>
          ok := TraverseAll(children);
        case _ =>
          ok := true;
      }
    }

    method TraverseAll(ns: seq<Node>) returns (ok: bool)
      modifies this
      decreases ns, 2
      ensures ok <==> WalkAll(ns).Completed?
      ensures ok ==> dependencies == old(dependencies) + WalkAll(ns).dependencies
    {
      var i := 0;
      while i < |ns|
        invariant 0 <= i <= |ns|
        invariant WalkAll(ns[..i]).Completed?
        invariant dependencies == old(dependencies) + WalkAll(ns[..i]).dependencies
      {
        WalkAllSnoc(ns, i);
        ok := Traverse(ns[i]);
        if !ok {
          WalkAllThrewPrefix(ns, i + 1);
          return;
        }
        i := i + 1;
      }
      assert ns[..i] == ns;
      ok := true;
    }
  }

  /** Runs the visitor over a module body, as `traverse(ast, { enter })` does. */
  method CollectDependencies(body: seq<Node>) returns (r: Traversal)
    ensures r == WalkAll(body)
  {
    var visitor := new Visitor();
    var ok := visitor.TraverseAll(body);
    r := if ok then Completed(visitor.dependencies) else Threw;
  }
}
