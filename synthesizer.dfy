/**
 * The bootstrap synthesizer of index.js and the loader as a whole: option
 * defaults, the decline-list literal, the suffix test that decides whether the
 * hot-swap block is appended, and the composition collect, resolve, emit.
 * The fixed code of the block is a parameter (`TemplateText`), and so is the
 * string escaper (`jsesc`); the parsed tree comes from the parser.
 */
module Synthesizer {
  import opened Wrappers
  import opened Strings
  import opened PosixPath
  import opened Collector
  import opened Resolver

  /** A loader option as the configuration gives it. */
  datatype OptionValue = Unset | Flag(b: bool) | Text(s: string)

  /** JavaScript truthiness of an option value. */
  predicate Truthy(v: OptionValue) {
    match v
    case Unset => false
    case Flag(b) => b
    case Text(s) => s != ""
  }

  datatype LoaderOptions = LoaderOptions(
    requireAngular: OptionValue,
    appModule: string,
    appElement: OptionValue,
    componentFilenameSuffix: string)

  /** `options.appElement || 'body'`, as the text the template receives. */
  function AppElement(v: OptionValue): (selector: string)
    ensures !Truthy(v) ==> selector == "body"
    ensures v.Text? && Truthy(v) ==> selector == v.s
    ensures selector != ""
  {
    match v
    case Text(s) => if s != "" then s else "body"
    case Flag(b) => if b then "true" else "body"
    case Unset => "body"
  }

  /** The text chosen by `requireAngular`, a backslash and `n` included. */
  function AngularRef(requireAngular: bool): (r: string)
    ensures '\\' in r <==> requireAngular
    ensures requireAngular ==> |r| >= 18 && r[..18] == "require('angular')"
  {
    if requireAngular then "require('angular');\\n" else "window.angular"
  }

  // ---------------------------------------------------------------------------
  // The decline list.

  function Quoted(escaped: seq<string>): (q: seq<string>)
    ensures |q| == |escaped|
    ensures forall i :: 0 <= i < |q| ==> q[i] == "'" + escaped[i] + "'"
  {
    seq(|escaped|, i requires 0 <= i < |escaped| => "'" + escaped[i] + "'")
  }

  function Escaped(paths: seq<string>, escape: string -> string): (e: seq<string>)
    ensures |e| == |paths|
    ensures forall i :: 0 <= i < |e| ==> e[i] == escape(paths[i])
  {
    seq(|paths|, i requires 0 <= i < |paths| => escape(paths[i]))
  }

  /** `"[" + paths.map(dep => "'" + jsesc(dep) + "'") + "]"`: the array converts by joining with commas. */
  function DeclineList(paths: seq<string>, escape: string -> string): (r: string)
    ensures paths == [] ==> r == "[]"
    ensures |r| >= 2 && r[0] == '[' && r[|r| - 1] == ']'
  {
    "[" + Join(Quoted(Escaped(paths, escape)), ",") + "]"
  }

  /** An escaped string in which every quote is behind a backslash and no backslash is left dangling. */
  predicate QuoteSafe(s: string)
    decreases |s|
  {
    if s == [] then true
    else if s[0] == '\\' then |s| >= 2 && QuoteSafe(s[2..])
    else s[0] != '\'' && QuoteSafe(s[1..])
  }

  /** Reads a single-quoted body up to its closing quote; yields the body and what follows. */
  function ReadQuoted(s: string): (r: Option<(string, string)>)
    ensures r.Some? ==> QuoteSafe(r.value.0) && s == r.value.0 + "'" + r.value.1
    decreases |s|
  {
    if s == [] then None
    else if s[0] == '\'' then Some(("", s[1..]))
    else if s[0] == '\\' then
      if |s| < 2 then None
      else match ReadQuoted(s[2..])
        case None => None
        case Some((body, rest)) =>
          assert (s[..2] + body)[2..] == body;
          Some((s[..2] + body, rest))
    else match ReadQuoted(s[1..])
      case None => None
      case Some((body, rest)) =>
        assert ([s[0]] + body)[1..] == body;
        Some(([s[0]] + body, rest))
  }

  lemma {:induction false} ReadQuotedBody(body: string, rest: string)
    requires QuoteSafe(body)
    ensures ReadQuoted(body + "'" + rest) == Some((body, rest))
    decreases |body|
  {
    var s := body + "'" + rest;
    if body == [] {
      assert s == "'" + rest;
    } else if body[0] == '\\' {
      ReadQuotedBody(body[2..], rest);
      assert s[2..] == body[2..] + "'" + rest;
      assert s[..2] + body[2..] == body;
    } else {
      ReadQuotedBody(body[1..], rest);
      assert s[1..] == body[1..] + "'" + rest;
      assert [s[0]] + body[1..] == body;
    }
  }

  /** Reads the items after an opening quote, up to the closing bracket. */
  function ParseItems(s: string): Option<seq<string>>
    decreases |s|
  {
    match ReadQuoted(s)
    case None => None
    case Some((body, rest)) =>
      if rest == "]" then Some([body])
      else if |rest| >= 2 && rest[..2] == ",'" then
        match ParseItems(rest[2..])
        case None => None
        case Some(items) => Some([body] + items)
      else None
  }

  /** Reads a decline-list literal back into the escaped strings it lists. */
  function ParseDeclineList(s: string): Option<seq<string>> {
    if s == "[]" then Some([])
    else if |s| >= 2 && s[..2] == "['" then ParseItems(s[2..])
    else None
  }

  /** What follows the first opening quote of a non-empty list. */
  function ItemsText(escaped: seq<string>): string
    requires |escaped| > 0
  {
    escaped[0] + "'" + (if |escaped| == 1 then "]" else ",'" + ItemsText(escaped[1..]))
  }

  lemma {:induction false} JoinQuoted(escaped: seq<string>)
    requires |escaped| > 0
    ensures Join(Quoted(escaped), ",") + "]" == "'" + ItemsText(escaped)
  {
    var q := Quoted(escaped);
    if |escaped| == 1 {
      assert Join(q, ",") == "'" + escaped[0] + "'";
    } else {
      JoinQuoted(escaped[1..]);
      assert q[1..] == Quoted(escaped[1..]);
      calc {
        Join(q, ",") + "]";
        ("'" + escaped[0] + "'") + "," + Join(q[1..], ",") + "]";
        "'" + escaped[0] + "'" + "," + (Join(Quoted(escaped[1..]), ",") + "]");
        "'" + escaped[0] + "'" + "," + ("'" + ItemsText(escaped[1..]));
        "'" + (escaped[0] + "'" + (",'" + ItemsText(escaped[1..])));
      }
    }
  }

  lemma {:induction false} ParseItemsText(escaped: seq<string>)
    requires |escaped| > 0
    requires forall i :: 0 <= i < |escaped| ==> QuoteSafe(escaped[i])
    ensures ParseItems(ItemsText(escaped)) == Some(escaped)
  {
    if |escaped| == 1 {
      ReadQuotedBody(escaped[0], "]");
      assert ItemsText(escaped) == escaped[0] + "'" + "]";
      assert [escaped[0]] == escaped;
    } else {
      var more := escaped[1..];
      var tail := ",'" + ItemsText(more);
      ReadQuotedBody(escaped[0], tail);
      assert ItemsText(escaped) == escaped[0] + "'" + tail;
      assert tail[..2] == ",'" && tail[2..] == ItemsText(more);
      assert forall i :: 0 <= i < |more| ==> QuoteSafe(more[i]) by {
        forall i | 0 <= i < |more| ensures QuoteSafe(more[i]) {
          assert more[i] == escaped[i + 1];
        }
      }
      ParseItemsText(more);
      assert [escaped[0]] + more == escaped;
    }
  }

  /**
   * The decline list holds exactly the escaped resolved paths, in
   * resolution order: reading it back yields them, given an escaper that
   * leaves no bare quote (as `jsesc` does with its default single quotes).
   */
  lemma DeclineListRoundTrip(paths: seq<string>, escape: string -> string)
    requires forall i :: 0 <= i < |paths| ==> QuoteSafe(escape(paths[i]))
    ensures ParseDeclineList(DeclineList(paths, escape)) == Some(Escaped(paths, escape))
  {
    var e := Escaped(paths, escape);
    if paths != [] {
      JoinQuoted(e);
      var s := DeclineList(paths, escape);
      assert s == "[" + (Join(Quoted(e), ",") + "]");
      assert s == "['" + ItemsText(e);
      assert s != "[]" by {
        assert |ItemsText(e)| >= 2;
      }
      assert s[2..] == ItemsText(e);
      ParseItemsText(e);
    }
  }

  // ---------------------------------------------------------------------------
  // The template and the suffix decision.

  /** The values substituted into the bootstrap block. */
  datatype TemplateParams = TemplateParams(
    angularRef: string,
    moduleName: string,
    appElement: string,
    declineList: string)

  /** The fixed code of the bootstrap block, cut at its four holes. */
  datatype TemplateText = TemplateText(
    beforeAngularRef: string,
    beforeModuleName: string,
    beforeAppElement: string,
    beforeDeclineList: string,
    after: string)

  /** The block with the four values in their holes, in order. */
  function Render(text: TemplateText, p: TemplateParams): (r: string)
    ensures |r| == |text.beforeAngularRef| + |p.angularRef| + |text.beforeModuleName| + |p.moduleName|
                   + |text.beforeAppElement| + |p.appElement| + |text.beforeDeclineList|
                   + |p.declineList| + |text.after|
    ensures r[..|text.beforeAngularRef|] == text.beforeAngularRef
    ensures r[|text.beforeAngularRef|..][..|p.angularRef|] == p.angularRef
    ensures r[|r| - |text.after|..] == text.after
    ensures r[|r| - |text.after| - |p.declineList|..|r| - |text.after|] == p.declineList
  {
    text.beforeAngularRef + p.angularRef + text.beforeModuleName + p.moduleName
      + text.beforeAppElement + p.appElement + text.beforeDeclineList + p.declineList + text.after
  }

  /** The four values the options and the resolved paths give. */
  function Params(options: LoaderOptions, resolved: seq<string>, escape: string -> string): (p: TemplateParams)
    ensures ('\\' in p.angularRef) <==> Truthy(options.requireAngular)
    ensures p.moduleName == options.appModule
    ensures p.appElement != ""
    ensures !Truthy(options.appElement) ==> p.appElement == "body"
    ensures resolved == [] ==> p.declineList == "[]"
  {
    TemplateParams(
      AngularRef(Truthy(options.requireAngular)),
      options.appModule,
      AppElement(options.appElement),
      DeclineList(resolved, escape))
  }

  /** The module text the loader returns once the dependencies are resolved. */
  function Transform(content: string, filename: string, options: LoaderOptions, resolved: seq<string>,
                     escape: string -> string, text: TemplateText): (r: string)
    ensures |content| <= |r| && r[..|content|] == content
    ensures !EndsWith(filename, options.componentFilenameSuffix) ==> r == content
  {
    if EndsWith(filename, options.componentFilenameSuffix)
    then content + Render(text, Params(options, resolved, escape))
    else content
  }

  /**
   * Suffix decision: the output always begins with the unchanged input; it
   * equals the input exactly when the filename does not end with the suffix,
   * and otherwise what follows is the rendered block.
   */
  lemma SuffixDecision(content: string, filename: string, options: LoaderOptions, resolved: seq<string>,
                       escape: string -> string, text: TemplateText)
    ensures var out := Transform(content, filename, options, resolved, escape, text);
            && |content| <= |out| && out[..|content|] == content
            && (out == content <==> !EndsWith(filename, options.componentFilenameSuffix))
            && (EndsWith(filename, options.componentFilenameSuffix) ==>
                  out[|content|..] == Render(text, Params(options, resolved, escape)))
  {
    var out := Transform(content, filename, options, resolved, escape, text);
    var block := Render(text, Params(options, resolved, escape));
    assert |block| >= |DeclineList(resolved, escape)| >= 2;
    if EndsWith(filename, options.componentFilenameSuffix) {
      assert out == content + block;
      assert out[..|content|] == content;
      assert out[|content|..] == block;
    }
  }

  /** `widget.component.js` gets the block under suffix `.component.js`; `widget.service.js` is left as it is. */
  lemma ComponentDetectionExample(content: string, options: LoaderOptions, resolved: seq<string>,
                                  escape: string -> string, text: TemplateText)
    requires options.componentFilenameSuffix == ".component.js"
    ensures Transform(content, "widget.component.js", options, resolved, escape, text)
         == content + Render(text, Params(options, resolved, escape))
    ensures Transform(content, "widget.service.js", options, resolved, escape, text) == content
  {
    assert "widget.component.js"[6..] == ".component.js";
    assert "widget.service.js"[11] == 'i' && ".component.js"[7] == 'e';
  }

  // ---------------------------------------------------------------------------
  // The loader.

  /** What the host passes in: the resource path, the project root, the recognised extensions and the options. */
  datatype LoaderContext = LoaderContext(
    resource: string,
    rootContext: string,
    extensions: seq<string>,
    options: LoaderOptions)

  /** The loader's result, or the `TypeError` the collector raised. */
  datatype Output = Emitted(text: string) | Failed

  function Load(ctx: LoaderContext, content: string, body: seq<Node>, existing: set<string>,
                escape: string -> string, text: TemplateText): (out: Output)
    ensures out.Failed? <==> WalkAll(body).Threw?
    ensures out.Emitted? ==> |content| <= |out.text| && out.text[..|content|] == content
  {
    match WalkAll(body)
    case Threw => Failed
    case Completed(dependencies) =>
      var resolved := ResolveAll(Resolve([], ctx.rootContext), DirSegments(ctx.resource),
                                 ctx.extensions, existing, dependencies);
      Emitted(Transform(content, Basename(ctx.resource), ctx.options, resolved, escape, text))
  }

  /** The loader as it runs: the visitor collects, the chain resolves, the block is appended. */
  method RunLoader(ctx: LoaderContext, content: string, body: seq<Node>, existing: set<string>,
                   escape: string -> string, text: TemplateText) returns (out: Output)
    ensures out == Load(ctx, content, body, existing, escape, text)
  {
    var collected := CollectDependencies(body);
    if collected.Threw? {
      return Failed;
    }
    var root := Resolve([], ctx.rootContext);
    var fileImportDir := DirSegments(ctx.resource);
    var resolved := ResolveAll(root, fileImportDir, ctx.extensions, existing, collected.dependencies);
    out := Emitted(Transform(content, Basename(ctx.resource), ctx.options, resolved, escape, text));
  }

  /**
   * A non-component module comes out byte-for-byte as it went in, unless
   * the collector throws, which it does whatever the filename.
   */
  lemma NonComponentUnchanged(ctx: LoaderContext, content: string, body: seq<Node>, existing: set<string>,
                              escape: string -> string, text: TemplateText)
    requires !EndsWith(Basename(ctx.resource), ctx.options.componentFilenameSuffix)
    ensures Load(ctx, content, body, existing, escape, text)
         == (if Throws(PreOrderAll(body)) then Failed else Emitted(content))
  {
    CollectedInPreOrder(body);
  }

  /**
   * For a component module the appended decline list reads back as the
   * escaped resolved dependencies, in the order the collector found them.
   */
  lemma ComponentDeclinesResolvedDependencies(ctx: LoaderContext, content: string, body: seq<Node>,
                                              existing: set<string>, escape: string -> string,
                                              text: TemplateText)
    requires EndsWith(Basename(ctx.resource), ctx.options.componentFilenameSuffix)
    requires !Throws(PreOrderAll(body))
    requires forall s :: QuoteSafe(escape(s))
    ensures var resolved := ResolveAll(Resolve([], ctx.rootContext), DirSegments(ctx.resource),
                                       ctx.extensions, existing, Recorded(PreOrderAll(body)));
            var p := Params(ctx.options, resolved, escape);
            && Load(ctx, content, body, existing, escape, text) == Emitted(content + Render(text, p))
            && ParseDeclineList(p.declineList) == Some(Escaped(resolved, escape))
  {
    CollectedInPreOrder(body);
    var resolved := ResolveAll(Resolve([], ctx.rootContext), DirSegments(ctx.resource),
                               ctx.extensions, existing, Recorded(PreOrderAll(body)));
    DeclineListRoundTrip(resolved, escape);
  }

  lemma ExampleRoot()
    ensures Resolve([], "/p") == ["p"]
  {
    SplitNoSeparator("p", '/');
    assert "/p" == "" + ['/'] + "p";
    SplitAfterPart("", '/', "p");
    assert Split("/p", '/') == ["", "p"];
    assert Fold([], ["", "p"]) == Fold([], ["p"]);
    assert Fold([], ["p"]) == Fold(["p"], []);
  }

  lemma ExampleSplitFile()
    ensures Split("p/a.js", '/') == ["p", "a.js"]
  {
    SplitNoSeparator("a.js", '/');
    assert "p/a.js" == "p" + ['/'] + "a.js";
    SplitAfterPart("p", '/', "a.js");
  }

  lemma ExampleSplitResource()
    ensures Split("/p/a.js", '/') == ["", "p", "a.js"]
  {
    ExampleSplitFile();
    assert "/p/a.js" == "" + ['/'] + "p/a.js";
    SplitAfterPart("", '/', "p/a.js");
  }

  /** `/p/a.js` and `/p/a.js/` both name `a.js` in `/p`. */
  lemma ExampleDirectory()
    ensures DirSegments("/p/a.js") == ["", "p"]
    ensures Basename("/p/a.js") == "a.js"
    ensures DirSegments("/p/a.js/") == ["", "p"]
    ensures Basename("/p/a.js/") == "a.js"
  {
    ExampleSplitResource();
    assert PathParts("/p/a.js") == ["", "p", "a.js"];
    assert ["", "p", "a.js"][..2] == ["", "p"];
    TrailingSeparatorIgnored("/p/a.js");
    assert "/p/a.js" + "/" == "/p/a.js/";
  }

  /** In the example layout, `./name` is probed as `./name`. */
  lemma ExampleProbeBase(name: string)
    requires IsSegment(name) && '\\' !in name
    ensures ProbeBase(["p"], ["", "p"], "./" + name) == "./" + name
  {
    ResolveSibling(["p"], name);
    var segs := Split("./" + name, '/');
    FoldAppend([], ["", "p"], segs);
    FoldAppend([], ["p"], segs);
    assert Fold([], ["", "p"]) == Fold([], ["p"]);
    assert Resolve(["", "p"], "./" + name) == ["p", name];
    assert RelativeParts(["p"], ["p", name]) == [name];
    ReplaceNothing(name);
  }

  /** `import b from './b'` then `const c = require('./c')` are collected in that order. */
  lemma CollectorExample()
    ensures WalkAll([ImportDeclaration("./b"),
                     Other([CallExpression(Identifier("require"), [StringLiteral("./c")])])])
         == Completed(["./b", "./c"])
  {
    var call := CallExpression(Identifier("require"), [StringLiteral("./c")]);
    assert Walk(StringLiteral("./c")) == Completed([]);
    assert WalkAll([StringLiteral("./c")]) == Completed([]);
    assert Walk(Identifier("require")) == Completed([]);
    assert Walk(call) == Completed(["./c"]);
    assert WalkAll([call]) == Completed(["./c"]);
    assert Walk(Other([call])) == Completed(["./c"]);
    assert Walk(ImportDeclaration("./b")) == Completed(["./b"]);
  }

  lemma ExampleResolveFound()
    ensures ResolveOne(["p"], ["", "p"], [".js"], {"./b.js"}, "./b") == Some("./b.js")
  {
    ExampleProbeBase("b");
    assert "./" + "b" == "./b";
    ProbePrecedence("./b", [".js"], {"./b.js"});
    assert "./b" + ".js" == "./b.js";
  }

  lemma ExampleResolveMissing()
    ensures ResolveOne(["p"], ["", "p"], [".js"], {"./b.js"}, "./c") == None
  {
    ExampleProbeBase("c");
    assert "./" + "c" == "./c";
    ProbePrecedence("./c", [".js"], {"./b.js"});
    assert ("./c" + ".js")[2] == 'c' && "./b.js"[2] == 'b';
  }

  lemma ExampleOutcomes()
    ensures Outcomes(["p"], ["", "p"], [".js"], {"./b.js"}, ["./b", "./c"]) == [Some("./b.js"), None]
  {
    assert ["./b", "./c"][1..] == ["./c"] && ["./c"][1..] == [];
    ExampleResolveFound();
    ExampleResolveMissing();
  }

  lemma ExampleFound()
    ensures Found([Some("./b.js"), None]) == ["./b.js"]
  {
    assert [Some("./b.js"), None][1..] == [None];
    assert Found([None]) == [];
  }

  lemma ExampleResolveAll()
    ensures ResolveAll(["p"], ["", "p"], [".js"], {"./b.js"}, ["./b", "./c"]) == ["./b.js"]
  {
    ExampleOutcomes();
    ExampleFound();
  }

  /**
   * `/p/a.js` holds `import b from './b'` and `const c = require('./c')`, and
   * only `b.js` exists next to it: the loader passes `['./b.js']` on.
   */
  lemma EndToEndExample(options: LoaderOptions, content: string, escape: string -> string, text: TemplateText)
    ensures var body := [ImportDeclaration("./b"),
                         Other([CallExpression(Identifier("require"), [StringLiteral("./c")])])];
            Load(LoaderContext("/p/a.js", "/p", [".js"], options), content, body, {"./b.js"}, escape, text)
              == Emitted(Transform(content, "a.js", options, ["./b.js"], escape, text))
  {
    CollectorExample();
    ExampleRoot();
    ExampleDirectory();
    ExampleResolveAll();
  }
}
