# hot-component-loader, modelled in Dafny

hot-component-loader is a webpack loader for AngularJS components, implemented in
`index.js`. It runs once per module and does four things:

1. **Collects dependencies.** It walks the module's syntax tree in pre-order. It
   collects the source of every `import` declaration and the string-literal
   argument of every `require(...)` call.
2. **Resolves them.** Each specifier is resolved against the module's
   directory and made relative to the project root. It is then written as a
   `./`-prefixed forward-slash path and probed on the filesystem: first bare,
   then with each recognised extension. A specifier that resolves to nothing is
   dropped.
3. **Appends a block to components.** When the module's file name ends with the
   configured component suffix, the loader appends a JavaScript block. It
   substitutes four values into the block: the angular reference, the module
   name, the app element and the list of dependencies to decline.
4. **Hot-swaps components at runtime.** The appended block keeps a page-wide
   cache of component definitions. On every hot update it takes the newest
   component registration from the application module's invoke queue and stores
   its definition in the cache. It then registers a decorator that wraps each
   new directive instance in a proxy, and reloads the route when the page has an
   injector. The proxy reads a field from the cached (new) definition unless
   the instance itself has written that field.

The project has one module per part, plus two support modules:

- `Wrappers`: `Option`.
- `Strings`: `Split`, `Join`, `EndsWith`, and the backslash rewrite.
- `Collector`: the syntax-tree datatype and the pure walk `Walk`/`WalkAll`. It
  also holds the mutable `Visitor` class, with its `dependencies` array, which
  is proved against the walk. The pre-order node list serves as an independent
  reference definition.
- `PosixPath`: the POSIX `path.resolve`, `path.relative`, `path.dirname` and
  `path.basename`, on lists of segments. It proves that resolving the relative
  path leads back to its target.
- `Resolver`: the chain of `map`, `find` and `filter` over the collected
  specifiers.
- `Synthesizer`:
  - the option defaults;
  - the decline-list literal, together with a parser that reads it back;
  - the suffix decision;
  - the loader as a whole, as the function `Load` and the method `RunLoader`.
- `HotSwap`: the runtime logic of the appended block.
  - A `Page` class holds the cache, the decorators and the route reloads.
  - An `Instance` class holds the directive object.
  - An `InterceptionProxy` class holds the proxy's `get` and `set` handlers.

The loader's inputs are parameters of the model:

- The parsed tree is a `seq<Node>`, the module body.
- The filesystem is the set of path strings that exist.
- The string escaper (`jsesc`) is a function.
- The fixed text of the appended block is a `TemplateText` record, cut at its
  four holes.

## Model

| member | source | states |
|---|---|---|
| Collector.Visitor.Enter | index.js:34-58 | `enter` on one node. It pushes the import source, or the literal first argument of a bare `require` call, onto `dependencies`, and pushes nothing for any other node. It fails exactly on a `require()` call with no argument. |
| Collector.Visitor.Traverse | index.js:33-59 | Visiting a node and its subtree succeeds exactly when the pure walk completes. On success, `dependencies` grows by exactly the walk's specifiers. |
| Collector.Visitor.TraverseChildren | index.js:33-59 | Visiting what lies below a node (a call's callee then its arguments, or any other node's children) succeeds exactly when the walk below it completes. On success, `dependencies` grows by exactly that walk's specifiers. |
| Collector.Visitor.TraverseAll | index.js:33-59 | The loop over a list of sibling nodes. It agrees with `WalkAll`: it succeeds iff the walk completes, and then appends exactly the walk's specifiers. |
| Collector.ActionOfCases | index.js:34-58 | `enter` throws exactly on a `require` call with no argument. It records exactly two things: an import declaration's source, and the string-literal first argument of a `require` call. Every other node does nothing. |
| Collector.Walk | index.js:33-59 | A node whose own `enter` throws makes its whole walk throw. When the walk completes and the node records a specifier, that specifier comes first, before anything from its subtree. |
| Collector.WalkAllCompletesIffEach | index.js:33-59 | Walking a list of siblings completes exactly when every sibling's walk completes. |
| Collector.CollectDependencies | index.js:31-59 | Running the visitor over a module body yields the pure walk `WalkAll(body)`. |
| Collector.WalkIsPreOrder | index.js:33-59 | Walking a node equals gathering over its pre-order node list. The walk throws iff some visited node throws; otherwise it records the specifiers of the recording nodes, in pre-order. |
| Collector.WalkAllIsPreOrder | index.js:33-59 | The same statement for a list of nodes. |
| Collector.CollectedInPreOrder | index.js:31-59 | Collection over a module body throws exactly when a bare `require()` is reached. Otherwise it returns the specifiers in pre-order, duplicates kept. |
| Collector.NoSitesNoDependencies | index.js:35-57 | A body with no import declaration and no `require` call anywhere yields no specifier and does not throw. |
| Collector.CallOfOtherCalleeContributesNothing | index.js:46-48 | A call whose callee is not the identifier `require` records nothing of its own. Only its callee and its arguments are walked. |
| Collector.RequireOfNonLiteralContributesNothing | index.js:50-53 | A `require` call whose first argument is not a string literal records nothing of its own. |
| Collector.NestedRequireExamples | index.js:43-57 | `foo(require('a'))` collects `a`. `require(require('x'))` collects only `x`. |
| Collector.RequireWithoutArgumentThrows | index.js:50-51 | A `require()` with no argument anywhere in the body, at any depth, makes the whole collection throw. |
| Collector.NestedBareRequireThrows | index.js:50-51 | An example: `f(require())` inside a statement makes the collection throw. |
| Strings.EndsWith | index.js:76 | When `endsWith` holds, the suffix is no longer than the name, and the name is its front part followed by the suffix. |
| Strings.EndsWithIffConcat | index.js:76 | `endsWith` holds iff the name is some prefix followed by the suffix. |
| Strings.ReplaceBackslashes | index.js:65 | Keeps the length. Every backslash becomes `/`, every other character is kept, and no backslash is left. |
| PosixPath.Resolve | index.js:63 | Resolving against a directory whose segments hold no separator gives a normalised path: no empty, `.` or `..` segment, and no separator inside a segment. |
| PosixPath.ResolveSibling | index.js:63 | `./name` resolves to the entry `name` of the directory. |
| PosixPath.CommonPrefix | index.js:64 | The length of the longest shared leading run of segments. The runs agree up to it, and the next segments differ. |
| PosixPath.Relative | index.js:64 | For a normalised target, the relative path is empty exactly when the two paths are equal. |
| PosixPath.FoldRelativeParts | index.js:64 | Applying the `..` steps and then the remaining segments of the relative path to `from` gives `to`. |
| PosixPath.RelativeRoundTrip | index.js:63-64 | Resolving `path.relative(from, to)` against `from` gives back `to`, for normalised paths. This includes the empty relative path, when the two paths are equal. |
| PosixPath.TrimTrailing | index.js:61 | Dropping the empty parts that trailing separators leave keeps a non-empty prefix of the parts. Every dropped part is empty, and the last part kept is non-empty unless it is the only one. |
| PosixPath.Basename | index.js:9 | The base name holds no separator. |
| PosixPath.DirSegments | index.js:61 | The directory's segments hold no separator. |
| PosixPath.TrailingSeparatorIgnored | index.js:61 | A trailing separator changes neither the directory nor the base name: `/p/a.js/` names `a.js` in `/p`, as `/p/a.js` does. |
| PosixPath.DirnameBasename | index.js:61 | Joining the directory's segments and the base name with `/` gives back the resource path, followed by the trailing separators that are ignored. There are none when the resource does not end with `/`. |
| Resolver.ProbeBase | index.js:63-65 | The probed path starts with `./` and holds no backslash. |
| Resolver.ProbeBaseNamesTarget | index.js:63-65 | The probed path, read back against the project root, names exactly the file the specifier resolves to. |
| Resolver.FindExisting | index.js:67-72 | `find` over candidate suffixes. The result is present iff some candidate path exists. When present, it is the first candidate path that exists. |
| Resolver.Probe | index.js:67-72 | A path is found exactly when the bare path, or the path with some recognised extension, exists. A found path exists. |
| Resolver.ProbePrecedence | index.js:67-72 | An existing bare path wins. Otherwise the result is the first recognised extension, in configured order, whose path exists. |
| Resolver.ProbePrefersEarlierExtension | index.js:67 | With `.ts` configured before `.js` and both files present, `./foo` resolves to `./foo.ts`. |
| Resolver.ResolveOne | index.js:63-72 | A path found for one specifier exists, and is the specifier's probed base followed by the empty extension or a recognised one. |
| Resolver.Found | index.js:74 | The filter keeps only found paths: no more paths than outcomes, each a found outcome. |
| Resolver.FoundAtPositions | index.js:74 | The k-th kept path is the value found at the k-th kept position. |
| Resolver.FoundPositionsIncrease | index.js:74 | Kept positions strictly increase, so the resolved paths keep the specifiers' order. |
| Resolver.FoundPositionsExact | index.js:66-74 | A specifier's position is kept exactly when its probe found a path. Unresolved specifiers are silently dropped. |
| Resolver.Outcomes | index.js:62-73 | The `map` chain gives one outcome per specifier, in specifier order. The i-th outcome is the probe of the i-th specifier. |
| Resolver.ResolveAll | index.js:62-74 | The whole chain yields at most one path per specifier, and every path it yields exists. |
| Resolver.ResolvedShape | index.js:65-70 | Each resolved path is the probed base of some specifier, followed by either nothing or a recognised extension. |
| Resolver.ResolvedWithoutBackslash | index.js:65-69 | No resolved path holds a backslash, as long as no recognised extension holds one. |
| Synthesizer.AngularRef | index.js:86 | The angular reference holds a backslash exactly when `requireAngular` is set. It then begins with `require('angular')`. |
| Synthesizer.AppElement | index.js:13 | The selector defaults to `body` when the option is falsy, and is the option's text otherwise. It is never empty. |
| Synthesizer.DeclineList | index.js:100 | The literal is bracketed, and is `[]` when nothing resolved. |
| Synthesizer.DeclineListRoundTrip | index.js:100 | Reading the literal back gives exactly the escaped resolved paths, in order. This needs an escaper that leaves no bare quote. |
| Synthesizer.Render | index.js:77-146 | The block's length is the sum of its fixed pieces and the four values. It begins with the text before the angular reference, the reference fills its hole, the decline list sits just before the closing text, and the closing text ends it. |
| Synthesizer.Params | index.js:11-100 | The angular reference holds a backslash exactly when `requireAngular` is truthy. The module name is `appModule`. The app element is never empty, and is `body` when the option is falsy. The decline list is `[]` when nothing resolved. |
| Synthesizer.Transform | index.js:76-149 | The output begins with the unchanged input, and a file name without the suffix gets the input back unchanged. |
| Synthesizer.SuffixDecision | index.js:76-149 | The output always starts with the unchanged input. It equals the input iff the file name does not end with the suffix. Otherwise the rest of it is the rendered block. |
| Synthesizer.ComponentDetectionExample | index.js:76 | Under suffix `.component.js`, `widget.component.js` gets the block and `widget.service.js` is returned unchanged. |
| Synthesizer.Load | index.js:8-150 | The loader fails exactly when the collector throws. Otherwise its output begins with the unchanged input. |
| Synthesizer.RunLoader | index.js:8-150 | The loader as it runs (visitor, then resolution chain, then suffix decision) computes `Load`. |
| Synthesizer.NonComponentUnchanged | index.js:76-149 | A non-component module comes out unchanged, unless the collector throws, which it does whatever the file name. |
| Synthesizer.ComponentDeclinesResolvedDependencies | index.js:62-100 | A component module gets the rendered block. Its decline list reads back as the escaped resolved dependencies, in the order they were collected. |
| Synthesizer.ExampleDirectory | index.js:61 | An example: `/p/a.js` and `/p/a.js/` both have the directory `/p` and the base name `a.js`. |
| Synthesizer.EndToEndExample | index.js:31-74 | `/p/a.js` imports `./b` and requires `./c`, and only `b.js` exists. The loader passes `['./b.js']` to the block. |
| HotSwap.ComponentRequests | index.js:91-93 | The filtered queue holds exactly the component registrations of the queue: every one of them and nothing else. It is no longer than the queue. |
| HotSwap.SelectRequest | index.js:95-97 | A selected request is a component registration taken from the queue. |
| HotSwap.SelectRequestNone | index.js:90-96 | There is no request to select exactly when no queue entry is a component registration. This is the case in which reading `componentRequest[2]` throws. |
| HotSwap.SelectRequestIsLastMatch | index.js:91-96 | The selected request is a component registration in the queue, and no later entry is one. This holds whatever component it names. |
| HotSwap.SelectNewest | index.js:95 | An example: with two component registrations queued, the later one is selected. |
| HotSwap.HandlerGet | index.js:112-121 | A read throws exactly in two cases: no cache exists, or the field is clean and the cache has no entry for the component. The second is line 115 calling `hasOwnProperty` on `undefined`. |
| HotSwap.ProxyReadRule | index.js:112-121 | A field the instance never wrote reads the cached definition's own field, if the definition has it. A written field, or a field the definition lacks, reads the instance's own field. |
| HotSwap.Page.StoreDefinition | index.js:102-106 | Creates the cache if it is absent, then overwrites the component's entry and keeps every other entry. |
| HotSwap.Page.HandleReloading | index.js:81-143 | The state after one run. Without `module.hot` nothing changes. With no component registration the run throws before touching any state. Otherwise the newest registration's definition is cached and a decorator is added, on every run. The route reloads iff an injector is present. Every decorated component keeps a cache entry. |
| HotSwap.InterceptionProxy.Get | index.js:112-121 | The handler's `get` follows the proxy read rule. It throws only when the cache or the component's entry is missing. |
| HotSwap.InterceptionProxy.Set | index.js:122-131 | The handler's `set` marks the field dirty, writes it on the instance and answers `true`. Afterwards the field reads the written value, whatever the cache holds. |
| HotSwap.DecoratedReadsSucceed | index.js:106-116 | A decorated component's proxy never throws on a read. |
| HotSwap.WrittenFieldSurvivesReload | index.js:122-131 | A field written through the proxy reads its written value after any later run of the reloading code, whatever the queue holds and whether or not the run is hot or finds an injector. |
| HotSwap.UnwrittenFieldFollowsReload | index.js:102-121 | After a hot update that registers the proxy's component, a field the instance never wrote reads the new definition's value. |
| HotSwap.ReloadKeepsWrittenField | index.js:102-142 | An example: `card` is registered with `v1`, `title` is written through its proxy, and `card` is registered again with `v2`. `title` keeps the written value, `label` reads `v2`, and the route has reloaded on both runs. |

## Left out

- Parsing: babylon's parse (index.js:17-29) is not modelled, and parse failures are not modelled either; the loader receives an already parsed tree. Node kinds other than imports, calls, identifiers and string literals are `Other` nodes.
- The webpack context, `loader-utils` option parsing and the source map argument are not modelled. The resource path, the project root, the recognised extensions and the options come in as a `LoaderContext` value.
- `fs.existsSync`: the filesystem is the set of path strings that exist. The model does not tell files from directories, and the probes are not I/O.
- `jsesc`: the escaper is a parameter. The decline-list round trip assumes only that its output leaves no unescaped quote.
- Template text: the fixed text of the appended block is a parameter. The model does not check that the emitted JavaScript is valid. In particular it does not check the literal backslash-`n` that `requireAngular` inserts, or that line 87 uses the global `angular` rather than `angularRef`.
- Synthesizer.AppElement: a non-string truthy option (such as `true`) is modelled only as the text it interpolates to.
- Option coercion: `appModule` is modelled as a string. An unset module name interpolates as `undefined`, which the model does not distinguish.
- `componentFilenameSuffix`: modelled as a string. An unset suffix, which `endsWith` coerces to the text `undefined`, is not modelled separately.
- Paths: only POSIX paths are modelled. Windows drive letters and separators in `path`, and resolution of a relative root or resource against the process's working directory, are not.
- Dependencies that escape the root: a dependency that resolves above the project root yields a path that starts with `./../`. The model computes that path, but states no property specific to it.
- Runtime calls into Angular and webpack's hot-module API are not modelled as calls:
  - `module.hot.accept`, `module.hot.decline` and `console.warn` have no effect in the model;
  - `angular.element`, `.data()` and the injector are reduced to whether an injector is present;
  - `$route.reload()` is a counter.
- HotSwap.InterceptionProxy: the Proxy receiver, the prototype chain and getters are not modelled, and neither are proxies stacked by decorators registered on repeated runs. The instance's own fields are a map. The dirty-key set is a field of the instance rather than one of its properties, so it never shows up as a property.
- The unused variable on line 123 (`modifiedKeys`, read from a misspelt property) has no effect and is not modelled.
- HotSwap.Page.HandleReloading: the decorator registration (index.js:108-135) has no guard, so the model appends a decorator on every run.
- Concurrency and the order in which webpack runs loaders are not modelled.
