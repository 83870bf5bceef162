/**
 * The runtime logic of the block index.js appends to a component module
 * (`handleReloading`): it picks the newest component registration from the
 * application module's invoke queue, stores its definition in a page-wide
 * cache, registers a decorator that wraps each new directive instance in a
 * proxy, and reloads the route when an injector is present. The proxy reads a
 * field from the cached definition unless the instance itself has written it.
 */
module HotSwap {
  import opened Wrappers

  /** A JavaScript value; `Undefined` is what a missing property reads as. */
  datatype Value = Undefined | Primitive(text: string) | Reference(id: nat)

  /** The own properties of an object. */
  type Props = map<string, Value>

  /** One `_invokeQueue` entry, `[provider, callbackType, [name, definition]]`. */
  datatype Invocation = Invocation(provider: string, callbackType: string, name: string, definition: Props)

  predicate IsComponentRequest(e: Invocation) {
    e.provider == "$compileProvider" && e.callbackType == "component"
  }

  /** `requestsQueue.filter(...)`: the component registrations, in queue order. */
  function ComponentRequests(queue: seq<Invocation>): (r: seq<Invocation>)
    ensures |r| <= |queue|
    ensures forall e :: e in r <==> e in queue && IsComponentRequest(e)
  {
    if queue == [] then []
    else
      var front := queue[..|queue| - 1];
      var last := queue[|queue| - 1];
      var r := ComponentRequests(front);
      assert forall e :: e in front ==> e in queue;
      r + if IsComponentRequest(last) then [last] else []
  }

  /** The last element of the filtered queue; `None` where reading it throws. */
  function SelectRequest(queue: seq<Invocation>): (r: Option<Invocation>)
    ensures r.Some? ==> r.value in queue && IsComponentRequest(r.value)
  {
    var all := ComponentRequests(queue);
    if all == [] then None else Some(all[|all| - 1])
  }

  lemma ComponentRequestsStep(queue: seq<Invocation>)
    requires queue != []
    ensures ComponentRequests(queue) == ComponentRequests(queue[..|queue| - 1])
              + if IsComponentRequest(queue[|queue| - 1]) then [queue[|queue| - 1]] else []
  {
  }

  /** There is no request to select exactly when no entry is a component registration. */
  lemma {:induction false} SelectRequestNone(queue: seq<Invocation>)
    ensures SelectRequest(queue).None? <==> forall i :: 0 <= i < |queue| ==> !IsComponentRequest(queue[i])
  {
    if queue != [] {
      var n := |queue|;
      var front := queue[..n - 1];
      SelectRequestNone(front);
      ComponentRequestsStep(queue);
      if !IsComponentRequest(queue[n - 1]) {
        forall i | 0 <= i < n - 1 ensures queue[i] == front[i] {}
      }
    }
  }

  /**
   * Request selection: the newest component registration in the whole queue,
   * whatever component it names.
   */
  lemma {:induction false} SelectRequestIsLastMatch(queue: seq<Invocation>)
    requires SelectRequest(queue).Some?
    ensures exists i :: 0 <= i < |queue| && queue[i] == SelectRequest(queue).value
              && IsComponentRequest(queue[i])
              && forall j :: i < j < |queue| ==> !IsComponentRequest(queue[j])
  {
    var n := |queue|;
    var front := queue[..n - 1];
    ComponentRequestsStep(queue);
    if IsComponentRequest(queue[n - 1]) {
      assert queue[n - 1] == SelectRequest(queue).value;
    } else {
      assert SelectRequest(queue) == SelectRequest(front);
      SelectRequestIsLastMatch(front);
      var i :| 0 <= i < |front| && front[i] == SelectRequest(front).value
               && IsComponentRequest(front[i])
               && forall j :: i < j < |front| ==> !IsComponentRequest(front[j]);
      assert queue[i] == front[i];
      forall j | i < j < n ensures !IsComponentRequest(queue[j]) {
        if j < n - 1 { assert queue[j] == front[j]; }
      }
    }
  }

  /** Reading a field through the proxy: the value, or the `TypeError` raised. */
  datatype Read = Got(value: Value) | ReadThrew

  function OwnOrUndefined(props: Props, name: string): Value {
    if name in props then props[name] else Undefined
  }

  /**
   * The handler's `get`: the cached definition's own field unless the
   * instance has marked the field dirty, else the instance's own field.
   */
  function HandlerGet(cache: Option<map<string, Props>>, componentName: string,
                      props: Props, dirty: Option<set<string>>, name: string): (r: Read)
    ensures r.ReadThrew? <==> cache.None? || ((dirty.None? || name !in dirty.value) && componentName !in cache.value)
  {
    if cache.None? then ReadThrew
    else
      var clean := dirty.None? || name !in dirty.value;
      if clean && componentName !in cache.value then ReadThrew
      else if clean && name in cache.value[componentName] then Got(cache.value[componentName][name])
      else Got(OwnOrUndefined(props, name))
  }

  /**
   * Cached code, live data: a field the instance never wrote reads from the
   * cached definition when it has one; a written field reads the instance's
   * own value, whatever the cache holds.
   */
  lemma ProxyReadRule(cache: map<string, Props>, componentName: string,
                      props: Props, dirty: Option<set<string>>, name: string)
    requires componentName in cache
    ensures (dirty.None? || name !in dirty.value) && name in cache[componentName] ==>
              HandlerGet(Some(cache), componentName, props, dirty, name) == Got(cache[componentName][name])
    ensures dirty.Some? && name in dirty.value ==>
              HandlerGet(Some(cache), componentName, props, dirty, name) == Got(OwnOrUndefined(props, name))
    ensures name !in cache[componentName] ==>
              HandlerGet(Some(cache), componentName, props, dirty, name) == Got(OwnOrUndefined(props, name))
  {
  }

  /** The page-wide state the generated code touches. */
  class Page {
    /** `window.hotComponentLoaderComponentCache`, absent until the first run creates it. */
    var componentCache: Option<map<string, Props>>
    /** The component names whose `<name>Directive` decorator was registered, once per run. */
    var decorated: seq<string>
    var routeReloads: nat

    constructor ()
      ensures componentCache == None && decorated == [] && routeReloads == 0
    {
      componentCache := None;
      decorated := [];
      routeReloads := 0;
    }

    /** Every decorated component has a cache entry, so its proxy can always read the cache. */
    predicate Valid()
      reads this
    {
      forall i :: 0 <= i < |decorated| ==> componentCache.Some? && decorated[i] in componentCache.value
    }

    function CacheOrEmpty(): map<string, Props>
      reads this
    {
      if componentCache.Some? then componentCache.value else map[]
    }

    /** Creates the cache if absent, then overwrites the component's entry. */
    method StoreDefinition(componentName: string, definition: Props)
      modifies this`componentCache
      ensures componentCache == Some(old(CacheOrEmpty())[componentName := definition])
    {
      if componentCache.None? {
        componentCache := Some(map[]);
      }
      componentCache := Some(componentCache.value[componentName := definition]);
    }

    /** `handleReloading()`; `hot` is whether the module has `module.hot`. */
    method HandleReloading(hot: bool, queue: seq<Invocation>, injectorPresent: bool) returns (outcome: Reload)
      requires Valid()
      modifies this
      ensures Valid()
      ensures !hot ==> outcome == NotHot
      ensures hot && SelectRequest(queue).None? ==> outcome == SelectionThrew
      ensures outcome.NotHot? || outcome.SelectionThrew? ==>
                componentCache == old(componentCache) && decorated == old(decorated)
                && routeReloads == old(routeReloads)
      ensures hot && SelectRequest(queue).Some? ==>
                var request := SelectRequest(queue).value;
                && componentCache == Some(old(CacheOrEmpty())[request.name := request.definition])
                && decorated == old(decorated) + [request.name]
                && outcome == (if injectorPresent then RouteReloaded else NoInjector)
                && routeReloads == old(routeReloads) + (if injectorPresent then 1 else 0)
    {
      if !hot {
        return NotHot;
      }
      var selected := SelectRequest(queue);
      if selected.None? {
        return SelectionThrew;
      }
      var componentName := selected.value.name;
      StoreDefinition(componentName, selected.value.definition);
      decorated := decorated + [componentName];
      if !injectorPresent {
        return NoInjector;
      }
      routeReloads := routeReloads + 1;
      outcome := RouteReloaded;
    }
  }

  datatype Reload = NotHot | SelectionThrew | NoInjector | RouteReloaded

  /** The live directive object the proxy wraps, with the dirty-key set the handler hangs on it. */
  class Instance {
    var props: Props
    var dirtyKeys: Option<set<string>>

    constructor (props: Props)
      ensures this.props == props && dirtyKeys == None
    {
      this.props := props;
      dirtyKeys := None;
    }
  }

  /** `new Proxy(originalDirective, handler)`, as the decorator builds it. */
  class InterceptionProxy {
    const target: Instance
    const page: Page
    const componentName: string

    constructor (target: Instance, page: Page, componentName: string)
      ensures this.target == target && this.page == page && this.componentName == componentName
    {
      this.target := target;
      this.page := page;
      this.componentName := componentName;
    }

    method Get(name: string) returns (r: Read)
      ensures r == HandlerGet(page.componentCache, componentName, target.props, target.dirtyKeys, name)
      ensures page.componentCache.Some? && componentName in page.componentCache.value ==> r.Got?
    {
      var cache := page.componentCache;
      if cache.None? {
        return ReadThrew;
      }
      var dirtyKeys := target.dirtyKeys;
      if dirtyKeys.None? || name !in dirtyKeys.value {
        if componentName !in cache.value {
          return ReadThrew;
        }
        var cacheValue := cache.value[componentName];
        if name in cacheValue {
          return Got(cacheValue[name]);
        }
      }
      r := Got(if name in target.props then target.props[name] else Undefined);
    }

    /** The handler's `set`: marks the field dirty, writes it on the instance, answers `true`. */
    method Set(name: string, value: Value) returns (ok: bool)
      modifies target
      ensures ok
      ensures target.props == old(target.props)[name := value]
      ensures target.dirtyKeys == Some((if old(target.dirtyKeys).Some? then old(target.dirtyKeys).value else {}) + {name})
      ensures forall cache: Option<map<string, Props>> :: cache.Some? ==>
                HandlerGet(cache, componentName, target.props, target.dirtyKeys, name) == Got(value)
    {
      if target.dirtyKeys.None? {
        target.dirtyKeys := Some({});
      }
      target.dirtyKeys := Some(target.dirtyKeys.value + {name});
      target.props := target.props[name := value];
      ok := true;
    }
  }

  /** A decorated component's proxy always reads without throwing. */
  lemma DecoratedReadsSucceed(page: Page, componentName: string, props: Props,
                              dirty: Option<set<string>>, name: string)
    requires page.Valid() && componentName in page.decorated
    ensures HandlerGet(page.componentCache, componentName, props, dirty, name).Got?
  {
    var i :| 0 <= i < |page.decorated| && page.decorated[i] == componentName;
  }

  /**
   * Live data: a field written through the proxy still reads its written
   * value after any later run of the reloading code, whatever the queue holds.
   */
  method WrittenFieldSurvivesReload(proxy: InterceptionProxy, name: string, value: Value,
                                    hot: bool, queue: seq<Invocation>, injectorPresent: bool)
    returns (r: Read)
    requires proxy.page.Valid() && proxy.page.componentCache.Some?
    modifies proxy.page, proxy.target
    ensures r == Got(value)
  {
    var ok := proxy.Set(name, value);
    var outcome := proxy.page.HandleReloading(hot, queue, injectorPresent);
    r := proxy.Get(name);
  }

  /**
   * Cached code: after a hot update registering the proxy's component, a
   * field the instance never wrote reads the new definition's value.
   */
  method UnwrittenFieldFollowsReload(proxy: InterceptionProxy, name: string,
                                     queue: seq<Invocation>, injectorPresent: bool)
    returns (r: Read)
    requires proxy.page.Valid()
    requires proxy.target.dirtyKeys.None? || name !in proxy.target.dirtyKeys.value
    requires SelectRequest(queue).Some? && SelectRequest(queue).value.name == proxy.componentName
    requires name in SelectRequest(queue).value.definition
    modifies proxy.page
    ensures r == Got(SelectRequest(queue).value.definition[name])
  {
    var outcome := proxy.page.HandleReloading(true, queue, injectorPresent);
    r := proxy.Get(name);
  }

  /** With two component registrations queued, the later one is selected. */
  lemma SelectNewest(first: Invocation, second: Invocation)
    requires IsComponentRequest(first) && IsComponentRequest(second)
    ensures SelectRequest([first]) == Some(first)
    ensures SelectRequest([first, second]) == Some(second)
  {
    assert [first][..0] == [];
    assert [first, second][..1] == [first];
  }

  /**
   * An example: `card` is registered with `v1`, `title` is written through
   * its proxy, then `card` is registered again with `v2`; `title` keeps the
   * written value and `label` reads `v2`.
   */
  method ReloadKeepsWrittenField() returns (written: Read, clean: Read, reloads: nat)
    ensures written == Got(Primitive("edited"))
    ensures clean == Got(Primitive("v2"))
    ensures reloads == 2
  {
    var page := new Page();
    var v1 := map["title" := Primitive("v1"), "label" := Primitive("v1")];
    var v2 := map["title" := Primitive("v2"), "label" := Primitive("v2")];
    var first := Invocation("$compileProvider", "component", "card", v1);
    var second := Invocation("$compileProvider", "component", "card", v2);
    SelectNewest(first, second);
    var outcome := page.HandleReloading(true, [first], true);
    var instance := new Instance(v1);
    var proxy := new InterceptionProxy(instance, page, "card");
    var ok := proxy.Set("title", Primitive("edited"));
    outcome := page.HandleReloading(true, [first, second], true);
    assert page.componentCache.Some? && page.componentCache.value["card"] == v2;
    assert instance.dirtyKeys.Some? && "title" in instance.dirtyKeys.value;
    assert instance.dirtyKeys.value == {"title"} && "label" in v2;
    written := proxy.Get("title");
    clean := proxy.Get("label");
    reloads := page.routeReloads;
  }
}
