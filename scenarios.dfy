/** End-to-end properties that span several components: a published service
    is found by a matching request, and the caches of the extension loader and
    the load balancer hand back what they handed out before. */
module Scenarios {
  import opened Common
  import opened JavaText
  import opened ServiceNaming
  import opened ZkRegistry
  import opened ZkDiscovery
  import opened ServiceProvider
  import opened Extensions
  import opened ConsistentHash

  /** The node `publishService` registers for a service: the path is the
      root, the request's service name and the child node, and that child node
      is the address text without its leading `/`. */
  lemma PublishedPath(config: RpcServiceConfig, request: RpcRequest, rootPath: string, host: string)
    requires request.interfaceName == ServiceName(config)
    requires request.group == config.group && request.version == config.version
    ensures var address := InetSocketAddress(host, PORT);
            LiteralAddressText(address)[0] == '/'
            && ServicePath(rootPath, RpcServiceName(config), LiteralAddressText(address))
               == rootPath + "/" + RequestServiceName(request) + "/" + LiteralAddressText(address)[1..]
  {
    var text := LiteralAddressText(InetSocketAddress(host, PORT));
    RequestMeetsConfig(config, request);
    assert text == "/" + text[1..];
    var name := RequestServiceName(request);
    assert rootPath + "/" + name + ("/" + text[1..]) == rootPath + "/" + name + "/" + text[1..];
  }

  /** A request for the interface, group and version of a service published
      from host `host` finds it: when the published child node is the only
      child of the service name and the balancer picks from its list, the
      lookup yields the published host and port. */
  lemma PublishedServiceIsFound(config: RpcServiceConfig, request: RpcRequest, host: string,
                                childrenOf: string -> seq<string>, balance: (seq<string>, RpcRequest) -> string)
    requires request.interfaceName == ServiceName(config)
    requires request.group == config.group && request.version == config.version
    requires ':' !in host
    requires var child := LiteralAddressText(InetSocketAddress(host, PORT))[1..];
             && childrenOf(RpcServiceName(config)) == [child]
             && balance([child], request) in [child]
    ensures LookupService(request, childrenOf, balance) == Success(InetSocketAddress(host, PORT))
  {
    var address := InetSocketAddress(host, PORT);
    RequestMeetsConfig(config, request);
    LiteralAddressRoundTrip(address);
  }

  /** A second `getExtension` of a name whose instance was made returns that
      same instance. */
  method SameNameSameInstance(loader: ExtensionLoader, name: string)
    returns (first: Result<Option<ExtensionObject>, ExtensionError>,
             second: Result<Option<ExtensionObject>, ExtensionError>)
    requires loader.Valid() && loader.registry.Valid()
    modifies loader, loader.cachedClasses, loader.registry, loader.cachedInstances.Values
    ensures first.Success? && first.value.Some? ==> second == first
    ensures var table := loader.ClassTable();
            !IsBlank(name) && table.Success? && name in table.value
            && loader.registry.classPath.instantiable(table.value[name]) ==>
              first.Success? && first.value.Some? && first.value.value.implementation == table.value[name]
              && second == first
  {
    first := loader.GetExtension(name);
    second := loader.GetExtension(name);
  }

  /** Two names bound to the same class get one shared instance. */
  method SharedInstance(loader: ExtensionLoader, a: string, b: string)
    returns (ra: Result<Option<ExtensionObject>, ExtensionError>,
             rb: Result<Option<ExtensionObject>, ExtensionError>)
    requires loader.Valid() && loader.registry.Valid()
    modifies loader, loader.cachedClasses, loader.registry, loader.cachedInstances.Values
    ensures var table := loader.ClassTable();
            table.Success? && a in table.value && b in table.value && table.value[a] == table.value[b]
            && ra.Success? && ra.value.Some? && rb.Success? && rb.value.Some? ==>
              ra.value.value == rb.value.value
    ensures var table := loader.ClassTable();
            !IsBlank(a) && !IsBlank(b)
            && table.Success? && a in table.value && b in table.value && table.value[a] == table.value[b]
            && loader.registry.classPath.instantiable(table.value[a]) ==>
              ra.Success? && ra.value.Some? && rb == ra && ra.value.value.implementation == table.value[a]
  {
    ra := loader.GetExtension(a);
    rb := loader.GetExtension(b);
  }

  /** Asking twice for the loader of a valid type gives one loader. */
  method SameLoader(registry: ExtensionRegistry, t: ExtensionType)
    returns (first: Result<ExtensionLoader, ExtensionError>, second: Result<ExtensionLoader, ExtensionError>)
    requires registry.LoadersValid()
    modifies registry
    ensures registry.LoadersValid()
    ensures first.Success? ==> second == first && first.value.Valid()
  {
    first := registry.GetExtensionLoader(Some(t));
    second := registry.GetExtensionLoader(Some(t));
  }

  /** `getExtensionLoader(type).getExtension(name)`, as a client does it on
      every call: a loader is found for an `@SPI` interface, an instance it
      already holds is handed back from a cached loader, and every cached
      loader stays usable for the next call. */
  method ExtensionOfType(registry: ExtensionRegistry, t: ExtensionType, name: string)
    returns (r: Result<Option<ExtensionObject>, ExtensionError>)
    requires registry.LoadersValid()
    modifies registry, registry.extensionLoaders.Values, registry.LoaderState()
    ensures registry.LoadersValid()
    ensures !t.isInterface ==> r == Failure(IllegalArgument("Extension type must be an interface."))
    ensures t.isInterface && !t.annotatedWithSpi ==>
              r == Failure(IllegalArgument("Extension type must be annotated by @SPI"))
    ensures t.isInterface && t.annotatedWithSpi && !IsBlank(name) && t in old(registry.extensionLoaders)
            && name in old(registry.extensionLoaders[t].cachedInstances)
            && old(registry.extensionLoaders[t].cachedInstances[name].value).Some? ==>
              r == Success(old(registry.extensionLoaders[t].cachedInstances[name].value))
  {
    var found := registry.GetExtensionLoader(Some(t));
    if found.Failure? {
      return Failure(found.error);
    }
    var loader := found.value;
    label Before:
    r := loader.GetExtension(name);
    LoadersStayValid@Before(loader);
  }

  /** Routing a key twice with an unchanged address list (same identity hash)
      reuses the ring and picks the same address. */
  method StableRouting(balancer: ConsistentHashLoadBalance, addresses: seq<string>, identityHashCode: int,
                       request: RpcRequest, parameterText: string)
    returns (first: Option<string>, second: Option<string>)
    requires balancer.Valid()
    modifies balancer
    ensures second == first
    ensures addresses != [] && RequestServiceName(request) !in old(balancer.selectors) ==>
              first.Some? && first.value in addresses
  {
    first := balancer.DoSelect(addresses, identityHashCode, request, parameterText);
    second := balancer.DoSelect(addresses, identityHashCode, request, parameterText);
  }
}
