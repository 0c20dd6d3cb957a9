/** The server-side table of published services (`ZkServiceProviderImpl`):
    service objects by RPC service name, the set of names added, and the
    calls made on the service registry when publishing. */
module ServiceProvider {
  import opened Common
  import opened ServiceNaming
  import opened ZkRegistry

  /** `NettyRpcServer.PORT`, the port every service is published with. */
  const PORT := 9998

  /** `RpcException(SERVICE_CAN_NOT_BE_FOUND)`. */
  datatype ProviderError = ServiceCanNotBeFound

  /** One `serviceRegistry.registerService(rpcServiceName, address)` call. */
  datatype Registration = Registration(rpcServiceName: string, address: InetSocketAddress)

  class ZkServiceProviderImpl {
    var serviceMap: map<string, ServiceObject>
    var registeredService: set<string>
    /** The calls made on the service registry, oldest first. */
    var registrations: seq<Registration>

    /** The names in the map are the names recorded, and every name published
        has a local service object, at the server port. */
    ghost predicate Valid()
      reads this
    {
      && serviceMap.Keys == registeredService
      && (forall k :: 0 <= k < |registrations| ==>
            registrations[k].rpcServiceName in registeredService && registrations[k].address.port == PORT)
    }

    constructor ()
      ensures Valid()
      ensures serviceMap == map[] && registeredService == {} && registrations == []
    {
      serviceMap := map[];
      registeredService := {};
      registrations := [];
    }

    /** `addService(config)`: the first add of a name stores its object; a
        later add of the same name changes nothing. */
    method AddService(rpcServiceConfig: RpcServiceConfig)
      requires Valid()
      modifies this
      ensures Valid()
      ensures registrations == old(registrations)
      ensures var name := RpcServiceName(rpcServiceConfig);
              name in old(registeredService) ==>
                serviceMap == old(serviceMap) && registeredService == old(registeredService)
      ensures var name := RpcServiceName(rpcServiceConfig);
              name !in old(registeredService) ==>
                && serviceMap == old(serviceMap)[name := rpcServiceConfig.service]
                && registeredService == old(registeredService) + {name}
    {
      var rpcServiceName := RpcServiceName(rpcServiceConfig);
      if rpcServiceName in registeredService {
        return;
      }
      registeredService := registeredService + {rpcServiceName};
      serviceMap := serviceMap[rpcServiceName := rpcServiceConfig.service];
    }

    /** `getService(name)`: the stored object, or the not-found error. */
    method GetService(rpcServiceName: string) returns (r: Result<ServiceObject, ProviderError>)
      ensures rpcServiceName in serviceMap ==> r == Success(serviceMap[rpcServiceName])
      ensures rpcServiceName !in serviceMap ==> r == Failure(ServiceCanNotBeFound)
    {
      if rpcServiceName !in serviceMap {
        return Failure(ServiceCanNotBeFound);
      }
      r := Success(serviceMap[rpcServiceName]);
    }

    /** `publishService(config)`. `localHost` is the host address of
        `InetAddress.getLocalHost()`, `None` when it throws
        `UnknownHostException`. Otherwise the service is added (possibly as a
        no-op) and registered under its name at the server port. */
    method PublishService(rpcServiceConfig: RpcServiceConfig, localHost: Option<string>)
      requires Valid()
      modifies this
      ensures Valid()
      ensures localHost.None? ==>
                && serviceMap == old(serviceMap) && registeredService == old(registeredService)
                && registrations == old(registrations)
      ensures localHost.Some? ==>
                var name := RpcServiceName(rpcServiceConfig);
                && registrations == old(registrations) + [Registration(name, InetSocketAddress(localHost.value, PORT))]
                && registeredService == old(registeredService) + {name}
                && serviceMap == if name in old(serviceMap) then old(serviceMap)
                                 else old(serviceMap)[name := rpcServiceConfig.service]
    {
      if localHost.None? {
        return;
      }
      var host := localHost.value;
      AddService(rpcServiceConfig);
      registrations := registrations + [Registration(RpcServiceName(rpcServiceConfig), InetSocketAddress(host, PORT))];
    }
  }
}
