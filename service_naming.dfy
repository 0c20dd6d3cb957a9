/** How a logical service is named. The publisher derives the name from its
    service configuration and the caller derives it from the request; both are
    the interface name, the group and the version concatenated with no delimiter,
    and that shared string is what lets a lookup find a published service. */
module ServiceNaming {

  /** Identity of a Java object passed around by the framework (an argument or a
      return value); only equality of these is ever used. */
  type JavaObject = nat

  /** A published service object. `firstInterface` is the canonical name of the
      first interface its class implements, which is what reflection yields in
      `getServiceName`. */
  datatype ServiceObject = ServiceObject(id: JavaObject, firstInterface: string)

  /** `RpcServiceConfig`: the Lombok setters are datatype updates. */
  datatype RpcServiceConfig = RpcServiceConfig(version: string, group: string, service: ServiceObject)

  /** The no-argument constructor (group and version default to the empty
      string) followed by `setService(service)`. */
  function DefaultConfig(service: ServiceObject): (c: RpcServiceConfig)
    ensures c.group == "" && c.version == "" && c.service == service
  {
    RpcServiceConfig("", "", service)
  }

  /** `RpcServiceConfig.getServiceName`. */
  function ServiceName(c: RpcServiceConfig): string
  {
    c.service.firstInterface
  }

  /** `RpcServiceConfig.getRpcServiceName`. */
  function RpcServiceName(c: RpcServiceConfig): string
  {
    ServiceName(c) + c.group + c.version
  }

  /** `RpcRequest`: built once, only getters afterwards. */
  datatype RpcRequest = RpcRequest(
    requestId: string,
    interfaceName: string,
    methodName: string,
    parameters: seq<JavaObject>,
    paramTypes: seq<string>,
    version: string,
    group: string)

  /** `RpcRequest.getRpcServiceName`. */
  function RequestServiceName(r: RpcRequest): string
  {
    r.interfaceName + r.group + r.version
  }

  /** The name is the interface name, then the group, then the version. */
  lemma NameLayout(c: RpcServiceConfig)
    ensures var n := RpcServiceName(c);
            && |n| == |ServiceName(c)| + |c.group| + |c.version|
            && n[..|ServiceName(c)|] == ServiceName(c)
            && n[|ServiceName(c)|..|ServiceName(c)| + |c.group|] == c.group
            && n[|ServiceName(c)| + |c.group|..] == c.version
  {
  }

  /** With the defaults, the service name is the bare interface name. */
  lemma DefaultConfigName(service: ServiceObject)
    ensures RpcServiceName(DefaultConfig(service)) == service.firstInterface
  {
    assert service.firstInterface + "" + "" == service.firstInterface;
  }

  /** A request naming the same interface, group and version as a configuration
      yields the very string the publisher registered under. */
  lemma RequestMeetsConfig(c: RpcServiceConfig, r: RpcRequest)
    requires r.interfaceName == ServiceName(c) && r.group == c.group && r.version == c.version
    ensures RequestServiceName(r) == RpcServiceName(c)
  {
  }

  lemma {:induction false} CancelPrefix(p: string, a: string, b: string)
    ensures p + a == p + b <==> a == b
  {
    if p + a == p + b {
      assert a == (p + a)[|p|..];
      assert b == (p + b)[|p|..];
    }
  }

  /** For one interface, two configurations get the same name exactly when their
      group and version spell the same text: the split between them is lost. */
  lemma ConfigNameCollision(c1: RpcServiceConfig, c2: RpcServiceConfig)
    requires ServiceName(c1) == ServiceName(c2)
    ensures RpcServiceName(c1) == RpcServiceName(c2) <==> c1.group + c1.version == c2.group + c2.version
  {
    var i := ServiceName(c1);
    assert RpcServiceName(c1) == i + (c1.group + c1.version);
    assert RpcServiceName(c2) == i + (c2.group + c2.version);
    CancelPrefix(i, c1.group + c1.version, c2.group + c2.version);
  }

  /** The same holds for requests. */
  lemma RequestNameCollision(r1: RpcRequest, r2: RpcRequest)
    requires r1.interfaceName == r2.interfaceName
    ensures RequestServiceName(r1) == RequestServiceName(r2) <==> r1.group + r1.version == r2.group + r2.version
  {
    var i := r1.interfaceName;
    assert RequestServiceName(r1) == i + (r1.group + r1.version);
    assert RequestServiceName(r2) == i + (r2.group + r2.version);
    CancelPrefix(i, r1.group + r1.version, r2.group + r2.version);
  }

  /** Group "A" with version "B" and group "AB" with version "" are two
      different configurations sharing one name. */
  lemma ConfigNameNotInjective(service: ServiceObject)
    ensures var c1 := RpcServiceConfig("B", "A", service);
            var c2 := RpcServiceConfig("", "AB", service);
            c1 != c2 && RpcServiceName(c1) == RpcServiceName(c2)
  {
    ConfigNameCollision(RpcServiceConfig("B", "A", service), RpcServiceConfig("", "AB", service));
  }

  lemma RequestNameNotInjective(r: RpcRequest)
    ensures var r1 := r.(group := "A", version := "B");
            var r2 := r.(group := "AB", version := "");
            r1 != r2 && RequestServiceName(r1) == RequestServiceName(r2)
  {
    RequestNameCollision(r.(group := "A", version := "B"), r.(group := "AB", version := ""));
  }
}
