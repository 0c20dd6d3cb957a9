/** Socket addresses and the ZooKeeper node path a service is registered
    under. The root path and the text form of an address are inputs: they come
    from code outside this model. */
module ZkRegistry {
  import opened JavaText

  /** A port `InetSocketAddress` accepts. */
  predicate IsPort(p: int)
  {
    0 <= p <= 0xFFFF
  }

  /** `InetSocketAddress(host, port)` with a port its constructor accepted. */
  datatype InetSocketAddress = InetSocketAddress(host: string, port: int)

  /** `toString()` of an address made from an IPv4 literal: the host name
      is unknown, so the text is `"/" + ip + ":" + port`. */
  function LiteralAddressText(a: InetSocketAddress): (text: string)
    requires IsPort(a.port)
    ensures |text| > |a.host| + 2 && text[0] == '/' && text[1..|a.host| + 1] == a.host && text[|a.host| + 1] == ':'
    ensures AllDigits(text[|a.host| + 2..])
  {
    "/" + a.host + ":" + NatToString(a.port)
  }

  /** `registerService`: the path of the persistent node it creates, made of
      the root, `/`, the service name and the address text, in that order. */
  function ServicePath(rootPath: string, rpcServiceName: string, addressText: string): (path: string)
    ensures |path| == |rootPath| + 1 + |rpcServiceName| + |addressText|
  {
    rootPath + "/" + rpcServiceName + addressText
  }

  /** The path starts with the root and `/`, holds the name verbatim right
      after, and ends with the address text. */
  lemma ServicePathLayout(rootPath: string, rpcServiceName: string, addressText: string)
    ensures var path := ServicePath(rootPath, rpcServiceName, addressText);
            && path[..|rootPath| + 1] == rootPath + "/"
            && path[|rootPath| + 1..|rootPath| + 1 + |rpcServiceName|] == rpcServiceName
            && path[|rootPath| + 1 + |rpcServiceName|..] == addressText
  {
    var path := ServicePath(rootPath, rpcServiceName, addressText);
    assert path == (rootPath + "/") + rpcServiceName + addressText;
  }

  /** Under one root and one address, different names get different paths. */
  lemma ServicePathInjective(rootPath: string, n1: string, n2: string, addressText: string)
    ensures ServicePath(rootPath, n1, addressText) == ServicePath(rootPath, n2, addressText) <==> n1 == n2
  {
    if ServicePath(rootPath, n1, addressText) == ServicePath(rootPath, n2, addressText) {
      ServicePathLayout(rootPath, n1, addressText);
      ServicePathLayout(rootPath, n2, addressText);
    }
  }

  /** No separator is added between the name and the address text: text
      moved from the end of the name to the front of the address text leaves
      the path unchanged. */
  lemma ServicePathNoSeparator(rootPath: string, rpcServiceName: string, moved: string, addressText: string)
    ensures ServicePath(rootPath, rpcServiceName + moved, addressText)
         == ServicePath(rootPath, rpcServiceName, moved + addressText)
  {
    assert rootPath + "/" + (rpcServiceName + moved) + addressText
        == rootPath + "/" + rpcServiceName + (moved + addressText);
  }
}
