/** `lookupService`: the addresses registered under the request's service
    name are fetched, one is chosen by the load balancer and its `host:port`
    text is parsed. The children lookup and the balancer are parameters. */
module ZkDiscovery {
  import opened Common
  import opened JavaText
  import opened ServiceNaming
  import opened ZkRegistry

  /** The exceptions `lookupService` can raise. */
  datatype LookupError =
    | ServiceCanNotBeFound(rpcServiceName: string)
    | ArrayIndexOutOfBounds(index: int)
    | NumberFormat(text: string)
    | PortOutOfRange(port: int)

  /** `url.split(":")`, `Integer.parseInt` of the second piece and the port
      check of `new InetSocketAddress(host, port)`. */
  function ParseServiceUrl(url: string): (r: Result<InetSocketAddress, LookupError>)
    ensures r.Success? ==> ':' in url && IsPort(r.value.port) && ':' !in r.value.host
  {
    var parts := Split(url, ':');
    if |parts| == 0 then Failure(ArrayIndexOutOfBounds(0))
    else if |parts| == 1 then Failure(ArrayIndexOutOfBounds(1))
    else
      match ParseInt(parts[1])
      case None => Failure(NumberFormat(parts[1]))
      case Some(port) =>
        if IsPort(port) then Success(InetSocketAddress(parts[0], port)) else Failure(PortOutOfRange(port))
  }

  /** `lookupService(rpcRequest)`. `childrenOf` gives the child nodes of a
      service name (`null` and an empty list alike are `[]`) and `balance` is
      `loadBalance.selectServiceAddress`. */
  function LookupService(rpcRequest: RpcRequest, childrenOf: string -> seq<string>,
                         balance: (seq<string>, RpcRequest) -> string): (r: Result<InetSocketAddress, LookupError>)
    ensures childrenOf(RequestServiceName(rpcRequest)) == [] <==> r == Failure(ServiceCanNotBeFound(RequestServiceName(rpcRequest)))
    ensures r.Success? ==> r == ParseServiceUrl(balance(childrenOf(RequestServiceName(rpcRequest)), rpcRequest))
  {
    var rpcServiceName := RequestServiceName(rpcRequest);
    var serviceUrlList := childrenOf(rpcServiceName);
    if |serviceUrlList| == 0 then Failure(ServiceCanNotBeFound(rpcServiceName))
    else ParseServiceUrl(balance(serviceUrlList, rpcRequest))
  }

  /** No address registered: the error names the service, whatever the
      balancer would have chosen. */
  lemma NoAddressNotFound(rpcRequest: RpcRequest, childrenOf: string -> seq<string>,
                          b1: (seq<string>, RpcRequest) -> string, b2: (seq<string>, RpcRequest) -> string)
    requires childrenOf(RequestServiceName(rpcRequest)) == []
    ensures LookupService(rpcRequest, childrenOf, b1) == Failure(ServiceCanNotBeFound(RequestServiceName(rpcRequest)))
    ensures LookupService(rpcRequest, childrenOf, b1) == LookupService(rpcRequest, childrenOf, b2)
  {
  }

  /** The balancer sees exactly the children of the request's service name:
      two balancers that agree on that list give the same result, and a
      non-empty list never gives `ServiceCanNotBeFound`. */
  lemma BalancerSeesChildren(rpcRequest: RpcRequest, childrenOf: string -> seq<string>,
                             b1: (seq<string>, RpcRequest) -> string, b2: (seq<string>, RpcRequest) -> string)
    requires var urls := childrenOf(RequestServiceName(rpcRequest)); b1(urls, rpcRequest) == b2(urls, rpcRequest)
    ensures LookupService(rpcRequest, childrenOf, b1) == LookupService(rpcRequest, childrenOf, b2)
    ensures childrenOf(RequestServiceName(rpcRequest)) != [] ==>
              LookupService(rpcRequest, childrenOf, b1)
              == ParseServiceUrl(b1(childrenOf(RequestServiceName(rpcRequest)), rpcRequest))
  {
  }

  /** A parsed address: the host is the text before the first `:`, and the
      port is the value of the second `:`-separated piece, within port range. */
  lemma ParsedHostAndPort(url: string)
    requires ParseServiceUrl(url).Success?
    ensures ':' in url
    ensures ParseServiceUrl(url).value.host == url[..IndexOf(url, ':')]
    ensures ParseInt(Split(url, ':')[1]) == Some(ParseServiceUrl(url).value.port)
    ensures IsPort(ParseServiceUrl(url).value.port)
  {
    SplitPieces(url, ':');
  }

  /** A text with no `:` lacks the port piece. */
  lemma NoColonMissingPort(url: string)
    requires ':' !in url
    ensures ParseServiceUrl(url) == Failure(ArrayIndexOutOfBounds(1))
  {
  }

  /** A port piece that is not a numeral is a `NumberFormatException`. */
  lemma NonNumericPort(h: string, p: string)
    requires ':' !in h && ':' !in p && p != [] && ParseInt(p).None?
    ensures ParseServiceUrl(h + ":" + p) == Failure(NumberFormat(p))
  {
    SplitPair(h, ':', p);
  }

  /** `h + ":" + p` with `h` free of `:` and `p` a decimal port parses to
      `(h, p)`. */
  lemma HostPortRoundTrip(h: string, p: string)
    requires ':' !in h && p != [] && AllDigits(p) && IsPort(DecimalValue(p))
    ensures ParseServiceUrl(h + ":" + p) == Success(InetSocketAddress(h, DecimalValue(p)))
  {
    assert ':' !in p by {
      forall k | 0 <= k < |p| ensures p[k] != ':' {
        assert IsDigit(p[k]);
      }
    }
    SplitPair(h, ':', p);
    ParseIntNumeral(p);
  }

  /** The child node written for an address made from an IPv4 literal parses
      back to that address. */
  lemma LiteralAddressRoundTrip(a: InetSocketAddress)
    requires IsPort(a.port) && ':' !in a.host
    ensures LiteralAddressText(a)[0] == '/'
    ensures ParseServiceUrl(LiteralAddressText(a)[1..]) == Success(a)
  {
    var p := NatToString(a.port);
    assert LiteralAddressText(a)[1..] == a.host + ":" + p;
    DecimalRoundTrip(a.port);
    HostPortRoundTrip(a.host, p);
  }
}
