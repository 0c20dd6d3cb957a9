# guide-rpc-framework core in Dafny

A Dafny model, with proofs, of the bookkeeping core of guide-rpc-framework, a
small Java RPC framework. The model covers how a service is named, stored,
published, found and routed to:

- **Service naming** (`service_naming.dfy`). `RpcServiceConfig` and
  `RpcRequest` are immutable datatypes. Both build the RPC service name as
  interface name + group + version, with no delimiter in between.
- **Consistent-hash load balancer** (`consistent_hash.dfy`).
  - `ConsistentHashSelector` is a class. Its constructor fills the
    `virtualInvokers` ring with nested loops: 4 little-endian 32-bit windows
    for each of the `replicaNumber / 4` MD5 digests of every address.
  - `selectForKey` is a ceiling lookup that wraps to the first key.
  - `ConsistentHashLoadBalance` caches one selector per service name. It
    rebuilds the selector when the identity hash of the address list changes.
- **Extension loader** (`extension_loader.dfy`, `holder.dfy`).
  - `Holder` is a one-field mutable cell.
  - `ExtensionRegistry` holds the static caches of `ExtensionLoader`: loaders
    by type and instances by implementation class.
  - `ExtensionLoader` parses the `META-INF/extensions/` resource lines into a
    name-to-class table. It memoises that table, keeps one holder per
    extension name, and shares one instance per implementation class. A
    ghost counter records how often the resources are read.
  - Across the registry, every cached loader stays usable and no two loaders
    share an instance holder, from one `getExtensionLoader(type).getExtension(name)`
    call to the next.
- **Service provider** (`service_provider.dfy`). `ZkServiceProviderImpl` is a
  name-to-object map guarded by a set of recorded names. `publishService`
  adds the service and then records one registry call.
- **ZooKeeper registry and discovery** (`zk_registry.dfy`,
  `zk_discovery.dfy`).
  - `registerService` builds the node path.
  - `lookupService` rejects an empty child list, hands the list to the
    balancer, and parses the chosen `host:port` text the way `String.split`
    and `Integer.parseInt` do.
- **Java text operations** (`java_text.dfy`). These are the JDK string
  operations the core relies on: `indexOf`, `trim`, blank tests, `split`,
  `Integer.parseInt` and the decimal text of an `int`.
- **End-to-end properties** (`scenarios.dfy`).
  - A request naming a published service finds the published address, when
    that address is the only child node of the name and the balancer picks
    from the list it is given.
  - Repeated `getExtension` and `getExtensionLoader` calls return the same
    objects.
  - Two names bound to one class share an instance.
  - Routing a key twice gives the same address.

Java exceptions are modelled as `Failure` values of a `Result` datatype
(`common.dfy`), and Java `null` as `None`.

## Model

| member | source | states |
|---|---|---|
| ServiceNaming.ServiceName | rpc-framework-simple/src/main/java/github/javaguide/config/RpcServiceConfig.java:53-55 | defined as the canonical name of the service object's first interface; what the name it feeds satisfies is stated by `NameLayout` and `DefaultConfigName` |
| ServiceNaming.RpcServiceName | rpc-framework-simple/src/main/java/github/javaguide/config/RpcServiceConfig.java:42-44 | defined as service name + group + version with no delimiter; `NameLayout`, `ConfigNameCollision` and `ConfigNameNotInjective` state its layout and when two configurations collide |
| ServiceNaming.RequestServiceName | rpc-framework-simple/src/main/java/github/javaguide/remoting/dto/RpcRequest.java:31-33 | defined as interface name + group + version with no delimiter; `RequestMeetsConfig` and `RequestNameCollision` state that it meets the publisher's name and when two requests collide |
| ServiceNaming.NameLayout | rpc-framework-simple/src/main/java/github/javaguide/config/RpcServiceConfig.java:42-44 | the name is service name, then group, then version, in that order; its length is the sum of the three lengths |
| ServiceNaming.DefaultConfig | rpc-framework-simple/src/main/java/github/javaguide/config/RpcServiceConfig.java:24-28 | the no-argument configuration has empty group and version and holds the given service |
| ServiceNaming.DefaultConfigName | rpc-framework-simple/src/main/java/github/javaguide/config/RpcServiceConfig.java:24-28 | with the default group and version, the service name is the bare interface name |
| ServiceNaming.ConfigNameCollision | rpc-framework-simple/src/main/java/github/javaguide/config/RpcServiceConfig.java:42-44 | for one interface, two configurations get the same name if and only if their group and version concatenate to the same text |
| ServiceNaming.ConfigNameNotInjective | rpc-framework-simple/src/main/java/github/javaguide/config/RpcServiceConfig.java:43 | group "A" with version "B" and group "AB" with version "" are different configurations with the same name |
| ServiceNaming.RequestMeetsConfig | rpc-framework-simple/src/main/java/github/javaguide/remoting/dto/RpcRequest.java:31-33 | a request with the same interface, group and version as a configuration gives the very name the configuration gives |
| ServiceNaming.RequestNameCollision | rpc-framework-simple/src/main/java/github/javaguide/remoting/dto/RpcRequest.java:31-33 | for one interface, two requests get the same name if and only if their group and version concatenate to the same text |
| ServiceNaming.RequestNameNotInjective | rpc-framework-simple/src/main/java/github/javaguide/remoting/dto/RpcRequest.java:32 | two requests differing only in how group and version split "AB" are different but share a name |
| ConsistentHash.Unsigned | rpc-framework-simple/src/main/java/github/javaguide/loadbalance/loadbalancer/ConsistentHashLoadBalance.java:94 | Java widens the signed byte to `int`, masks it with 255 and only then casts to `long`; the model sign-extends to 64 bits and masks, which gives the same value: the byte's unsigned value, in [0, 256) |
| ConsistentHash.Window | rpc-framework-simple/src/main/java/github/javaguide/loadbalance/loadbalancer/ConsistentHashLoadBalance.java:94 | the shifted, or-ed and masked 64-bit expression equals the little-endian sum of the four unsigned bytes |
| ConsistentHash.Hash | rpc-framework-simple/src/main/java/github/javaguide/loadbalance/loadbalancer/ConsistentHashLoadBalance.java:93-95 | a window key needs `4 idx + 3` to be below the digest length and lies in [0, 2^32) |
| ConsistentHash.HashLittleEndian | rpc-framework-simple/src/main/java/github/javaguide/loadbalance/loadbalancer/ConsistentHashLoadBalance.java:93-95 | `hash(d, i)` = d[4i] + 2^8 d[4i+1] + 2^16 d[4i+2] + 2^24 d[4i+3], with unsigned bytes |
| ConsistentHash.ReplicaGroups | rpc-framework-simple/src/main/java/github/javaguide/loadbalance/loadbalancer/ConsistentHashLoadBalance.java:70 | the number of digests per address, `replicaNumber / 4` under Java's truncating division: 0 below 4, and otherwise n with 4n <= replicaNumber < 4n + 4 |
| ConsistentHash.VirtualKey | rpc-framework-simple/src/main/java/github/javaguide/loadbalance/loadbalancer/ConsistentHashLoadBalance.java:71-73 | the key of window h of `md5(invoker + i)`, with `i` written in decimal as `String` concatenation writes an `int`; it lies in [0, 2^32) |
| ConsistentHash.ReplicaPoints | rpc-framework-simple/src/main/java/github/javaguide/loadbalance/loadbalancer/ConsistentHashLoadBalance.java:72-75 | the inner loop over `h` puts exactly `h` points |
| ConsistentHash.ReplicaPointsAt | rpc-framework-simple/src/main/java/github/javaguide/loadbalance/loadbalancer/ConsistentHashLoadBalance.java:71-75 | the j-th put for digest i of an address is window j of `md5(invoker + i)`, stored with that address |
| ConsistentHash.InvokerPoints | rpc-framework-simple/src/main/java/github/javaguide/loadbalance/loadbalancer/ConsistentHashLoadBalance.java:70-76 | an address makes 4 puts per digest |
| ConsistentHash.InvokerPointsOwner | rpc-framework-simple/src/main/java/github/javaguide/loadbalance/loadbalancer/ConsistentHashLoadBalance.java:74 | every put made for an address stores that address |
| ConsistentHash.Points | rpc-framework-simple/src/main/java/github/javaguide/loadbalance/loadbalancer/ConsistentHashLoadBalance.java:69-77 | every put of the constructor, address after address; there is none exactly when the list is empty or there are no digests per address |
| ConsistentHash.PointsFromInvokers | rpc-framework-simple/src/main/java/github/javaguide/loadbalance/loadbalancer/ConsistentHashLoadBalance.java:69-77 | every put of the constructor stores a listed address, at one of that address's own points |
| ConsistentHash.PointsCoverInvokers | rpc-framework-simple/src/main/java/github/javaguide/loadbalance/loadbalancer/ConsistentHashLoadBalance.java:69-77 | every point of every listed address is put |
| ConsistentHash.PutAll | rpc-framework-simple/src/main/java/github/javaguide/loadbalance/loadbalancer/ConsistentHashLoadBalance.java:66-74 | the `TreeMap` after the puts, in order, into an empty map: at most one key per put, and empty exactly when there was no put |
| ConsistentHash.Ring | rpc-framework-simple/src/main/java/github/javaguide/loadbalance/loadbalancer/ConsistentHashLoadBalance.java:65-78 | the ring a new selector holds; it is empty exactly when the address list is empty or `replicaNumber < 4` |
| ConsistentHash.PutAllKeys | rpc-framework-simple/src/main/java/github/javaguide/loadbalance/loadbalancer/ConsistentHashLoadBalance.java:74 | a key is in the map after the puts if and only if some put used it |
| ConsistentHash.PutAllEntry | rpc-framework-simple/src/main/java/github/javaguide/loadbalance/loadbalancer/ConsistentHashLoadBalance.java:74 | every map entry is one of the puts |
| ConsistentHash.PutAllLatest | rpc-framework-simple/src/main/java/github/javaguide/loadbalance/loadbalancer/ConsistentHashLoadBalance.java:74 | a put not followed by another put of the same key decides that key's value: a colliding key keeps the later address |
| ConsistentHash.RingValuesAreInvokers | rpc-framework-simple/src/main/java/github/javaguide/loadbalance/loadbalancer/ConsistentHashLoadBalance.java:65-78 | every value in the ring is an element of the address list |
| ConsistentHash.RingNonEmpty | rpc-framework-simple/src/main/java/github/javaguide/loadbalance/loadbalancer/ConsistentHashLoadBalance.java:69-76 | a non-empty address list with `replicaNumber >= 4` gives a non-empty ring |
| ConsistentHash.RingPointsPerInvoker | rpc-framework-simple/src/main/java/github/javaguide/loadbalance/loadbalancer/ConsistentHashLoadBalance.java:65-78 | at most `4 (replicaNumber / 4)` ring keys map to any one address |
| ConsistentHash.Least | rpc-framework-simple/src/main/java/github/javaguide/loadbalance/loadbalancer/ConsistentHashLoadBalance.java:105 | the first key of a non-empty key set is in it and below every other key |
| ConsistentHash.TailKeys | rpc-framework-simple/src/main/java/github/javaguide/loadbalance/loadbalancer/ConsistentHashLoadBalance.java:105 | defined as the keys of `tailMap(hashCode, true)`, those at or above `hashCode`; `SelectForKey` states the ceiling lookup built on it |
| ConsistentHash.ConsistentHashSelector.constructor | rpc-framework-simple/src/main/java/github/javaguide/loadbalance/loadbalancer/ConsistentHashLoadBalance.java:65-78 | the nested loops leave `virtualInvokers` equal to the puts of all addresses' points, in order, into an empty map; the identity hash is stored |
| ConsistentHash.ConsistentHashSelector.PutDigest | rpc-framework-simple/src/main/java/github/javaguide/loadbalance/loadbalancer/ConsistentHashLoadBalance.java:71-75 | the innermost loop adds the four windows of one digest, in order, to the map built so far |
| ConsistentHash.ConsistentHashSelector.SelectForKey | rpc-framework-simple/src/main/java/github/javaguide/loadbalance/loadbalancer/ConsistentHashLoadBalance.java:102-112 | the value at the smallest key >= hashCode when there is one, otherwise the value at the smallest key; a result exactly when the ring is non-empty |
| ConsistentHash.ConsistentHashSelector.Select | rpc-framework-simple/src/main/java/github/javaguide/loadbalance/loadbalancer/ConsistentHashLoadBalance.java:97-100 | on a non-empty ring the selected address is a ring value; an empty ring gives none |
| ConsistentHash.SelectReturnsInvoker | rpc-framework-simple/src/main/java/github/javaguide/loadbalance/loadbalancer/ConsistentHashLoadBalance.java:97-100 | on a selector over a non-empty list with at least four replicas, `select` returns a listed address |
| ConsistentHash.SelectedInvoker | rpc-framework-simple/src/main/java/github/javaguide/loadbalance/loadbalancer/ConsistentHashLoadBalance.java:97-100 | with 160 replicas, any selected address is a listed address, and a non-empty list always gives one |
| ConsistentHash.ConsistentHashLoadBalance.constructor | rpc-framework-simple/src/main/java/github/javaguide/loadbalance/loadbalancer/ConsistentHashLoadBalance.java:24 | the balancer starts without selectors |
| ConsistentHash.ConsistentHashLoadBalance.SelectorFor | rpc-framework-simple/src/main/java/github/javaguide/loadbalance/loadbalancer/ConsistentHashLoadBalance.java:43-48 | a cached selector with the current identity hash is kept; otherwise a new 160-replica selector over the list replaces it; afterwards the stored hash is the current one and other names' selectors are untouched |
| ConsistentHash.ConsistentHashLoadBalance.Install | rpc-framework-simple/src/main/java/github/javaguide/loadbalance/loadbalancer/ConsistentHashLoadBalance.java:46 | `selectors.put`: the new selector is stored under the name, every other name keeps its selector, and every cached selector still holds its ring |
| ConsistentHash.ConsistentHashLoadBalance.DoSelect | rpc-framework-simple/src/main/java/github/javaguide/loadbalance/loadbalancer/ConsistentHashLoadBalance.java:38-50 | the same cache update, then `select` on the request's service name followed by the parameter text; a rebuilt selector over a non-empty list gives a listed address, and a kept selector gives one of the addresses it was built over |
| Holders.Holder.constructor | rpc-framework-common/src/main/java/github/javaguide/extension/Holder.java:11 | a new holder is empty |
| Holders.Holder.Get | rpc-framework-common/src/main/java/github/javaguide/extension/Holder.java:13-15 | returns the stored value and changes nothing |
| Holders.Holder.Set | rpc-framework-common/src/main/java/github/javaguide/extension/Holder.java:17-19 | replaces the stored value with the given one |
| JavaText.IsBlank | rpc-framework-common/src/main/java/github/javaguide/extension/ExtensionLoader.java:73 | defined as: every char is whitespace, so the empty name is blank; `GetExtension` states what a blank name does |
| JavaText.IndexOf | rpc-framework-common/src/main/java/github/javaguide/extension/ExtensionLoader.java:193 | -1 when the char is absent, otherwise the position of its first occurrence |
| JavaText.StripLeading | rpc-framework-common/src/main/java/github/javaguide/extension/ExtensionLoader.java:198 | the leading loop of `trim`; never longer than its input |
| JavaText.StripLeadingSpec | rpc-framework-common/src/main/java/github/javaguide/extension/ExtensionLoader.java:198 | what the leading loop returns is a suffix of the text, everything it drops is <= U+0020, and it stops at a char above U+0020 or at the end |
| JavaText.StripTrailing | rpc-framework-common/src/main/java/github/javaguide/extension/ExtensionLoader.java:198 | the trailing loop of `trim`; never longer than its input |
| JavaText.StripTrailingSpec | rpc-framework-common/src/main/java/github/javaguide/extension/ExtensionLoader.java:198 | what the trailing loop returns is a prefix of the text, everything it drops is <= U+0020, and it stops at a char above U+0020 or at the start |
| JavaText.Trim | rpc-framework-common/src/main/java/github/javaguide/extension/ExtensionLoader.java:198 | `String.trim`: no char <= U+0020 at either end, and the result is a slice of the input |
| JavaText.TrimPadded | rpc-framework-common/src/main/java/github/javaguide/extension/ExtensionLoader.java:202-203 | trimming blanks + t + blanks, for t already trimmed, gives t |
| JavaText.TrimKeeps | rpc-framework-common/src/main/java/github/javaguide/extension/ExtensionLoader.java:198 | trimming keeps every char above U+0020 that the text holds |
| JavaText.Segments | rpc-framework-simple/src/main/java/github/javaguide/registry/zk/ZkServiceDiscoveryImpl.java:51 | the pieces between separators, trailing empty ones included: at least one, none holding the separator |
| JavaText.Split | rpc-framework-simple/src/main/java/github/javaguide/registry/zk/ZkServiceDiscoveryImpl.java:51 | `split(":")`: no piece holds the separator, and a text without it is the one piece it is; `SplitPair` and `SplitPieces` state how pieces relate to the text |
| JavaText.SplitPair | rpc-framework-simple/src/main/java/github/javaguide/registry/zk/ZkServiceDiscoveryImpl.java:51 | `split(":")` of h + ":" + p, neither holding a colon and p non-empty, is [h, p] |
| JavaText.SplitPieces | rpc-framework-simple/src/main/java/github/javaguide/registry/zk/ZkServiceDiscoveryImpl.java:51-52 | when `split(":")` gives at least two pieces, the text has a colon, the first piece is the text before the first colon and the second the text from there up to the next colon |
| JavaText.NatToString | rpc-framework-simple/src/main/java/github/javaguide/loadbalance/loadbalancer/ConsistentHashLoadBalance.java:71 | the decimal text of a natural number, as `String` concatenation writes an `int`, is a non-empty run of digits |
| JavaText.DecimalRoundTrip | rpc-framework-simple/src/main/java/github/javaguide/registry/zk/ZkServiceDiscoveryImpl.java:53 | the decimal text of a natural number is all digits and reads back as that number |
| JavaText.ParseInt | rpc-framework-simple/src/main/java/github/javaguide/registry/zk/ZkServiceDiscoveryImpl.java:53 | `Integer.parseInt`: an optional sign and at least one ASCII digit; any value it gives is within `int` range; `ParseIntNumeral`, `ParseIntToString` and `ParseIntRejectsNonNumeric` state what it accepts and what it rejects |
| JavaText.ParseIntNumeral | rpc-framework-simple/src/main/java/github/javaguide/registry/zk/ZkServiceDiscoveryImpl.java:53 | `Integer.parseInt` of a decimal numeral within int range is its value |
| JavaText.ParseIntToString | rpc-framework-simple/src/main/java/github/javaguide/registry/zk/ZkServiceDiscoveryImpl.java:53 | `Integer.parseInt` of the decimal text of an int-range natural gives it back |
| JavaText.ParseIntRejectsNonNumeric | rpc-framework-simple/src/main/java/github/javaguide/registry/zk/ZkServiceDiscoveryImpl.java:53 | a text without any digit is a `NumberFormatException` |
| Extensions.StripComment | rpc-framework-common/src/main/java/github/javaguide/extension/ExtensionLoader.java:193-197 | the line up to its first `#`, or the whole line when it has none; the result holds no `#` |
| Extensions.ParseLine | rpc-framework-common/src/main/java/github/javaguide/extension/ExtensionLoader.java:193-212 | one iteration of the read loop: comment cut, trim, then `ParseEntry`; `ParseLineBinding`, `ParseLineCommented`, `BlankLineSkipped`, `ParseLineEntry` and `ParseLineMalformed` state what it yields |
| Extensions.ParseEntry | rpc-framework-common/src/main/java/github/javaguide/extension/ExtensionLoader.java:199-208 | on a trimmed line: the exception exactly when the line is non-empty and has no `=`, carrying the line's length; a binding only with a non-empty trimmed name and class name |
| Extensions.ParseLineBinding | rpc-framework-common/src/main/java/github/javaguide/extension/ExtensionLoader.java:193-205 | a stored pair has a non-empty trimmed name without `=`, a non-empty trimmed class name, and neither holds `#` |
| Extensions.ParseLineCommented | rpc-framework-common/src/main/java/github/javaguide/extension/ExtensionLoader.java:193-197 | appending `#` and a comment to a line changes nothing |
| Extensions.BlankLineSkipped | rpc-framework-common/src/main/java/github/javaguide/extension/ExtensionLoader.java:198-199 | a line of blanks, with or without a comment, is skipped |
| Extensions.ParseLineEntry | rpc-framework-common/src/main/java/github/javaguide/extension/ExtensionLoader.java:198-207 | blanks + name + blanks + `=` + blanks + class + blanks parses to (name, class) |
| Extensions.EntryOf | rpc-framework-common/src/main/java/github/javaguide/extension/ExtensionLoader.java:201-205 | a trimmed line name + blanks + `=` + blanks + class is split at its first `=` into (name, class) |
| Extensions.ParseLineMalformed | rpc-framework-common/src/main/java/github/javaguide/extension/ExtensionLoader.java:199-202 | a line raises `StringIndexOutOfBoundsException` if and only if its non-comment part is not blank and holds no `=` |
| Extensions.Outcomes | rpc-framework-common/src/main/java/github/javaguide/extension/ExtensionLoader.java:191 | one outcome per line read |
| Extensions.OutcomesAppend | rpc-framework-common/src/main/java/github/javaguide/extension/ExtensionLoader.java:191 | the outcomes of two runs of lines are the outcomes of each, in order |
| Extensions.LoadOutcomes | rpc-framework-common/src/main/java/github/javaguide/extension/ExtensionLoader.java:191-214 | the outcomes applied in order to the table, the first malformed one aborting; a successful load never loses a name the table had |
| Extensions.LoadLines | rpc-framework-common/src/main/java/github/javaguide/extension/ExtensionLoader.java:187-218 | `loadResource` on the lines of one resource; a successful load never loses a name the table had |
| Extensions.LoadOutcomesAppend | rpc-framework-common/src/main/java/github/javaguide/extension/ExtensionLoader.java:191-214 | loading a + b is loading a, then b into the table a left |
| Extensions.LoadLinesAppend | rpc-framework-common/src/main/java/github/javaguide/extension/ExtensionLoader.java:191-214 | the same for lines of text |
| Extensions.LoadResources | rpc-framework-common/src/main/java/github/javaguide/extension/ExtensionLoader.java:160-175 | `loadDirectory`: every resource found, in order; a successful load never loses a name the table had |
| Extensions.LoadResourcesFlat | rpc-framework-common/src/main/java/github/javaguide/extension/ExtensionLoader.java:166-170 | loading the resources in turn is loading one file made of all their lines |
| Extensions.LoadOutcomesFirstMalformed | rpc-framework-common/src/main/java/github/javaguide/extension/ExtensionLoader.java:200-211 | the first malformed line decides the exception, with its length |
| Extensions.LoadOutcomesWellFormed | rpc-framework-common/src/main/java/github/javaguide/extension/ExtensionLoader.java:200-211 | without a malformed line, loading succeeds |
| Extensions.LoadLinesFailure | rpc-framework-common/src/main/java/github/javaguide/extension/ExtensionLoader.java:200-211 | `loadResource` fails if and only if some line is malformed, and then with the exception of the first such line |
| Extensions.LoadLinesFirstMalformed | rpc-framework-common/src/main/java/github/javaguide/extension/ExtensionLoader.java:200-211 | the failure of a load is the exception of its first malformed line |
| Extensions.FirstMalformed | rpc-framework-common/src/main/java/github/javaguide/extension/ExtensionLoader.java:199-202 | the position of a malformed line with no malformed line before it |
| Extensions.LoadOutcomesLastBindingWins | rpc-framework-common/src/main/java/github/javaguide/extension/ExtensionLoader.java:205-211 | after a successful load, a name maps to the class of its last binding whose class loads, or keeps its old entry when there is none |
| Extensions.LoadLinesLastBindingWins | rpc-framework-common/src/main/java/github/javaguide/extension/ExtensionLoader.java:205-211 | the same for lines of text: later lines override earlier ones, and a class that fails to load skips only its own line |
| Extensions.ExtensionObject.constructor | rpc-framework-common/src/main/java/github/javaguide/extension/ExtensionLoader.java:116 | a new instance records its implementation class |
| Extensions.ExtensionRegistry.constructor | rpc-framework-common/src/main/java/github/javaguide/extension/ExtensionLoader.java:25-26 | both static caches start empty |
| Extensions.ExtensionRegistry.GetExtensionLoader | rpc-framework-common/src/main/java/github/javaguide/extension/ExtensionLoader.java:44-61 | the three `IllegalArgumentException` messages for a null, non-interface or un-annotated type, in that order of checking; otherwise the cached loader of the type, or a new one that is cached; it keeps the invariant that every cached loader is usable and no two of them share an instance holder, so the loader it returns is usable whether it was cached or new |
| Extensions.ExtensionRegistry.InstanceOf | rpc-framework-common/src/main/java/github/javaguide/extension/ExtensionLoader.java:113-121 | the `EXTENSION_INSTANCES` step: the cached instance of the class when there is one, leaving the cache as it is; otherwise a new instance stored under the class when `newInstance` succeeds, and none, with the cache unchanged, when it fails; the loaders are untouched |
| Extensions.ExtensionLoader.constructor | rpc-framework-common/src/main/java/github/javaguide/extension/ExtensionLoader.java:30-35 | a loader for the type with an empty class holder and no instance holders |
| Extensions.ExtensionLoader.ClassTable | rpc-framework-common/src/main/java/github/javaguide/extension/ExtensionLoader.java:160-175 | defined as `LoadResources` over the resources of `META-INF/extensions/` + type name, starting from an empty table; `GetExtensionClasses` states that it is what the loader caches |
| Extensions.ExtensionLoader.ReadLine | rpc-framework-common/src/main/java/github/javaguide/extension/ExtensionLoader.java:193-208 | the line steps compute the line's outcome |
| Extensions.ExtensionLoader.LoadResource | rpc-framework-common/src/main/java/github/javaguide/extension/ExtensionLoader.java:187-218 | the read loop fills the table as the lines prescribe, or stops at the first malformed line |
| Extensions.ExtensionLoader.LoadDirectory | rpc-framework-common/src/main/java/github/javaguide/extension/ExtensionLoader.java:160-175 | every resource found under `META-INF/extensions/` + type name is loaded, in order, into one table |
| Extensions.ExtensionLoader.GetExtensionClasses | rpc-framework-common/src/main/java/github/javaguide/extension/ExtensionLoader.java:132-148 | returns the table the resources define and caches it on success; with the cache filled it returns the cached table without reading the resources, and otherwise it reads them once; the instance holders are untouched |
| Extensions.ExtensionLoader.CreateExtension | rpc-framework-common/src/main/java/github/javaguide/extension/ExtensionLoader.java:107-123 | "No such extension of name " + name for an unbound name; otherwise the shared instance of the bound class, made once when the class can be instantiated, and none when it cannot; the shared-instance map gains exactly the new instance, or stays as it was; the resources are read at most once, and not at all when the class cache was filled |
| Extensions.ExtensionLoader.HolderFor | rpc-framework-common/src/main/java/github/javaguide/extension/ExtensionLoader.java:77-81 | the cached holder of the name, or a new empty one added to the cache; other holders are untouched, so every holder is one the loader had or a new one; the resources are not read |
| Extensions.ExtensionLoader.FillHolder | rpc-framework-common/src/main/java/github/javaguide/extension/ExtensionLoader.java:85-91 | an empty holder receives the created instance; other holders and the shared instances already made are untouched; the class cache ends holding the class table exactly when it loads, and the resources are read at most once, not at all when the class cache was filled; for a bound name the result is the shared instance of its class when one exists (the shared-instance map unchanged), otherwise a new instance of that class added to the map under its class when it can be instantiated, and none, the map unchanged, when it cannot; a failure leaves the map unchanged |
| Extensions.ExtensionLoader.GetExtension | rpc-framework-common/src/main/java/github/javaguide/extension/ExtensionLoader.java:72-94 | a blank name is an `IllegalArgumentException` that leaves the holders, their values, the class cache and the shared instances as they were, and reads no resource; a filled holder's instance is returned without creating another, with the class cache and the shared instances unchanged and no resource read; otherwise the class cache ends holding the class table exactly when it loads, the resources are read at most once and not at all when the class cache was filled, and the result is the class table's exception, "No such extension of name " + name, or, for a bound name, the shared instance of its class when one exists, a new instance added to the shared-instance map under its class when the class can be instantiated and none when it cannot, stored in the holder; a failure leaves the shared instances unchanged; every holder afterwards is one the loader had or a new one |
| Extensions.StillValid | rpc-framework-common/src/main/java/github/javaguide/extension/ExtensionLoader.java:25-31 | a cached loader whose holders, their values and class cache are as they were stays usable while the shared instances only grow |
| Extensions.LoadersStayValid | rpc-framework-common/src/main/java/github/javaguide/extension/ExtensionLoader.java:72-94 | after a state that `getExtension`'s postconditions and frame allow on a cached loader, every cached loader is still usable and no two share an instance holder: `getExtension` keeps the invariant `getExtensionLoader` needs |
| Extensions.OthersStayValid | rpc-framework-common/src/main/java/github/javaguide/extension/ExtensionLoader.java:25-31 | a `getExtension` on one cached loader leaves every other cached loader usable |
| Extensions.HoldersStayApart | rpc-framework-common/src/main/java/github/javaguide/extension/ExtensionLoader.java:25-30 | after a `getExtension` on one cached loader, no two cached loaders share an instance holder |
| ZkRegistry.LiteralAddressText | rpc-framework-simple/src/main/java/github/javaguide/registry/zk/ZkServiceRegistryImpl.java:31 | `InetSocketAddress.toString()` for an IPv4 literal: `/`, then the host, then `:`, then a non-empty run of digits |
| ZkRegistry.ServicePath | rpc-framework-simple/src/main/java/github/javaguide/registry/zk/ZkServiceRegistryImpl.java:31 | the path is as long as root, `/`, name and address text together |
| ZkRegistry.ServicePathLayout | rpc-framework-simple/src/main/java/github/javaguide/registry/zk/ZkServiceRegistryImpl.java:31 | the path is the root, then `/`, then the name verbatim, then the address text |
| ZkRegistry.ServicePathInjective | rpc-framework-simple/src/main/java/github/javaguide/registry/zk/ZkServiceRegistryImpl.java:31 | under one root and one address text, two names give the same path if and only if they are equal |
| ZkRegistry.ServicePathNoSeparator | rpc-framework-simple/src/main/java/github/javaguide/registry/zk/ZkServiceRegistryImpl.java:31 | no separator follows the name: text moved from the name's end to the address text's start gives the same path |
| ZkDiscovery.ParseServiceUrl | rpc-framework-simple/src/main/java/github/javaguide/registry/zk/ZkServiceDiscoveryImpl.java:51-54 | a parsed address comes from a text holding `:`, has a host free of `:` and a valid port; `NoColonMissingPort`, `NonNumericPort` and `ParsedHostAndPort` state its failures and its pieces |
| ZkDiscovery.LookupService | rpc-framework-simple/src/main/java/github/javaguide/registry/zk/ZkServiceDiscoveryImpl.java:41-55 | `SERVICE_CAN_NOT_BE_FOUND` with the request's name exactly when it has no child node; any success is the parse of the balancer's choice among those children |
| ZkDiscovery.NoAddressNotFound | rpc-framework-simple/src/main/java/github/javaguide/registry/zk/ZkServiceDiscoveryImpl.java:42-47 | no child node for the request's name gives `SERVICE_CAN_NOT_BE_FOUND` with that name, whatever the balancer would do |
| ZkDiscovery.BalancerSeesChildren | rpc-framework-simple/src/main/java/github/javaguide/registry/zk/ZkServiceDiscoveryImpl.java:42-49 | the balancer is consulted with exactly the child list of the request's service name, and its choice is what gets parsed |
| ZkDiscovery.ParsedHostAndPort | rpc-framework-simple/src/main/java/github/javaguide/registry/zk/ZkServiceDiscoveryImpl.java:51-54 | a parsed address has as host the text before the first `:`, as port the `parseInt` of the second piece, and a valid port |
| ZkDiscovery.NoColonMissingPort | rpc-framework-simple/src/main/java/github/javaguide/registry/zk/ZkServiceDiscoveryImpl.java:51-53 | a text without `:` has no second piece: `ArrayIndexOutOfBoundsException` at index 1 |
| ZkDiscovery.NonNumericPort | rpc-framework-simple/src/main/java/github/javaguide/registry/zk/ZkServiceDiscoveryImpl.java:53 | a port piece `parseInt` rejects is a `NumberFormatException` for that piece |
| ZkDiscovery.HostPortRoundTrip | rpc-framework-simple/src/main/java/github/javaguide/registry/zk/ZkServiceDiscoveryImpl.java:51-54 | h + ":" + p, with h free of `:` and p a decimal numeral of a valid port, parses to (h, p) |
| ZkDiscovery.LiteralAddressRoundTrip | rpc-framework-simple/src/main/java/github/javaguide/registry/zk/ZkServiceDiscoveryImpl.java:51-54 | the address text `registerService` writes for an IPv4 literal, without its leading `/`, parses back to that address |
| ServiceProvider.ZkServiceProviderImpl.constructor | rpc-framework-simple/src/main/java/github/javaguide/provider/impl/ZkServiceProviderImpl.java:35-37 | an empty map, an empty name set and an empty log of registry calls; the `getExtension("zk")` lookup of the registry is not modelled |
| ServiceProvider.ZkServiceProviderImpl.AddService | rpc-framework-simple/src/main/java/github/javaguide/provider/impl/ZkServiceProviderImpl.java:55-62 | the first add of a name stores the object and records the name; a repeated add changes nothing; other names are untouched; the map's keys stay the recorded names |
| ServiceProvider.ZkServiceProviderImpl.GetService | rpc-framework-simple/src/main/java/github/javaguide/provider/impl/ZkServiceProviderImpl.java:73-79 | the stored object when the name is present, otherwise `SERVICE_CAN_NOT_BE_FOUND` |
| ServiceProvider.ZkServiceProviderImpl.PublishService | rpc-framework-simple/src/main/java/github/javaguide/provider/impl/ZkServiceProviderImpl.java:92-100 | with a host address, adds the service and records one registry call for its name at port 9998, even when the add was a no-op; without one, changes nothing |
| Scenarios.PublishedPath | rpc-framework-simple/src/main/java/github/javaguide/provider/impl/ZkServiceProviderImpl.java:94-96 | the node published for a service is root / request name / address text without its `/` |
| Scenarios.PublishedServiceIsFound | rpc-framework-simple/src/main/java/github/javaguide/registry/zk/ZkServiceDiscoveryImpl.java:41-55 | a request for the interface, group and version of a service published at host:9998 finds that address, when that address is the only child node of the name and the balancer picks from the list it is given |
| Scenarios.SameNameSameInstance | rpc-framework-common/src/main/java/github/javaguide/extension/ExtensionLoader.java:77-93 | for a non-blank name bound to a class that can be instantiated, the first `getExtension` returns an instance of that class and the second returns the same result |
| Scenarios.SharedInstance | rpc-framework-common/src/main/java/github/javaguide/extension/ExtensionLoader.java:113-121 | two non-blank names bound to one class that can be instantiated get one and the same instance of that class |
| Scenarios.SameLoader | rpc-framework-common/src/main/java/github/javaguide/extension/ExtensionLoader.java:55-60 | two `getExtensionLoader` calls for a valid type return the same loader, which is usable, and the registry invariant holds afterwards |
| Scenarios.ExtensionOfType | rpc-framework-simple/src/main/java/github/javaguide/remoting/transport/socket/SocketRpcClient.java:30 | `getExtensionLoader(type).getExtension(name)` as the clients call it: the type errors of `getExtensionLoader`; an instance a cached loader already holds for the name is returned; every cached loader stays usable for the next such call |
| Scenarios.StableRouting | rpc-framework-simple/src/main/java/github/javaguide/loadbalance/loadbalancer/ConsistentHashLoadBalance.java:43-49 | routing the same service name and parameter text twice with an unchanged list gives the same address |

## Left out

- MD5 (`ConsistentHashSelector.md5`) is a JDK call. It is a parameter `md5: string -> Digest` returning 16 signed bytes, so the digests are not computed.
- `System.identityHashCode` of the address list is an `int` parameter of `doSelect`. The text of `Arrays.stream(parameters)` becomes an opaque text parameter of `doSelect`. In the source that text is `Object.toString()` of a new stream, so it holds that stream's identity hash and differs from call to call: the source key for the same request is not stable. `Scenarios.StableRouting` therefore assumes the same parameter text on both calls, and the model claims nothing about equal parameters giving equal keys.
- ConsistentHash.ConsistentHashSelector.SelectForKey: on an empty ring Java throws a `NullPointerException` at `entry.getValue()`. The model returns `None` there.
- The address text `/`+`ip`+`:`+`port` covers only `InetSocketAddress.toString()` of an address built from an IPv4 literal, which is what `getLocalHost().getHostAddress()` supplies. Host-name forms are not modelled.
- IPv6 addresses do not round-trip: `LiteralAddressRoundTrip` requires a host without `:`, because the `split(":")` of `lookupService` cuts an IPv6 host at its first colon.
- ServiceProvider.ZkServiceProviderImpl.constructor: `ExtensionLoader.getExtensionLoader(ServiceRegistry.class).getExtension("zk")` is not modelled; the registry is assumed present, and its calls are the recorded log.
- Dafny strings are sequences of Unicode scalar values, not UTF-16 code units, so for text with supplementary characters the lengths in `StringIndexOutOfBoundsException` and the positions `indexOf` returns differ from Java's.
- The class loader is a `ClassPath` parameter: the lines of every resource found, which class names `loadClass` accepts, and which classes `newInstance` can instantiate. A resource that cannot be read contributes no more lines, as the logged `IOException` does. The reflective `getServiceName` becomes the interface name carried by `ServiceObject`.
- `newInstance` failure is logged in Java and `null` is returned. The model returns `None` and leaves the holder empty.
- Concurrency is left out: `ConcurrentHashMap`, `putIfAbsent`, `synchronized` double-checked locking and `volatile`. Every operation is sequential, so each double check collapses to one test.
- The ZooKeeper client is left out. The root path is a parameter, `getChildrenNodes` is a function parameter, and `createPersistentNode` becomes a log of registry calls in `ZkServiceProviderImpl`. `InetAddress.getLocalHost()` is an optional host parameter, with `None` for `UnknownHostException`.
- Java `null` is modelled only where the core tests for it: the extension type and holder contents. A `null` group or version, which string concatenation writes as "null" (a `RpcServiceConfig` built by its Lombok builder without them, or an `RpcRequest` without them), is not modelled: both are strings here. A `null` extension name is not modelled; the `isBlank` test covers empty and whitespace names. `isBlank` and `isWhitespace` follow the ASCII whitespace characters; other Unicode whitespace and other Unicode digits are not modelled.
- Generics and unchecked casts of `ExtensionLoader<T>` are not modelled: instances are `ExtensionObject`s tagged with their class. Logging is not modelled.
- Some loop bodies are separate methods so that each proof stays small: `PutDigest` for the innermost `for`, `ReadLine` for one iteration of the read loop, `SelectorFor` and `Install` for the cache check of `doSelect`, `InstanceOf` for the shared-instance step of `createExtension`, and `HolderFor` and `FillHolder` for the two halves of `getExtension`.
- Extensions.ExtensionLoader.GetExtension: its own contract does not mention the registry invariant (every cached loader usable, no two sharing a holder). `LoadersStayValid` derives the invariant from that contract and its frame, and a caller applies it right after the call, as `Scenarios.ExtensionOfType` does; proving it inside `GetExtension` would make that one proof too large.
- `AbstractLoadBalance`, the Netty and socket transports, the wire codec, Spring wiring, the shutdown hook and the demo `main` are not part of this model.
