/** The SPI extension loader: one loader per annotated interface reads the
    resource files `META-INF/extensions/<interface name>` (lines
    `name = implementation class`, `#` starts a comment), caches the name to
    class table once, and hands out one instance per implementation class,
    shared by every loader. Resources, class loading and instantiation are the
    parameters of a `ClassPath`. */
module Extensions {
  import opened Common
  import opened JavaText
  import opened Holders

  /** The directory the resource files are looked up in. */
  const SERVICE_DIRECTORY := "META-INF/extensions/"

  /** A class is identified by its binary name. */
  type ClassName = string

  /** The exceptions that leave the loader; `NoSuchExtension` is the
      `RuntimeException` of `createExtension`, `StringIndexOutOfBounds` the one
      `substring(0, -1)` raises for a line without `=`. */
  datatype ExtensionError =
    | IllegalArgument(message: string)
    | NoSuchExtension(message: string)
    | StringIndexOutOfBounds(begin: int, end: int, length: int)

  /** What the class loader offers: the contents of every resource found
      under a file name (a read error ends a resource like its end does), which
      classes `loadClass` finds, and which `newInstance` can instantiate. */
  datatype ClassPath = ClassPath(
    resources: string -> seq<seq<string>>,
    loadable: ClassName -> bool,
    instantiable: ClassName -> bool)

  // ---- One line of a resource file ----

  /** What a line contributes: nothing, a binding, or the exception. */
  datatype LineOutcome = Skip | Binding(name: string, className: ClassName) | Malformed(length: nat)

  /** The line with everything from the first `#` on removed. */
  function StripComment(line: string): (r: string)
    ensures '#' !in r
    ensures |r| <= |line| && r == line[..|r|]
    ensures |r| < |line| ==> line[|r|] == '#'
    ensures '#' !in line ==> r == line
  {
    var ci := IndexOf(line, '#');
    if ci >= 0 then line[..ci] else line
  }

  /** The body of the read loop of `loadResource` for one line. */
  function ParseLine(line: string): LineOutcome
  {
    ParseEntry(Trim(StripComment(line)))
  }

  /** The same, once the comment is cut off and the rest trimmed. */
  function ParseEntry(t: string): (o: LineOutcome)
    ensures o.Malformed? <==> t != [] && '=' !in t
    ensures o.Malformed? ==> o.length == |t|
    ensures o.Binding? ==> o.name != [] && o.className != [] && IsTrimmed(o.name) && IsTrimmed(o.className)
  {
    if |t| == 0 then Skip
    else
      var ei := IndexOf(t, '=');
      if ei < 0 then Malformed(|t|)
      else
        var name := Trim(t[..ei]);
        var className := Trim(t[ei + 1..]);
        if |name| > 0 && |className| > 0 then Binding(name, className) else Skip
  }

  /** Blanks hold no char above U+0020. */
  lemma BlanksExclude(ws: string, c: char)
    requires AllTrimmable(ws) && !IsTrimmable(c)
    ensures c !in ws
  {
    forall k | 0 <= k < |ws| ensures ws[k] != c {
      assert IsTrimmable(ws[k]);
    }
  }

  lemma EntryBinding(t: string)
    requires '#' !in t && ParseEntry(t).Binding?
    ensures var b := ParseEntry(t);
            && b.name != [] && b.className != []
            && IsTrimmed(b.name) && IsTrimmed(b.className)
            && '#' !in b.name && '#' !in b.className && '=' !in b.name
  {
    var ei := IndexOf(t, '=');
    SliceExcludes(t, '#', 0, ei);
    SliceExcludes(t, '#', ei + 1, |t|);
    TrimKeeps(t[..ei], '#');
    TrimKeeps(t[ei + 1..], '#');
    TrimKeeps(t[..ei], '=');
  }

  /** A binding has a non-empty, trimmed name and class; neither holds a `#`,
      and the name holds no `=`. */
  lemma ParseLineBinding(line: string)
    requires ParseLine(line).Binding?
    ensures var b := ParseLine(line);
            && b.name != [] && b.className != []
            && IsTrimmed(b.name) && IsTrimmed(b.className)
            && '#' !in b.name && '#' !in b.className && '=' !in b.name
  {
    TrimKeeps(StripComment(line), '#');
    EntryBinding(Trim(StripComment(line)));
  }

  /** A comment changes nothing before it. */
  lemma ParseLineCommented(body: string, comment: string)
    requires '#' !in body
    ensures ParseLine(body + "#" + comment) == ParseLine(body)
  {
    IndexOfSeparator(body, '#', comment);
    assert (body + "#" + comment)[..|body|] == body;
  }

  /** A line of blanks, with or without a comment, contributes nothing. */
  lemma BlankLineSkipped(ws: string, comment: string)
    requires AllTrimmable(ws)
    ensures ParseLine(ws) == Skip
    ensures ParseLine(ws + "#" + comment) == Skip
  {
    BlanksExclude(ws, '#');
    TrimPadded(ws, [], []);
    assert ws + [] + [] == ws;
    ParseLineCommented(ws, comment);
  }

  /** A well-formed entry, with any blanks around its name and class, parses
      back to that name and class. */
  lemma ParseLineEntry(ws1: string, name: string, ws2: string, ws3: string, className: string, ws4: string)
    requires AllTrimmable(ws1) && AllTrimmable(ws2) && AllTrimmable(ws3) && AllTrimmable(ws4)
    requires name != [] && className != [] && IsTrimmed(name) && IsTrimmed(className)
    requires '=' !in name && '#' !in name && '#' !in className
    ensures ParseLine(ws1 + name + ws2 + "=" + ws3 + className + ws4) == Binding(name, className)
  {
    var line := ws1 + name + ws2 + "=" + ws3 + className + ws4;
    BlanksExclude(ws1, '#');
    BlanksExclude(ws2, '#');
    BlanksExclude(ws3, '#');
    BlanksExclude(ws4, '#');
    assert '#' !in line;
    var t := name + ws2 + "=" + ws3 + className;
    assert line == ws1 + t + ws4;
    assert t[0] == name[0] && t[|t| - 1] == className[|className| - 1];
    TrimPadded(ws1, t, ws4);
    EntryOf(name, ws2, ws3, className);
  }

  lemma EntryOf(name: string, ws2: string, ws3: string, className: string)
    requires AllTrimmable(ws2) && AllTrimmable(ws3)
    requires name != [] && className != [] && IsTrimmed(name) && IsTrimmed(className)
    requires '=' !in name
    ensures ParseEntry(name + ws2 + "=" + ws3 + className) == Binding(name, className)
  {
    var t := name + ws2 + "=" + ws3 + className;
    BlanksExclude(ws2, '=');
    assert t == (name + ws2) + ['='] + (ws3 + className);
    IndexOfSeparator(name + ws2, '=', ws3 + className);
    SeparatorSlices(name + ws2, '=', ws3 + className);
    assert name + ws2 == [] + name + ws2;
    assert ws3 + className == ws3 + className + [];
    TrimPadded([], name, ws2);
    TrimPadded(ws3, className, []);
  }

  /** A line raises the exception exactly when, without its comment, it holds
      more than blanks and no `=`. */
  lemma ParseLineMalformed(line: string)
    ensures ParseLine(line).Malformed? <==> Trim(StripComment(line)) != [] && '=' !in StripComment(line)
  {
    TrimKeeps(StripComment(line), '=');
  }

  // ---- Loading the name to class table ----

  /** The outcome of every line of a resource, in order. */
  function Outcomes(lines: seq<string>): (r: seq<LineOutcome>)
    ensures |r| == |lines|
  {
    seq(|lines|, i requires 0 <= i < |lines| => ParseLine(lines[i]))
  }

  lemma OutcomesAppend(a: seq<string>, b: seq<string>)
    ensures Outcomes(a + b) == Outcomes(a) + Outcomes(b)
  {
    var ab, oa, ob := Outcomes(a + b), Outcomes(a), Outcomes(b);
    forall i | 0 <= i < |a + b| ensures ab[i] == (oa + ob)[i] {
      if i < |a| {
        assert (a + b)[i] == a[i];
        assert ab[i] == oa[i];
      } else {
        assert (a + b)[i] == b[i - |a|];
        assert ab[i] == ob[i - |a|];
      }
    }
    assert ab == oa + ob;
  }

  /** One line applied to the table being filled: a binding whose class loads
      is put, a class that does not load is logged and skipped. */
  function ApplyOutcome(classes: map<string, ClassName>, o: LineOutcome, loadable: ClassName -> bool)
    : Result<map<string, ClassName>, ExtensionError>
  {
    match o
    case Skip => Success(classes)
    case Malformed(length) => Failure(StringIndexOutOfBounds(0, -1, length))
    case Binding(name, className) =>
      if loadable(className) then Success(classes[name := className]) else Success(classes)
  }

  /** The lines applied in order; the first malformed line aborts. */
  function LoadOutcomes(classes: map<string, ClassName>, os: seq<LineOutcome>, loadable: ClassName -> bool)
    : (r: Result<map<string, ClassName>, ExtensionError>)
    ensures r.Success? ==> classes.Keys <= r.value.Keys
    decreases |os|
  {
    if os == [] then Success(classes)
    else
      match ApplyOutcome(classes, os[0], loadable)
      case Failure(e) => Failure(e)
      case Success(next) => LoadOutcomes(next, os[1..], loadable)
  }

  /** What `loadResource` does to the table with the lines of one resource. */
  function LoadLines(classes: map<string, ClassName>, lines: seq<string>, loadable: ClassName -> bool)
    : (r: Result<map<string, ClassName>, ExtensionError>)
    ensures r.Success? ==> classes.Keys <= r.value.Keys
  {
    LoadOutcomes(classes, Outcomes(lines), loadable)
  }

  /** What `loadDirectory` does: every resource found, in the order the class
      loader lists them; an exception leaves the rest unread. */
  function LoadResources(classes: map<string, ClassName>, resources: seq<seq<string>>, loadable: ClassName -> bool)
    : (r: Result<map<string, ClassName>, ExtensionError>)
    ensures r.Success? ==> classes.Keys <= r.value.Keys
    decreases |resources|
  {
    if resources == [] then Success(classes)
    else
      match LoadLines(classes, resources[0], loadable)
      case Failure(e) => Failure(e)
      case Success(next) => LoadResources(next, resources[1..], loadable)
  }

  function Flatten(resources: seq<seq<string>>): seq<string>
  {
    if resources == [] then [] else resources[0] + Flatten(resources[1..])
  }

  /** Loading `a + b` is loading `a`, then `b` from where `a` left off. */
  lemma {:induction false} LoadOutcomesAppend(classes: map<string, ClassName>, a: seq<LineOutcome>, b: seq<LineOutcome>, loadable: ClassName -> bool)
    ensures LoadOutcomes(classes, a + b, loadable)
         == match LoadOutcomes(classes, a, loadable)
            case Failure(e) => Failure(e)
            case Success(next) => LoadOutcomes(next, b, loadable)
    decreases |a|
  {
    if a == [] {
      assert a + b == b;
    } else {
      assert (a + b)[0] == a[0] && (a + b)[1..] == a[1..] + b;
      match ApplyOutcome(classes, a[0], loadable)
      case Failure(e) =>
      case Success(next) => LoadOutcomesAppend(next, a[1..], b, loadable);
    }
  }

  lemma LoadLinesAppend(classes: map<string, ClassName>, a: seq<string>, b: seq<string>, loadable: ClassName -> bool)
    ensures LoadLines(classes, a + b, loadable)
         == match LoadLines(classes, a, loadable)
            case Failure(e) => Failure(e)
            case Success(next) => LoadLines(next, b, loadable)
  {
    OutcomesAppend(a, b);
    LoadOutcomesAppend(classes, Outcomes(a), Outcomes(b), loadable);
  }

  /** The resources behave as one file made of all their lines. */
  lemma {:induction false} LoadResourcesFlat(classes: map<string, ClassName>, resources: seq<seq<string>>, loadable: ClassName -> bool)
    ensures LoadResources(classes, resources, loadable) == LoadLines(classes, Flatten(resources), loadable)
    decreases |resources|
  {
    if resources != [] {
      LoadLinesAppend(classes, resources[0], Flatten(resources[1..]), loadable);
      match LoadLines(classes, resources[0], loadable)
      case Failure(e) =>
      case Success(next) => LoadResourcesFlat(next, resources[1..], loadable);
    }
  }

  lemma LoadOutcomesStep(classes: map<string, ClassName>, os: seq<LineOutcome>, k: nat, loadable: ClassName -> bool)
    requires k < |os|
    ensures LoadOutcomes(classes, os[k..], loadable)
         == match ApplyOutcome(classes, os[k], loadable)
            case Failure(e) => Failure(e)
            case Success(next) => LoadOutcomes(next, os[k + 1..], loadable)
  {
    assert os[k..][0] == os[k] && os[k..][1..] == os[k + 1..];
  }

  /** The first malformed line decides the exception. */
  lemma {:induction false} LoadOutcomesFirstMalformed(classes: map<string, ClassName>, os: seq<LineOutcome>, loadable: ClassName -> bool, i: nat)
    requires i < |os| && os[i].Malformed?
    requires forall j :: 0 <= j < i ==> !os[j].Malformed?
    ensures LoadOutcomes(classes, os, loadable) == Failure(StringIndexOutOfBounds(0, -1, os[i].length))
    decreases i
  {
    if i > 0 {
      assert !os[0].Malformed?;
      var next := ApplyOutcome(classes, os[0], loadable).value;
      forall j | 0 <= j < i - 1 ensures !os[1..][j].Malformed? {
        assert os[1..][j] == os[j + 1];
      }
      LoadOutcomesFirstMalformed(next, os[1..], loadable, i - 1);
    }
  }

  /** Without a malformed line, loading succeeds. */
  lemma {:induction false} LoadOutcomesWellFormed(classes: map<string, ClassName>, os: seq<LineOutcome>, loadable: ClassName -> bool)
    requires forall j :: 0 <= j < |os| ==> !os[j].Malformed?
    ensures LoadOutcomes(classes, os, loadable).Success?
    decreases |os|
  {
    if os != [] {
      assert !os[0].Malformed?;
      var next := ApplyOutcome(classes, os[0], loadable).value;
      forall j | 0 <= j < |os| - 1 ensures !os[1..][j].Malformed? {
        assert os[1..][j] == os[j + 1];
      }
      LoadOutcomesWellFormed(next, os[1..], loadable);
    }
  }

  /** `loadResource` throws exactly when some line is malformed, and then with
      the length of the first such line. */
  lemma LoadLinesFailure(classes: map<string, ClassName>, lines: seq<string>, loadable: ClassName -> bool)
    ensures LoadLines(classes, lines, loadable).Failure?
        <==> exists i :: 0 <= i < |lines| && ParseLine(lines[i]).Malformed?
  {
    var os := Outcomes(lines);
    if exists i :: 0 <= i < |lines| && ParseLine(lines[i]).Malformed? {
      var k :| 0 <= k < |lines| && ParseLine(lines[k]).Malformed?;
      assert os[k].Malformed?;
      var i := FirstMalformed(os);
      LoadOutcomesFirstMalformed(classes, os, loadable, i);
    } else {
      LoadOutcomesWellFormed(classes, os, loadable);
    }
  }

  lemma LoadLinesFirstMalformed(classes: map<string, ClassName>, lines: seq<string>, loadable: ClassName -> bool, i: nat)
    requires i < |lines| && ParseLine(lines[i]).Malformed?
    requires forall j :: 0 <= j < i ==> !ParseLine(lines[j]).Malformed?
    ensures LoadLines(classes, lines, loadable) == Failure(StringIndexOutOfBounds(0, -1, ParseLine(lines[i]).length))
  {
    LoadOutcomesFirstMalformed(classes, Outcomes(lines), loadable, i);
  }

  /** The position of the first malformed outcome. */
  function FirstMalformed(os: seq<LineOutcome>): (i: nat)
    requires exists i :: 0 <= i < |os| && os[i].Malformed?
    ensures i < |os| && os[i].Malformed?
    ensures forall j :: 0 <= j < i ==> !os[j].Malformed?
  {
    if os[0].Malformed? then 0
    else
      assert exists i :: 0 <= i < |os[1..]| && os[1..][i].Malformed? by {
        var i :| 0 <= i < |os| && os[i].Malformed?;
        assert os[1..][i - 1] == os[i];
      }
      1 + FirstMalformed(os[1..])
  }

  /** The class of the last binding of `name` to a loadable class. */
  function LastBinding(os: seq<LineOutcome>, name: string, loadable: ClassName -> bool): Option<ClassName>
    decreases |os|
  {
    if os == [] then None
    else
      var b := os[|os| - 1];
      if b.Binding? && b.name == name && loadable(b.className) then Some(b.className)
      else LastBinding(os[..|os| - 1], name, loadable)
  }

  lemma {:induction false} LoadOutcomesLastBindingWins(classes: map<string, ClassName>, os: seq<LineOutcome>, loadable: ClassName -> bool, name: string)
    requires LoadOutcomes(classes, os, loadable).Success?
    ensures var m := LoadOutcomes(classes, os, loadable).value;
            match LastBinding(os, name, loadable)
            case Some(c) => name in m && m[name] == c
            case None => (name in m <==> name in classes) && (name in classes ==> m[name] == classes[name])
    decreases |os|
  {
    if os != [] {
      var init, last := os[..|os| - 1], os[|os| - 1];
      assert os == init + [last];
      LoadOutcomesAppend(classes, init, [last], loadable);
      LoadOutcomesLastBindingWins(classes, init, loadable, name);
      assert [last][1..] == [];
    }
  }

  /** After a successful load, a name maps to the class of its last line whose
      class loads; a name no such line binds keeps what the table held. */
  lemma LoadLinesLastBindingWins(classes: map<string, ClassName>, lines: seq<string>, loadable: ClassName -> bool, name: string)
    requires LoadLines(classes, lines, loadable).Success?
    ensures var m := LoadLines(classes, lines, loadable).value;
            match LastBinding(Outcomes(lines), name, loadable)
            case Some(c) => name in m && m[name] == c
            case None => (name in m <==> name in classes) && (name in classes ==> m[name] == classes[name])
  {
    LoadOutcomesLastBindingWins(classes, Outcomes(lines), loadable, name);
  }

  // ---- Loaders and the shared caches ----

  /** An extension type: `type.getName()`, `type.isInterface()` and whether
      `type.getAnnotation(SPI.class)` is present. */
  datatype ExtensionType = ExtensionType(name: string, isInterface: bool, annotatedWithSpi: bool)

  /** An instance made by `newInstance` of an implementation class. */
  class ExtensionObject {
    const implementation: ClassName

    constructor (implementation: ClassName)
      ensures this.implementation == implementation
    {
      this.implementation := implementation;
    }
  }

  /** The static state of `ExtensionLoader`: the loaders by extension type and
      the instances by implementation class, shared by all loaders. */
  class ExtensionRegistry {
    const classPath: ClassPath
    var extensionLoaders: map<ExtensionType, ExtensionLoader>
    var extensionInstances: map<ClassName, ExtensionObject>

    ghost predicate Valid()
      reads this
    {
      && (forall t :: t in extensionLoaders ==>
            extensionLoaders[t].extensionType == t && extensionLoaders[t].registry == this)
      && (forall c :: c in extensionInstances ==> extensionInstances[c].implementation == c)
    }

    /** The holders the cached loaders keep their state in. */
    ghost function LoaderState(): set<object>
      reads this, extensionLoaders.Values
    {
      (set l | l in extensionLoaders.Values :: l.cachedClasses as object)
      + (set l, h | l in extensionLoaders.Values && h in l.cachedInstances.Values :: h as object)
    }

    /** Every cached loader is usable, and no two of them share a holder. */
    ghost predicate LoadersValid()
      reads this, extensionLoaders.Values, LoaderState()
    {
      && Valid()
      && (forall t :: t in extensionLoaders ==> extensionLoaders[t].Valid())
      && (forall t, u :: t in extensionLoaders && u in extensionLoaders && t != u ==>
            extensionLoaders[t].cachedClasses != extensionLoaders[u].cachedClasses
            && HoldersApart(extensionLoaders[t], extensionLoaders[u]))
    }

    constructor (classPath: ClassPath)
      ensures Valid() && LoadersValid() && this.classPath == classPath
      ensures extensionLoaders == map[] && extensionInstances == map[]
    {
      this.classPath := classPath;
      extensionLoaders := map[];
      extensionInstances := map[];
    }

    /** `getExtensionLoader(type)`: `None` stands for a `null` type. The checks
        run in the source's order; a valid type gets its cached loader, or a new
        one that is cached. */
    method GetExtensionLoader(t: Option<ExtensionType>) returns (r: Result<ExtensionLoader, ExtensionError>)
      requires LoadersValid()
      modifies this
      ensures Valid() && LoadersValid()
      ensures r.Success? ==> r.value.Valid()
      ensures extensionInstances == old(extensionInstances)
      ensures t.None? ==> r == Failure(IllegalArgument("Extension type should not be null."))
      ensures t.Some? && !t.value.isInterface ==>
                r == Failure(IllegalArgument("Extension type must be an interface."))
      ensures t.Some? && t.value.isInterface && !t.value.annotatedWithSpi ==>
                r == Failure(IllegalArgument("Extension type must be annotated by @SPI"))
      ensures r.Failure? ==> extensionLoaders == old(extensionLoaders)
      ensures r.Success? <==> t.Some? && t.value.isInterface && t.value.annotatedWithSpi
      ensures r.Success? ==>
                && r.value.extensionType == t.value && r.value.registry == this
                && extensionLoaders == old(extensionLoaders)[t.value := r.value]
                && (t.value in old(extensionLoaders) ==> r.value == old(extensionLoaders)[t.value])
                && (t.value !in old(extensionLoaders) ==>
                      fresh(r.value) && fresh(r.value.cachedClasses) && r.value.Valid()
                      && r.value.cachedClasses.value == None && r.value.cachedInstances == map[])
    {
      if t.None? {
        return Failure(IllegalArgument("Extension type should not be null."));
      }
      var extensionType := t.value;
      if !extensionType.isInterface {
        return Failure(IllegalArgument("Extension type must be an interface."));
      }
      if !extensionType.annotatedWithSpi {
        return Failure(IllegalArgument("Extension type must be annotated by @SPI"));
      }
      if extensionType !in extensionLoaders {
        var loader := new ExtensionLoader(extensionType, this);
        extensionLoaders := extensionLoaders[extensionType := loader];
        forall u | u in old(extensionLoaders) ensures extensionLoaders[u].Valid() {
          StillValid(extensionLoaders[u]);
        }
      }
      r := Success(extensionLoaders[extensionType]);
    }

    /** The `EXTENSION_INSTANCES` step of `createExtension`: the shared instance
        of `clazz`, or one made by `newInstance` and cached; `None` is the `null`
        left when `newInstance` fails. */
    method InstanceOf(clazz: ClassName) returns (instance: Option<ExtensionObject>)
      requires Valid()
      modifies this
      ensures Valid()
      ensures extensionLoaders == old(extensionLoaders)
      ensures clazz in old(extensionInstances) ==>
                instance == Some(old(extensionInstances)[clazz]) && extensionInstances == old(extensionInstances)
      ensures clazz !in old(extensionInstances) && classPath.instantiable(clazz) ==>
                instance.Some? && fresh(instance.value) && instance.value.implementation == clazz
                && extensionInstances == old(extensionInstances)[clazz := instance.value]
      ensures clazz !in old(extensionInstances) && !classPath.instantiable(clazz) ==>
                instance == None && extensionInstances == old(extensionInstances)
    {
      instance := None;
      if clazz in extensionInstances {
        instance := Some(extensionInstances[clazz]);
      } else if classPath.instantiable(clazz) {
        var created := new ExtensionObject(clazz);
        extensionInstances := extensionInstances[clazz := created];
        instance := Some(created);
      }
    }
  }

  /** The loader of one extension type. */
  class ExtensionLoader {
    const extensionType: ExtensionType
    const registry: ExtensionRegistry
    /** The name to class table, filled on first use. */
    const cachedClasses: Holder<map<string, ClassName>>
    /** One holder per name asked for, filled once an instance is made. */
    var cachedInstances: map<string, Holder<ExtensionObject>>
    /** How many times the resources have been read, that is, how often
        `getExtensionClasses` has found its cache empty and called `loadDirectory`. */
    ghost var loads: nat

    /** This is the loader the registry caches for its type. */
    ghost predicate Registered()
      reads registry
    {
      extensionType in registry.extensionLoaders && registry.extensionLoaders[extensionType] == this
    }

    /** The objects `getExtension` may change besides the registry. */
    ghost function Footprint(): set<object>
      reads this
    {
      {this as object, cachedClasses} + (set h | h in cachedInstances.Values :: h as object)
    }

    /** The resource file name for the extension type. */
    function FileName(): string
    {
      SERVICE_DIRECTORY + extensionType.name
    }

    /** The table the resources of the extension type define. */
    ghost function ClassTable(): Result<map<string, ClassName>, ExtensionError>
    {
      LoadResources(map[], registry.classPath.resources(FileName()), registry.classPath.loadable)
    }

    /** The instance a filled holder keeps is the shared instance of the class
        its name is bound to. */
    ghost predicate Consistent(name: string, o: ExtensionObject)
      reads registry
    {
      && ClassTable().Success? && name in ClassTable().value
      && o.implementation == ClassTable().value[name]
      && o.implementation in registry.extensionInstances
      && registry.extensionInstances[o.implementation] == o
    }

    ghost predicate Valid()
      reads this, cachedClasses, cachedInstances.Values, registry
    {
      && (cachedClasses.value.Some? ==> ClassTable() == Success(cachedClasses.value.value))
      && (forall a, b :: a in cachedInstances && b in cachedInstances && a != b ==>
            cachedInstances[a] != cachedInstances[b])
      && (forall n :: n in cachedInstances && cachedInstances[n].value.Some? ==>
            Consistent(n, cachedInstances[n].value.value))
    }

    constructor (extensionType: ExtensionType, registry: ExtensionRegistry)
      ensures this.extensionType == extensionType && this.registry == registry
      ensures fresh(cachedClasses) && cachedClasses.value == None && cachedInstances == map[]
      ensures loads == 0
    {
      this.extensionType := extensionType;
      this.registry := registry;
      cachedClasses := new Holder();
      cachedInstances := map[];
      loads := 0;
    }

    /** The body of the read loop of `loadResource`: cut the comment, trim,
        split at the first `=`; `Malformed` is the `substring(0, -1)` that
        throws. */
    static method ReadLine(text: string) returns (o: LineOutcome)
      ensures o == ParseLine(text)
    {
      var line := text;
      var ci := IndexOf(line, '#');
      if ci >= 0 {
        line := line[..ci];
      }
      assert line == StripComment(text);
      line := Trim(line);
      assert ParseLine(text) == ParseEntry(line);
      if |line| > 0 {
        var ei := IndexOf(line, '=');
        if ei < 0 {
          return Malformed(|line|);
        }
        var name := Trim(line[..ei]);
        var clazzName := Trim(line[ei + 1..]);
        if |name| > 0 && |clazzName| > 0 {
          return Binding(name, clazzName);
        }
      }
      o := Skip;
    }

    /** `loadResource`: the read loop over the lines of one resource. */
    method LoadResource(classes: map<string, ClassName>, lines: seq<string>)
      returns (r: Result<map<string, ClassName>, ExtensionError>)
      ensures r == LoadLines(classes, lines, registry.classPath.loadable)
    {
      var loadable := registry.classPath.loadable;
      ghost var os := Outcomes(lines);
      var current := classes;
      var k := 0;
      while k < |lines|
        invariant 0 <= k <= |lines|
        invariant LoadOutcomes(current, os[k..], loadable) == LoadLines(classes, lines, loadable)
      {
        LoadOutcomesStep(current, os, k, loadable);
        var o := ReadLine(lines[k]);
        assert o == os[k];
        if o.Malformed? {
          return Failure(StringIndexOutOfBounds(0, -1, o.length));
        }
        if o.Binding? && loadable(o.className) {
          current := current[o.name := o.className];
        }
        k := k + 1;
      }
      assert os[k..] == [];
      r := Success(current);
    }

    /** `loadDirectory`: every resource found under the file name, in order. */
    method LoadDirectory(classes: map<string, ClassName>)
      returns (r: Result<map<string, ClassName>, ExtensionError>)
      ensures r == LoadResources(classes, registry.classPath.resources(FileName()), registry.classPath.loadable)
    {
      var fileName := SERVICE_DIRECTORY + extensionType.name;
      var urls := registry.classPath.resources(fileName);
      var current := classes;
      var i := 0;
      while i < |urls|
        invariant 0 <= i <= |urls|
        invariant LoadResources(current, urls[i..], registry.classPath.loadable)
               == LoadResources(classes, urls, registry.classPath.loadable)
      {
        assert urls[i..][0] == urls[i] && urls[i..][1..] == urls[i + 1..];
        var loaded := LoadResource(current, urls[i]);
        if loaded.Failure? {
          return loaded;
        }
        current := loaded.value;
        i := i + 1;
      }
      assert urls[i..] == [];
      r := Success(current);
    }

    /** `getExtensionClasses`: the cached table, or the table loaded now and
        cached; a load that throws leaves the cache empty. */
    method GetExtensionClasses() returns (r: Result<map<string, ClassName>, ExtensionError>)
      requires Valid()
      modifies this, cachedClasses
      ensures Valid()
      ensures r == ClassTable()
      ensures cachedClasses.value == if r.Success? then Some(r.value) else None
      ensures cachedInstances == old(cachedInstances)
      ensures old(cachedClasses.value).Some? ==> loads == old(loads) && r == Success(old(cachedClasses.value).value)
      ensures loads <= old(loads) + 1
    {
      var classes := cachedClasses.Get();
      if classes.None? {
        loads := loads + 1;
        var loaded := LoadDirectory(map[]);
        if loaded.Failure? {
          return loaded;
        }
        cachedClasses.Set(Some(loaded.value));
        classes := Some(loaded.value);
      }
      r := Success(classes.value);
    }

    /** `createExtension(name)`: the shared instance of the class bound to
        `name`, made by `newInstance` when there is none yet. `Success(None)` is
        the `null` returned when `newInstance` fails. */
    method CreateExtension(name: string) returns (r: Result<Option<ExtensionObject>, ExtensionError>)
      requires Valid() && registry.Valid()
      modifies this, cachedClasses, registry
      ensures Valid() && registry.Valid()
      ensures registry.extensionLoaders == old(registry.extensionLoaders)
      ensures cachedInstances == old(cachedInstances)
      ensures cachedClasses.value == if ClassTable().Success? then Some(ClassTable().value) else None
      ensures old(cachedClasses.value).Some? ==> loads == old(loads)
      ensures loads <= old(loads) + 1
      ensures ClassTable().Failure? ==> r == Failure(ClassTable().error)
      ensures ClassTable().Success? && name !in ClassTable().value ==>
                r == Failure(NoSuchExtension("No such extension of name " + name))
      ensures ClassTable().Success? && name in ClassTable().value ==>
                var c := ClassTable().value[name];
                && r.Success?
                && (c in old(registry.extensionInstances) ==>
                      r.value == Some(old(registry.extensionInstances)[c])
                      && registry.extensionInstances == old(registry.extensionInstances))
                && (c !in old(registry.extensionInstances) && registry.classPath.instantiable(c) ==>
                      r.value.Some? && fresh(r.value.value) && r.value.value.implementation == c
                      && registry.extensionInstances == old(registry.extensionInstances)[c := r.value.value])
                && (c !in old(registry.extensionInstances) && !registry.classPath.instantiable(c) ==>
                      r.value == None && registry.extensionInstances == old(registry.extensionInstances))
      ensures r.Failure? ==> registry.extensionInstances == old(registry.extensionInstances)
      ensures r.Success? && r.value.Some? ==> Consistent(name, r.value.value)
    {
      var classes := GetExtensionClasses();
      if classes.Failure? {
        return Failure(classes.error);
      }
      if name !in classes.value {
        return Failure(NoSuchExtension("No such extension of name " + name));
      }
      var instance := registry.InstanceOf(classes.value[name]);
      r := Success(instance);
    }

    /** The holder cached for `name`, added empty when there is none. */
    method HolderFor(name: string) returns (holder: Holder<ExtensionObject>)
      requires Valid()
      modifies this
      ensures Valid()
      ensures name in cachedInstances && holder == cachedInstances[name]
      ensures cachedInstances.Keys == old(cachedInstances).Keys + {name}
      ensures forall n :: n in old(cachedInstances) ==> cachedInstances[n] == old(cachedInstances)[n]
      ensures name !in old(cachedInstances) ==> fresh(holder) && holder.value == None
      ensures forall n :: n in cachedInstances ==>
                (n in old(cachedInstances) && cachedInstances[n] == old(cachedInstances)[n]) || fresh(cachedInstances[n])
      ensures loads == old(loads)
    {
      if name !in cachedInstances {
        var created := new Holder<ExtensionObject>();
        cachedInstances := cachedInstances[name := created];
      }
      holder := cachedInstances[name];
    }

    /** The `synchronized (holder)` block of `getExtension`: create the
        instance and put it in the empty holder of `name`. */
    method FillHolder(name: string, holder: Holder<ExtensionObject>)
      returns (r: Result<Option<ExtensionObject>, ExtensionError>)
      requires Valid() && registry.Valid()
      requires name in cachedInstances && holder == cachedInstances[name] && holder.value == None
      modifies this, cachedClasses, registry, holder
      ensures Valid() && registry.Valid()
      ensures registry.extensionLoaders == old(registry.extensionLoaders)
      ensures forall c :: c in old(registry.extensionInstances) ==>
                c in registry.extensionInstances && registry.extensionInstances[c] == old(registry.extensionInstances)[c]
      ensures cachedInstances == old(cachedInstances)
      ensures holder.value == if r.Success? then r.value else None
      ensures forall n :: n in cachedInstances && n != name ==> cachedInstances[n].value == old(cachedInstances[n].value)
      ensures cachedClasses.value == if ClassTable().Success? then Some(ClassTable().value) else None
      ensures old(cachedClasses.value).Some? ==> loads == old(loads)
      ensures loads <= old(loads) + 1
      ensures r.Failure? ==> registry.extensionInstances == old(registry.extensionInstances)
      ensures ClassTable().Failure? ==> r == Failure(ClassTable().error)
      ensures ClassTable().Success? && name !in ClassTable().value ==>
                r == Failure(NoSuchExtension("No such extension of name " + name))
      ensures ClassTable().Success? && name in ClassTable().value ==>
                var c := ClassTable().value[name];
                && r.Success?
                && (c in old(registry.extensionInstances) ==>
                      r.value == Some(old(registry.extensionInstances)[c])
                      && registry.extensionInstances == old(registry.extensionInstances))
                && (c !in old(registry.extensionInstances) && registry.classPath.instantiable(c) ==>
                      r.value.Some? && fresh(r.value.value) && r.value.value.implementation == c
                      && registry.extensionInstances == old(registry.extensionInstances)[c := r.value.value])
                && (c !in old(registry.extensionInstances) && !registry.classPath.instantiable(c) ==>
                      r.value == None && registry.extensionInstances == old(registry.extensionInstances))
      ensures r.Success? && r.value.Some? ==> Consistent(name, r.value.value)
    {
      var created := CreateExtension(name);
      if created.Failure? {
        return Failure(created.error);
      }
      holder.Set(created.value);
      r := Success(created.value);
    }

    /** `getExtension(name)`: a blank name is rejected; otherwise the instance
        held for `name`, or the one `createExtension` gives, which is then held.
        `Success(None)` is a `null` result. */
    method GetExtension(name: string) returns (r: Result<Option<ExtensionObject>, ExtensionError>)
      requires Valid() && registry.Valid()
      modifies this, cachedClasses, registry, cachedInstances.Values
      ensures Valid() && registry.Valid()
      ensures registry.extensionLoaders == old(registry.extensionLoaders)
      ensures forall c :: c in old(registry.extensionInstances) ==>
                c in registry.extensionInstances && registry.extensionInstances[c] == old(registry.extensionInstances)[c]
      ensures IsBlank(name) ==>
                && r == Failure(IllegalArgument("Extension name should not be null or empty."))
                && cachedInstances == old(cachedInstances)
                && (forall n :: n in cachedInstances ==> cachedInstances[n].value == old(cachedInstances[n].value))
                && cachedClasses.value == old(cachedClasses.value)
                && loads == old(loads)
                && registry.extensionInstances == old(registry.extensionInstances)
      ensures !IsBlank(name) ==>
                && cachedInstances.Keys == old(cachedInstances).Keys + {name}
                && (name !in old(cachedInstances) ==> fresh(cachedInstances[name]))
                && (forall n :: n in old(cachedInstances) ==> cachedInstances[n] == old(cachedInstances)[n])
                && (forall n :: n in old(cachedInstances) && n != name ==>
                      cachedInstances[n].value == old(cachedInstances[n].value))
                && cachedInstances[name].value == (if r.Success? then r.value else None)
      ensures !IsBlank(name) && name in old(cachedInstances) && old(cachedInstances[name].value).Some? ==>
                && r == Success(old(cachedInstances[name].value))
                && cachedClasses.value == old(cachedClasses.value)
                && loads == old(loads)
                && registry.extensionInstances == old(registry.extensionInstances)
      ensures !IsBlank(name) && !(name in old(cachedInstances) && old(cachedInstances[name].value).Some?) ==>
                && cachedClasses.value == (if ClassTable().Success? then Some(ClassTable().value) else None)
                && (old(cachedClasses.value).Some? ==> loads == old(loads))
                && loads <= old(loads) + 1
                && (r.Failure? ==> registry.extensionInstances == old(registry.extensionInstances))
                && (ClassTable().Failure? ==> r == Failure(ClassTable().error))
                && (ClassTable().Success? && name !in ClassTable().value ==>
                      r == Failure(NoSuchExtension("No such extension of name " + name)))
      ensures !IsBlank(name) && !(name in old(cachedInstances) && old(cachedInstances[name].value).Some?) &&
              ClassTable().Success? && name in ClassTable().value ==>
                var c := ClassTable().value[name];
                && r.Success?
                && (c in old(registry.extensionInstances) ==>
                      r.value == Some(old(registry.extensionInstances)[c])
                      && registry.extensionInstances == old(registry.extensionInstances))
                && (c !in old(registry.extensionInstances) && registry.classPath.instantiable(c) ==>
                      r.value.Some? && fresh(r.value.value) && r.value.value.implementation == c
                      && registry.extensionInstances == old(registry.extensionInstances)[c := r.value.value])
                && (c !in old(registry.extensionInstances) && !registry.classPath.instantiable(c) ==>
                      r.value == None && registry.extensionInstances == old(registry.extensionInstances))
      ensures r.Success? && r.value.Some? ==> Consistent(name, r.value.value)
      ensures forall n :: n in cachedInstances ==>
                (n in old(cachedInstances) && cachedInstances[n] == old(cachedInstances)[n]) || fresh(cachedInstances[n])
    {
      if IsBlank(name) {
        return Failure(IllegalArgument("Extension name should not be null or empty."));
      }
      var holder := HolderFor(name);
      var instance := holder.Get();
      if instance.None? {
        r := FillHolder(name, holder);
      } else {
        r := Success(instance);
      }
    }
  }

  /** No instance holder of `a` is one of `b`. */
  ghost predicate HoldersApart(a: ExtensionLoader, b: ExtensionLoader)
    reads a, b
  {
    forall n, m :: n in a.cachedInstances && m in b.cachedInstances ==> a.cachedInstances[n] != b.cachedInstances[m]
  }

  /** A loader whose own state is as it was stays usable while the shared
      instances only grow. */
  twostate lemma StillValid(l: ExtensionLoader)
    requires old(l.Valid())
    requires l.cachedInstances == old(l.cachedInstances)
    requires l.cachedClasses.value == old(l.cachedClasses.value)
    requires forall n :: n in l.cachedInstances ==> l.cachedInstances[n].value == old(l.cachedInstances[n].value)
    requires forall c :: c in old(l.registry.extensionInstances) ==>
               c in l.registry.extensionInstances && l.registry.extensionInstances[c] == old(l.registry.extensionInstances[c])
    ensures l.Valid()
  {
  }

  /** Once `getExtension` has run on a cached loader, every cached loader is
      still usable: the others kept their state, and this one only gained
      new holders. */
  twostate lemma LoadersStayValid(loader: ExtensionLoader)
    requires old(loader.registry.LoadersValid())
    requires old(loader.Registered())
    requires loader.registry.extensionLoaders == old(loader.registry.extensionLoaders)
    requires loader.Valid() && loader.registry.Valid()
    requires forall c :: c in old(loader.registry.extensionInstances) ==>
               c in loader.registry.extensionInstances
               && loader.registry.extensionInstances[c] == old(loader.registry.extensionInstances)[c]
    requires forall n :: n in loader.cachedInstances ==>
               (n in old(loader.cachedInstances) && loader.cachedInstances[n] == old(loader.cachedInstances)[n])
               || fresh(loader.cachedInstances[n])
    requires forall o: object :: (old(allocated(o)) && o !in old(loader.Footprint()) && o != loader.registry) ==> unchanged(o)
    ensures loader.registry.LoadersValid()
  {
    OthersStayValid(loader);
    HoldersStayApart(loader);
  }

  /** The loaders other than `loader` kept their state, so they are still
      usable. */
  twostate lemma OthersStayValid(loader: ExtensionLoader)
    requires old(loader.registry.LoadersValid())
    requires old(loader.Registered())
    requires loader.registry.extensionLoaders == old(loader.registry.extensionLoaders)
    requires forall c :: c in old(loader.registry.extensionInstances) ==>
               c in loader.registry.extensionInstances
               && loader.registry.extensionInstances[c] == old(loader.registry.extensionInstances)[c]
    requires forall o: object :: (old(allocated(o)) && o !in old(loader.Footprint()) && o != loader.registry) ==> unchanged(o)
    ensures forall u :: u in loader.registry.extensionLoaders && loader.registry.extensionLoaders[u] != loader ==>
              loader.registry.extensionLoaders[u].Valid()
  {
    var registry := loader.registry;
    var loaders := registry.extensionLoaders;
    forall u | u in loaders && loaders[u] != loader
      ensures loaders[u].Valid()
    {
      var l := loaders[u];
      assert old(allocated(l)) && l !in old(loader.Footprint());
      assert old(HoldersApart(l, loader)) && l.cachedClasses != loader.cachedClasses;
      forall n | n in l.cachedInstances
        ensures l.cachedInstances[n].value == old(l.cachedInstances[n].value)
      {
        var h := l.cachedInstances[n];
        assert h in old(l.cachedInstances.Values);
        forall m | m in old(loader.cachedInstances)
          ensures old(loader.cachedInstances[m]) != h
        {
        }
        assert old(allocated(h)) && h !in old(loader.Footprint());
      }
      assert old(allocated(l.cachedClasses)) && l.cachedClasses !in old(loader.Footprint());
      StillValid(l);
    }
  }

  /** The holders of two cached loaders stay distinct: a holder `loader`
      gained is new, and the other loaders kept theirs. */
  twostate lemma HoldersStayApart(loader: ExtensionLoader)
    requires old(loader.registry.LoadersValid())
    requires loader.registry.extensionLoaders == old(loader.registry.extensionLoaders)
    requires forall n :: n in loader.cachedInstances ==>
               (n in old(loader.cachedInstances) && loader.cachedInstances[n] == old(loader.cachedInstances)[n])
               || fresh(loader.cachedInstances[n])
    requires forall o: object :: (old(allocated(o)) && o !in old(loader.Footprint()) && o != loader.registry) ==> unchanged(o)
    ensures forall t, u :: t in loader.registry.extensionLoaders && u in loader.registry.extensionLoaders && t != u ==>
              HoldersApart(loader.registry.extensionLoaders[t], loader.registry.extensionLoaders[u])
  {
    var loaders := loader.registry.extensionLoaders;
    forall t, u | t in loaders && u in loaders && t != u
      ensures HoldersApart(loaders[t], loaders[u])
    {
      var a, b := loaders[t], loaders[u];
      assert old(allocated(a)) && old(allocated(b));
      assert a != loader ==> a !in old(loader.Footprint());
      assert b != loader ==> b !in old(loader.Footprint());
      assert old(HoldersApart(a, b));
    }
  }
}
