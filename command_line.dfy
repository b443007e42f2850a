/**
  The command line front end: its settings and their defaults, the sanity
  check on the parsed arguments, its own (legacy) reading of a descriptor
  tree, and the choice between transforming one file and starting a server.

  The argument parser itself is not modelled: its outcome is given as a
  `Namespace`, or as the parse error it reported. Ending the process with
  status 1 is the outcome `Exited`.
 */
module CommandLine {
  import opened Results
  import opened Paths
  import opened Discovery
  import Handler
  import Transformer

  /** A stylesheet applied to an input: the output tree, or the reason it failed. */
  type Apply = (string, Transformer.Source) -> Result<Transformer.Root, string>
  /** How a result tree (or none) is written out as text. */
  type Serialize = Option<Transformer.Root> -> string

  /** The arguments as parsed: the options given, and the positional arguments. */
  datatype Namespace = Namespace(
    multimode: bool,
    address: Option<string>,
    port: Option<int>,
    file: Option<string>,
    check: Option<int>,
    xsltFileOrDirectory: string,
    xsdFile: Option<string>)

  datatype Settings = Settings(
    host: string,
    port: int,
    xmlFile: Option<string>,
    multimode: bool,
    xsltFile: Option<string>,
    xsdFile: Option<string>,
    checkEverySeconds: int)

  const DefaultHost := "localhost"
  const DefaultPort := 35791
  const DefaultCheckEverySeconds := 30

  /** The settings before the arguments are looked at. */
  const Defaults := Settings(DefaultHost, DefaultPort, None, false, None, None, DefaultCheckEverySeconds)

  /** A value given on the command line, or the default. */
  function Given<T>(option: Option<T>, default: T): T
  {
    if option.Some? then option.value else default
  }

  /**
    The settings after parsing, or `None` when the process exits: on a parse
    error, and when multimode is combined with a schema file.
   */
  function Parsed(args: Result<Namespace, string>): Option<Settings>
  {
    match args
    case Failure(_) => None
    case Success(ns) =>
      if ns.multimode && ns.xsdFile.Some? then None
      else Some(Settings(
        Given(ns.address, DefaultHost),
        Given(ns.port, DefaultPort),
        ns.file,
        ns.multimode,
        Some(ns.xsltFileOrDirectory),
        ns.xsdFile,
        Given(ns.check, DefaultCheckEverySeconds)))
  }

  /**
    Parsing succeeds exactly when the parser accepted the arguments and they
    do not combine multimode with a schema file.
   */
  lemma ParsedExits(args: Result<Namespace, string>)
    ensures Parsed(args).None? <==> args.Failure? || (args.value.multimode && args.value.xsdFile.Some?)
  {
  }

  /**
    Every option given on the command line replaces its default, every
    option left out keeps it, and the positional arguments are taken as they
    are.
   */
  lemma ParsedOverridesDefaults(ns: Namespace)
    requires !(ns.multimode && ns.xsdFile.Some?)
    ensures var s := Parsed(Success(ns));
      && s.Some?
      && (ns.address.Some? ==> s.value.host == ns.address.value)
      && (ns.address.None? ==> s.value.host == Defaults.host)
      && (ns.port.Some? ==> s.value.port == ns.port.value)
      && (ns.port.None? ==> s.value.port == Defaults.port)
      && (ns.check.Some? ==> s.value.checkEverySeconds == ns.check.value)
      && (ns.check.None? ==> s.value.checkEverySeconds == Defaults.checkEverySeconds)
      && s.value.xmlFile == ns.file
      && s.value.multimode == ns.multimode
      && s.value.xsltFile == Some(ns.xsltFileOrDirectory)
      && s.value.xsdFile == ns.xsdFile
  {
  }

  /** With no options at all, the only settings that differ from the defaults are the positional ones. */
  lemma ParsedWithoutOptions(xslt: string, xsd: Option<string>)
    ensures Parsed(Success(Namespace(false, None, None, None, None, xslt, xsd)))
      == Some(Defaults.(xsltFile := Some(xslt), xsdFile := xsd))
  {
  }

  /** What running ends in: a transformed file printed, an exit, or a server with its handlers. */
  datatype Run<H> =
    | Printed(text: string)
    | Exited
    | Serving(host: string, port: int, multimode: bool, handlers: map<string, H>)

  /**
    The legacy registry of a multimode run: the descriptors below the
    directory, or none when it is not a directory.
   */
  function LegacyRegistry(directory: string, root: Option<Node>): Result<map<string, Descriptor>, LoadError>
  {
    if root.Some? && root.value.Directory? then Register(Legacy, FoundIn(directory, root.value.entries), map[])
    else Success(map[])
  }

  /**
    What `run` does with the parsed settings: with an XML file, transform it
    with the one stylesheet and print the result, or exit when that fails;
    otherwise start a server with the handlers, or exit when building them
    fails or multimode finds none.
   */
  function Ran(s: Settings, xsltFile: string, root: Option<Node>, apply: Apply,
               serialize: Serialize): Run<Descriptor>
  {
    if s.xmlFile.Some? then
      match Transformer.Combine([xsltFile], Transformer.FileSource(s.xmlFile.value), apply)
      case Failure(_) => Exited
      case Success(doc) => Printed(serialize(doc))
    else if s.multimode then
      match LegacyRegistry(xsltFile, root)
      case Failure(_) => Exited
      case Success(m) => if |m| == 0 then Exited else Serving(s.host, s.port, true, m)
    else Serving(s.host, s.port, false, map["default" := SingleDescriptor(xsltFile, s.xsdFile)])
  }

  /** The whole program: parse, then run. */
  function Program(args: Result<Namespace, string>, root: Option<Node>, apply: Apply,
                   serialize: Serialize): Run<Descriptor>
  {
    match Parsed(args)
    case None => Exited
    case Some(s) => Ran(s, args.value.xsltFileOrDirectory, root, apply, serialize)
  }

  /**
    In the model, which registers a legacy descriptor without `xsd_file`
    with no schema rather than a null path, a multimode server starts exactly
    when every descriptor below the directory is accepted and there is at
    least one; it then has one handler per descriptor.
   */
  lemma MultimodeServesEveryDescriptor(s: Settings, xsltFile: string, entries: seq<Entry>,
                                       apply: Apply, serialize: Serialize)
    requires s.xmlFile.None? && s.multimode
    ensures var r := Ran(s, xsltFile, Some(Directory(entries)), apply, serialize);
      var found := FoundIn(xsltFile, entries);
      && (r.Serving? <==> AllAccepted(Legacy, found, {}) && |found| > 0)
      && (r.Serving? ==> |r.handlers| == |found| && forall i :: 0 <= i < |found| ==> Keyword(found[i]) in r.handlers)
  {
    var found := FoundIn(xsltFile, entries);
    RegisterOnePerDescriptor(Legacy, found, map[]);
  }

  /** A multimode run whose base is not a directory exits. */
  lemma MultimodeNeedsDirectory(s: Settings, xsltFile: string, root: Option<Node>,
                                apply: Apply, serialize: Serialize)
    requires s.xmlFile.None? && s.multimode
    requires !(root.Some? && root.value.Directory?)
    ensures Ran(s, xsltFile, root, apply, serialize) == Exited
  {
  }

  /**
    In the model, which takes a missing schema as no schema file rather than a
    null path, a single-mode server always starts, with the one handler
    "default" for the stylesheet and schema given.
   */
  lemma SingleModeServesDefault(s: Settings, xsltFile: string, root: Option<Node>,
                                apply: Apply, serialize: Serialize)
    requires s.xmlFile.None? && !s.multimode
    ensures var r := Ran(s, xsltFile, root, apply, serialize);
      && r.Serving? && r.handlers.Keys == {"default"}
      && r.handlers["default"].xslFiles == [xsltFile]
      && r.handlers["default"].xsdFiles == if s.xsdFile.Some? then [s.xsdFile.value] else []
  {
  }

  /** With an XML file, no server starts: the file is transformed by the one stylesheet and printed. */
  lemma FileModeTransformsOnce(s: Settings, xsltFile: string, root: Option<Node>,
                               apply: Apply, serialize: Serialize)
    requires s.xmlFile.Some?
    ensures var r := Ran(s, xsltFile, root, apply, serialize);
      && !r.Serving?
      && (r.Printed? <==> apply(xsltFile, Transformer.FileSource(s.xmlFile.value)).Success?)
      && (r.Printed? ==> r.text == serialize(Some(apply(xsltFile, Transformer.FileSource(s.xmlFile.value)).value)))
  {
    Transformer.SingleStylesheetUnmerged(xsltFile, Transformer.FileSource(s.xmlFile.value), apply);
  }

  /** The server is only started from arguments that parsed, and never with an empty registry. */
  lemma ServingNeedsHandlers(args: Result<Namespace, string>, root: Option<Node>,
                             apply: Apply, serialize: Serialize)
    ensures var r := Program(args, root, apply, serialize);
      r.Serving? ==> Parsed(args).Some? && |r.handlers| > 0 && r.multimode == args.value.multimode
  {
  }

  /** The descriptors of the handler objects in an outcome. */
  function Observe(r: Run<Handler.DocumentHandler>): Run<Descriptor>
    reads if r.Serving? then r.handlers.Values else {}
  {
    match r
    case Printed(text) => Printed(text)
    case Exited => Exited
    case Serving(host, port, multimode, handlers) => Serving(host, port, multimode, DescribeAll(handlers))
  }

  class CommandLine {
    var port: int
    var host: string
    var xmlFile: Option<string>
    var multimode: bool
    var xsltFile: Option<string>
    var xsdFile: Option<string>
    var checkEverySeconds: int
    /** Whether parsing ended the process. */
    var exited: bool

    function Current(): Settings
      reads this
    {
      Settings(host, port, xmlFile, multimode, xsltFile, xsdFile, checkEverySeconds)
    }

    /** The defaults, then the arguments. */
    constructor (args: Result<Namespace, string>)
      ensures exited <==> Parsed(args).None?
      ensures !exited ==> Current() == Parsed(args).value
    {
      host := DefaultHost;
      port := DefaultPort;
      xmlFile := None;
      multimode := false;
      xsltFile := None;
      xsdFile := None;
      checkEverySeconds := DefaultCheckEverySeconds;
      exited := false;
      new;
      ParseArguments(args);
    }

    /** `parseArguments`: the sanity check first, then each option given replaces its default. */
    method ParseArguments(args: Result<Namespace, string>)
      requires Current() == Defaults && !exited
      modifies this
      ensures exited <==> Parsed(args).None?
      ensures !exited ==> Current() == Parsed(args).value
    {
      if args.Failure? {
        exited := true;
        return;
      }
      var ns := args.value;
      if ns.multimode {
        multimode := true;
        if ns.xsdFile.Some? {
          exited := true;
          return;
        }
      }
      if ns.address.Some? {
        host := ns.address.value;
      }
      if ns.port.Some? {
        port := ns.port.value;
      }
      if ns.file.Some? {
        xmlFile := ns.file;
      }
      if ns.check.Some? {
        checkEverySeconds := ns.check.value;
      }
      xsltFile := Some(ns.xsltFileOrDirectory);
      xsdFile := ns.xsdFile;
    }

    /**
      The legacy `readXTSTProperties`: one stylesheet and at most one schema,
      both joined to the descriptor's directory.
     */
    method ReadXtstProperties(path: string, node: Node, acc: map<string, Handler.DocumentHandler>, env: Handler.Env)
      returns (r: Result<map<string, Handler.DocumentHandler>, LoadError>)
      ensures DescribeResult(r) == Register(Legacy, [Met(path, node)], DescribeAll(acc))
      ensures r.Success? ==> Grows(acc, r.value)
    {
      RegisterOne(Legacy, Met(path, node), DescribeAll(acc));
      if !node.PlainFile? {
        return Failure(CannotOpen(path));
      }
      var props := node.props;
      if "keyword" !in props {
        return Failure(MissingKeyword(path));
      }
      var keyword := props["keyword"];
      if keyword in acc {
        return Failure(DuplicateKeyword(keyword));
      }
      if "xsl_file" !in props {
        return Failure(MissingXslFile(path));
      }
      var xsltFile := Child(Parent(path), props["xsl_file"]);
      var xsdFileString: Option<string> := None;
      if "xsd_file" in props {
        xsdFileString := Some(Child(Parent(path), props["xsd_file"]));
      }
      var handler := new Handler.DocumentHandler.Single(xsltFile, xsdFileString, checkEverySeconds, env);
      DescribeAllUpdate(acc, keyword, handler);
      r := Success(acc[keyword := handler]);
    }

    /** The legacy `checkDirectory`: every entry in listing order; descriptors are read, directories walked. */
    method CheckDirectory(dir: string, entries: seq<Entry>, acc: map<string, Handler.DocumentHandler>, env: Handler.Env)
      returns (r: Result<map<string, Handler.DocumentHandler>, LoadError>)
      ensures DescribeResult(r) == Register(Legacy, FoundIn(dir, entries), DescribeAll(acc))
      ensures r.Success? ==> Grows(acc, r.value)
      decreases entries
    {
      var current := acc;
      for i := 0 to |entries|
        invariant Register(Legacy, FoundIn(dir, entries[..i]), DescribeAll(acc)) == Success(DescribeAll(current))
        invariant Grows(acc, current)
      {
        var e := entries[i];
        var path := Child(Some(dir), e.name);
        ghost var here := if e.name == PropertiesName then [Met(path, e.node)] else [];
        ghost var below := if e.node.Directory? then FoundIn(path, e.node.entries) else [];
        WalkStep(Legacy, dir, entries, i, DescribeAll(acc), DescribeAll(current));
        RegisterAppend(Legacy, here, below, DescribeAll(current));
        ghost var mid := current;
        if e.name == PropertiesName {
          var read := ReadXtstProperties(path, e.node, current, env);
          if read.Failure? {
            RegisterFailurePersists(Legacy, here, below, DescribeAll(current));
            WalkFails(Legacy, dir, entries, i, DescribeAll(acc), read.error);
            return Failure(read.error);
          }
          current := read.value;
        }
        assert Register(Legacy, here, DescribeAll(mid)) == Success(DescribeAll(current));
        if e.node.Directory? {
          var sub := CheckDirectory(path, e.node.entries, current, env);
          if sub.Failure? {
            WalkFails(Legacy, dir, entries, i, DescribeAll(acc), sub.error);
            return Failure(sub.error);
          }
          current := sub.value;
        }
      }
      assert entries[..|entries|] == entries;
      r := Success(current);
    }

    /** The legacy `readDirectories`: a base that is not a directory adds nothing. */
    method ReadDirectories(directory: string, root: Option<Node>, acc: map<string, Handler.DocumentHandler>, env: Handler.Env)
      returns (r: Result<map<string, Handler.DocumentHandler>, LoadError>)
      ensures DescribeResult(r) ==
        if root.Some? && root.value.Directory? then Register(Legacy, FoundIn(directory, root.value.entries), DescribeAll(acc))
        else Success(DescribeAll(acc))
      ensures r.Success? ==> Grows(acc, r.value)
    {
      if root.Some? && root.value.Directory? {
        r := CheckDirectory(directory, root.value.entries, acc, env);
      } else {
        r := Success(acc);
      }
    }

    /**
      `run`: transform the XML file and print the result, or build the
      handlers and hand them to a server.
     */
    method Run(root: Option<Node>, env: Handler.Env, apply: Apply,
               serialize: Serialize)
      returns (r: Run<Handler.DocumentHandler>)
      requires !exited && xsltFile.Some?
      ensures Observe(r) == Ran(Current(), xsltFile.value, root, apply, serialize)
      ensures r.Serving? ==> forall k :: k in r.handlers ==> fresh(r.handlers[k])
    {
      if xmlFile.Some? {
        var sv := new Transformer.XSLTTransformer([xsltFile.value]);
        var result := sv.TransformFile(xmlFile.value, apply, serialize);
        if result.Failure? {
          return Exited;
        }
        return Printed(result.value);
      }
      var handlers: map<string, Handler.DocumentHandler> := map[];
      if multimode {
        var read := ReadDirectories(xsltFile.value, root, handlers, env);
        if read.Failure? {
          return Exited;
        }
        handlers := read.value;
        DescribeAllSize(handlers);
        if |handlers| == 0 {
          return Exited;
        }
      } else {
        var handler := new Handler.DocumentHandler.Single(xsltFile.value, xsdFile, checkEverySeconds, env);
        DescribeAllUpdate(handlers, "default", handler);
        handlers := handlers["default" := handler];
      }
      r := Serving(host, port, multimode, handlers);
    }
  }

  /** `main`: the command line object is made from the arguments and then run, unless parsing ended the process. */
  method Execute(args: Result<Namespace, string>, root: Option<Node>, env: Handler.Env,
                 apply: Apply, serialize: Serialize)
    returns (r: Run<Handler.DocumentHandler>)
    ensures Observe(r) == Program(args, root, apply, serialize)
  {
    var cl := new CommandLine(args);
    if cl.exited {
      return Exited;
    }
    r := cl.Run(root, env, apply, serialize);
  }
}
