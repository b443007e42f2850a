/**
  The registry of document handlers by keyword. In single mode it holds one
  handler under "default"; in multimode it holds one handler per
  `xtst.properties` descriptor found below a base directory. A load builds a
  complete new map and only then installs it.
 */
module HandlerManager {
  import opened Results
  import opened Paths
  import opened Discovery
  import opened Handler

  /** The key of the one handler of single mode. */
  const DefaultKeyword := "default"

  /**
    What `load` installs: in multimode, the registry of the descriptors below
    the base directory (an empty one when the base is not a directory); in
    single mode, the one default handler.
   */
  function Loaded(multimode: bool, xsltFileOrDirectory: string, xsdFile: Option<string>, root: Option<Node>)
    : Result<map<string, Descriptor>, LoadError>
  {
    if multimode then
      if root.Some? && root.value.Directory? then Register(Current, FoundIn(xsltFileOrDirectory, root.value.entries), map[])
      else Success(map[])
    else Success(map[DefaultKeyword := SingleDescriptor(xsltFileOrDirectory, xsdFile)])
  }

  /**
    A successful load holds exactly one handler in single mode, under
    "default"; in multimode one per descriptor found, and none when the base
    is not a directory.
   */
  lemma LoadedHandlers(multimode: bool, xsltFileOrDirectory: string, xsdFile: Option<string>, root: Option<Node>)
    ensures var r := Loaded(multimode, xsltFileOrDirectory, xsdFile, root);
      && (!multimode ==> r.Success? && r.value.Keys == {DefaultKeyword} && |r.value| == 1)
      && (multimode && !(root.Some? && root.value.Directory?) ==> r == Success(map[]))
      && (multimode && root.Some? && root.value.Directory? ==>
            var found := FoundIn(xsltFileOrDirectory, root.value.entries);
            (r.Success? <==> AllAccepted(Current, found, {})) &&
            (r.Success? ==>
               (|r.value| == |found| && forall i :: 0 <= i < |found| ==> Keyword(found[i]) in r.value)))
  {
    if multimode && root.Some? && root.value.Directory? {
      RegisterOnePerDescriptor(Current, FoundIn(xsltFileOrDirectory, root.value.entries), map[]);
    }
  }

  /** `readXTSTProperties`' file lists: the bare key, then the numbered keys one to nine. */
  method CollectFiles(props: map<string, string>, base: string, propertiesFile: string) returns (files: seq<string>)
    ensures files == FileList(props, base, propertiesFile)
  {
    files := [];
    if base in props {
      files := files + [GetFile(props[base], propertiesFile)];
    }
    for i := 1 to 10
      invariant files == ListedFiles(props, base, propertiesFile, i)
    {
      var key := base + [('0' as int + i) as char];
      if key in props {
        files := files + [GetFile(props[key], propertiesFile)];
      }
    }
  }

  class DocumentHandlerManager {
    const checkEverySeconds: int
    const multimode: bool
    /** The base directory in multimode, the stylesheet otherwise. */
    const xsltFileOrDirectory: string
    const xsdFile: Option<string>
    var handlers: map<string, DocumentHandler>

    /** The configuration only; `Create` performs the first load. */
    constructor (multimode: bool, xsltFileOrDirectory: string, xsdFile: Option<string>, checkEverySeconds: int)
      ensures this.multimode == multimode && this.xsltFileOrDirectory == xsltFileOrDirectory
      ensures this.xsdFile == xsdFile && this.checkEverySeconds == checkEverySeconds
      ensures handlers == map[]
    {
      this.multimode := multimode;
      this.xsltFileOrDirectory := xsltFileOrDirectory;
      this.xsdFile := xsdFile;
      this.checkEverySeconds := checkEverySeconds;
      handlers := map[];
    }

    /** `replaceHandlers`: the new map is installed by one assignment. */
    method ReplaceHandlers(newHandlers: map<string, DocumentHandler>)
      modifies this
      ensures handlers == newHandlers
    {
      handlers := newHandlers;
    }

    /**
      `load`: builds a new map from scratch and installs it; when building
      fails, the installed map stays as it was.
     */
    method Load(root: Option<Node>, env: Env) returns (r: Result<(), LoadError>)
      modifies this
      ensures var spec := Loaded(multimode, xsltFileOrDirectory, xsdFile, root);
        && (r.Success? <==> spec.Success?)
        && (r.Success? ==> DescribeAll(handlers) == spec.value && forall k :: k in handlers ==> fresh(handlers[k]))
        && (r.Failure? ==> r.error == spec.error && handlers == old(handlers))
    {
      var newHandlers: map<string, DocumentHandler> := map[];
      if multimode {
        var read := ReadDirectories(xsltFileOrDirectory, root, newHandlers, env);
        if read.Failure? {
          return Failure(read.error);
        }
        newHandlers := read.value;
      } else {
        var handler := new DocumentHandler.Single(xsltFileOrDirectory, xsdFile, checkEverySeconds, env);
        newHandlers := newHandlers[DefaultKeyword := handler];
      }
      ReplaceHandlers(newHandlers);
      r := Success(());
    }

    /** `getDocumentHandlerCount`: the number of keywords. */
    function GetDocumentHandlerCount(): (r: nat)
      reads this
      ensures r == |DescribeAll(handlers)|
    {
      DescribeAllSize(handlers);
      |handlers|
    }

    /** `getDocumentHandler`: the handler of a keyword, none for an unknown one. */
    function GetDocumentHandler(keyword: string): (r: Option<DocumentHandler>)
      reads this
      ensures r.Some? <==> keyword in DescribeAll(handlers)
      ensures r.Some? ==> Describe(r.value) == DescribeAll(handlers)[keyword]
    {
      if keyword in handlers then Some(handlers[keyword]) else None
    }

    /**
      `readXTSTProperties`: reads the descriptor at `path` and adds its
      handler to `acc`, or fails on a missing or repeated keyword or a
      descriptor that cannot be opened.
     */
    method ReadXtstProperties(path: string, node: Node, acc: map<string, DocumentHandler>, env: Env)
      returns (r: Result<map<string, DocumentHandler>, LoadError>)
      ensures DescribeResult(r) == Register(Current, [Met(path, node)], DescribeAll(acc))
      ensures r.Success? ==> Grows(acc, r.value)
    {
      RegisterOne(Current, Met(path, node), DescribeAll(acc));
      if !node.PlainFile? {
        return Failure(CannotOpen(path));
      }
      var props := node.props;
      if "keyword" !in props {
        return Failure(MissingKeyword(path));
      }
      var keyword := props["keyword"];
      if keyword in acc {
        return Failure(DuplicateKeyword(keyword));
      }
      var xslFiles := CollectFiles(props, "xsl_file", path);
      var xsdFiles := CollectFiles(props, "xsd_file", path);
      var name := "";
      if "name" in props {
        name := props["name"];
      }
      var description := "";
      if "description" in props {
        description := props["description"];
      }
      var handler := new DocumentHandler.WithLists(xslFiles, xsdFiles, checkEverySeconds, name, description, env);
      DescribeAllUpdate(acc, keyword, handler);
      r := Success(acc[keyword := handler]);
    }

    /** `checkDirectory`: every entry in listing order; descriptors are read, directories walked. */
    method CheckDirectory(dir: string, entries: seq<Entry>, acc: map<string, DocumentHandler>, env: Env)
      returns (r: Result<map<string, DocumentHandler>, LoadError>)
      ensures DescribeResult(r) == Register(Current, FoundIn(dir, entries), DescribeAll(acc))
      ensures r.Success? ==> Grows(acc, r.value)
      decreases entries
    {
      var current := acc;
      for i := 0 to |entries|
        invariant Register(Current, FoundIn(dir, entries[..i]), DescribeAll(acc)) == Success(DescribeAll(current))
        invariant Grows(acc, current)
      {
        var e := entries[i];
        var path := Child(Some(dir), e.name);
        ghost var here := if e.name == PropertiesName then [Met(path, e.node)] else [];
        ghost var below := if e.node.Directory? then FoundIn(path, e.node.entries) else [];
        WalkStep(Current, dir, entries, i, DescribeAll(acc), DescribeAll(current));
        RegisterAppend(Current, here, below, DescribeAll(current));
        ghost var mid := current;
        if e.name == PropertiesName {
          var read := ReadXtstProperties(path, e.node, current, env);
          if read.Failure? {
            RegisterFailurePersists(Current, here, below, DescribeAll(current));
            WalkFails(Current, dir, entries, i, DescribeAll(acc), read.error);
            return Failure(read.error);
          }
          current := read.value;
        }
        assert Register(Current, here, DescribeAll(mid)) == Success(DescribeAll(current));
        if e.node.Directory? {
          var sub := CheckDirectory(path, e.node.entries, current, env);
          if sub.Failure? {
            WalkFails(Current, dir, entries, i, DescribeAll(acc), sub.error);
            return Failure(sub.error);
          }
          current := sub.value;
        }
      }
      assert entries[..|entries|] == entries;
      r := Success(current);
    }

    /** `readDirectories`: walks the base directory, or adds nothing when it is not a directory. */
    method ReadDirectories(directory: string, root: Option<Node>, acc: map<string, DocumentHandler>, env: Env)
      returns (r: Result<map<string, DocumentHandler>, LoadError>)
      ensures DescribeResult(r) ==
        if root.Some? && root.value.Directory? then Register(Current, FoundIn(directory, root.value.entries), DescribeAll(acc))
        else Success(DescribeAll(acc))
      ensures r.Success? ==> Grows(acc, r.value)
    {
      if root.Some? && root.value.Directory? {
        r := CheckDirectory(directory, root.value.entries, acc, env);
      } else {
        r := Success(acc);
      }
    }
  }

  /**
    `new DocumentHandlerManager(...)`: the manager after its first load, or
    the reason the load failed.
   */
  method Create(multimode: bool, xsltFileOrDirectory: string, xsdFile: Option<string>, checkEverySeconds: int,
                root: Option<Node>, env: Env)
    returns (r: Result<DocumentHandlerManager, LoadError>)
    ensures var spec := Loaded(multimode, xsltFileOrDirectory, xsdFile, root);
      && (r.Success? <==> spec.Success?)
      && (r.Success? ==> DescribeAll(r.value.handlers) == spec.value)
      && (r.Failure? ==> r.error == spec.error)
  {
    var manager := new DocumentHandlerManager(multimode, xsltFileOrDirectory, xsdFile, checkEverySeconds);
    var loaded := manager.Load(root, env);
    if loaded.Failure? {
      return Failure(loaded.error);
    }
    r := Success(manager);
  }
}
