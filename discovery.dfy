/**
  Finding handler descriptors: the `xtst.properties` files of a directory
  tree, what each one describes, and the registry of keywords they build.

  Two readers of a descriptor exist. The current one (DocumentHandlerManager)
  takes up to ten numbered stylesheet and schema keys and a name and a
  description; the legacy one (CommandLine) takes exactly one stylesheet and
  at most one schema. Both stop at the first descriptor that has no keyword
  or repeats one.

  A properties file is given as the map `Properties.load` would produce from
  it; a directory lists its entries in the order `File.list` returns them.
 */
module Discovery {
  import opened Results
  import opened Paths
  import Handler

  /** The name a descriptor file must have. */
  const PropertiesName := "xtst.properties"

  datatype Entry = Entry(name: string, node: Node)

  datatype Node =
    | PlainFile(props: map<string, string>)  // the properties the file holds, if read as a descriptor
    | Unopenable                             // a file that exists but cannot be opened for reading
    | Directory(entries: seq<Entry>)

  /**
    A descriptor met on the walk: readable, or an entry with the descriptor's
    name that cannot be opened as a file (a directory, or a file without read
    permission).
   */
  datatype Found =
    | Readable(path: string, props: map<string, string>)
    | Unreadable(path: string)

  /**
    What a handler tracks: its name and description and its stylesheet and
    schema paths, in order and without repeats.
   */
  datatype Descriptor = Descriptor(name: string, description: string, xslFiles: seq<string>, xsdFiles: seq<string>)

  /** The single-mode handler's stylesheet and schema. */
  function SingleDescriptor(xsltFile: string, xsdFile: Option<string>): Descriptor
  {
    Descriptor("", "", [xsltFile], if xsdFile.Some? then [xsdFile.value] else [])
  }

  /** Why building the registry stopped (the source exits or throws). */
  datatype LoadError =
    | MissingKeyword(file: string)
    | DuplicateKeyword(keyword: string)
    | MissingXslFile(file: string)
    | CannotOpen(file: string)

  /** The reader a descriptor is interpreted by. */
  datatype Variant = Current | Legacy

  // ---------------------------------------------------------------------
  // The walk
  // ---------------------------------------------------------------------

  /**
    The descriptors met at one entry of directory `dir`: the entry itself if
    it carries the descriptor name, then everything below it if it is a
    directory.
   */
  function FoundOne(dir: string, e: Entry): seq<Found>
    decreases e
  {
    var path := Child(Some(dir), e.name);
    (if e.name == PropertiesName then [Met(path, e.node)] else [])
    + (if e.node.Directory? then FoundIn(path, e.node.entries) else [])
  }

  /** A descriptor at `path`: a readable file is read; a directory or an unreadable file cannot be opened. */
  function Met(path: string, node: Node): Found
  {
    if node.PlainFile? then Readable(path, node.props) else Unreadable(path)
  }

  /** The descriptors met walking the entries of directory `dir`, depth first, in listing order. */
  function FoundIn(dir: string, entries: seq<Entry>): seq<Found>
    decreases entries
  {
    if entries == [] then [] else FoundOne(dir, entries[0]) + FoundIn(dir, entries[1..])
  }

  lemma {:induction false} FoundInAppend(dir: string, es: seq<Entry>, fs: seq<Entry>)
    ensures FoundIn(dir, es + fs) == FoundIn(dir, es) + FoundIn(dir, fs)
  {
    if es == [] {
      assert es + fs == fs;
    } else {
      var whole := es + fs;
      assert whole[0] == es[0] && whole[1..] == es[1..] + fs;
      assert FoundIn(dir, whole) == FoundOne(dir, es[0]) + FoundIn(dir, es[1..] + fs);
      FoundInAppend(dir, es[1..], fs);
      Regroup(FoundOne(dir, es[0]), FoundIn(dir, es[1..]), FoundIn(dir, fs));
    }
  }

  lemma Regroup<T>(a: seq<T>, b: seq<T>, c: seq<T>)
    ensures a + (b + c) == a + b + c
  {
  }

  lemma FoundInSnoc(dir: string, es: seq<Entry>, e: Entry)
    ensures FoundIn(dir, es + [e]) == FoundIn(dir, es) + FoundOne(dir, e)
  {
    FoundInAppend(dir, es, [e]);
    assert [e][1..] == [];
  }

  lemma FoundInSplit(dir: string, es: seq<Entry>, i: nat)
    requires i < |es|
    ensures FoundIn(dir, es) == FoundIn(dir, es[..i]) + FoundOne(dir, es[i]) + FoundIn(dir, es[i + 1..])
  {
    assert es == es[..i] + ([es[i]] + es[i + 1..]);
    FoundInAppend(dir, es[..i], [es[i]] + es[i + 1..]);
    assert ([es[i]] + es[i + 1..])[1..] == es[i + 1..];
  }

  /**
    The walk enters every subdirectory, whether or not its parent holds a
    descriptor: the descriptors below it appear, in order and together,
    within the walk, right after those met before it.
   */
  lemma WalkEntersEverySubdirectory(dir: string, es: seq<Entry>, i: nat)
    requires i < |es| && es[i].node.Directory?
    ensures var below := FoundIn(Child(Some(dir), es[i].name), es[i].node.entries);
      var k := |FoundIn(dir, es[..i])| + (if es[i].name == PropertiesName then 1 else 0);
      k + |below| <= |FoundIn(dir, es)| && FoundIn(dir, es)[k..k + |below|] == below
  {
    FoundInSplit(dir, es, i);
    var path := Child(Some(dir), es[i].name);
    var here: seq<Found> := if es[i].name == PropertiesName then [Unreadable(path)] else [];
    FoundOneOfDirectory(dir, es[i]);
    Middle(FoundIn(dir, es), FoundIn(dir, es[..i]), here, FoundIn(path, es[i].node.entries), FoundIn(dir, es[i + 1..]));
  }

  lemma FoundOneOfDirectory(dir: string, e: Entry)
    requires e.node.Directory?
    ensures var path := Child(Some(dir), e.name);
      FoundOne(dir, e) == (if e.name == PropertiesName then [Unreadable(path)] else []) + FoundIn(path, e.node.entries)
  {
  }

  lemma Middle<T>(whole: seq<T>, a: seq<T>, h: seq<T>, b: seq<T>, c: seq<T>)
    requires whole == a + (h + b) + c
    ensures |a| + |h| + |b| <= |whole| && whole[|a| + |h|..|a| + |h| + |b|] == b
  {
    assert whole == (a + h) + b + c;
  }

  /** Every properties file named as a descriptor is read. */
  lemma WalkReadsEveryDescriptor(dir: string, es: seq<Entry>, i: nat)
    requires i < |es| && es[i].name == PropertiesName && es[i].node.PlainFile?
    ensures Readable(Child(Some(dir), PropertiesName), es[i].node.props) in FoundIn(dir, es)
  {
    FoundInSplit(dir, es, i);
    var f := Readable(Child(Some(dir), PropertiesName), es[i].node.props);
    assert FoundOne(dir, es[i]) == [f];
    assert FoundIn(dir, es)[|FoundIn(dir, es[..i])|] == f;
  }

  /**
    A descriptor that cannot be opened, a directory or an unreadable file of
    that name, makes the whole build fail wherever the walk meets it.
   */
  lemma UnopenableDescriptorFails(v: Variant, dir: string, es: seq<Entry>, i: nat, known: map<string, Descriptor>)
    requires i < |es| && es[i].name == PropertiesName && !es[i].node.PlainFile?
    ensures Register(v, FoundIn(dir, es), known).Failure?
  {
    FoundInSplit(dir, es, i);
    var f := Unreadable(Child(Some(dir), PropertiesName));
    assert FoundOne(dir, es[i])[0] == f;
    assert FoundIn(dir, es)[|FoundIn(dir, es[..i])|] == f;
    RegisterSucceeds(v, FoundIn(dir, es), known);
  }

  // ---------------------------------------------------------------------
  // Reading one descriptor
  // ---------------------------------------------------------------------

  /** The key of the `i`th file of a group: the bare key, then the key followed by the digit 1 to 9. */
  function KeyFor(base: string, i: nat): string
    requires i < 10
  {
    if i == 0 then base else base + [('0' as int + i) as char]
  }

  /** The files named by the keys of the group with an index below `n`, in index order, absent keys skipped. */
  function ListedFiles(props: map<string, string>, base: string, file: string, n: nat): seq<string>
    requires n <= 10
  {
    if n == 0 then []
    else
      var k := KeyFor(base, n - 1);
      ListedFiles(props, base, file, n - 1) + if k in props then [GetFile(props[k], file)] else []
  }

  /** The files of a group: the bare key and the nine numbered keys. */
  function FileList(props: map<string, string>, base: string, file: string): seq<string>
  {
    ListedFiles(props, base, file, 10)
  }

  /** A file is listed exactly when some key of the group names it. */
  lemma {:induction false} ListedFilesMembers(props: map<string, string>, base: string, file: string, n: nat)
    requires n <= 10
    ensures forall f :: f in ListedFiles(props, base, file, n) <==>
      exists i :: 0 <= i < n && KeyFor(base, i) in props && f == GetFile(props[KeyFor(base, i)], file)
  {
    if n > 0 {
      ListedFilesMembers(props, base, file, n - 1);
    }
  }

  lemma FileListMembers(props: map<string, string>, base: string, file: string)
    ensures forall f :: f in FileList(props, base, file) <==>
      exists i :: 0 <= i < 10 && KeyFor(base, i) in props && f == GetFile(props[KeyFor(base, i)], file)
  {
    ListedFilesMembers(props, base, file, 10);
  }

  /** A key that is not one of the group's ten keys has no effect on the group's files. */
  lemma {:induction false} ListedFilesIgnoreOtherKeys(props: map<string, string>, base: string, file: string,
                                                      n: nat, k: string, v: string)
    requires n <= 10
    requires forall i :: 0 <= i < 10 ==> k != KeyFor(base, i)
    ensures ListedFiles(props[k := v], base, file, n) == ListedFiles(props, base, file, n)
  {
    if n > 0 {
      ListedFilesIgnoreOtherKeys(props, base, file, n - 1, k, v);
    }
  }

  lemma FileListIgnoresOtherKeys(props: map<string, string>, base: string, file: string, k: string, v: string)
    requires forall i :: 0 <= i < 10 ==> k != KeyFor(base, i)
    ensures FileList(props[k := v], base, file) == FileList(props, base, file)
  {
    ListedFilesIgnoreOtherKeys(props, base, file, 10, k, v);
  }

  /** Index ten and index zero are not keys of a group: `xsl_file10` and `xsl_file0` are ignored. */
  lemma TenAndZeroAreNotKeys(base: string)
    ensures forall i :: 0 <= i < 10 ==> base + "10" != KeyFor(base, i) && base + "0" != KeyFor(base, i)
  {
    forall i | 0 <= i < 10
      ensures base + "10" != KeyFor(base, i) && base + "0" != KeyFor(base, i)
    {
      assert |base + "10"| == |base| + 2;
      if i > 0 {
        assert KeyFor(base, i)[|base|] != '0';
      }
    }
  }

  /** Without numbered keys, a group is its bare key alone. */
  lemma {:induction false} OnlyBareKey(props: map<string, string>, base: string, file: string, n: nat)
    requires 1 <= n <= 10 && base in props
    requires forall i :: 1 <= i < n ==> KeyFor(base, i) !in props
    ensures ListedFiles(props, base, file, n) == [GetFile(props[base], file)]
  {
    if n > 1 {
      OnlyBareKey(props, base, file, n - 1);
    } else {
      assert ListedFiles(props, base, file, 0) == [];
    }
  }

  /** A present property, or the empty string. */
  function PropertyOr(props: map<string, string>, key: string): string
  {
    if key in props then props[key] else ""
  }

  /** Whether the reader accepts the descriptor, apart from the keyword being new. */
  predicate Accepted(v: Variant, f: Found)
  {
    f.Readable? && "keyword" in f.props && (v.Legacy? ==> "xsl_file" in f.props)
  }

  function Keyword(f: Found): string
    requires f.Readable? && "keyword" in f.props
  {
    f.props["keyword"]
  }

  /**
    What an accepted descriptor describes. The current reader resolves each
    file with `GetFile` and defaults the name and description to empty; the
    legacy reader always joins the files to the descriptor's directory and
    has neither name nor description.
   */
  function DescriptorOf(v: Variant, f: Found): Descriptor
    requires Accepted(v, f)
  {
    var props, path := f.props, f.path;
    match v
    case Current =>
      Descriptor(PropertyOr(props, "name"), PropertyOr(props, "description"),
                 Handler.Keys(FileList(props, "xsl_file", path)), Handler.Keys(FileList(props, "xsd_file", path)))
    case Legacy =>
      Descriptor("", "", [Child(Parent(path), props["xsl_file"])],
                 if "xsd_file" in props then [Child(Parent(path), props["xsd_file"])] else [])
  }

  /** Reading one descriptor against the keywords registered so far. */
  function ReadFound(v: Variant, f: Found, known: set<string>): (r: Result<(string, Descriptor), LoadError>)
    ensures r.Success? <==> Accepted(v, f) && Keyword(f) !in known
    ensures r.Success? ==> r.value == (Keyword(f), DescriptorOf(v, f))
  {
    match f
    case Unreadable(path) => Failure(CannotOpen(path))
    case Readable(path, props) =>
      if "keyword" !in props then Failure(MissingKeyword(path))
      else if props["keyword"] in known then Failure(DuplicateKeyword(props["keyword"]))
      else if v.Legacy? && "xsl_file" !in props then Failure(MissingXslFile(path))
      else Success((props["keyword"], DescriptorOf(v, f)))
  }

  /** The registry after reading the descriptors in order, or the first failure. */
  function Register(v: Variant, found: seq<Found>, known: map<string, Descriptor>): Result<map<string, Descriptor>, LoadError>
  {
    if found == [] then Success(known)
    else match ReadFound(v, found[0], known.Keys)
      case Failure(e) => Failure(e)
      case Success((keyword, d)) => Register(v, found[1..], known[keyword := d])
  }

  lemma {:induction false} RegisterAppend(v: Variant, a: seq<Found>, b: seq<Found>, known: map<string, Descriptor>)
    ensures Register(v, a + b, known) ==
      match Register(v, a, known)
      case Failure(e) => Failure(e)
      case Success(m) => Register(v, b, m)
  {
    if a == [] {
      assert a + b == b;
    } else {
      assert (a + b)[0] == a[0];
      assert (a + b)[1..] == a[1..] + b;
      match ReadFound(v, a[0], known.Keys)
      case Failure(_) =>
      case Success((keyword, d)) => RegisterAppend(v, a[1..], b, known[keyword := d]);
    }
  }

  /** Every descriptor is accepted and brings a keyword that is neither known nor repeated. */
  predicate AllAccepted(v: Variant, found: seq<Found>, known: set<string>)
  {
    && (forall i :: 0 <= i < |found| ==> Accepted(v, found[i]) && Keyword(found[i]) !in known)
    && (forall i, j :: 0 <= i < j < |found| ==> Keyword(found[i]) != Keyword(found[j]))
  }

  /**
    Building the registry succeeds exactly when every descriptor is accepted
    with a fresh keyword; it then holds the known entries unchanged and one
    entry per descriptor, under its keyword, and nothing else.
   */
  lemma RegisterOnePerDescriptor(v: Variant, found: seq<Found>, known: map<string, Descriptor>)
    ensures Register(v, found, known).Success? <==> AllAccepted(v, found, known.Keys)
    ensures Register(v, found, known).Success? ==>
      var m := Register(v, found, known).value;
      && |m| == |known| + |found|
      && (forall k :: k in known ==> k in m && m[k] == known[k])
      && (forall i :: 0 <= i < |found| ==> Keyword(found[i]) in m && m[Keyword(found[i])] == DescriptorOf(v, found[i]))
  {
    RegisterSucceeds(v, found, known);
    if Register(v, found, known).Success? {
      RegisterContents(v, found, known);
    }
  }

  /** Building the registry succeeds exactly when every descriptor is accepted with a fresh keyword. */
  lemma {:induction false} RegisterSucceeds(v: Variant, found: seq<Found>, known: map<string, Descriptor>)
    ensures Register(v, found, known).Success? <==> AllAccepted(v, found, known.Keys)
  {
    if found != [] {
      AllAcceptedCons(v, found, known.Keys);
      var f := found[0];
      if Accepted(v, f) && Keyword(f) !in known {
        var next := known[Keyword(f) := DescriptorOf(v, f)];
        assert next.Keys == known.Keys + {Keyword(f)};
        assert Register(v, found, known) == Register(v, found[1..], next);
        RegisterSucceeds(v, found[1..], next);
      }
    }
  }

  /**
    A successful build keeps the known entries and adds one entry per
    descriptor, under its keyword, and nothing else.
   */
  lemma {:induction false} RegisterContents(v: Variant, found: seq<Found>, known: map<string, Descriptor>)
    requires Register(v, found, known).Success?
    ensures var m := Register(v, found, known).value;
      && |m| == |known| + |found|
      && (forall k :: k in known ==> k in m && m[k] == known[k])
      && (forall i :: 0 <= i < |found| ==> Accepted(v, found[i]) && Keyword(found[i]) in m && m[Keyword(found[i])] == DescriptorOf(v, found[i]))
  {
    if found != [] {
      var f, rest := found[0], found[1..];
      assert Accepted(v, f) && Keyword(f) !in known;
      var next := known[Keyword(f) := DescriptorOf(v, f)];
      assert Register(v, found, known) == Register(v, rest, next);
      RegisterContents(v, rest, next);
      var m := Register(v, rest, next).value;
      assert forall i :: 1 <= i < |found| ==> found[i] == rest[i - 1];
      assert Keyword(f) in m && m[Keyword(f)] == DescriptorOf(v, f);
    }
  }

  /** `AllAccepted` one descriptor at a time: the first, then the rest against the grown key set. */
  lemma AllAcceptedCons(v: Variant, found: seq<Found>, known: set<string>)
    requires found != []
    ensures AllAccepted(v, found, known) <==>
      Accepted(v, found[0]) && Keyword(found[0]) !in known && AllAccepted(v, found[1..], known + {Keyword(found[0])})
  {
    var rest := found[1..];
    assert forall i :: 0 <= i < |rest| ==> rest[i] == found[i + 1];
    if Accepted(v, found[0]) && Keyword(found[0]) !in known && AllAccepted(v, rest, known + {Keyword(found[0])}) {
      forall i, j | 0 <= i < j < |found| ensures Keyword(found[i]) != Keyword(found[j]) {
        if i > 0 {
          assert found[i] == rest[i - 1] && found[j] == rest[j - 1];
        } else {
          assert found[j] == rest[j - 1];
        }
      }
    }
  }

  /** A descriptor that repeats a keyword, anywhere in the walk, makes the whole build fail. */
  lemma DuplicateKeywordFails(v: Variant, found: seq<Found>, known: map<string, Descriptor>, i: nat, j: nat)
    requires i < j < |found|
    requires Accepted(v, found[i]) && Accepted(v, found[j]) && Keyword(found[i]) == Keyword(found[j])
    ensures Register(v, found, known).Failure?
  {
    RegisterOnePerDescriptor(v, found, known);
  }

  /**
    The current reader: the stylesheets are the `xsl_file` key and then the
    numbered keys in increasing order, each resolved by `GetFile`; likewise
    the schemas; name and description default to empty.
   */
  lemma CurrentDescriptor(f: Found)
    requires Accepted(Current, f)
    ensures var d := DescriptorOf(Current, f);
      && (forall x :: x in d.xslFiles <==>
            exists i :: 0 <= i < 10 && KeyFor("xsl_file", i) in f.props && x == GetFile(f.props[KeyFor("xsl_file", i)], f.path))
      && (forall x :: x in d.xsdFiles <==>
            exists i :: 0 <= i < 10 && KeyFor("xsd_file", i) in f.props && x == GetFile(f.props[KeyFor("xsd_file", i)], f.path))
      && Handler.Distinct(d.xslFiles) && Handler.Distinct(d.xsdFiles)
      && d.name == (if "name" in f.props then f.props["name"] else "")
      && d.description == (if "description" in f.props then f.props["description"] else "")
  {
    FileListMembers(f.props, "xsl_file", f.path);
    FileListMembers(f.props, "xsd_file", f.path);
    Handler.KeysInFirstOccurrenceOrder(FileList(f.props, "xsl_file", f.path));
    Handler.KeysInFirstOccurrenceOrder(FileList(f.props, "xsd_file", f.path));
  }

  /** Neither reader accepts a descriptor without a keyword, and the legacy one none without `xsl_file`. */
  lemma RequiredKeys(v: Variant, f: Found, known: set<string>)
    requires f.Readable?
    ensures "keyword" !in f.props ==> ReadFound(v, f, known) == Failure(MissingKeyword(f.path))
    ensures "keyword" in f.props && f.props["keyword"] in known ==>
      ReadFound(v, f, known) == Failure(DuplicateKeyword(f.props["keyword"]))
    ensures v.Legacy? && "keyword" in f.props && f.props["keyword"] !in known && "xsl_file" !in f.props ==>
      ReadFound(v, f, known) == Failure(MissingXslFile(f.path))
    ensures v.Current? && "keyword" in f.props && f.props["keyword"] !in known ==> ReadFound(v, f, known).Success?
  {
  }

  /**
    For a descriptor found in directory `dir`, the current reader keeps an
    absolute file name as it is, while the legacy reader appends it to `dir`.
   */
  lemma AbsoluteFileNames(dir: string, props: map<string, string>)
    requires NormalDirectory(dir) && dir != [Separator]
    requires "keyword" in props && "xsl_file" in props && IsAbsolute(props["xsl_file"])
    requires forall i :: 1 <= i < 10 ==> KeyFor("xsl_file", i) !in props
    ensures var f := Readable(Child(Some(dir), PropertiesName), props);
      && DescriptorOf(Current, f).xslFiles == [props["xsl_file"]]
      && DescriptorOf(Legacy, f).xslFiles == [dir + props["xsl_file"]]
  {
    var f := Readable(Child(Some(dir), PropertiesName), props);
    ParentOfChild(dir, PropertiesName);
    ChildIgnoresAbsolute(dir, props["xsl_file"]);
    var files := FileList(props, "xsl_file", f.path);
    OnlyBareKey(props, "xsl_file", f.path, 10);
    assert Handler.Keys([props["xsl_file"]]) == [props["xsl_file"]];
  }

  // ---------------------------------------------------------------------
  // Registries of handler objects
  // ---------------------------------------------------------------------

  /** What a handler object tracks. */
  function Describe(h: Handler.DocumentHandler): Descriptor
  {
    Descriptor(h.name, h.description, h.xsltPaths, h.xsdPaths)
  }

  function DescribeAll(m: map<string, Handler.DocumentHandler>): (r: map<string, Descriptor>)
    ensures r.Keys == m.Keys
  {
    map k | k in m :: Describe(m[k])
  }

  function DescribeResult(r: Result<map<string, Handler.DocumentHandler>, LoadError>): Result<map<string, Descriptor>, LoadError>
  {
    match r
    case Failure(e) => Failure(e)
    case Success(m) => Success(DescribeAll(m))
  }

  lemma DescribeAllUpdate(m: map<string, Handler.DocumentHandler>, k: string, h: Handler.DocumentHandler)
    ensures DescribeAll(m[k := h]) == DescribeAll(m)[k := Describe(h)]
  {
  }

  lemma DescribeAllSize(m: map<string, Handler.DocumentHandler>)
    ensures |DescribeAll(m)| == |m|
  {
    assert DescribeAll(m).Keys == m.Keys;
  }

  /** A failure part-way through the descriptors is the failure of the whole build. */
  lemma RegisterFailurePersists(v: Variant, a: seq<Found>, b: seq<Found>, known: map<string, Descriptor>)
    requires Register(v, a, known).Failure?
    ensures Register(v, a + b, known) == Register(v, a, known)
  {
    RegisterAppend(v, a, b, known);
  }

  lemma RegisterOne(v: Variant, f: Found, known: map<string, Descriptor>)
    ensures Register(v, [f], known) ==
      match ReadFound(v, f, known.Keys)
      case Failure(e) => Failure(e)
      case Success((keyword, d)) => Success(known[keyword := d])
  {
    assert [f][1..] == [];
  }

  /** `next` keeps every entry of `acc` and adds only handlers made since. */
  twostate predicate Grows(acc: map<string, Handler.DocumentHandler>, new next: map<string, Handler.DocumentHandler>)
  {
    && (forall k :: k in acc ==> k in next && next[k] == acc[k])
    && (forall k :: k in next && k !in acc ==> fresh(next[k]))
  }

  /** The walk so far, extended by one entry. */
  lemma WalkStep(v: Variant, dir: string, entries: seq<Entry>, i: nat,
                 start: map<string, Descriptor>, sofar: map<string, Descriptor>)
    requires i < |entries|
    requires Register(v, FoundIn(dir, entries[..i]), start) == Success(sofar)
    ensures Register(v, FoundIn(dir, entries[..i + 1]), start) == Register(v, FoundOne(dir, entries[i]), sofar)
  {
    assert entries[..i + 1] == entries[..i] + [entries[i]];
    FoundInSnoc(dir, entries[..i], entries[i]);
    RegisterAppend(v, FoundIn(dir, entries[..i]), FoundOne(dir, entries[i]), start);
  }

  /** A failure at entry `i` is the failure of the whole directory. */
  lemma WalkFails(v: Variant, dir: string, entries: seq<Entry>, i: nat, start: map<string, Descriptor>, e: LoadError)
    requires i < |entries|
    requires Register(v, FoundIn(dir, entries[..i + 1]), start) == Failure(e)
    ensures Register(v, FoundIn(dir, entries), start) == Failure(e)
  {
    assert entries == entries[..i + 1] + entries[i + 1..];
    FoundInAppend(dir, entries[..i + 1], entries[i + 1..]);
    RegisterFailurePersists(v, FoundIn(dir, entries[..i + 1]), FoundIn(dir, entries[i + 1..]), start);
  }
}
