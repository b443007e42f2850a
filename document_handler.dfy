/**
  A document handler: the stylesheets and schemas of one keyword, with the
  modification times recorded when they were last loaded, and the throttled
  check that reloads a group when one of its files changed on disk.

  The clock, `File.lastModified`, whether a schema file can be opened and
  whether the schema compiler accepts the files are observations passed in
  as an `Env`; the clock is read once per operation.
 */
module Handler {
  import opened Results
  import opened Transformer

  /** The reload check looks at the files at most this often (milliseconds). */
  const CheckEveryMilliseconds := 5000

  /** What a handler observes of the world during one operation. */
  datatype Env = Env(
    now: int,                           // the clock, in milliseconds
    mtime: string -> int,               // the modification time of a path
    fileExists: string -> bool,         // whether a schema file can be opened
    schemaBuilds: seq<string> -> bool)  // whether the schema compiler accepts these files

  // ---------------------------------------------------------------------
  // Insertion-ordered keys
  // ---------------------------------------------------------------------

  /**
    The key order of an insertion-ordered map after `put`ting `names` one by
    one: a name already present keeps its place.
   */
  function Keys(names: seq<string>): seq<string>
  {
    if names == [] then []
    else
      var keys := Keys(names[..|names| - 1]);
      var last := names[|names| - 1];
      if last in keys then keys else keys + [last]
  }

  predicate Distinct(s: seq<string>)
  {
    forall i, j :: 0 <= i < j < |s| ==> s[i] != s[j]
  }

  /** The position of the first occurrence of `x` in `s`. */
  function FirstIndex(s: seq<string>, x: string): (r: nat)
    requires x in s
    ensures r < |s| && s[r] == x
    ensures forall k :: 0 <= k < r ==> s[k] != x
  {
    if s[0] == x then 0 else 1 + FirstIndex(s[1..], x)
  }

  lemma FirstIndexPrefix(s: seq<string>, n: nat, x: string)
    requires n <= |s| && x in s[..n]
    ensures FirstIndex(s, x) == FirstIndex(s[..n], x)
  {
    var j := FirstIndex(s[..n], x);
    assert s[..n][j] == s[j];
  }

  /**
    The keys hold every supplied name once, and in the order of their first
    occurrence.
   */
  lemma {:induction false} KeysInFirstOccurrenceOrder(names: seq<string>)
    ensures Distinct(Keys(names))
    ensures forall x :: x in Keys(names) <==> x in names
    ensures forall i, j :: 0 <= i < j < |Keys(names)| ==>
      FirstIndex(names, Keys(names)[i]) < FirstIndex(names, Keys(names)[j])
  {
    if names != [] {
      var init := names[..|names| - 1];
      var last := names[|names| - 1];
      KeysInFirstOccurrenceOrder(init);
      assert names == init + [last];
      var keys := Keys(init);
      forall x | x in keys
        ensures FirstIndex(names, x) == FirstIndex(init, x) < |init|
      {
        FirstIndexPrefix(names, |init|, x);
      }
      if last !in keys {
        assert last !in init;
        assert FirstIndex(names, last) == |init|;
      }
    }
  }

  /** Distinct names are kept exactly as supplied. */
  lemma {:induction false} KeysOfDistinct(names: seq<string>)
    requires Distinct(names)
    ensures Keys(names) == names
  {
    if names != [] {
      var init := names[..|names| - 1];
      assert Distinct(init);
      KeysOfDistinct(init);
      assert names[|names| - 1] !in init;
      assert init + [names[|names| - 1]] == names;
    }
  }

  /** Builds the key order of a freshly created map, name by name. */
  method PutKeys(names: seq<string>) returns (keys: seq<string>)
    ensures keys == Keys(names)
  {
    keys := [];
    for i := 0 to |names|
      invariant keys == Keys(names[..i])
    {
      assert names[..i + 1][..i] == names[..i];
      if names[i] !in keys {
        keys := keys + [names[i]];
      }
    }
    assert names[..|names|] == names;
  }

  // ---------------------------------------------------------------------
  // The bookkeeping, as a value
  // ---------------------------------------------------------------------

  /**
    The mutable part of a handler. `transformer` holds the stylesheet list of
    the current transformer (None while there is none); `validator` holds the
    schema files the current validator was compiled from.
   */
  datatype Tracked = Tracked(
    xsltTimes: map<string, int>,
    xsdTimes: map<string, int>,
    xsltModified: int,
    modifyChecked: int,
    transformer: Option<seq<string>>,
    validator: Option<seq<string>>)

  /** `times` with each path of `paths` overwritten by its current modification time. */
  function Stamped(times: map<string, int>, paths: seq<string>, mtime: string -> int): map<string, int>
  {
    if paths == [] then times
    else Stamped(times, paths[..|paths| - 1], mtime)[paths[|paths| - 1] := mtime(paths[|paths| - 1])]
  }

  /** Stamping records the current time of every stamped path and leaves the others alone. */
  lemma {:induction false} StampedLookup(times: map<string, int>, paths: seq<string>, mtime: string -> int)
    ensures Stamped(times, paths, mtime).Keys == times.Keys + set p | p in paths
    ensures forall p :: p in paths ==> Stamped(times, paths, mtime)[p] == mtime(p)
    ensures forall p :: p in times && p !in paths ==> Stamped(times, paths, mtime)[p] == times[p]
  {
    if paths != [] {
      var init, last := paths[..|paths| - 1], paths[|paths| - 1];
      StampedLookup(times, init, mtime);
      assert paths == init + [last];
      assert (set p | p in paths) == (set p | p in init) + {last};
      var before := Stamped(times, init, mtime);
      assert Stamped(times, paths, mtime) == before[last := mtime(last)];
      forall p | p in times && p !in paths
        ensures Stamped(times, paths, mtime)[p] == times[p]
      {
        assert p !in init && p != last;
      }
    }
  }

  /** Some tracked path is strictly newer on disk than its recorded time. */
  predicate Newer(paths: seq<string>, times: map<string, int>, mtime: string -> int)
  {
    exists i :: 0 <= i < |paths| && paths[i] in times && mtime(paths[i]) > times[paths[i]]
  }

  /** The position of the first path `present` rejects, or `|paths|` if there is none. */
  function FirstMissing(paths: seq<string>, present: string -> bool): (r: nat)
    ensures r <= |paths|
    ensures forall k :: 0 <= k < r ==> present(paths[k])
    ensures r < |paths| ==> !present(paths[r])
  {
    if paths == [] || !present(paths[0]) then 0 else 1 + FirstMissing(paths[1..], present)
  }

  /**
    Loading the stylesheets: every path is stamped, the last path's time
    becomes `xsltModified` and the clock becomes `modifyChecked` (both only
    when there is a path), and a new transformer over the paths is made.
   */
  function AfterLoadXslt(paths: seq<string>, t: Tracked, env: Env): Tracked
  {
    t.(xsltTimes := Stamped(t.xsltTimes, paths, env.mtime),
       xsltModified := if paths == [] then t.xsltModified else env.mtime(paths[|paths| - 1]),
       modifyChecked := if paths == [] then t.modifyChecked else env.now,
       transformer := Some(paths))
  }

  /**
    Loading the schemas: no schema files means no validator. Otherwise the
    files are stamped in order until one cannot be opened, which abandons the
    load; if all open, a validator replaces the old one when the schema
    compiler accepts the files. A failed load keeps the old validator.
   */
  function AfterLoadXsd(paths: seq<string>, t: Tracked, env: Env): Tracked
  {
    if paths == [] then t.(validator := None)
    else
      var n := FirstMissing(paths, env.fileExists);
      var times := Stamped(t.xsdTimes, paths[..n], env.mtime);
      if n < |paths| then t.(xsdTimes := times)
      else t.(xsdTimes := times, validator := if env.schemaBuilds(paths) then Some(paths) else t.validator)
  }

  /**
    The throttled reload check: nothing unless the interval has passed;
    then a strictly newer stylesheet reloads all stylesheets, else a strictly
    newer schema reloads all schemas, else the check time is advanced.
   */
  function AfterCheck(xsltPaths: seq<string>, xsdPaths: seq<string>, t: Tracked, env: Env): Tracked
  {
    if !(env.now > t.modifyChecked + CheckEveryMilliseconds) then t
    else if Newer(xsltPaths, t.xsltTimes, env.mtime) then AfterLoadXslt(xsltPaths, t, env)
    else if Newer(xsdPaths, t.xsdTimes, env.mtime) then AfterLoadXsd(xsdPaths, t, env)
    else t.(modifyChecked := env.now)
  }

  /** Every tracked path has a recorded time. */
  predicate Covers(times: map<string, int>, paths: seq<string>)
  {
    forall p :: p in paths ==> p in times
  }

  // ---------------------------------------------------------------------
  // Properties of the bookkeeping
  // ---------------------------------------------------------------------

  /**
    After loading the stylesheets, every one is recorded at its current
    time, so under the same file system none counts as newer; the schema
    side is untouched.
   */
  lemma LoadXsltRecordsCurrentTimes(paths: seq<string>, t: Tracked, env: Env)
    ensures var r := AfterLoadXslt(paths, t, env);
      && (forall p :: p in paths ==> p in r.xsltTimes && r.xsltTimes[p] == env.mtime(p))
      && !Newer(paths, r.xsltTimes, env.mtime)
      && r.transformer == Some(paths)
      && (paths != [] ==> r.modifyChecked == env.now && r.xsltModified == env.mtime(paths[|paths| - 1]))
      && r.xsdTimes == t.xsdTimes && r.validator == t.validator
  {
    StampedLookup(t.xsltTimes, paths, env.mtime);
  }

  /**
    Loading the schemas: without schema files there is no validator; when
    every file opens, every one is recorded at its current time and none
    counts as newer; when one does not, the files before it are recorded,
    the rest keep their times, and the validator is kept.
   */
  lemma LoadXsdRecordsCurrentTimes(paths: seq<string>, t: Tracked, env: Env)
    ensures var r := AfterLoadXsd(paths, t, env);
      && (paths == [] ==> r.validator == None && r.xsdTimes == t.xsdTimes)
      && (paths != [] && (forall p :: p in paths ==> env.fileExists(p)) ==>
            (forall p :: p in paths ==> p in r.xsdTimes && r.xsdTimes[p] == env.mtime(p))
            && !Newer(paths, r.xsdTimes, env.mtime))
      && (forall k :: 0 <= k < |paths| && !env.fileExists(paths[k]) && (forall i :: 0 <= i < k ==> env.fileExists(paths[i]))
            ==> (&& r.validator == t.validator
                 && (forall p :: p in paths[..k] ==> p in r.xsdTimes && r.xsdTimes[p] == env.mtime(p))
                 && (forall p :: p in t.xsdTimes && p !in paths[..k] ==> p in r.xsdTimes && r.xsdTimes[p] == t.xsdTimes[p])))
      && r.xsltTimes == t.xsltTimes && r.transformer == t.transformer && r.modifyChecked == t.modifyChecked
  {
    if paths != [] {
      var n := FirstMissing(paths, env.fileExists);
      StampedLookup(t.xsdTimes, paths[..n], env.mtime);
      if n == |paths| {
        assert paths[..n] == paths;
      }
      forall k | 0 <= k < |paths| && !env.fileExists(paths[k]) && (forall i :: 0 <= i < k ==> env.fileExists(paths[i]))
        ensures k == n
      {
      }
    }
  }

  /** A validator exists after a schema load exactly when the load could leave or build one. */
  lemma ValidatorAfterLoad(paths: seq<string>, t: Tracked, env: Env)
    ensures AfterLoadXsd(paths, t, env).validator.Some? <==>
      paths != [] &&
      (t.validator.Some? || ((forall p :: p in paths ==> env.fileExists(p)) && env.schemaBuilds(paths)))
  {
    if paths != [] {
      var n := FirstMissing(paths, env.fileExists);
      if n < |paths| {
        assert paths[n] in paths;
      } else {
        forall p | p in paths ensures env.fileExists(p) {
          var i :| 0 <= i < |paths| && paths[i] == p;
        }
      }
    }
  }

  /** Within the interval after the last check, checking changes nothing. */
  lemma CheckIsThrottled(xsltPaths: seq<string>, xsdPaths: seq<string>, t: Tracked, env: Env)
    requires env.now <= t.modifyChecked + CheckEveryMilliseconds
    ensures AfterCheck(xsltPaths, xsdPaths, t, env) == t
  {
  }

  /**
    Only a strictly newer file makes the check reload anything: if no tracked
    file is newer than its record, the only change is the check time.
   */
  lemma CheckReloadsOnlyNewer(xsltPaths: seq<string>, xsdPaths: seq<string>, t: Tracked, env: Env)
    ensures var r := AfterCheck(xsltPaths, xsdPaths, t, env);
      (r.xsltTimes != t.xsltTimes || r.xsdTimes != t.xsdTimes || r.transformer != t.transformer ||
       r.validator != t.validator || r.xsltModified != t.xsltModified)
      ==> env.now > t.modifyChecked + CheckEveryMilliseconds &&
          (Newer(xsltPaths, t.xsltTimes, env.mtime) || Newer(xsdPaths, t.xsdTimes, env.mtime))
    ensures !Newer(xsltPaths, t.xsltTimes, env.mtime) && !Newer(xsdPaths, t.xsdTimes, env.mtime) ==>
      AfterCheck(xsltPaths, xsdPaths, t, env)
        == if env.now > t.modifyChecked + CheckEveryMilliseconds then t.(modifyChecked := env.now) else t
  {
  }

  /** A changed stylesheet reloads the stylesheets and leaves the schemas alone, even changed ones. */
  lemma CheckPrefersStylesheets(xsltPaths: seq<string>, xsdPaths: seq<string>, t: Tracked, env: Env)
    requires env.now > t.modifyChecked + CheckEveryMilliseconds
    requires Newer(xsltPaths, t.xsltTimes, env.mtime)
    ensures var r := AfterCheck(xsltPaths, xsdPaths, t, env);
      && r.transformer == Some(xsltPaths)
      && r.modifyChecked == env.now
      && r.xsdTimes == t.xsdTimes && r.validator == t.validator
  {
  }

  /**
    A check that did not reload schemas leaves nothing for an immediate
    second check with the same clock and files to do.
   */
  lemma CheckSettles(xsltPaths: seq<string>, xsdPaths: seq<string>, t: Tracked, env: Env)
    requires !(env.now > t.modifyChecked + CheckEveryMilliseconds
               && !Newer(xsltPaths, t.xsltTimes, env.mtime) && Newer(xsdPaths, t.xsdTimes, env.mtime))
    ensures var r := AfterCheck(xsltPaths, xsdPaths, t, env);
      AfterCheck(xsltPaths, xsdPaths, r, env) == r
  {
  }

  /**
    A schema reload does not advance the check time, so the next check with
    the same clock looks at the files again; when every schema file opened,
    it finds nothing newer and only advances the check time.
   */
  lemma CheckAfterSchemaReload(xsltPaths: seq<string>, xsdPaths: seq<string>, t: Tracked, env: Env)
    requires env.now > t.modifyChecked + CheckEveryMilliseconds
    requires !Newer(xsltPaths, t.xsltTimes, env.mtime) && Newer(xsdPaths, t.xsdTimes, env.mtime)
    requires forall p :: p in xsdPaths ==> env.fileExists(p)
    ensures var r := AfterCheck(xsltPaths, xsdPaths, t, env);
      && r.modifyChecked == t.modifyChecked
      && AfterCheck(xsltPaths, xsdPaths, r, env) == r.(modifyChecked := env.now)
  {
    LoadXsdRecordsCurrentTimes(xsdPaths, t, env);
  }

  // ---------------------------------------------------------------------
  // The handler object
  // ---------------------------------------------------------------------

  class DocumentHandler {
    const name: string
    const description: string
    /** The tracked stylesheet paths, in the order they were first supplied. */
    const xsltPaths: seq<string>
    /** The tracked schema paths, in the order they were first supplied. */
    const xsdPaths: seq<string>

    var xsltTimes: map<string, int>
    var xsdTimes: map<string, int>
    var xsltModified: int
    var modifyChecked: int
    var transformer: XSLTTransformer?
    var validator: Option<seq<string>>

    /** Every tracked path has a recorded time, and nothing else does. */
    ghost predicate Valid()
      reads this
    {
      && xsltTimes.Keys == (set p | p in xsltPaths)
      && xsdTimes.Keys == (set p | p in xsdPaths)
    }

    /** The handler's mutable state as a value. */
    function State(): Tracked
      reads this
    {
      Tracked(xsltTimes, xsdTimes, xsltModified, modifyChecked,
              if transformer == null then None else Some(transformer.stylesheets), validator)
    }

    /** One stylesheet and at most one schema; no name or description. */
    constructor Single(xsltFileName: string, xsdFileName: Option<string>, checkEverySeconds: int, env: Env)
      ensures name == "" && description == ""
      ensures xsltPaths == [xsltFileName]
      ensures xsdPaths == if xsdFileName.Some? then [xsdFileName.value] else []
      ensures Valid() && State() == Initialized(xsltPaths, xsdPaths, env)
    {
      name := "";
      description := "";
      xsltPaths := [xsltFileName];
      xsdPaths := if xsdFileName.Some? then [xsdFileName.value] else [];
      new;
      Initialize(env);
    }

    /** One stylesheet and at most one schema, with a name and description. */
    constructor Named(xsltFileName: string, xsdFileName: Option<string>, checkEverySeconds: int,
                      name: string, description: string, env: Env)
      ensures this.name == name && this.description == description
      ensures xsltPaths == [xsltFileName]
      ensures xsdPaths == if xsdFileName.Some? then [xsdFileName.value] else []
      ensures Valid() && State() == Initialized(xsltPaths, xsdPaths, env)
    {
      this.name := name;
      this.description := description;
      xsltPaths := [xsltFileName];
      xsdPaths := if xsdFileName.Some? then [xsdFileName.value] else [];
      new;
      Initialize(env);
    }

    /** One stylesheet and a list of schemas. */
    constructor WithSchemas(xsltFileName: string, xsdFileNames: seq<string>, checkEverySeconds: int,
                            name: string, description: string, env: Env)
      ensures this.name == name && this.description == description
      ensures xsltPaths == [xsltFileName] && xsdPaths == Keys(xsdFileNames)
      ensures Valid() && State() == Initialized(xsltPaths, xsdPaths, env)
    {
      this.name := name;
      this.description := description;
      xsltPaths := [xsltFileName];
      var xsdKeys := PutKeys(xsdFileNames);
      xsdPaths := xsdKeys;
      new;
      Initialize(env);
    }

    /** Lists of stylesheets and of schemas. */
    constructor WithLists(xslFileNames: seq<string>, xsdFileNames: seq<string>, checkEverySeconds: int,
                          name: string, description: string, env: Env)
      ensures this.name == name && this.description == description
      ensures xsltPaths == Keys(xslFileNames) && xsdPaths == Keys(xsdFileNames)
      ensures Valid() && State() == Initialized(xsltPaths, xsdPaths, env)
    {
      this.name := name;
      this.description := description;
      var xsltKeys := PutKeys(xslFileNames);
      xsltPaths := xsltKeys;
      var xsdKeys := PutKeys(xsdFileNames);
      xsdPaths := xsdKeys;
      new;
      Initialize(env);
    }

    /** Every path recorded at time zero, then the stylesheets and the schemas loaded. */
    method Initialize(env: Env)
      modifies this
      ensures Valid() && State() == Initialized(xsltPaths, xsdPaths, env)
    {
      xsltTimes := map p | p in xsltPaths :: 0;
      xsdTimes := map p | p in xsdPaths :: 0;
      xsltModified := 0;
      modifyChecked := 0;
      transformer := null;
      validator := None;
      LoadXslt(env);
      LoadXsd(env);
    }

    function GetName(): (r: string)
      ensures r == name
    {
      name
    }

    function GetDescription(): (r: string)
      ensures r == description
    {
      description
    }

    /** `loadXSLT`: stamps every stylesheet and makes a new transformer over all of them. */
    method LoadXslt(env: Env)
      requires Valid()
      modifies this
      ensures Valid() && State() == AfterLoadXslt(xsltPaths, old(State()), env)
    {
      for i := 0 to |xsltPaths|
        invariant xsltTimes == Stamped(old(xsltTimes), xsltPaths[..i], env.mtime)
        invariant xsltTimes.Keys == old(xsltTimes).Keys
        invariant xsltModified == if i == 0 then old(xsltModified) else env.mtime(xsltPaths[i - 1])
        invariant modifyChecked == if i == 0 then old(modifyChecked) else env.now
        invariant xsdTimes == old(xsdTimes) && validator == old(validator) && transformer == old(transformer)
      {
        var fname := xsltPaths[i];
        assert xsltPaths[..i + 1][..i] == xsltPaths[..i];
        xsltModified := env.mtime(fname);
        modifyChecked := env.now;
        xsltTimes := xsltTimes[fname := xsltModified];
      }
      assert xsltPaths[..|xsltPaths|] == xsltPaths;
      transformer := new XSLTTransformer(xsltPaths);
    }

    /**
      `loadXSD`: no schema files means no validator; otherwise stamps the
      schema files in order, abandoning the load at the first one that cannot
      be opened, and compiles a new validator when all opened.
     */
    method LoadXsd(env: Env)
      requires Valid()
      modifies this
      ensures Valid() && State() == AfterLoadXsd(xsdPaths, old(State()), env)
    {
      if |xsdPaths| == 0 {
        validator := None;
        return;
      }
      ghost var n := FirstMissing(xsdPaths, env.fileExists);
      for i := 0 to |xsdPaths|
        invariant i <= n
        invariant xsdTimes == Stamped(old(xsdTimes), xsdPaths[..i], env.mtime)
        invariant xsdTimes.Keys == old(xsdTimes).Keys
        invariant xsltTimes == old(xsltTimes) && xsltModified == old(xsltModified)
        invariant modifyChecked == old(modifyChecked) && transformer == old(transformer)
        invariant validator == old(validator)
      {
        var xsdFileName := xsdPaths[i];
        if !env.fileExists(xsdFileName) {
          // the file cannot be opened: the load is abandoned here
          assert i == n;
          return;
        }
        assert xsdPaths[..i + 1][..i] == xsdPaths[..i];
        xsdTimes := xsdTimes[xsdFileName := env.mtime(xsdFileName)];
      }
      assert xsdPaths[..|xsdPaths|] == xsdPaths;
      if env.schemaBuilds(xsdPaths) {
        validator := Some(xsdPaths);
      }
    }

    /** `checkModified`: the throttled reload check. */
    method CheckModified(env: Env)
      requires Valid()
      modifies this
      ensures Valid() && State() == AfterCheck(xsltPaths, xsdPaths, old(State()), env)
    {
      var now := env.now;
      if now > modifyChecked + CheckEveryMilliseconds {
        for i := 0 to |xsltPaths|
          invariant forall k :: 0 <= k < i ==> env.mtime(xsltPaths[k]) <= xsltTimes[xsltPaths[k]]
        {
          var modified := env.mtime(xsltPaths[i]);
          if modified > xsltTimes[xsltPaths[i]] {
            LoadXslt(env);
            return;
          }
        }
        for i := 0 to |xsdPaths|
          invariant forall k :: 0 <= k < i ==> env.mtime(xsdPaths[k]) <= xsdTimes[xsdPaths[k]]
        {
          var modified := env.mtime(xsdPaths[i]);
          if modified > xsdTimes[xsdPaths[i]] {
            LoadXsd(env);
            return;
          }
        }
        modifyChecked := now;
      }
    }

    function HasXsdValidator(): (r: bool)
      reads this
      ensures r <==> State().validator.Some?
    {
      validator.Some?
    }

    function HasTransformer(): (r: bool)
      reads this
      ensures r <==> State().transformer.Some?
    {
      transformer != null
    }
  }

  /** A new handler: every path at time zero, then both groups loaded. */
  function Initialized(xsltPaths: seq<string>, xsdPaths: seq<string>, env: Env): Tracked
  {
    var zero := Tracked(map p | p in xsltPaths :: 0, map p | p in xsdPaths :: 0, 0, 0, None, None);
    AfterLoadXsd(xsdPaths, AfterLoadXslt(xsltPaths, zero, env), env)
  }

  /**
    A new handler has a transformer over all its stylesheets, every
    stylesheet recorded at its current time, and a validator exactly when
    there are schema files, all of them open and they compile.
   */
  lemma InitializedHandler(xsltPaths: seq<string>, xsdPaths: seq<string>, env: Env)
    ensures var r := Initialized(xsltPaths, xsdPaths, env);
      && r.transformer == Some(xsltPaths)
      && (forall p :: p in xsltPaths ==> p in r.xsltTimes && r.xsltTimes[p] == env.mtime(p))
      && (r.validator.Some? <==>
            xsdPaths != [] && (forall p :: p in xsdPaths ==> env.fileExists(p)) && env.schemaBuilds(xsdPaths))
  {
    var zero := Tracked(map p | p in xsltPaths :: 0, map p | p in xsdPaths :: 0, 0, 0, None, None);
    LoadXsltRecordsCurrentTimes(xsltPaths, zero, env);
    ValidatorAfterLoad(xsdPaths, AfterLoadXslt(xsltPaths, zero, env), env);
  }
}
