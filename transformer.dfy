/**
  The transformer: every stylesheet is applied to the same input, and the
  output documents are merged into the first one.

  Documents are trees of nodes. Applying a stylesheet and serialising the
  merged document are done by the XSLT engine and are parameters here.
 */
module Transformer {
  import opened Results

  /** A DOM node: an element with its children, or a text node. */
  datatype Node =
    | Element(name: string, children: seq<Node>)
    | Text(content: string)

  /** `Node.getNodeName`. */
  function NodeName(n: Node): string
  {
    match n
    case Element(name, _) => name
    case Text(_) => "#text"
  }

  /** The root element of a parsed document. */
  type Root = n: Node | n.Element? witness Element("", [])

  /** The one element that a merge puts at the front instead of the back. */
  const PrefixMarker: string := "svrl:ns-prefix-in-attribute-values"

  /**
    Whether a copied node goes to the front. The source compares the node name
    with `==`, which is reference equality on Java strings; the model compares
    the names as values, which is what that test is meant to do.
   */
  predicate IsMarker(n: Node)
  {
    NodeName(n) == PrefixMarker
  }

  function Markers(s: seq<Node>): (r: seq<Node>)
    ensures |r| <= |s|
  {
    if s == [] then [] else (if IsMarker(s[0]) then [s[0]] else []) + Markers(s[1..])
  }

  function Others(s: seq<Node>): (r: seq<Node>)
    ensures |r| <= |s|
  {
    if s == [] then [] else (if IsMarker(s[0]) then [] else [s[0]]) + Others(s[1..])
  }

  function Reverse(s: seq<Node>): (r: seq<Node>)
    ensures |r| == |s|
  {
    if s == [] then [] else Reverse(s[1..]) + [s[0]]
  }

  /** Where one copied child goes: markers before the first child, the rest after the last. */
  function Place(children: seq<Node>, copy: Node): seq<Node>
  {
    if IsMarker(copy) then [copy] + children else children + [copy]
  }

  /**
    The target root's children after copying `added` into it, stated as a
    whole: the markers of `added` in reverse order, then the old children, then
    the other children of `added` in their own order.
   */
  function Merged(base: seq<Node>, added: seq<Node>): seq<Node>
  {
    Reverse(Markers(added)) + base + Others(added)
  }

  lemma {:induction false} MarkersAppend(s: seq<Node>, t: seq<Node>)
    ensures Markers(s + t) == Markers(s) + Markers(t)
  {
    if s == [] {
      assert s + t == t;
    } else {
      var h := if IsMarker(s[0]) then [s[0]] else [];
      var st := s + t;
      assert st[0] == s[0] && st[1..] == s[1..] + t;
      assert Markers(st) == h + Markers(s[1..] + t);
      MarkersAppend(s[1..], t);
      Regroup(h, Markers(s[1..]), Markers(t), []);
    }
  }

  lemma {:induction false} OthersAppend(s: seq<Node>, t: seq<Node>)
    ensures Others(s + t) == Others(s) + Others(t)
  {
    if s == [] {
      assert s + t == t;
    } else {
      var h := if IsMarker(s[0]) then [] else [s[0]];
      var st := s + t;
      assert st[0] == s[0] && st[1..] == s[1..] + t;
      assert Others(st) == h + Others(s[1..] + t);
      OthersAppend(s[1..], t);
      Regroup(h, Others(s[1..]), Others(t), []);
    }
  }

  lemma {:induction false} ReverseAppend(s: seq<Node>, t: seq<Node>)
    ensures Reverse(s + t) == Reverse(t) + Reverse(s)
  {
    if s == [] {
      assert s + t == t;
    } else {
      assert (s + t)[1..] == s[1..] + t;
      ReverseAppend(s[1..], t);
    }
  }

  lemma SingletonSplit(copy: Node)
    ensures Markers([copy]) == (if IsMarker(copy) then [copy] else [])
    ensures Others([copy]) == (if IsMarker(copy) then [] else [copy])
  {
    assert [copy][1..] == [];
  }

  /** Placing one more child one at a time agrees with the whole-merge description. */
  lemma MergedSnoc(base: seq<Node>, added: seq<Node>, copy: Node)
    ensures Merged(base, added + [copy]) == Place(Merged(base, added), copy)
  {
    MarkersAppend(added, [copy]);
    OthersAppend(added, [copy]);
    SingletonSplit(copy);
    if IsMarker(copy) {
      MergedSnocMarker(base, added, copy);
    } else {
      assert Markers(added + [copy]) == Markers(added);
      assert Others(added + [copy]) == Others(added) + [copy];
    }
  }

  /**
    Copying the first remaining child and then merging the rest gives the
    same children as merging all that remain.
   */
  lemma MergedFront(children: seq<Node>, rest: seq<Node>)
    requires rest != []
    ensures Merged(Place(children, rest[0]), rest[1..]) == Merged(children, rest)
  {
    var copy, tail := rest[0], rest[1..];
    var m, o := Markers(tail), Others(tail);
    if IsMarker(copy) {
      assert Markers(rest) == [copy] + m && Others(rest) == o;
      assert ([copy] + m)[1..] == m;
      assert Reverse([copy] + m) == Reverse(m) + [copy];
      Regroup(Reverse(m), [copy], children, o);
    } else {
      assert Markers(rest) == m && Others(rest) == [copy] + o;
      Regroup(Reverse(m), children, [copy], o);
    }
  }

  lemma Regroup(a: seq<Node>, b: seq<Node>, c: seq<Node>, d: seq<Node>)
    ensures a + (b + c) + d == a + b + c + d == a + b + (c + d)
  {
  }

  lemma MergedSnocMarker(base: seq<Node>, added: seq<Node>, copy: Node)
    requires Markers(added + [copy]) == Markers(added) + [copy]
    requires Others(added + [copy]) == Others(added)
    ensures Merged(base, added + [copy]) == [copy] + Merged(base, added)
  {
    ReverseAppend(Markers(added), [copy]);
    assert [copy][1..] == [];
    assert Reverse([copy]) == [copy];
  }

  /** `mergeResults` as a function of the two roots: the target keeps its name. */
  function MergeRoots(target: Root, source: Root): Root
  {
    Element(target.name, Merged(target.children, source.children))
  }

  lemma {:induction false} MultisetReverse(s: seq<Node>)
    ensures multiset(Reverse(s)) == multiset(s)
  {
    if s != [] {
      MultisetReverse(s[1..]);
      assert s == [s[0]] + s[1..];
    }
  }

  lemma {:induction false} MultisetSplit(s: seq<Node>)
    ensures multiset(Markers(s)) + multiset(Others(s)) == multiset(s)
  {
    if s != [] {
      var t := s[1..];
      MultisetSplit(t);
      assert s == [s[0]] + t;
      assert multiset(s) == multiset([s[0]]) + multiset(t);
      if IsMarker(s[0]) {
        assert Markers(s) == [s[0]] + Markers(t) && Others(s) == Others(t);
        assert multiset(Markers(s)) == multiset([s[0]]) + multiset(Markers(t));
      } else {
        assert Markers(s) == Markers(t) && Others(s) == [s[0]] + Others(t);
        assert multiset(Others(s)) == multiset([s[0]]) + multiset(Others(t));
      }
    }
  }

  /**
    A merge adds one copy of each child of the source root and removes
    nothing: the target's children grow by exactly the source's children.
   */
  lemma MergeKeepsEverything(base: seq<Node>, added: seq<Node>)
    ensures multiset(Merged(base, added)) == multiset(base) + multiset(added)
    ensures |Merged(base, added)| == |base| + |added|
  {
    MultisetReverse(Markers(added));
    MultisetSplit(added);
    assert |multiset(Merged(base, added))| == |Merged(base, added)|;
    assert |multiset(base) + multiset(added)| == |base| + |added|;
  }

  /**
    The layout a merge produces: the old children stay together and in order,
    the non-marker copies follow them in source order, and the marker copies
    come first in reverse source order.
   */
  lemma MergeLayout(base: seq<Node>, added: seq<Node>)
    ensures var r := Merged(base, added); var k := |Markers(added)|;
      && r[..k] == Reverse(Markers(added))
      && r[k..k + |base|] == base
      && r[k + |base|..] == Others(added)
      && (forall i :: 0 <= i < k ==> IsMarker(r[i]))
  {
    var r := Merged(base, added);
    var k := |Markers(added)|;
    MarkersAreMarkers(added);
    ReverseMarkers(Markers(added));
    assert r[..k] == Reverse(Markers(added));
  }

  lemma {:induction false} MarkersAreMarkers(s: seq<Node>)
    ensures forall i :: 0 <= i < |Markers(s)| ==> IsMarker(Markers(s)[i])
    ensures forall i :: 0 <= i < |Others(s)| ==> !IsMarker(Others(s)[i])
  {
    if s != [] {
      MarkersAreMarkers(s[1..]);
    }
  }

  lemma {:induction false} ReverseMarkers(s: seq<Node>)
    requires forall i :: 0 <= i < |s| ==> IsMarker(s[i])
    ensures forall i :: 0 <= i < |Reverse(s)| ==> IsMarker(Reverse(s)[i])
  {
    if s != [] {
      ReverseMarkers(s[1..]);
      assert forall i :: 0 <= i < |s| - 1 ==> Reverse(s)[i] == Reverse(s[1..])[i];
    }
  }

  /** A parsed document, the mutable target of a merge. */
  class Document {
    var root: Root

    constructor (root: Root)
      ensures this.root == root
    {
      this.root := root;
    }
  }

  /** Where a transformation reads its input from. */
  datatype Source =
    | StringSource(text: string)  // a fresh reader over the same string for every stylesheet
    | FileSource(path: string)    // the same file, opened again for every stylesheet

  /**
    The outputs of the stylesheets, each applied to the same source (never to
    another stylesheet's output), or the first failure in stylesheet order.
   */
  function Outputs(sheets: seq<string>, source: Source, apply: (string, Source) -> Result<Root, string>)
    : Result<seq<Root>, string>
  {
    if sheets == [] then Success([])
    else match apply(sheets[0], source)
      case Failure(e) => Failure(e)
      case Success(out) =>
        match Outputs(sheets[1..], source, apply)
        case Failure(e) => Failure(e)
        case Success(outs) => Success([out] + outs)
  }

  /** The first output with every later output merged into it, in order. */
  function FoldMerge(base: Root, rest: seq<Root>): Root
    decreases |rest|
  {
    if rest == [] then base else FoldMerge(MergeRoots(base, rest[0]), rest[1..])
  }

  /** The merged document, or none when there is no stylesheet at all. */
  function MergeAll(outs: seq<Root>): Option<Root>
  {
    if outs == [] then None else Some(FoldMerge(outs[0], outs[1..]))
  }

  /** What the fold in `transformString` and `transformFile` computes before serialising. */
  function Combine(sheets: seq<string>, source: Source, apply: (string, Source) -> Result<Root, string>)
    : Result<Option<Root>, string>
  {
    match Outputs(sheets, source, apply)
    case Failure(e) => Failure(e)
    case Success(outs) => Success(MergeAll(outs))
  }

  lemma {:induction false} OutputsSnoc(sheets: seq<string>, sheet: string, source: Source,
                                       apply: (string, Source) -> Result<Root, string>)
    ensures Outputs(sheets + [sheet], source, apply) ==
      match Outputs(sheets, source, apply)
      case Failure(e) => Failure(e)
      case Success(outs) =>
        match apply(sheet, source)
        case Failure(e) => Failure(e)
        case Success(out) => Success(outs + [out])
  {
    if sheets == [] {
      assert sheets + [sheet] == [sheet];
      assert [sheet][1..] == [];
      if apply(sheet, source).Success? {
        assert [apply(sheet, source).value] + [] == [] + [apply(sheet, source).value];
      }
    } else {
      assert (sheets + [sheet])[0] == sheets[0];
      assert (sheets + [sheet])[1..] == sheets[1..] + [sheet];
      OutputsSnoc(sheets[1..], sheet, source, apply);
      match apply(sheets[0], source)
      case Failure(e) =>
      case Success(first) =>
        match Outputs(sheets[1..], source, apply)
        case Failure(e) =>
        case Success(outs) =>
          match apply(sheet, source)
          case Failure(e) =>
          case Success(out) =>
            assert [first] + (outs + [out]) == ([first] + outs) + [out];
    }
  }

  lemma {:induction false} FoldMergeSnoc(base: Root, rest: seq<Root>, next: Root)
    ensures FoldMerge(base, rest + [next]) == MergeRoots(FoldMerge(base, rest), next)
    decreases |rest|
  {
    if rest == [] {
      assert rest + [next] == [next];
    } else {
      assert (rest + [next])[1..] == rest[1..] + [next];
      FoldMergeSnoc(MergeRoots(base, rest[0]), rest[1..], next);
    }
  }

  /**
    The outputs are exactly the stylesheets applied one by one to the same
    source: the fold succeeds iff every stylesheet does, and output i is
    stylesheet i's result.
   */
  lemma {:induction false} OutputsAreIndependent(sheets: seq<string>, source: Source,
                                                 apply: (string, Source) -> Result<Root, string>)
    ensures Outputs(sheets, source, apply).Success? <==>
      forall i :: 0 <= i < |sheets| ==> apply(sheets[i], source).Success?
    ensures Outputs(sheets, source, apply).Success? ==>
      var outs := Outputs(sheets, source, apply).value;
      |outs| == |sheets| && forall i :: 0 <= i < |sheets| ==> outs[i] == apply(sheets[i], source).value
  {
    if sheets != [] {
      OutputsAreIndependent(sheets[1..], source, apply);
      assert forall i :: 1 <= i < |sheets| ==> sheets[i] == sheets[1..][i - 1];
    }
  }

  /** With one stylesheet the result is that stylesheet's output, not merged with anything. */
  lemma SingleStylesheetUnmerged(sheet: string, source: Source, apply: (string, Source) -> Result<Root, string>)
    ensures Combine([sheet], source, apply) ==
      match apply(sheet, source)
      case Failure(e) => Failure(e)
      case Success(out) => Success(Some(out))
  {
    assert [sheet][1..] == [];
    assert Outputs([], source, apply) == Success([]);
  }

  function ChildCount(outs: seq<Root>): nat
  {
    if outs == [] then 0 else |outs[0].children| + ChildCount(outs[1..])
  }

  lemma {:induction false} ChildCountSnoc(outs: seq<Root>, next: Root)
    ensures ChildCount(outs + [next]) == ChildCount(outs) + |next.children|
  {
    if outs == [] {
      assert outs + [next] == [next];
    } else {
      assert (outs + [next])[1..] == outs[1..] + [next];
      ChildCountSnoc(outs[1..], next);
    }
  }

  /**
    The merged document keeps the first output's root element and holds one
    copy of every child of every output's root.
   */
  lemma {:induction false} FoldMergeShape(base: Root, rest: seq<Root>)
    ensures FoldMerge(base, rest).name == base.name
    ensures |FoldMerge(base, rest).children| == |base.children| + ChildCount(rest)
    decreases |rest|
  {
    if rest != [] {
      MergeKeepsEverything(base.children, rest[0].children);
      FoldMergeShape(MergeRoots(base, rest[0]), rest[1..]);
    }
  }

  /**
    Transformer over a list of stylesheet files. A compiled stylesheet is
    represented by its path; applying it is the `apply` parameter.
   */
  class XSLTTransformer {
    const stylesheets: seq<string>

    constructor (stylesheets: seq<string>)
      ensures this.stylesheets == stylesheets
    {
      this.stylesheets := stylesheets;
    }

    /** Copies every child of the source's root into the target's root. */
    method MergeResults(target: Document, source: Document)
      requires target != source
      modifies target
      ensures target.root == MergeRoots(old(target.root), source.root)
    {
      var root := source.root;
      ghost var goal := MergeRoots(old(target.root), root);
      var cur := 0;
      while cur < |root.children|
        invariant 0 <= cur <= |root.children|
        invariant Element(target.root.name, Merged(target.root.children, root.children[cur..])) == goal
      {
        // cloneNode(true): the copy is the same tree, as a new value
        var copy := root.children[cur];
        MergedFront(target.root.children, root.children[cur..]);
        assert root.children[cur..][1..] == root.children[cur + 1..];
        if IsMarker(copy) {
          target.root := Element(target.root.name, [copy] + target.root.children);
        } else {
          target.root := Element(target.root.name, target.root.children + [copy]);
        }
        cur := cur + 1;
      }
      assert Merged(target.root.children, []) == target.root.children;
    }

    /** The loop shared by `transformString` and `transformFile`. */
    method TransformAll(source: Source, apply: (string, Source) -> Result<Root, string>)
      returns (r: Result<Option<Root>, string>)
      ensures r == Combine(stylesheets, source, apply)
    {
      var result: Document? := null;
      ghost var outs: seq<Root> := [];
      var i := 0;
      while i < |stylesheets|
        invariant 0 <= i <= |stylesheets|
        invariant Outputs(stylesheets[..i], source, apply) == Success(outs)
        invariant result == null <==> outs == []
        invariant result != null ==> fresh(result) && result.root == FoldMerge(outs[0], outs[1..])
      {
        OutputsSnoc(stylesheets[..i], stylesheets[i], source, apply);
        assert stylesheets[..i + 1] == stylesheets[..i] + [stylesheets[i]];
        var out := apply(stylesheets[i], source);
        if out.Failure? {
          OutputsFailurePersists(stylesheets, i + 1, source, apply);
          return Failure(out.error);
        }
        result := Accumulate(result, outs, out.value);
        outs := outs + [out.value];
        i := i + 1;
      }
      assert stylesheets[..i] == stylesheets;
      r := Success(if result == null then None else Some(result.root));
    }

    /**
      One step of the fold: the first output becomes the result document,
      every later one is merged into it.
     */
    method Accumulate(result: Document?, ghost outs: seq<Root>, out: Root) returns (next: Document)
      requires result == null <==> outs == []
      requires result != null ==> result.root == FoldMerge(outs[0], outs[1..])
      modifies result
      ensures result != null ==> next == result
      ensures result == null ==> fresh(next)
      ensures var all := outs + [out]; next.root == FoldMerge(all[0], all[1..])
    {
      var doc := new Document(out);
      if result == null {
        next := doc;
        assert (outs + [out])[1..] == [];
      } else {
        FoldMergeSnoc(outs[0], outs[1..], out);
        assert (outs + [out])[1..] == outs[1..] + [out];
        MergeResults(result, doc);
        next := result;
      }
    }

    /** `transformString`: every stylesheet reads the same input string afresh. */
    method TransformString(input: string, apply: (string, Source) -> Result<Root, string>,
                           serialize: Option<Root> -> string)
      returns (r: Result<string, string>)
      ensures r == match Combine(stylesheets, StringSource(input), apply)
        case Failure(e) => Failure(e)
        case Success(doc) => Success(serialize(doc))
    {
      var doc := TransformAll(StringSource(input), apply);
      r := match doc
        case Failure(e) => Failure(e)
        case Success(d) => Success(serialize(d));
    }

    /** `transformFile`: every stylesheet reads the same file afresh. */
    method TransformFile(path: string, apply: (string, Source) -> Result<Root, string>,
                         serialize: Option<Root> -> string)
      returns (r: Result<string, string>)
      ensures r == match Combine(stylesheets, FileSource(path), apply)
        case Failure(e) => Failure(e)
        case Success(doc) => Success(serialize(doc))
    {
      var doc := TransformAll(FileSource(path), apply);
      r := match doc
        case Failure(e) => Failure(e)
        case Success(d) => Success(serialize(d));
    }
  }

  /** Once a prefix of the stylesheets fails, the whole list fails with the same error. */
  lemma {:induction false} OutputsFailurePersists(sheets: seq<string>, k: nat, source: Source,
                                                  apply: (string, Source) -> Result<Root, string>)
    requires k <= |sheets|
    requires Outputs(sheets[..k], source, apply).Failure?
    ensures Outputs(sheets, source, apply) == Outputs(sheets[..k], source, apply)
  {
    if sheets != [] {
      if apply(sheets[0], source).Success? {
        assert k > 0;
        assert sheets[..k][1..] == sheets[1..][..k - 1];
        OutputsFailurePersists(sheets[1..], k - 1, source, apply);
      } else {
        assert k > 0;
        assert sheets[..k][0] == sheets[0];
      }
    }
  }
}
