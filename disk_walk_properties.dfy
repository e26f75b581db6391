/**
  What `get_extra_files_from_disk` produces for a directory tree: one `"path"`
  directive per non-directory entry and none for a directory, in listing
  order, each at the URL built by stripping the prefix's trailing slashes and
  appending `/` and the entry's name at every level.
 */
module DiskWalkProperties {
  import opened Basics
  import opened ExtraFiles

  // ---------------------------------------------------------------------------
  // Reference definitions over the tree
  // ---------------------------------------------------------------------------

  /** The number of non-directory entries in a tree. */
  function FileCount(node: Node): nat
    decreases node
  {
    match node
    case File(_) => 1
    case Dir(_, children) => FileCountOf(children)
  }

  function FileCountOf(children: seq<Node>): nat
    decreases children
  {
    if children == [] then 0 else FileCount(children[0]) + FileCountOf(children[1..])
  }

  /** Puts `name` in front of every relative path. */
  function Prefixed(name: string, rels: seq<seq<string>>): (r: seq<seq<string>>)
    ensures |r| == |rels| && forall i :: 0 <= i < |rels| ==> r[i] == [name] + rels[i]
  {
    seq(|rels|, i requires 0 <= i < |rels| => [name] + rels[i])
  }

  /** The relative paths (lists of entry names) of the non-directory entries, depth first. */
  function Leaves(node: Node): seq<seq<string>>
    decreases node
  {
    match node
    case File(_) => [[]]
    case Dir(_, children) => LeavesOf(children)
  }

  function LeavesOf(children: seq<Node>): seq<seq<string>>
    decreases children
  {
    if children == [] then []
    else Prefixed(children[0].name, Leaves(children[0])) + LeavesOf(children[1..])
  }

  /** The URL reached from `url` by descending through the entries named in `rel`. */
  function UrlAlong(url: string, rel: seq<string>): string
    decreases |rel|
  {
    if rel == [] then url else UrlAlong(ChildUrl(url, rel[0]), rel[1..])
  }

  /** The path reached from `path` by descending through the entries named in `rel`. */
  function Below(path: FsPath, rel: seq<string>): FsPath {
    FsPath(path.root, path.parts + rel)
  }

  /** A file name as a directory lists it: not empty, no `/`. */
  predicate ValidName(name: string) {
    name != [] && '/' !in name
  }

  /** A tree a real file system can list: valid names, no two siblings alike. */
  predicate WellFormed(node: Node)
    decreases node
  {
    match node
    case File(_) => true
    case Dir(_, cs) =>
      (forall i :: 0 <= i < |cs| ==> ValidName(cs[i].name) && WellFormed(cs[i])) &&
      (forall i, j :: 0 <= i < j < |cs| ==> cs[i].name != cs[j].name)
  }

  /** `a/b/c` */
  function Join(rel: seq<string>): string
    requires rel != []
    decreases |rel|
  {
    if |rel| == 1 then rel[0] else rel[0] + "/" + Join(rel[1..])
  }

  /** The index of the first child called `name`. */
  function FindChild(children: seq<Node>, name: string): (r: Option<nat>)
    ensures r.Some? ==> r.value < |children| && children[r.value].name == name
    ensures r.Some? ==> forall j :: 0 <= j < r.value ==> children[j].name != name
    ensures r.None? ==> forall j :: 0 <= j < |children| ==> children[j].name != name
  {
    if children == [] then None
    else if children[0].name == name then Some(0)
    else
      match FindChild(children[1..], name)
      case None => None
      case Some(k) => Some(k + 1)
  }

  /** The entry at relative path `rel` below `node`, if there is one. */
  function Resolve(node: Node, rel: seq<string>): Option<Node>
    decreases |rel|
  {
    if rel == [] then Some(node)
    else
      match node
      case File(_) => None
      case Dir(_, cs) =>
        match FindChild(cs, rel[0])
        case None => None
        case Some(k) => Resolve(cs[k], rel[1..])
  }

  predicate ResolvesToFile(node: Node, rel: seq<string>) {
    Resolve(node, rel).Some? && Resolve(node, rel).value.File?
  }

  // ---------------------------------------------------------------------------
  // The URL prefix
  // ---------------------------------------------------------------------------

  /** A prefix that does not end in `/` survives `rstrip('/')` of any extension. */
  lemma {:induction false} RStripKeepsStem(stem: string, tail: string)
    requires stem == [] || stem[|stem| - 1] != '/'
    ensures stem <= RStripSlash(stem + tail)
    decreases |tail|
  {
    var s := stem + tail;
    if tail == [] {
      assert s == stem;
    } else if s[|s| - 1] == '/' {
      assert s[..|s| - 1] == stem + tail[..|tail| - 1];
      RStripKeepsStem(stem, tail[..|tail| - 1]);
    }
  }

  /** Only the trailing slashes go: "/d//" and child "x" give "/d/x". */
  lemma ChildUrlOfSlashes()
    ensures ChildUrl("/d//", "x") == "/d/x"
    ensures ChildUrl("/d", "x") == "/d/x"
  {
    assert RStripSlash("/d//") == RStripSlash("/d/") == RStripSlash("/d") == "/d";
  }

  // ---------------------------------------------------------------------------
  // Counting
  // ---------------------------------------------------------------------------

  /** One directive per non-directory entry: empty directories contribute nothing. */
  lemma {:induction false} FromDiskCount(url: string, path: FsPath, node: Node)
    ensures |FromDisk(url, path, node)| == FileCount(node)
    decreases node
  {
    match node
    case File(_) =>
    case Dir(_, cs) => FromDiskChildrenCount(url, path, cs);
  }

  lemma {:induction false} FromDiskChildrenCount(url: string, path: FsPath, children: seq<Node>)
    ensures |FromDiskChildren(url, path, children)| == FileCountOf(children)
    decreases children
  {
    if children != [] {
      var c := children[0];
      FromDiskCount(ChildUrl(url, c.name), path.Child(c.name), c);
      FromDiskChildrenCount(url, path, children[1..]);
    }
  }

  // ---------------------------------------------------------------------------
  // Ordering
  // ---------------------------------------------------------------------------

  /** Children are walked in listing order: the directives of earlier children come first. */
  lemma {:induction false} FromDiskChildrenAppend(url: string, path: FsPath, a: seq<Node>, b: seq<Node>)
    ensures FromDiskChildren(url, path, a + b) == FromDiskChildren(url, path, a) + FromDiskChildren(url, path, b)
    decreases |a|
  {
    if a == [] {
      assert a + b == b;
    } else {
      assert (a + b)[0] == a[0];
      assert (a + b)[1..] == a[1..] + b;
      FromDiskChildrenAppend(url, path, a[1..], b);
    }
  }

  // ---------------------------------------------------------------------------
  // The listing
  // ---------------------------------------------------------------------------

  /**
    The walk is the list of non-directory entries in depth-first listing
    order: the i-th directive is a `"path"` directive for the i-th leaf, at the
    URL reached by descending to it and with the path below `path` that names it.
   */
  lemma {:induction false} FromDiskListing(url: string, path: FsPath, node: Node)
    ensures |FromDisk(url, path, node)| == |Leaves(node)|
    ensures forall i :: 0 <= i < |Leaves(node)| ==>
      FromDisk(url, path, node)[i] == Directive(UrlAlong(url, Leaves(node)[i]), Path(Below(path, Leaves(node)[i])))
    decreases node
  {
    match node
    case File(_) =>
      assert Below(path, []) == path;
    case Dir(_, cs) => FromDiskChildrenListing(url, path, cs);
  }

  /** Descending into a child and then through `rel` is descending through the child's name and `rel`. */
  lemma DescendThroughChild(url: string, path: FsPath, name: string, rel: seq<string>)
    ensures UrlAlong(url, [name] + rel) == UrlAlong(ChildUrl(url, name), rel)
    ensures Below(path, [name] + rel) == Below(path.Child(name), rel)
  {
    assert ([name] + rel)[1..] == rel;
    assert path.parts + ([name] + rel) == (path.parts + [name]) + rel;
  }

  lemma {:induction false} FromDiskChildrenListing(url: string, path: FsPath, children: seq<Node>)
    ensures |FromDiskChildren(url, path, children)| == |LeavesOf(children)|
    ensures forall i :: 0 <= i < |LeavesOf(children)| ==>
      FromDiskChildren(url, path, children)[i] == Directive(UrlAlong(url, LeavesOf(children)[i]), Path(Below(path, LeavesOf(children)[i])))
    decreases children
  {
    if children != [] {
      var c := children[0];
      var cu, cp := ChildUrl(url, c.name), path.Child(c.name);
      FromDiskListing(cu, cp, c);
      FromDiskChildrenListing(url, path, children[1..]);
      var first, rest := FromDisk(cu, cp, c), FromDiskChildren(url, path, children[1..]);
      var head, restLeaves := Prefixed(c.name, Leaves(c)), LeavesOf(children[1..]);
      var out, leaves := first + rest, head + restLeaves;
      var n := |Leaves(c)|;
      forall i | 0 <= i < |leaves|
        ensures out[i] == Directive(UrlAlong(url, leaves[i]), Path(Below(path, leaves[i])))
      {
        if i < n {
          DescendThroughChild(url, path, c.name, Leaves(c)[i]);
        } else {
          assert out[i] == rest[i - n] && leaves[i] == restLeaves[i - n];
        }
      }
    }
  }

  /** Below a well-formed tree, every leaf path is made of valid names, and only a file is its own leaf. */
  lemma {:induction false} LeavesShape(node: Node)
    ensures forall rel :: rel in Leaves(node) ==> (rel == [] <==> node.File?)
    ensures WellFormed(node) ==> forall rel :: rel in Leaves(node) ==> forall k :: 0 <= k < |rel| ==> ValidName(rel[k])
    decreases node
  {
    match node
    case File(_) =>
    case Dir(_, cs) => LeavesOfShape(cs);
  }

  lemma {:induction false} LeavesOfShape(children: seq<Node>)
    ensures forall rel :: rel in LeavesOf(children) ==> rel != []
    ensures (forall i :: 0 <= i < |children| ==> ValidName(children[i].name) && WellFormed(children[i])) ==>
      forall rel :: rel in LeavesOf(children) ==> forall k :: 0 <= k < |rel| ==> ValidName(rel[k])
    decreases children
  {
    if children != [] {
      var c := children[0];
      LeavesShape(c);
      LeavesOfShape(children[1..]);
      var head := Prefixed(c.name, Leaves(c));
      forall rel | rel in head
        ensures rel != [] && rel[0] == c.name && rel[1..] in Leaves(c)
      {
        var i :| 0 <= i < |head| && head[i] == rel;
        assert rel[1..] == Leaves(c)[i];
      }
      assert forall rel :: rel in LeavesOf(children) ==> rel in head || rel in LeavesOf(children[1..]);
    }
  }

  /** A string that does not end in `/` has nothing to strip. */
  lemma RStripOfNoTrailingSlash(s: string)
    requires s != [] && s[|s| - 1] != '/'
    ensures RStripSlash(s) == s
  {
  }

  /** A child URL ends in the child's name, so with a valid name it has nothing to strip. */
  lemma ChildUrlHasNoTrailingSlash(url: string, name: string)
    requires ValidName(name)
    ensures RStripSlash(ChildUrl(url, name)) == ChildUrl(url, name)
  {
    var u := ChildUrl(url, name);
    assert u == RStripSlash(url) + "/" + name;
    assert u[|u| - 1] == name[|name| - 1];
    assert name[|name| - 1] in name;
    RStripOfNoTrailingSlash(u);
  }

  /** With valid names, descending through `rel` gives `url.rstrip('/') + '/' + 'a/b/c'`. */
  lemma {:induction false} UrlAlongJoined(url: string, rel: seq<string>)
    requires rel != []
    requires forall k :: 0 <= k < |rel| ==> ValidName(rel[k])
    ensures UrlAlong(url, rel) == RStripSlash(url) + "/" + Join(rel)
    decreases |rel|
  {
    var name := rel[0];
    var u := ChildUrl(url, name);
    assert u == RStripSlash(url) + "/" + name;
    assert UrlAlong(url, rel) == UrlAlong(u, rel[1..]);
    if |rel| > 1 {
      ChildUrlHasNoTrailingSlash(url, name);
      UrlAlongJoined(u, rel[1..]);
      assert Join(rel) == name + "/" + Join(rel[1..]);
      assert u + "/" + Join(rel[1..]) == RStripSlash(url) + "/" + (name + "/" + Join(rel[1..]));
    } else {
      assert rel[1..] == [];
    }
  }

  /**
    A directory copied from a well-formed tree: every directive is at the
    prefix with its trailing slashes stripped, then `/`, then the entry's
    relative path joined by `/`.
   */
  lemma FromDiskUrls(url: string, path: FsPath, node: Node)
    requires WellFormed(node) && node.Dir?
    ensures |FromDisk(url, path, node)| == |Leaves(node)|
    ensures forall i :: 0 <= i < |FromDisk(url, path, node)| ==>
      Leaves(node)[i] != [] &&
      FromDisk(url, path, node)[i].urlPath == RStripSlash(url) + "/" + Join(Leaves(node)[i])
  {
    FromDiskListing(url, path, node);
    LeavesShape(node);
    forall i | 0 <= i < |FromDisk(url, path, node)|
      ensures Leaves(node)[i] != []
      ensures FromDisk(url, path, node)[i].urlPath == RStripSlash(url) + "/" + Join(Leaves(node)[i])
    {
      assert Leaves(node)[i] in Leaves(node);
      UrlAlongJoined(url, Leaves(node)[i]);
    }
  }

  /** Every directive's URL starts with the prefix stripped of its trailing slashes. */
  lemma {:induction false} FromDiskUrlPrefix(url: string, path: FsPath, node: Node)
    ensures forall d :: d in FromDisk(url, path, node) ==> RStripSlash(url) <= d.urlPath
    decreases node
  {
    match node
    case File(_) =>
    case Dir(_, cs) => FromDiskChildrenUrlPrefix(url, path, cs);
  }

  lemma {:induction false} FromDiskChildrenUrlPrefix(url: string, path: FsPath, children: seq<Node>)
    ensures forall d :: d in FromDiskChildren(url, path, children) ==> RStripSlash(url) <= d.urlPath
    decreases children
  {
    if children != [] {
      var c := children[0];
      var stem := RStripSlash(url);
      var cu := ChildUrl(url, c.name);
      FromDiskUrlPrefix(cu, path.Child(c.name), c);
      FromDiskChildrenUrlPrefix(url, path, children[1..]);
      RStripKeepsStem(stem, "/" + c.name);
      assert cu == stem + ("/" + c.name);
    }
  }

  // ---------------------------------------------------------------------------
  // No directive for a directory, and one for every file
  // ---------------------------------------------------------------------------

  /** Every leaf of a well-formed tree names a non-directory entry. */
  lemma {:induction false} LeavesAreFiles(node: Node, rel: seq<string>)
    requires WellFormed(node) && rel in Leaves(node)
    ensures ResolvesToFile(node, rel)
    decreases node
  {
    match node
    case File(_) =>
    case Dir(_, cs) =>
      LeavesOfAreFiles(cs, rel);
  }

  lemma {:induction false} LeavesOfAreFiles(children: seq<Node>, rel: seq<string>)
    requires forall i :: 0 <= i < |children| ==> WellFormed(children[i])
    requires forall i, j :: 0 <= i < j < |children| ==> children[i].name != children[j].name
    requires rel in LeavesOf(children)
    ensures rel != [] && FindChild(children, rel[0]).Some?
    ensures ResolvesToFile(children[FindChild(children, rel[0]).value], rel[1..])
    decreases children
  {
    var c := children[0];
    var head := Prefixed(c.name, Leaves(c));
    if rel in head {
      var i :| 0 <= i < |head| && head[i] == rel;
      assert rel[1..] == Leaves(c)[i];
      LeavesAreFiles(c, rel[1..]);
    } else {
      var rest := children[1..];
      LeavesOfAreFiles(rest, rel);
      var k := FindChild(rest, rel[0]).value;
      assert rest[k] == children[k + 1];
      assert rel[0] != c.name;
    }
  }

  /** Every non-directory entry of the tree is a leaf. */
  lemma {:induction false} FilesAreLeaves(node: Node, rel: seq<string>)
    requires ResolvesToFile(node, rel)
    ensures rel in Leaves(node)
    decreases |rel|
  {
    if rel != [] {
      var cs := node.children;
      var k := FindChild(cs, rel[0]).value;
      FilesAreLeaves(cs[k], rel[1..]);
      LeavesOfContains(cs, k, rel[1..]);
      assert [rel[0]] + rel[1..] == rel;
    }
  }

  lemma {:induction false} LeavesOfContains(children: seq<Node>, k: nat, rel: seq<string>)
    requires k < |children| && rel in Leaves(children[k])
    ensures [children[k].name] + rel in LeavesOf(children)
    decreases k
  {
    var c := children[0];
    if k == 0 {
      var i :| 0 <= i < |Leaves(c)| && Leaves(c)[i] == rel;
      assert Prefixed(c.name, Leaves(c))[i] == [c.name] + rel;
    } else {
      LeavesOfContains(children[1..], k - 1, rel);
    }
  }

  /**
    The walk of a well-formed tree emits exactly the non-directory entries:
    a relative path is a leaf if and only if it names a non-directory entry,
    and there are as many directives as such entries.
   */
  lemma FromDiskExactlyFiles(url: string, path: FsPath, node: Node, rel: seq<string>)
    requires WellFormed(node)
    ensures rel in Leaves(node) <==> ResolvesToFile(node, rel)
    ensures |FromDisk(url, path, node)| == |Leaves(node)| == FileCount(node)
  {
    if rel in Leaves(node) {
      LeavesAreFiles(node, rel);
    }
    if ResolvesToFile(node, rel) {
      FilesAreLeaves(node, rel);
    }
    FromDiskListing(url, path, node);
    FromDiskCount(url, path, node);
  }
}
