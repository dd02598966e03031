/** An abstract, finite file system: the part of `java.io.File` that sketch
    discovery looks at (`getName`, `exists`, `isDirectory`, `listFiles`),
    path resolution, and `APDE.validSketch`. */
module FileTree {
  import opened Optional
  import opened Text

  /** One file or directory. `listable` is whether `listFiles()` yields a
      listing; it is false for plain files and for directories the process
      may not read, where Java returns `null`. The order of `children` is the
      order `listFiles()` reports. */
  datatype Entry = Entry(name: string, isDir: bool, listable: bool, children: seq<Entry>)

  /** Sibling names are distinct all the way down, as on a real file system. */
  ghost predicate UniqueNames(e: Entry)
  {
    && (forall i, j :: 0 <= i < j < |e.children| ==> e.children[i].name != e.children[j].name)
    && (forall c :: c in e.children ==> UniqueNames(c))
  }

  /** Every directory can be listed. */
  ghost predicate AllListable(e: Entry)
  {
    (e.isDir ==> e.listable) && forall c :: c in e.children ==> AllListable(c)
  }

  /** The first child called `n`, if any. */
  function FindChild(cs: seq<Entry>, n: string): (r: Option<Entry>)
    ensures r.None? <==> forall i :: 0 <= i < |cs| ==> cs[i].name != n
    ensures r.Some? ==> exists i :: 0 <= i < |cs| && cs[i] == r.value && cs[i].name == n
                                    && forall k :: 0 <= k < i ==> cs[k].name != n
  {
    if cs == [] then None
    else if cs[0].name == n then Some(cs[0])
    else
      var r := FindChild(cs[1..], n);
      assert forall i :: 1 <= i < |cs| ==> cs[i] == cs[1..][i - 1];
      r
  }

  /** With distinct sibling names, the child called `cs[j].name` is `cs[j]`. */
  lemma {:induction false} FindNamedChild(cs: seq<Entry>, j: int)
    requires 0 <= j < |cs|
    requires forall a, b :: 0 <= a < b < |cs| ==> cs[a].name != cs[b].name
    ensures FindChild(cs, cs[j].name) == Some(cs[j])
  {
  }

  /** Follows the path elements `comps` down from `e`. */
  function Walk(e: Entry, comps: seq<string>): (r: Option<Entry>)
    ensures comps == [] ==> r == Some(e)
    ensures comps != [] && r.Some? ==> e.isDir
  {
    if comps == [] then Some(e)
    else if !e.isDir then None
    else
      match FindChild(e.children, comps[0])
      case None => None
      case Some(c) => Walk(c, comps[1..])
  }

  /** The non-empty elements of a `/`-separated path. Dropping empty
      elements is what `java.io.File` normalisation of repeated and
      trailing separators amounts to; a path without a leading `/` is read
      from the root as well, the working directory of an Android process. */
  function Components(path: string): (r: seq<string>)
    ensures forall i :: 0 <= i < |r| ==> r[i] != "" && '/' !in r[i]
  {
    PiecesSeparatorFree(path, '/');
    NonEmpty(Pieces(path, '/'))
  }

  function NonEmpty(ps: seq<string>): (r: seq<string>)
    ensures forall i :: 0 <= i < |r| ==> r[i] != "" && r[i] in ps
  {
    if ps == [] then []
    else if ps[0] == "" then NonEmpty(ps[1..])
    else [ps[0]] + NonEmpty(ps[1..])
  }

  lemma {:induction false} NonEmptyAppend(a: seq<string>, b: seq<string>)
    ensures NonEmpty(a + b) == NonEmpty(a) + NonEmpty(b)
  {
    if a == [] {
      assert a + b == b;
    } else {
      assert (a + b)[1..] == a[1..] + b;
      NonEmptyAppend(a[1..], b);
    }
  }

  /** `new File(parent, child)`: the child path below the parent. */
  function Join(parent: string, child: string): (r: string)
    ensures Components(r) == Components(parent) + Components(child)
  {
    if child == "" then
      assert Components(child) == [];
      parent
    else
      PiecesAppend(parent, child, '/');
      NonEmptyAppend(Pieces(parent, '/'), Pieces(child, '/'));
      assert parent + "/" + child == parent + ['/'] + child;
      parent + "/" + child
  }

  /** The entry a path names, looked up from the file-system root. The
      empty path names nothing: `new File("")` does not exist and cannot be
      listed, although its absolute path is the working directory. */
  function Lookup(root: Entry, path: string): (r: Option<Entry>)
    ensures path == "" ==> r == None
    ensures path != "" ==> r == Walk(root, Components(path))
  {
    if path == "" then None else Walk(root, Components(path))
  }

  /** The file name's suffix from its last `.` equals `.pde`, ignoring
      case; a name without `.` has the empty suffix. */
  predicate HasPdeExtension(name: string)
    ensures '.' !in name ==> !HasPdeExtension(name)
  {
    var lastDot := LastIndexOf(name, '.');
    var extension := if lastDot != -1 then name[lastDot..] else "";
    EqualsIgnoreCase(extension, ".pde")
  }

  /** Equivalently, the name ends in `.pde` in any mix of cases. */
  lemma {:induction false} PdeSuffix(name: string)
    ensures HasPdeExtension(name) <==> |name| >= 4 && EqualsIgnoreCase(name[|name| - 4..], ".pde")
  {
    var k := LastIndexOf(name, '.');
    if |name| >= 4 && EqualsIgnoreCase(name[|name| - 4..], ".pde") {
      var n := |name|;
      assert ToLowerAscii(name[n - 4]) == '.';
      assert name[n - 4] == '.';
      assert ToLowerAscii(name[n - 3]) == 'p' && ToLowerAscii(name[n - 2]) == 'd' && ToLowerAscii(name[n - 1]) == 'e';
      assert name[n - 3] != '.' && name[n - 2] != '.' && name[n - 1] != '.';
      assert '.' in name;
      assert forall p :: k < p < n ==> name[p] != '.' by {
        forall p | k < p < n ensures name[p] != '.' {
          assert name[p] == name[k + 1..][p - k - 1];
        }
      }
      assert k == n - 4;
    }
  }

  /** `APDE.validSketch` on an entry that exists: a listable directory with
      at least one entry whose name has the `.pde` extension. */
  predicate ValidSketch(e: Entry)
  {
    e.isDir && e.listable && exists i :: 0 <= i < |e.children| && HasPdeExtension(e.children[i].name)
  }

  /** `APDE.validSketch(new File(path))`: false when nothing is there. */
  predicate ValidSketchAt(root: Entry, path: string)
  {
    match Lookup(root, path)
    case None => false
    case Some(e) => ValidSketch(e)
  }

  /** A path holds a sketch exactly when it names a listable directory with
      an entry whose name ends in `.pde`, in any mix of cases. */
  lemma {:induction false} ValidSketchAtMeans(root: Entry, path: string)
    ensures ValidSketchAt(root, path) <==>
              path != "" &&
              exists e :: Lookup(root, path) == Some(e) && e.isDir && e.listable &&
                exists i :: 0 <= i < |e.children| && |e.children[i].name| >= 4 &&
                  EqualsIgnoreCase(e.children[i].name[|e.children[i].name| - 4..], ".pde")
  {
    match Lookup(root, path)
    case None =>
    case Some(e) =>
      forall i | 0 <= i < |e.children| { PdeSuffix(e.children[i].name); }
  }

}
