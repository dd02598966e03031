/** Sketch discovery: `APDE.listSketches`, a depth-bounded walk that honours
    an ignore list and never descends into a sketch folder, and its
    existence variant `APDE.containsSketches`. */
module Discovery {
  import opened Optional
  import opened Lists
  import opened FileTree

  /** A folder found by the walk, as the names leading to it from the
      starting directory; `[]` is the starting directory itself. The
      `File` the source returns is the starting directory's path joined
      with these names. */
  type RelPath = seq<string>

  /** Every path of `ps` put below a folder called `n`. */
  function Under(n: string, ps: seq<RelPath>): (r: seq<RelPath>)
    ensures |r| == |ps|
    ensures forall k :: 0 <= k < |r| ==> r[k] == [n] + ps[k]
  {
    seq(|ps|, k requires 0 <= k < |ps| => [n] + ps[k])
  }

  lemma {:induction false} UnderMembers(n: string, ps: seq<RelPath>, p: RelPath)
    ensures p in Under(n, ps) <==> p != [] && p[0] == n && p[1..] in ps
  {
    var r := Under(n, ps);
    if p != [] && p[0] == n && p[1..] in ps {
      var k :| 0 <= k < |ps| && ps[k] == p[1..];
      assert r[k] == [n] + p[1..] == p;
    }
    if p in r {
      var k :| 0 <= k < |r| && r[k] == p;
      assert p[1..] == ps[k];
    }
  }

  /** `listSketches(directory, depth, ignoreFilenames)`. A negative depth
      never reaches 0 and so means "unbounded". `None` is the
      NullPointerException Java raises when a directory it must descend
      into has no listing. */
  function ListSketches(dir: Entry, depth: int, ignore: seq<string>): (r: Option<seq<RelPath>>)
    ensures !dir.isDir || dir.name in ignore ==> r == Some([])
    ensures dir.isDir && dir.name !in ignore && ValidSketch(dir) ==> r == Some([[]])
    ensures depth == 0 ==> r.Some? && forall k :: 0 <= k < |r.value| ==> r.value[k] == []
    decreases dir, |dir.children| + 1
  {
    if !dir.isDir || dir.name in ignore then Some([])
    else if ValidSketch(dir) then Some([[]])
    else if depth == 0 then Some([])
    else if !dir.listable then None
    else ListChildren(dir, 0, depth - 1, ignore)
  }

  /** The loop over `dir`'s listing from position `i` on: the results for
      every sub-directory, in listing order. */
  function ListChildren(dir: Entry, i: nat, depth: int, ignore: seq<string>): Option<seq<RelPath>>
    requires i <= |dir.children|
    decreases dir, |dir.children| - i
  {
    if i == |dir.children| then Some([])
    else
      var child := dir.children[i];
      var here := if child.isDir then ListSketches(child, depth, ignore) else Some([]);
      match here
      case None => None
      case Some(found) =>
        match ListChildren(dir, i + 1, depth, ignore)
        case None => None
        case Some(rest) => Some(Under(child.name, found) + rest)
  }

  /** Reference definition of what the walk reports: `p` leads from `d`
      through directories that are neither ignored nor sketches, at most
      `depth` levels down when `depth` is not negative, to a sketch
      folder that is not ignored. */
  ghost predicate SketchPath(d: Entry, p: RelPath, depth: int, ignore: seq<string>)
    decreases |p|
  {
    && d.isDir
    && d.name !in ignore
    && if p == [] then ValidSketch(d)
       else
         && !ValidSketch(d)
         && depth != 0
         && match FindChild(d.children, p[0])
            case None => false
            case Some(c) => SketchPath(c, p[1..], depth - 1, ignore)
  }

  /** The walk reports exactly the reference sketch paths. */
  lemma {:induction false} ListSketchesExact(d: Entry, depth: int, ignore: seq<string>, r: seq<RelPath>)
    requires UniqueNames(d)
    requires ListSketches(d, depth, ignore) == Some(r)
    ensures forall p :: p in r <==> SketchPath(d, p, depth, ignore)
    decreases d, |d.children| + 1
  {
    if d.isDir && d.name !in ignore && !ValidSketch(d) && depth != 0 {
      ListChildrenExact(d, 0, depth - 1, ignore, r);
      forall p: RelPath ensures p in r <==> SketchPath(d, p, depth, ignore) {
        if p != [] {
          if p in r {
            var j :| 0 <= j < |d.children| && d.children[j].name == p[0]
                     && SketchPath(d.children[j], p[1..], depth - 1, ignore);
            FindNamedChild(d.children, j);
          }
          if SketchPath(d, p, depth, ignore) {
            var c := FindChild(d.children, p[0]).value;
            var j :| 0 <= j < |d.children| && d.children[j] == c && c.name == p[0];
            assert SketchPath(d.children[j], p[1..], depth - 1, ignore);
          }
        }
      }
    }
  }

  lemma {:induction false} ListChildrenExact(d: Entry, i: nat, depth: int, ignore: seq<string>, r: seq<RelPath>)
    requires UniqueNames(d)
    requires i <= |d.children|
    requires ListChildren(d, i, depth, ignore) == Some(r)
    ensures forall p :: p in r <==>
      p != [] && exists j :: i <= j < |d.children| && d.children[j].name == p[0]
                             && SketchPath(d.children[j], p[1..], depth, ignore)
    decreases d, |d.children| - i
  {
    if i < |d.children| {
      var child := d.children[i];
      assert child in d.children;
      var found := if child.isDir then ListSketches(child, depth, ignore).value else [];
      var rest := ListChildren(d, i + 1, depth, ignore).value;
      assert r == Under(child.name, found) + rest;
      if child.isDir {
        ListSketchesExact(child, depth, ignore, found);
      }
      ListChildrenExact(d, i + 1, depth, ignore, rest);
      forall p: RelPath ensures p in r <==>
        p != [] && exists j :: i <= j < |d.children| && d.children[j].name == p[0]
                               && SketchPath(d.children[j], p[1..], depth, ignore)
      {
        UnderMembers(child.name, found, p);
        if p != [] && p[0] == child.name && SketchPath(child, p[1..], depth, ignore) {
          assert p[1..] in found;
        }
      }
    }
  }

  /** Every reported folder is a sketch and no folder above it (up to the
      starting directory) is one: nested sketches are never reported. */
  lemma {:induction false} SketchPathSound(d: Entry, p: RelPath, depth: int, ignore: seq<string>)
    requires SketchPath(d, p, depth, ignore)
    ensures Walk(d, p).Some? && ValidSketch(Walk(d, p).value)
    ensures forall k :: 0 <= k < |p| ==> Walk(d, p[..k]).Some? && !ValidSketch(Walk(d, p[..k]).value)
    ensures depth >= 0 ==> |p| <= depth
    decreases |p|
  {
    if p != [] {
      var c := FindChild(d.children, p[0]).value;
      SketchPathSound(c, p[1..], depth - 1, ignore);
      assert Walk(d, p) == Walk(c, p[1..]);
      forall k | 0 <= k < |p| ensures Walk(d, p[..k]).Some? && !ValidSketch(Walk(d, p[..k]).value) {
        if k > 0 {
          assert p[..k][1..] == p[1..][..k - 1];
          assert Walk(d, p[..k]) == Walk(c, p[1..][..k - 1]);
        }
      }
    }
  }

  /** The walk never reports a folder twice. */
  lemma {:induction false} ListSketchesNoDup(d: Entry, depth: int, ignore: seq<string>, r: seq<RelPath>)
    requires UniqueNames(d)
    requires ListSketches(d, depth, ignore) == Some(r)
    ensures NoDup(r)
    decreases d, |d.children| + 1
  {
    if d.isDir && d.name !in ignore && !ValidSketch(d) && depth != 0 {
      ListChildrenNoDup(d, 0, depth - 1, ignore, r);
    }
  }

  lemma {:induction false} ListChildrenNoDup(d: Entry, i: nat, depth: int, ignore: seq<string>, r: seq<RelPath>)
    requires UniqueNames(d)
    requires i <= |d.children|
    requires ListChildren(d, i, depth, ignore) == Some(r)
    ensures NoDup(r)
    decreases d, |d.children| - i
  {
    if i < |d.children| {
      var child := d.children[i];
      assert child in d.children;
      var found := if child.isDir then ListSketches(child, depth, ignore).value else [];
      var rest := ListChildren(d, i + 1, depth, ignore).value;
      var here := Under(child.name, found);
      if child.isDir {
        ListSketchesNoDup(child, depth, ignore, found);
      }
      ListChildrenNoDup(d, i + 1, depth, ignore, rest);
      ListChildrenExact(d, i + 1, depth, ignore, rest);
      forall a, b | 0 <= a < |here| && 0 <= b < |rest| ensures here[a] != rest[b] {
        assert rest[b] in rest;
        var j :| i + 1 <= j < |d.children| && d.children[j].name == rest[b][0];
        assert here[a][0] == child.name != d.children[j].name;
      }
      assert NoDup(here) by {
        forall a, b | 0 <= a < b < |here| ensures here[a] != here[b] {
          assert here[a][1..] == found[a] && here[b][1..] == found[b];
        }
      }
      NoDupAppend(here, rest);
    }
  }

  /** When every directory has a listing the walk never fails. */
  lemma {:induction false} ListSketchesTotal(d: Entry, depth: int, ignore: seq<string>)
    requires AllListable(d)
    ensures ListSketches(d, depth, ignore).Some?
    decreases d, |d.children| + 1
  {
    if d.isDir && d.name !in ignore && !ValidSketch(d) && depth != 0 {
      ListChildrenTotal(d, 0, depth - 1, ignore);
    }
  }

  lemma {:induction false} ListChildrenTotal(d: Entry, i: nat, depth: int, ignore: seq<string>)
    requires AllListable(d)
    requires i <= |d.children|
    ensures ListChildren(d, i, depth, ignore).Some?
    decreases d, |d.children| - i
  {
    if i < |d.children| {
      var child := d.children[i];
      assert child in d.children;
      ListSketchesTotal(child, depth, ignore);
      ListChildrenTotal(d, i + 1, depth, ignore);
    }
  }

  /** `containsSketches(directory, ignoreFilenames)`. The recursive call
      passes no ignore list, and a directory without a listing counts as
      holding no sketch. */
  function ContainsSketches(dir: Entry, ignore: seq<string>): bool
    decreases dir, |dir.children| + 1
  {
    if !dir.isDir || dir.name in ignore then false
    else if ValidSketch(dir) then true
    else if !dir.listable then false
    else AnySubfolderHasSketches(dir, 0)
  }

  /** The loop over `dir`'s listing from position `i` on. */
  function AnySubfolderHasSketches(dir: Entry, i: nat): bool
    requires i <= |dir.children|
    decreases dir, |dir.children| - i
  {
    if i == |dir.children| then false
    else
      var child := dir.children[i];
      if child.isDir && (ValidSketch(child) || ContainsSketches(child, [])) then true
      else AnySubfolderHasSketches(dir, i + 1)
  }

  /** The ignore list only matters for the starting directory itself. */
  lemma {:induction false} ContainsSketchesIgnoresTopOnly(dir: Entry, ignore: seq<string>)
    ensures ContainsSketches(dir, ignore) == (dir.name !in ignore && ContainsSketches(dir, []))
  {
  }

  /** With no ignore list and unbounded depth, `containsSketches` holds
      exactly when `listSketches` finds something (whenever the walk does
      not fail). */
  lemma {:induction false} ContainsIffListed(d: Entry, depth: int, r: seq<RelPath>)
    requires depth < 0
    requires ListSketches(d, depth, []) == Some(r)
    ensures ContainsSketches(d, []) <==> r != []
    decreases d, |d.children| + 1
  {
    if d.isDir && !ValidSketch(d) {
      ContainsIffListedChildren(d, 0, depth - 1, r);
    }
  }

  lemma {:induction false} ContainsIffListedChildren(d: Entry, i: nat, depth: int, r: seq<RelPath>)
    requires depth < 0
    requires i <= |d.children|
    requires ListChildren(d, i, depth, []) == Some(r)
    ensures AnySubfolderHasSketches(d, i) <==> r != []
    decreases d, |d.children| - i
  {
    if i < |d.children| {
      var child := d.children[i];
      assert child in d.children;
      var found := if child.isDir then ListSketches(child, depth, []).value else [];
      var rest := ListChildren(d, i + 1, depth, []).value;
      assert r == Under(child.name, found) + rest;
      if child.isDir {
        ContainsIffListed(child, depth, found);
      }
      ContainsIffListedChildren(d, i + 1, depth, rest);
    }
  }

}
