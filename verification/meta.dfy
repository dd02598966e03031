/** `APDE.SketchMeta`: a location tag plus a path relative to that
    location, its `/`-based path splitting and its `location,path` codec. */
module Meta {
  import opened Optional
  import opened Text
  import opened Locations

  datatype SketchMeta = SketchMeta(location: SketchLocation, path: string)
  {
    /** Everything up to and including the last `/`; empty without one. */
    function PathPrefix(): (r: string)
      ensures r <= path
      ensures r == "" || r[|r| - 1] == '/'
      ensures '/' !in path[|r|..]
    {
      var k := LastIndexOf(path, '/');
      if k != -1 then path[..k + 1] else ""
    }

    /** The last path element. A path ending in `/` is its own name. */
    function Name(): (r: string)
      ensures path == "" || path[|path| - 1] != '/' ==> PathPrefix() + r == path && '/' !in r
      ensures path != "" && path[|path| - 1] == '/' ==> r == path
      ensures '/' !in path ==> r == path
    {
      var k := LastIndexOf(path, '/');
      if k != -1 && |path| > k + 1 then path[k + 1..] else path
    }

    /** The path without its last element and the `/` before it. */
    function Parent(): (r: string)
      ensures '/' in path ==> r + "/" == PathPrefix()
      ensures '/' !in path ==> r == "" && PathPrefix() == ""
    {
      var k := LastIndexOf(path, '/');
      if k != -1 then path[..k] else ""
    }

    /** `location,path`. */
    function ToString(): string
    {
      location.ToString() + "," + path
    }
  }

  /** What `SketchMeta.fromString` builds: the tag may not be known, in
      which case Java stores a `null` location. */
  datatype ParsedMeta = ParsedMeta(tag: Option<SketchLocation>, path: string)

  /** `SketchMeta.fromString`: `None` (Java's `null`) unless the comma split
      gives exactly two parts. */
  function FromString(value: string): (r: Option<ParsedMeta>)
    ensures r.None? <==> |Split(value, ',')| != 2
    ensures r.Some? ==> r.value.path != "" && ',' !in r.value.path
  {
    var parts := Split(value, ',');
    if |parts| != 2 then None
    else
      assert parts[1] != "" by {
        if ',' in value {
          assert parts[|parts| - 1] != "";
        }
      }
      Some(ParsedMeta(Locations.FromString(parts[0]), parts[1]))
  }

  /** Parsing the written form gives the same location and path back,
      as long as the path is non-empty and has no comma. */
  lemma {:induction false} MetaRoundTrip(m: SketchMeta)
    requires m.path != "" && ',' !in m.path
    ensures FromString(m.ToString()) == Some(ParsedMeta(Some(m.location), m.path))
  {
    var tag := m.location.ToString();
    assert m.ToString() == tag + [','] + m.path;
    PiecesAppend(tag, m.path, ',');
    PiecesWithoutSeparator(tag, ',');
    PiecesWithoutSeparator(m.path, ',');
    assert ',' in m.ToString() by {
      assert m.ToString()[|tag|] == ',';
    }
    var ps := [tag, m.path];
    assert Pieces(m.ToString(), ',') == ps;
    assert DropTrailingEmpty(ps) == ps;
    TagRoundTrip(m.location);
  }

}
