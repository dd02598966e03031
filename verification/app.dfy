/** The application's own view of the open sketch: the path and location
    `selectSketch` records, classified by `APDE.isExample` and
    `APDE.isTemp`. */
module Application {
  import opened Optional
  import opened Locations

  /** The sketch that is open. Both fields are `null` until the first
      `selectSketch`, and the two tests then throw, which `None` stands for. */
  datatype Session = Session(sketchPath: Option<string>, sketchLocation: Option<SketchLocation>)
  {
    /** `APDE.isExample`: the location is one of the two example kinds. */
    function IsExample(): (r: Option<bool>)
      ensures r.None? <==> sketchLocation.None?
      ensures r.Some? ==> (r.value <==> sketchLocation.value.IsExample())
    {
      match sketchLocation
      case None => None
      case Some(l) => Some(l == Example || l == LibraryExample)
    }

    /** `APDE.isTemp`: the location is the temporary one. */
    function IsTemp(): (r: Option<bool>)
      ensures r.None? <==> sketchLocation.None?
      ensures r.Some? ==> (r.value <==> sketchLocation.value.IsTemp())
    {
      match sketchLocation
      case None => None
      case Some(l) => Some(l == Temporary)
    }
  }

  /** Before any sketch is selected. */
  const Unselected := Session(None, None)

  /** The recording part of `selectSketch`: the path and location it is
      given become the open sketch's. */
  function SelectSketch(path: string, location: SketchLocation): (s: Session)
    ensures s.sketchPath == Some(path)
    ensures s.IsExample() == Some(location.IsExample())
    ensures s.IsTemp() == Some(location.IsTemp())
  {
    Session(Some(path), Some(location))
  }

  /** Until a sketch is selected, asking `isExample` or `isTemp` fails. */
  lemma {:induction false} UnselectedFails()
    ensures Unselected.IsExample().None? && Unselected.IsTemp().None?
  {
  }

}
