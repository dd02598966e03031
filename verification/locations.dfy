/** `APDE.SketchLocation`: the tag saying which location group a sketch
    path is relative to, with its string codec and classification. */
module Locations {
  import opened Optional

  datatype SketchLocation =
    | Sketchbook      // a sketch in the sketchbook folder
    | Example         // an example on the internal storage
    | LibraryExample  // an example packaged with a contributed library
    | External        // a sketch elsewhere on the file system
    | Temporary       // a sketch that has not been saved yet
  {
    /** The tag written to storage. */
    function ToString(): (s: string)
      ensures s != [] && ',' !in s && '\n' !in s
    {
      match this
      case Sketchbook => "sketchbook"
      case Example => "example"
      case LibraryExample => "libraryExample"
      case External => "external"
      case Temporary => "temporary"
    }

    predicate IsExample()
    {
      match this
      case Example => true
      case LibraryExample => true
      case _ => false
    }

    predicate IsTemp()
    {
      match this
      case Temporary => true
      case _ => false
    }
  }

  /** The locations in the order `fromString` compares their tags. */
  const Tested: seq<SketchLocation> := [Sketchbook, Example, LibraryExample, External, Temporary]

  /** Reads a stored tag back; `None` (Java's `null`) for any other string. */
  function FromString(value: string): (r: Option<SketchLocation>)
    ensures r.Some? ==> r.value.ToString() == value
    ensures r.None? <==> forall l: SketchLocation :: l.ToString() != value
  {
    var r := FirstWithTag(value, Tested);
    assert r.None? ==> forall k :: 0 <= k < 5 ==> Tested[k].ToString() != value;
    assert r.None? ==> && Sketchbook.ToString() != value && Example.ToString() != value
                       && LibraryExample.ToString() != value && External.ToString() != value
                       && Temporary.ToString() != value by {
      if r.None? {
        assert Tested[0].ToString() != value && Tested[1].ToString() != value && Tested[2].ToString() != value;
        assert Tested[3].ToString() != value && Tested[4].ToString() != value;
      }
    }
    r
  }

  /** The first of `ls` whose tag is `value`: the chain of `equals` tests. */
  function FirstWithTag(value: string, ls: seq<SketchLocation>): (r: Option<SketchLocation>)
    ensures r.Some? ==> r.value in ls && r.value.ToString() == value
    ensures r.None? <==> forall i :: 0 <= i < |ls| ==> ls[i].ToString() != value
  {
    if ls == [] then None
    else if ls[0].ToString() == value then Some(ls[0])
    else
      var r := FirstWithTag(value, ls[1..]);
      assert forall i :: 1 <= i < |ls| ==> ls[i] == ls[1..][i - 1];
      r
  }

  /** Every tag reads back as itself, so distinct locations have distinct tags. */
  lemma {:induction false} TagRoundTrip(l: SketchLocation)
    ensures FromString(l.ToString()) == Some(l)
    ensures forall k: SketchLocation :: k.ToString() == l.ToString() ==> k == l
  {
  }

  /** The classification predicates pick out exactly the example locations
      and exactly the temporary one, and no location is both. */
  lemma {:induction false} Classification(l: SketchLocation)
    ensures l.IsExample() <==> l == Example || l == LibraryExample
    ensures l.IsTemp() <==> l == Temporary
    ensures !(l.IsExample() && l.IsTemp())
  {
  }

}
