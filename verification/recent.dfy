/** The recent-sketches list (`APDE.getRecentSketches` and
    `APDE.putRecentSketch`): a newest-first list of `SketchMeta` stored
    under the preference "recent" as one `location,path,` line per sketch. */
module Recent {
  import opened Optional
  import opened Text
  import opened Lists
  import opened Locations
  import opened Meta
  import opened FileTree
  import Storage

  const RecentKey := "recent"

  /** Lines 0 to 20 are read, so the list keeps 21 sketches at most. */
  const RecentLines := 21

  function Min(a: int, b: int): int
  {
    if a < b then a else b
  }

  /** What resolving a sketch looks at: the file system and the folders the
      location tags are relative to. */
  datatype Context = Context(root: Entry, folders: Storage.Folders)

  /** `validSketch(getSketchLocation(path, location))`, for a location that
      is not temporary (a temporary one resolves to `null`). */
  predicate Resolves(ctx: Context, m: SketchMeta)
  {
    match Storage.SketchFolder(ctx.folders, m.path, m.location)
    case None => false
    case Some(folder) => ValidSketchAt(ctx.root, folder)
  }

  /** An external sketch with an empty path never resolves: its folder is
      `new File("")`, which does not exist. */
  lemma {:induction false} EmptyExternalNeverResolves(ctx: Context)
    ensures !Resolves(ctx, SketchMeta(External, ""))
  {
  }

  /** The stored text. */
  function RecentData(prefs: Storage.Prefs): string
  {
    Storage.GetString(prefs, RecentKey, "")
  }

  /** `data.split("\n")`. */
  function Lines(data: string): (lines: seq<string>)
    ensures forall i :: 0 <= i < |lines| ==> '\n' !in lines[i]
  {
    Split(data, '\n')
  }

  /** The lines the loop visits: indices `min(n - 1, 20)` down to 0. */
  function Inspected(lines: seq<string>): (r: seq<string>)
    ensures |r| <= RecentLines
    ensures r <= lines && |r| == Min(|lines|, RecentLines)
  {
    lines[..Min(|lines|, RecentLines)]
  }

  /** A line the loop gets through without a NullPointerException: fewer
      than two comma parts (skipped), or a first part naming a location other
      than a temporary one. An unknown tag makes `getSketchLocation` switch
      on `null`; a temporary one makes `validSketch` dereference the `null`
      folder. */
  predicate Readable(line: string)
  {
    var parts := Split(line, ',');
    |parts| < 2 ||
    match Locations.FromString(parts[0])
    case None => false
    case Some(l) => !l.IsTemp()
  }

  /** Stored text every inspected line of which is readable. */
  predicate WellFormed(data: string)
  {
    AllReadable(Inspected(Lines(data)))
  }

  predicate AllReadable(lines: seq<string>)
  {
    forall i :: 0 <= i < |lines| ==> Readable(lines[i])
  }

  /** What a stored entry that survives the loop always satisfies: a
      location other than temporary, and a path with no comma or newline
      (the separators of the stored text). */
  predicate Storable(m: SketchMeta)
  {
    !m.location.IsTemp() && ',' !in m.path && '\n' !in m.path
  }

  /** The sketch a readable line names, if it has two parts or more. */
  function Candidate(line: string): (r: Option<SketchMeta>)
    requires Readable(line)
    ensures r.Some? ==> !r.value.location.IsTemp() && ',' !in r.value.path
    ensures r.Some? && '\n' !in line ==> Storable(r.value)
  {
    var parts := Split(line, ',');
    SplitAvoids(line, ',', '\n');
    if |parts| < 2 then None
    else
      match Locations.FromString(parts[0])
      case Some(l) => Some(SketchMeta(l, parts[1]))
  }

  /** The candidate of every line, in line order. */
  function Candidates(lines: seq<string>): (cs: seq<Option<SketchMeta>>)
    requires AllReadable(lines)
    ensures |cs| == |lines| && forall i :: 0 <= i < |lines| ==> cs[i] == Candidate(lines[i])
  {
    if lines == [] then []
    else
      assert AllReadable(lines[1..]) by {
        assert forall i :: 0 <= i < |lines| - 1 ==> lines[1..][i] == lines[i + 1];
      }
      var rest := Candidates(lines[1..]);
      assert forall i :: 1 <= i < |lines| ==> ([Candidate(lines[0])] + rest)[i] == rest[i - 1];
      [Candidate(lines[0])] + rest
  }

  /** The sketch a candidate contributes: itself, if `valid` holds of it. */
  function Accepted(valid: SketchMeta -> bool, c: Option<SketchMeta>): seq<SketchMeta>
  {
    match c
    case Some(m) => if valid(m) then [m] else []
    case None => []
  }

  /** The accepted sketches of a candidate sequence, in order, repetitions
      kept. */
  function ValidEntries(valid: SketchMeta -> bool, cs: seq<Option<SketchMeta>>): (r: seq<SketchMeta>)
    ensures |r| <= |cs|
    ensures forall i :: 0 <= i < |r| ==> valid(r[i]) && Some(r[i]) in cs
  {
    if cs == [] then []
    else
      var here := Accepted(valid, cs[0]);
      var rest := ValidEntries(valid, cs[1..]);
      assert forall i :: |here| <= i < |here + rest| ==> (here + rest)[i] == rest[i - |here|];
      here + rest
  }

  /** Nothing valid is dropped: every candidate that passes the test is
      among the accepted sketches. */
  lemma {:induction false} ValidEntriesComplete(valid: SketchMeta -> bool, cs: seq<Option<SketchMeta>>)
    ensures forall i :: 0 <= i < |cs| && cs[i].Some? && valid(cs[i].value) ==> cs[i].value in ValidEntries(valid, cs)
  {
    if cs != [] {
      ValidEntriesComplete(valid, cs[1..]);
      assert forall i :: 1 <= i < |cs| ==> cs[i] == cs[1..][i - 1];
    }
  }

  lemma {:induction false} ValidEntriesAppend(valid: SketchMeta -> bool, a: seq<Option<SketchMeta>>, b: seq<Option<SketchMeta>>)
    ensures ValidEntries(valid, a + b) == ValidEntries(valid, a) + ValidEntries(valid, b)
  {
    if a == [] {
      assert a + b == b;
    } else {
      assert (a + b)[0] == a[0];
      assert (a + b)[1..] == a[1..] + b;
      ValidEntriesAppend(valid, a[1..], b);
    }
  }

  /** The duplicate-removal loop as written:
      `for (j = 0; j < size; j++) if (get(j).equals(x)) remove(j);`.
      After a removal the next element moves to position `j` and the `j++`
      steps over it unchecked. */
  function RemoveSkipping(s: seq<SketchMeta>, x: SketchMeta): seq<SketchMeta>
  {
    if s == [] then []
    else if s[0] == x then (if |s| == 1 then [] else [s[1]] + RemoveSkipping(s[2..], x))
    else [s[0]] + RemoveSkipping(s[1..], x)
  }

  /** The skipping is harmless on a list without repetitions: every copy of
      `x` goes. */
  lemma {:induction false} RemoveSkippingNoDup(s: seq<SketchMeta>, x: SketchMeta)
    requires NoDup(s)
    ensures RemoveSkipping(s, x) == RemoveAll(s, x)
  {
    if s != [] {
      NoDupTail(s);
      if s[0] != x {
        RemoveSkippingNoDup(s[1..], x);
      } else if |s| == 1 {
        assert RemoveAll(s, x) == RemoveAll(s[1..], x) == [];
      } else {
        var t := s[1..];
        NoDupTail(t);
        assert t[1..] == s[2..];
        RemoveAllAbsent(t, x);
        RemoveAllAbsent(s[2..], x);
        RemoveSkippingNoDup(s[2..], x);
        calc {
          RemoveSkipping(s, x);
        ==
          [s[1]] + RemoveSkipping(s[2..], x);
        ==
          [t[0]] + t[1..];
        ==
          t;
        ==
          RemoveAll(s, x);
        }
      }
    }
  }

  /** One pass of the loop body: an accepted sketch has its earlier copies
      removed and is added at the end. */
  function Step(valid: SketchMeta -> bool, c: Option<SketchMeta>, acc: seq<SketchMeta>): seq<SketchMeta>
  {
    match c
    case Some(m) => if valid(m) then RemoveSkipping(acc, m) + [m] else acc
    case None => acc
  }

  /** The loop over candidates `i` down to 0: `for (i = top; i >= 0; i--)`. */
  function Scan(valid: SketchMeta -> bool, cs: seq<Option<SketchMeta>>, i: int, acc: seq<SketchMeta>): seq<SketchMeta>
    requires -1 <= i < |cs|
    decreases i + 1
  {
    if i < 0 then acc else Scan(valid, cs, i - 1, Step(valid, cs[i], acc))
  }

  /** Moving `m` to the end of the reversed first-occurrence list is the
      same as putting it in front of the sequence before deduplicating. */
  lemma {:induction false} MoveToEnd(w: seq<SketchMeta>, m: SketchMeta)
    ensures RemoveSkipping(Reverse(Dedup(w)), m) + [m] == Reverse(Dedup([m] + w))
  {
    assert ([m] + w)[0] == m && ([m] + w)[1..] == w;
    assert Dedup([m] + w) == [m] + Dedup(RemoveAll(w, m));
    DedupRemoveAll(w, m);
    ReverseAppend([m], RemoveAll(Dedup(w), m));
    ReverseRemoveAll(Dedup(w), m);
    ReverseNoDup(Dedup(w));
    RemoveSkippingNoDup(Reverse(Dedup(w)), m);
  }

  /** One pass keeps the loop invariant below. */
  lemma {:induction false} StepIsDedup(valid: SketchMeta -> bool, c: Option<SketchMeta>, w: seq<SketchMeta>)
    ensures Step(valid, c, Reverse(Dedup(w))) == Reverse(Dedup(Accepted(valid, c) + w))
  {
    if c.Some? && valid(c.value) {
      MoveToEnd(w, c.value);
    } else {
      assert Accepted(valid, c) + w == w;
    }
  }

  lemma {:induction false} ValidEntriesSnoc(valid: SketchMeta -> bool, cs: seq<Option<SketchMeta>>, i: int)
    requires 0 <= i < |cs|
    ensures ValidEntries(valid, cs[..i + 1]) == ValidEntries(valid, cs[..i]) + Accepted(valid, cs[i])
  {
    assert cs[..i + 1] == cs[..i] + [cs[i]];
    ValidEntriesAppend(valid, cs[..i], [cs[i]]);
    assert [cs[i]][1..] == [];
  }

  /** Loop invariant: the list built so far is the reversed
      first-occurrence list of the accepted sketches of the candidates
      visited. */
  lemma {:induction false} ScanIsDedup(valid: SketchMeta -> bool, cs: seq<Option<SketchMeta>>, i: int, w: seq<SketchMeta>)
    requires -1 <= i < |cs|
    ensures Scan(valid, cs, i, Reverse(Dedup(w))) == Reverse(Dedup(ValidEntries(valid, cs[..i + 1]) + w))
    decreases i + 1
  {
    if i < 0 {
      assert cs[..i + 1] == [];
      assert ValidEntries(valid, cs[..i + 1]) + w == w;
    } else {
      var here := Accepted(valid, cs[i]);
      calc {
        Scan(valid, cs, i, Reverse(Dedup(w)));
      ==
        Scan(valid, cs, i - 1, Step(valid, cs[i], Reverse(Dedup(w))));
      == { StepIsDedup(valid, cs[i], w); }
        Scan(valid, cs, i - 1, Reverse(Dedup(here + w)));
      == { ScanIsDedup(valid, cs, i - 1, here + w); assert cs[..i - 1 + 1] == cs[..i]; }
        Reverse(Dedup(ValidEntries(valid, cs[..i]) + (here + w)));
      == { ValidEntriesSnoc(valid, cs, i);
           assert ValidEntries(valid, cs[..i + 1]) + w == ValidEntries(valid, cs[..i]) + (here + w); }
        Reverse(Dedup(ValidEntries(valid, cs[..i + 1]) + w));
      }
    }
  }

  /** The loop of `getRecentSketches` over all candidates, newest (index
      0) last, read back to front: the first-occurrence list of the accepted
      sketches, so each appears once, at its newest occurrence, newest
      first. */
  function Collect(valid: SketchMeta -> bool, cs: seq<Option<SketchMeta>>): (r: seq<SketchMeta>)
    ensures r == Dedup(ValidEntries(valid, cs))
    ensures NoDup(r) && |r| <= |cs|
    ensures forall i :: 0 <= i < |r| ==> valid(r[i]) && Some(r[i]) in cs
  {
    var r := Reverse(Scan(valid, cs, |cs| - 1, []));
    FullScanIsDedup(valid, cs);
    DedupEntries(valid, cs);
    r
  }

  /** The whole backward scan, reversed, is the first-occurrence list. */
  lemma {:induction false} FullScanIsDedup(valid: SketchMeta -> bool, cs: seq<Option<SketchMeta>>)
    ensures Reverse(Scan(valid, cs, |cs| - 1, [])) == Dedup(ValidEntries(valid, cs))
  {
    var none: seq<SketchMeta> := [];
    assert Reverse(Dedup(none)) == [];
    ScanIsDedup(valid, cs, |cs| - 1, []);
    assert cs[..|cs|] == cs;
    assert ValidEntries(valid, cs) + [] == ValidEntries(valid, cs);
    ReverseReverse(Dedup(ValidEntries(valid, cs)));
  }

  /** Every entry of the first-occurrence list is accepted and comes from
      one of the candidates. */
  lemma {:induction false} DedupEntries(valid: SketchMeta -> bool, cs: seq<Option<SketchMeta>>)
    ensures var r := Dedup(ValidEntries(valid, cs));
            forall i :: 0 <= i < |r| ==> valid(r[i]) && Some(r[i]) in cs
  {
    var v := ValidEntries(valid, cs);
    var r := Dedup(v);
    forall i | 0 <= i < |r| ensures valid(r[i]) && Some(r[i]) in cs {
      assert r[i] in r;
      var k :| 0 <= k < |v| && v[k] == r[i];
    }
  }

  /** The body of `getRecentSketches` on the stored text: the loop over the
      inspected lines. */
  function ParseRecent(valid: SketchMeta -> bool, data: string): (r: seq<SketchMeta>)
    requires WellFormed(data)
    ensures r == Dedup(ValidEntries(valid, Candidates(Inspected(Lines(data)))))
    ensures NoDup(r)
    ensures |r| <= RecentLines
    ensures forall i :: 0 <= i < |r| ==> valid(r[i]) && Storable(r[i])
  {
    var cs := Candidates(Inspected(Lines(data)));
    var r := Collect(valid, cs);
    CollectedStorable(data, cs, r);
    r
  }

  /** Every sketch collected from the candidates of stored lines can be
      stored again: those lines hold no newline. */
  lemma {:induction false} CollectedStorable(data: string, cs: seq<Option<SketchMeta>>, r: seq<SketchMeta>)
    requires WellFormed(data) && cs == Candidates(Inspected(Lines(data)))
    requires forall i :: 0 <= i < |r| ==> Some(r[i]) in cs
    ensures forall i :: 0 <= i < |r| ==> Storable(r[i])
  {
    forall i | 0 <= i < |r| ensures Storable(r[i]) {
      var j :| 0 <= j < |cs| && cs[j] == Some(r[i]);
      assert Storable(cs[j].value);
    }
  }

  /** Each sketch sits at its newest occurrence, newest first: of two
      entries of the list, the earlier one is accepted first when the
      inspected lines are read from line 0, the newest. */
  lemma {:induction false} NewestFirst(valid: SketchMeta -> bool, data: string, i: int, j: int)
    requires WellFormed(data)
    requires 0 <= i < j < |ParseRecent(valid, data)|
    ensures var v := ValidEntries(valid, Candidates(Inspected(Lines(data))));
            var r := ParseRecent(valid, data);
            r[i] in v && r[j] in v && FirstIndex(v, r[i]) < FirstIndex(v, r[j])
  {
    DedupOrder(ValidEntries(valid, Candidates(Inspected(Lines(data)))), i, j);
  }

  /** The line written for one sketch. */
  function Line(m: SketchMeta): string
  {
    m.ToString() + ","
  }

  /** The loop of `putRecentSketch` building the stored text. */
  function SerializeRecent(ms: seq<SketchMeta>): string
  {
    if ms == [] then "" else Line(ms[0]) + "\n" + SerializeRecent(ms[1..])
  }

  function LinesOf(ms: seq<SketchMeta>): (r: seq<string>)
    ensures |r| == |ms| && forall i :: 0 <= i < |ms| ==> r[i] == Line(ms[i])
  {
    if ms == [] then []
    else
      var rest := LinesOf(ms[1..]);
      assert forall i :: 1 <= i < |ms| ==> ([Line(ms[0])] + rest)[i] == rest[i - 1];
      [Line(ms[0])] + rest
  }

  /** Splitting the stored text at newlines gives back one line per sketch. */
  lemma {:induction false} SerializedLines(ms: seq<SketchMeta>)
    requires |ms| >= 1
    requires forall i :: 0 <= i < |ms| ==> '\n' !in ms[i].path
    ensures Lines(SerializeRecent(ms)) == LinesOf(ms)
  {
    SerializedPieces(ms);
    var s := SerializeRecent(ms);
    assert s == Line(ms[0]) + "\n" + SerializeRecent(ms[1..]);
    assert s[|Line(ms[0])|] == '\n';
    assert '\n' in s;
    DropOneTrailingEmpty(LinesOf(ms));
  }

  lemma {:induction false} SerializedPieces(ms: seq<SketchMeta>)
    requires forall i :: 0 <= i < |ms| ==> '\n' !in ms[i].path
    ensures Pieces(SerializeRecent(ms), '\n') == LinesOf(ms) + [""]
  {
    if ms != [] {
      var l := Line(ms[0]);
      var rest := SerializeRecent(ms[1..]);
      LineWithoutNewline(ms[0]);
      PiecesAppend(l, rest, '\n');
      PiecesWithoutSeparator(l, '\n');
      SerializedPieces(ms[1..]);
      LinesOfCons(ms);
      calc {
        Pieces(SerializeRecent(ms), '\n');
      ==
        Pieces(l + ['\n'] + rest, '\n');
      ==
        [l] + (LinesOf(ms[1..]) + [""]);
      ==
        LinesOf(ms) + [""];
      }
    }
  }

  lemma {:induction false} LineWithoutNewline(m: SketchMeta)
    requires '\n' !in m.path
    ensures '\n' !in Line(m)
  {
    assert Line(m) == m.location.ToString() + "," + m.path + ",";
  }

  lemma {:induction false} LinesOfCons(ms: seq<SketchMeta>)
    requires ms != []
    ensures LinesOf(ms) == [Line(ms[0])] + LinesOf(ms[1..])
  {
  }

  /** Trailing empty pieces all go, however many there are. */
  lemma {:induction false} DropTrailingEmpties(ps: seq<string>, n: nat)
    requires |ps| > 0 && ps[|ps| - 1] != ""
    ensures DropTrailingEmpty(ps + seq(n, _ => "")) == ps
  {
    var qs := ps + seq(n, _ => "");
    var r := DropTrailingEmpty(qs);
    assert qs[|ps| - 1] != "";
    assert |r| >= |ps|;
    assert r[|r| - 1] == qs[|r| - 1];
    assert r == qs[..|ps|] == ps;
  }

  /** A written line splits at commas into the tag and the path, or into
      the tag alone when the path is empty. */
  lemma {:induction false} LineParts(m: SketchMeta)
    requires ',' !in m.path
    ensures Split(Line(m), ',') == if m.path == "" then [m.location.ToString()] else [m.location.ToString(), m.path]
  {
    var tag := m.location.ToString();
    LinePieces(m);
    assert Line(m)[|tag|] == ',';
    if m.path == "" {
      DropTrailingEmpties([tag], 2);
      assert [tag] + seq(2, _ => "") == [tag, m.path, ""];
    } else {
      DropOneTrailingEmpty([tag, m.path]);
      assert [tag, m.path] + [""] == [tag, m.path, ""];
    }
  }

  /** A written line cut at every comma: the tag, the path and the empty
      piece after the final comma. */
  lemma {:induction false} LinePieces(m: SketchMeta)
    requires ',' !in m.path
    ensures Pieces(Line(m), ',') == [m.location.ToString(), m.path, ""]
  {
    var tag := m.location.ToString();
    assert Line(m) == tag + [','] + (m.path + [','] + "");
    PiecesAppend(tag, m.path + [','] + "", ',');
    PiecesAppend(m.path, "", ',');
    PiecesWithoutSeparator(tag, ',');
    PiecesWithoutSeparator(m.path, ',');
    assert Pieces("", ',') == [""];
  }

  /** Every written line of a non-temporary sketch is readable, whatever
      its path holds. */
  lemma {:induction false} LineReadable(m: SketchMeta)
    requires !m.location.IsTemp()
    ensures Readable(Line(m))
  {
    var tag := m.location.ToString();
    assert Line(m) == tag + [','] + (m.path + ",");
    SplitHead(tag, m.path + ",", ',');
    TagRoundTrip(m.location);
  }

  /** A written line reads back as its sketch, unless the path is empty. */
  lemma {:induction false} LineRoundTrip(m: SketchMeta)
    requires !m.location.IsTemp() && ',' !in m.path
    ensures Readable(Line(m))
    ensures Candidate(Line(m)) == if m.path == "" then None else Some(m)
  {
    LineParts(m);
    TagRoundTrip(m.location);
  }

  /** The sketches with a non-empty path, in order. */
  function WithPath(ms: seq<SketchMeta>): (r: seq<SketchMeta>)
    ensures forall i :: 0 <= i < |r| ==> r[i] in ms && r[i].path != ""
  {
    if ms == [] then []
    else (if ms[0].path != "" then [ms[0]] else []) + WithPath(ms[1..])
  }

  lemma {:induction false} WithPathNoDup(ms: seq<SketchMeta>)
    requires NoDup(ms)
    ensures NoDup(WithPath(ms))
  {
    if ms != [] {
      assert NoDup(ms[1..]);
      WithPathNoDup(ms[1..]);
      var rest := WithPath(ms[1..]);
      if ms[0].path != "" {
        assert ms[0] !in ms[1..];
        NoDupAppend([ms[0]], rest);
      }
    }
  }

  /** The candidate each written sketch reads back as. */
  function ReadAs(ms: seq<SketchMeta>): (cs: seq<Option<SketchMeta>>)
    ensures |cs| == |ms|
  {
    if ms == [] then []
    else [if ms[0].path == "" then None else Some(ms[0])] + ReadAs(ms[1..])
  }

  /** Written lines are readable and parse back to their sketches, except
      that an empty path gives no sketch. */
  lemma {:induction false} WrittenCandidates(ms: seq<SketchMeta>)
    requires forall i :: 0 <= i < |ms| ==> !ms[i].location.IsTemp() && ',' !in ms[i].path
    ensures AllReadable(LinesOf(ms))
    ensures Candidates(LinesOf(ms)) == ReadAs(ms)
  {
    if ms != [] {
      WrittenCandidates(ms[1..]);
      WrittenCandidate(ms[0], LinesOf(ms[1..]));
    }
  }

  /** One more written line in front keeps the lines readable and reads
      back as its sketch. */
  lemma {:induction false} WrittenCandidate(m: SketchMeta, ls: seq<string>)
    requires !m.location.IsTemp() && ',' !in m.path
    requires AllReadable(ls)
    ensures AllReadable([Line(m)] + ls)
    ensures Candidates([Line(m)] + ls) == [if m.path == "" then None else Some(m)] + Candidates(ls)
  {
    LineRoundTrip(m);
    CandidatesCons(Line(m), ls);
  }

  /** A readable line in front of readable lines: its candidate comes first. */
  lemma {:induction false} CandidatesCons(l: string, ls: seq<string>)
    requires Readable(l) && AllReadable(ls)
    ensures AllReadable([l] + ls)
    ensures Candidates([l] + ls) == [Candidate(l)] + Candidates(ls)
  {
    var all := [l] + ls;
    assert all[1..] == ls;
    assert forall i :: 1 <= i < |all| ==> all[i] == ls[i - 1];
  }

  /** Of sketches that all pass the test, the read-back keeps exactly those
      with a path. */
  lemma {:induction false} ValidEntriesOfWritten(valid: SketchMeta -> bool, ms: seq<SketchMeta>)
    requires forall i :: 0 <= i < |ms| ==> valid(ms[i])
    ensures ValidEntries(valid, ReadAs(ms)) == WithPath(ms)
  {
    if ms != [] {
      ValidEntriesOfWritten(valid, ms[1..]);
    }
  }

  /** Reading back the text written for `[m] + before`, where `before` is a
      list `ParseRecent` can return and `m` is a sketch with a non-empty
      path that `valid` accepts: `m` first, then the sketches of the first
      20 entries of `before` that have a path, without their copies of `m`. */
  lemma {:induction false} ReadBack(valid: SketchMeta -> bool, m: SketchMeta, before: seq<SketchMeta>)
    requires NoDup(before)
    requires forall i :: 0 <= i < |before| ==> Storable(before[i]) && valid(before[i])
    requires Storable(m) && m.path != "" && valid(m)
    ensures WellFormed(SerializeRecent([m] + before))
    ensures ParseRecent(valid, SerializeRecent([m] + before))
            == [m] + RemoveAll(WithPath(before[..Min(|before|, RecentLines - 1)]), m)
  {
    var kept := before[..Min(|before|, RecentLines - 1)];
    WrittenFront(valid, m, before);
    PrefixKeeps(valid, before, kept);
    FrontEntries(valid, m, kept);
  }

  /** A prefix of an accepted list without repetitions is one too. */
  lemma {:induction false} PrefixKeeps(valid: SketchMeta -> bool, before: seq<SketchMeta>, kept: seq<SketchMeta>)
    requires NoDup(before) && forall i :: 0 <= i < |before| ==> valid(before[i])
    requires kept <= before
    ensures NoDup(kept) && forall i :: 0 <= i < |kept| ==> valid(kept[i])
  {
    assert forall i :: 0 <= i < |kept| ==> kept[i] == before[i];
  }

  /** The text written for `[m] + before` reads back as the deduplicated
      entries of `m` and the first 20 sketches of `before`. */
  lemma {:induction false} WrittenFront(valid: SketchMeta -> bool, m: SketchMeta, before: seq<SketchMeta>)
    requires forall i :: 0 <= i < |before| ==> Storable(before[i])
    requires Storable(m)
    ensures WellFormed(SerializeRecent([m] + before))
    ensures ParseRecent(valid, SerializeRecent([m] + before))
            == Dedup(ValidEntries(valid, ReadAs([m] + before[..Min(|before|, RecentLines - 1)])))
  {
    WrittenAsRead([m] + before);
    FrontPrefix(m, before);
  }

  /** The first 21 of `[m] + before` are `m` and the first 20 of `before`. */
  lemma {:induction false} FrontPrefix<T>(m: T, before: seq<T>)
    ensures ([m] + before)[..Min(|[m] + before|, RecentLines)] == [m] + before[..Min(|before|, RecentLines - 1)]
  {
  }

  /** Accepted sketches without repetitions behind an accepted `m` with a
      path: deduplication keeps `m` first and drops its later copies. */
  lemma {:induction false} FrontEntries(valid: SketchMeta -> bool, m: SketchMeta, kept: seq<SketchMeta>)
    requires NoDup(kept)
    requires forall i :: 0 <= i < |kept| ==> valid(kept[i])
    requires m.path != "" && valid(m)
    ensures Dedup(ValidEntries(valid, ReadAs([m] + kept))) == [m] + RemoveAll(WithPath(kept), m)
  {
    ValidEntriesOfWritten(valid, [m] + kept);
    assert ([m] + kept)[1..] == kept;
    WithPathNoDup(kept);
    FrontDedup(m, WithPath(kept));
  }

  /** The written text is well formed, and the lines the reader inspects
      give back the first 21 sketches, each as itself or as nothing. */
  lemma {:induction false} WrittenAsRead(ms: seq<SketchMeta>)
    requires |ms| >= 1
    requires forall i :: 0 <= i < |ms| ==> Storable(ms[i])
    ensures WellFormed(SerializeRecent(ms))
    ensures Candidates(Inspected(Lines(SerializeRecent(ms)))) == ReadAs(ms[..Min(|ms|, RecentLines)])
  {
    WrittenWellFormed(ms);
    SerializedLines(ms);
    InspectedWritten(ms);
  }

  /** The inspected lines of written text are the lines of the first 21
      sketches, and they read back as those sketches. */
  lemma {:induction false} InspectedWritten(ms: seq<SketchMeta>)
    requires forall i :: 0 <= i < |ms| ==> Storable(ms[i])
    ensures Inspected(LinesOf(ms)) == LinesOf(ms[..Min(|ms|, RecentLines)])
    ensures AllReadable(Inspected(LinesOf(ms)))
    ensures Candidates(Inspected(LinesOf(ms))) == ReadAs(ms[..Min(|ms|, RecentLines)])
  {
    var k := Min(|ms|, RecentLines);
    assert Inspected(LinesOf(ms)) == LinesOf(ms[..k]);
    WrittenCandidates(ms[..k]);
  }

  /** Written text of non-temporary sketches without newlines in their
      paths can be read again. */
  lemma {:induction false} WrittenWellFormed(ms: seq<SketchMeta>)
    requires |ms| >= 1
    requires forall i :: 0 <= i < |ms| ==> !ms[i].location.IsTemp() && '\n' !in ms[i].path
    ensures WellFormed(SerializeRecent(ms))
  {
    SerializedLines(ms);
    WrittenReadable(ms);
    ReadableLines(SerializeRecent(ms), LinesOf(ms));
  }

  /** Every written line of non-temporary sketches is readable. */
  lemma {:induction false} WrittenReadable(ms: seq<SketchMeta>)
    requires forall i :: 0 <= i < |ms| ==> !ms[i].location.IsTemp()
    ensures AllReadable(LinesOf(ms))
  {
    forall i | 0 <= i < |ms| ensures Readable(LinesOf(ms)[i]) {
      LineReadable(ms[i]);
    }
  }

  /** Text whose lines are all readable is well formed. */
  lemma {:induction false} ReadableLines(data: string, lines: seq<string>)
    requires Lines(data) == lines && AllReadable(lines)
    ensures WellFormed(data)
  {
    var ins := Inspected(lines);
    assert forall i :: 0 <= i < |ins| ==> ins[i] == lines[i];
  }

  /** The test `getRecentSketches` applies to each candidate. */
  function Resolver(ctx: Context): SketchMeta -> bool
  {
    m => Resolves(ctx, m)
  }

  /** `getRecentSketches`: the stored list, each sketch once, newest first,
      every one of them a sketch on disk. */
  function GetRecentSketches(ctx: Context, prefs: Storage.Prefs): (r: seq<SketchMeta>)
    requires WellFormed(RecentData(prefs))
    ensures NoDup(r) && |r| <= RecentLines
    ensures forall i :: 0 <= i < |r| ==> Resolves(ctx, r[i]) && Storable(r[i])
  {
    ParseRecent(Resolver(ctx), RecentData(prefs))
  }

  /** The text `putRecentSketch` stores: the line of the new sketch, then
      the lines of the current list. It can be read again as long as the
      new location is not temporary and the path has no newline. */
  function Prepend(valid: SketchMeta -> bool, data: string, m: SketchMeta): (r: string)
    requires WellFormed(data)
    ensures !m.location.IsTemp() && '\n' !in m.path ==> WellFormed(r)
  {
    var rest := ParseRecent(valid, data);
    if !m.location.IsTemp() && '\n' !in m.path then
      FrontWellFormed(m, rest);
      SerializeRecent([m] + rest)
    else
      SerializeRecent([m] + rest)
  }

  /** A readable sketch in front of storable ones still gives well-formed text. */
  lemma {:induction false} FrontWellFormed(m: SketchMeta, rest: seq<SketchMeta>)
    requires !m.location.IsTemp() && '\n' !in m.path
    requires forall i :: 0 <= i < |rest| ==> Storable(rest[i])
    ensures WellFormed(SerializeRecent([m] + rest))
  {
    var ms := [m] + rest;
    assert forall i :: 1 <= i < |ms| ==> ms[i] == rest[i - 1];
    WrittenWellFormed(ms);
  }

  /** `putRecentSketch`: stores the new list under "recent"; nothing else
      in the preferences changes. */
  function PutRecentSketch(ctx: Context, prefs: Storage.Prefs, location: SketchLocation, path: string): (r: Storage.Prefs)
    requires WellFormed(RecentData(prefs))
    ensures r - {RecentKey} == prefs - {RecentKey}
    ensures RecentData(r) == Prepend(Resolver(ctx), RecentData(prefs), SketchMeta(location, path))
  {
    prefs[RecentKey := Prepend(Resolver(ctx), RecentData(prefs), SketchMeta(location, path))]
  }

  /** After storing a sketch that resolves, with a non-empty path free of
      commas and newlines, reading the list gives that sketch first,
      followed by the sketches that were there (at most 20 of them, those
      with a path), without their copies of the new one. */
  lemma {:induction false} PutThenGet(ctx: Context, prefs: Storage.Prefs, location: SketchLocation, path: string)
    requires WellFormed(RecentData(prefs))
    requires !location.IsTemp() && path != "" && ',' !in path && '\n' !in path
    requires Resolves(ctx, SketchMeta(location, path))
    ensures var before := GetRecentSketches(ctx, prefs);
            var after := PutRecentSketch(ctx, prefs, location, path);
            && WellFormed(RecentData(after))
            && GetRecentSketches(ctx, after)
               == [SketchMeta(location, path)] + RemoveAll(WithPath(before[..Min(|before|, RecentLines - 1)]), SketchMeta(location, path))
  {
    var m := SketchMeta(location, path);
    var before := GetRecentSketches(ctx, prefs);
    assert forall i :: 0 <= i < |before| ==> Resolver(ctx)(before[i]);
    assert Resolver(ctx)(m);
    ReadBack(Resolver(ctx), m, before);
  }

}
