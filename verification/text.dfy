/** The few `java.lang.String` operations the application relies on:
    `lastIndexOf(char)`, `split` with a one-character pattern and
    `equalsIgnoreCase`. Java strings are sequences of UTF-16 code units;
    here a string is a Dafny `string`, whose characters are Unicode scalar
    values. The operations below only look for single ASCII characters, so
    the pieces they cut are the same either way. */
module Text {

  /** Position of the last `c` in `s`, or -1 when `s` has none. */
  function LastIndexOf(s: string, c: char): (k: int)
    ensures -1 <= k < |s|
    ensures k == -1 <==> c !in s
    ensures k >= 0 ==> s[k] == c && c !in s[k + 1..]
  {
    if s == [] then -1
    else if s[|s| - 1] == c then |s| - 1
    else
      assert s == s[..|s| - 1] + [s[|s| - 1]];
      LastIndexOf(s[..|s| - 1], c)
  }

  /** Every piece of `s` between occurrences of `sep`, empty pieces
      included: a string with n separators has n + 1 pieces. */
  function Pieces(s: string, sep: char): (ps: seq<string>)
    ensures |ps| >= 1
  {
    if s == [] then [""]
    else
      var rest := Pieces(s[1..], sep);
      if s[0] == sep then [""] + rest else [[s[0]] + rest[0]] + rest[1..]
  }

  /** No piece holds the separator. */
  lemma {:induction false} PiecesSeparatorFree(s: string, sep: char)
    ensures forall i :: 0 <= i < |Pieces(s, sep)| ==> sep !in Pieces(s, sep)[i]
  {
    if s != [] {
      PiecesSeparatorFree(s[1..], sep);
      var rest := Pieces(s[1..], sep);
      var ps := Pieces(s, sep);
      if s[0] == sep {
        assert forall i :: 1 <= i < |ps| ==> ps[i] == rest[i - 1];
      } else {
        assert sep !in [s[0]] + rest[0];
        assert forall i :: 1 <= i < |ps| ==> ps[i] == rest[i];
      }
    }
  }

  /** A character absent from `s` is absent from each of its pieces. */
  lemma {:induction false} PiecesAvoid(s: string, sep: char, c: char)
    requires c !in s
    ensures forall i :: 0 <= i < |Pieces(s, sep)| ==> c !in Pieces(s, sep)[i]
  {
    if s != [] {
      assert c !in s[1..] by {
        assert forall j :: 0 <= j < |s| - 1 ==> s[1..][j] == s[j + 1];
      }
      PiecesAvoid(s[1..], sep, c);
      var rest := Pieces(s[1..], sep);
      if s[0] != sep {
        assert c !in [s[0]] + rest[0];
      }
    }
  }

  /** Puts pieces back together with `sep` between neighbours. */
  function Glue(ps: seq<string>, sep: char): string
    requires |ps| >= 1
  {
    if |ps| == 1 then ps[0] else ps[0] + [sep] + Glue(ps[1..], sep)
  }

  /** Cutting at the separators loses nothing: gluing the pieces gives the string back. */
  lemma {:induction false} GluePieces(s: string, sep: char)
    ensures Glue(Pieces(s, sep), sep) == s
  {
    if s != [] {
      var rest := Pieces(s[1..], sep);
      GluePieces(s[1..], sep);
      if s[0] == sep {
        assert ([""] + rest)[1..] == rest;
      } else if |rest| > 1 {
        var ps := [[s[0]] + rest[0]] + rest[1..];
        assert ps[1..] == rest[1..];
        assert Glue(rest, sep) == rest[0] + [sep] + Glue(rest[1..], sep);
      }
    }
  }

  /** A separator splits the string into the pieces on either side of it. */
  lemma {:induction false} PiecesAppend(a: string, b: string, sep: char)
    ensures Pieces(a + [sep] + b, sep) == Pieces(a, sep) + Pieces(b, sep)
  {
    if a == [] {
      assert a + [sep] + b == [sep] + b;
      assert ([sep] + b)[1..] == b;
    } else {
      var t := a[1..] + [sep] + b;
      assert a + [sep] + b == [a[0]] + t;
      assert a == [a[0]] + a[1..];
      PiecesAppend(a[1..], b, sep);
      PiecesConsAppend(a[0], a[1..], b, t, sep);
    }
  }

  /** The inductive step of `PiecesAppend`: one more unit in front of `a`. */
  lemma {:induction false} PiecesConsAppend(c: char, a: string, b: string, t: string, sep: char)
    requires Pieces(t, sep) == Pieces(a, sep) + Pieces(b, sep)
    ensures Pieces([c] + t, sep) == Pieces([c] + a, sep) + Pieces(b, sep)
  {
    PiecesCons(c, t, sep);
    PiecesCons(c, a, sep);
    ConsAppend(c, sep, Pieces(a, sep), Pieces(b, sep));
  }

  /** One step of `Pieces`: a separator in front starts a new empty piece,
      any other unit joins the first piece. */
  lemma {:induction false} PiecesCons(c: char, t: string, sep: char)
    ensures Pieces([c] + t, sep)
            == if c == sep then [""] + Pieces(t, sep)
               else [[c] + Pieces(t, sep)[0]] + Pieces(t, sep)[1..]
  {
    assert ([c] + t)[1..] == t;
  }

  /** Adding a unit in front commutes with appending further pieces. */
  lemma {:induction false} ConsAppend(c: char, sep: char, pa: seq<string>, pb: seq<string>)
    requires |pa| >= 1
    ensures (if c == sep then [""] + (pa + pb) else [[c] + (pa + pb)[0]] + (pa + pb)[1..])
            == (if c == sep then [""] + pa else [[c] + pa[0]] + pa[1..]) + pb
  {
    assert (pa + pb)[1..] == pa[1..] + pb;
  }

  /** A string without the separator is its own single piece. */
  lemma {:induction false} PiecesWithoutSeparator(s: string, sep: char)
    requires sep !in s
    ensures Pieces(s, sep) == [s]
  {
    if s != [] {
      PiecesWithoutSeparator(s[1..], sep);
      assert [s[0]] + s[1..] == s;
    }
  }

  /** Removes the empty strings at the end of `ps`, as `split` does. */
  function DropTrailingEmpty(ps: seq<string>): (r: seq<string>)
    ensures r <= ps
    ensures |r| > 0 ==> r[|r| - 1] != ""
    ensures forall i :: |r| <= i < |ps| ==> ps[i] == ""
  {
    if ps != [] && ps[|ps| - 1] == "" then DropTrailingEmpty(ps[..|ps| - 1]) else ps
  }

  /** When the last piece is the only empty one at the end, exactly that piece goes. */
  lemma {:induction false} DropOneTrailingEmpty(ps: seq<string>)
    requires |ps| > 0 && ps[|ps| - 1] != ""
    ensures DropTrailingEmpty(ps + [""]) == ps
  {
    var qs := ps + [""];
    var r := DropTrailingEmpty(qs);
    assert qs[|ps| - 1] != "";
    assert |r| >= |ps|;
    assert r[|r| - 1] == qs[|r| - 1];
    assert r == qs[..|ps|] == ps;
  }

  /** `s.split(sep)` for a one-character, non-special pattern: when `sep`
      does not occur the result is `[s]` (even for the empty string);
      otherwise it is every piece between separators with the trailing empty
      pieces removed. */
  function Split(s: string, sep: char): (parts: seq<string>)
    ensures forall i :: 0 <= i < |parts| ==> sep !in parts[i]
  {
    if sep !in s then [s]
    else
      PiecesSeparatorFree(s, sep);
      DropTrailingEmpty(Pieces(s, sep))
  }

  /** A character absent from `s` is absent from each part of its split. */
  lemma {:induction false} SplitAvoids(s: string, sep: char, c: char)
    ensures c !in s ==> forall i :: 0 <= i < |Split(s, sep)| ==> c !in Split(s, sep)[i]
  {
    if sep in s && c !in s {
      PiecesAvoid(s, sep, c);
    }
  }

  /** `head + sep + rest` always splits with `head` first when `head` is a
      non-empty string free of the separator. */
  lemma {:induction false} SplitHead(head: string, rest: string, sep: char)
    requires head != [] && sep !in head
    ensures var parts := Split(head + [sep] + rest, sep);
            |parts| >= 1 && parts[0] == head
  {
    var s := head + [sep] + rest;
    assert s[|head|] == sep;
    PiecesAppend(head, rest, sep);
    PiecesWithoutSeparator(head, sep);
    var ps := Pieces(s, sep);
    assert ps[0] == head;
    var r := DropTrailingEmpty(ps);
    assert ps[0] != "";
    assert |r| >= 1;
  }

  /** Lower-case of an ASCII upper-case letter; every other character unchanged. */
  function ToLowerAscii(c: char): char
  {
    if 'A' <= c <= 'Z' then (c as int + 32) as char else c
  }

  /** `a.equalsIgnoreCase(b)` for the one target the application uses,
      `".pde"`. Java also matches some characters outside ASCII with ASCII
      letters (the Kelvin sign with `k`, the long s with `s`, the dotless i
      with `i`), but none with `.`, `p`, `d` or `e`, so folding ASCII letters
      accepts the same names for this target. */
  predicate EqualsIgnoreCase(a: string, b: string)
  {
    |a| == |b| && forall i :: 0 <= i < |a| ==> ToLowerAscii(a[i]) == ToLowerAscii(b[i])
  }

}
