/** The stop-list normaliser used when a route is created or edited: it
    takes the `stops` value of a request body, which may be an
    array or a comma-separated string, and returns an ordered list of
    trimmed, non-empty stop names, or null when nothing is left. */
module Stops {
  import opened Domain
  import opened Text

  /** One element of an array-valued `stops`: `null`/`undefined`, or a value
      whose `String(...)` conversion is `text`. */
  datatype StopElem = Missing | Given(text: string)

  /** The `stops` value of a request body: absent (`undefined`), `null`, a
      string, an array, or a `Scalar`, which stands for a boolean, a number
      or a non-array object, `truthy` being its JavaScript truthiness. */
  datatype StopsInput =
    | Absent
    | JsonNull
    | Scalar(truthy: bool)
    | Str(s: string)
    | List(elems: seq<StopElem>)

  /** JavaScript truthiness (`!stops` is its negation); arrays are always truthy. */
  predicate IsTruthy(v: StopsInput)
  {
    match v
    case Absent => false
    case JsonNull => false
    case Scalar(t) => t
    case Str(s) => s != ""
    case List(_) => true
  }

  /** `s != null ? String(s) : ''` for one array element, before trimming. */
  function ElemText(e: StopElem): string
  {
    match e
    case Missing => ""
    case Given(t) => t
  }

  function ElemTexts(es: seq<StopElem>): (r: seq<string>)
    ensures |r| == |es|
    ensures forall i :: 0 <= i < |es| ==> r[i] == ElemText(es[i])
  {
    seq(|es|, i requires 0 <= i < |es| => ElemText(es[i]))
  }

  /** The array form of a list of names, as an admin client would send it. */
  function Givens(xs: seq<string>): (r: seq<StopElem>)
    ensures |r| == |xs|
    ensures forall i :: 0 <= i < |xs| ==> r[i] == Given(xs[i])
  {
    seq(|xs|, i requires 0 <= i < |xs| => Given(xs[i]))
  }

  /** A well-formed stop name: non-empty, nothing to trim. */
  predicate IsStopName(x: string)
  {
    x != [] && Trimmed(x)
  }

  /** `.map((s) => s.trim()).filter((s) => s.length > 0)`. */
  function Clean(pieces: seq<string>): (r: seq<string>)
    ensures |r| <= |pieces|
    ensures forall k :: 0 <= k < |r| ==> IsStopName(r[k])
    decreases |pieces|
  {
    if pieces == [] then []
    else
      var t := Trim(pieces[0]);
      if t == [] then Clean(pieces[1..]) else [t] + Clean(pieces[1..])
  }

  /** `cleaned.length ? cleaned : null`. */
  function NonEmpty(xs: seq<string>): (r: Option<seq<string>>)
    ensures r.Some? <==> xs != []
    ensures r.Some? ==> r.value == xs
  {
    if |xs| > 0 then Some(xs) else None
  }

  /** The pieces `normalizeStops` trims and filters: an array's elements
      one by one, or a string's pieces between commas. */
  function Pieces(v: StopsInput): seq<string>
    requires v.Str? || v.List?
  {
    if v.Str? then Split(v.s, ',') else ElemTexts(v.elems)
  }

  /** `normalizeStops(stops)`. The result is null exactly when the input is
      falsy, is neither an array nor a string, or leaves no piece after
      trimming; otherwise it is a non-empty list of stop names. */
  function NormalizeStops(v: StopsInput): (r: Option<seq<string>>)
    ensures r.None? <==>
      (!IsTruthy(v) || !(v.Str? || v.List?) || Clean(Pieces(v)) == [])
    ensures r.Some? ==> r.value == Clean(Pieces(v))
    ensures r.Some? ==> |r.value| > 0
    ensures r.Some? ==> forall k :: 0 <= k < |r.value| ==> IsStopName(r.value[k])
  {
    if !IsTruthy(v) then None
    else
      match v
      case List(es) => NonEmpty(Clean(ElemTexts(es)))
      case Str(s) => NonEmpty(Clean(Split(s, ',')))
      case _ => None
  }

  /** Cleaning distributes over concatenation: surviving names keep their
      relative order. */
  lemma {:induction false} CleanAppend(a: seq<string>, b: seq<string>)
    ensures Clean(a + b) == Clean(a) + Clean(b)
    decreases |a|
  {
    if a != [] {
      assert (a + b)[0] == a[0];
      assert (a + b)[1..] == a[1..] + b;
      CleanAppend(a[1..], b);
    } else {
      assert a + b == b;
    }
  }

  /** The names that survive are exactly the non-empty trimmed pieces. */
  lemma {:induction false} CleanMembers(pieces: seq<string>, x: string)
    ensures x in Clean(pieces) <==>
      (x != [] && exists i :: 0 <= i < |pieces| && Trim(pieces[i]) == x)
    decreases |pieces|
  {
    if pieces != [] {
      CleanMembers(pieces[1..], x);
      if x != [] && Trim(pieces[0]) != x {
        if exists i :: 0 <= i < |pieces| && Trim(pieces[i]) == x {
          var i :| 0 <= i < |pieces| && Trim(pieces[i]) == x;
          assert Trim(pieces[1..][i - 1]) == x;
        }
      }
      if exists i :: 0 <= i < |pieces[1..]| && Trim(pieces[1..][i]) == x {
        var i :| 0 <= i < |pieces[1..]| && Trim(pieces[1..][i]) == x;
        assert Trim(pieces[i + 1]) == x;
      }
    }
  }

  /** A stop name is its own trim. */
  lemma TrimStopName(x: string)
    requires Trimmed(x)
    ensures Trim(x) == x
  {
    assert [] + x + [] == x;
    TrimUnique([], x, []);
  }

  /** A list of stop names cleans to itself. */
  lemma {:induction false} CleanStopNames(xs: seq<string>)
    requires forall k :: 0 <= k < |xs| ==> IsStopName(xs[k])
    ensures Clean(xs) == xs
    decreases |xs|
  {
    if xs != [] {
      var t := Trim(xs[0]);
      assert t == xs[0] by { TrimStopName(xs[0]); }
      var rest := xs[1..];
      CleanStopNames(rest);
      assert Clean(xs) == [t] + Clean(rest);
    }
  }

  /** A non-empty list of stop names, sent as an array, normalises to itself. */
  lemma NamesNormalizeToThemselves(xs: seq<string>)
    requires xs != []
    requires forall k :: 0 <= k < |xs| ==> IsStopName(xs[k])
    ensures NormalizeStops(List(Givens(xs))) == Some(xs)
  {
    var back := List(Givens(xs));
    assert Pieces(back) == xs by {
      assert ElemTexts(Givens(xs)) == xs;
    }
    CleanStopNames(xs);
  }

  /** Idempotence: a normalised list sent back as an array comes back unchanged. */
  lemma NormalizeIdempotent(v: StopsInput)
    requires NormalizeStops(v).Some?
    ensures NormalizeStops(List(Givens(NormalizeStops(v).value))) == NormalizeStops(v)
  {
    NamesNormalizeToThemselves(NormalizeStops(v).value);
  }

  /** Two truthy string-or-array inputs whose pieces clean alike normalise alike. */
  lemma SamePiecesSameResult(v: StopsInput, w: StopsInput)
    requires (v.Str? || v.List?) && (w.Str? || w.List?)
    requires IsTruthy(v) && IsTruthy(w)
    requires Clean(Pieces(v)) == Clean(Pieces(w))
    ensures NormalizeStops(v) == NormalizeStops(w)
  {
  }

  /** The comma-separated form and the array form of the same names
      normalise alike. */
  lemma StringAndArrayAgree(names: seq<string>)
    requires |names| >= 1
    requires forall i :: 0 <= i < |names| ==> ',' !in names[i]
    ensures NormalizeStops(Str(Join(names, ','))) == NormalizeStops(List(Givens(names)))
  {
    var s := Join(names, ',');
    SplitJoin(names, ',');
    assert Pieces(Str(s)) == names;
    assert Pieces(List(Givens(names))) == names by {
      assert ElemTexts(Givens(names)) == names;
    }
    if s == "" {
      assert names == [""];
      assert Clean([""]) == [] by {
        assert Trim("") == "";
      }
      assert NormalizeStops(Str(s)).None?;
    } else {
      SamePiecesSameResult(Str(s), List(Givens(names)));
    }
  }

  lemma ElemTextsAppend(a: seq<StopElem>, b: seq<StopElem>)
    ensures ElemTexts(a + b) == ElemTexts(a) + ElemTexts(b)
  {
  }

  lemma TextsAroundElement(a: seq<StopElem>, t: string, b: seq<StopElem>)
    ensures ElemTexts(a + [Given(t)] + b) == ElemTexts(a) + [t] + ElemTexts(b)
  {
    ElemTextsAppend(a + [Given(t)], b);
    ElemTextsAppend(a, [Given(t)]);
    assert ElemTexts([Given(t)]) == [t];
  }

  /** Cleaning an array's texts around one non-blank element. */
  lemma CleanAroundElement(a: seq<StopElem>, t: string, b: seq<StopElem>)
    requires Trim(t) != ""
    ensures Clean(ElemTexts(a + [Given(t)] + b))
         == Clean(ElemTexts(a)) + [Trim(t)] + Clean(ElemTexts(b))
  {
    var ea, eb := ElemTexts(a), ElemTexts(b);
    TextsAroundElement(a, t, b);
    CleanAppend(ea + [t], eb);
    CleanAppend(ea, [t]);
    CleanCons(t, []);
    assert [t] + [] == [t];
  }

  /** Array elements are not split on commas: an element anywhere in the
      array whose text is not blank becomes exactly one entry, its trim,
      between the entries of the elements around it. */
  lemma ArrayElementNotSplit(a: seq<StopElem>, t: string, b: seq<StopElem>)
    requires Trim(t) != ""
    ensures NormalizeStops(List(a + [Given(t)] + b))
         == Some(Clean(ElemTexts(a)) + [Trim(t)] + Clean(ElemTexts(b)))
  {
    var es := a + [Given(t)] + b;
    CleanAroundElement(a, t, b);
    assert Clean(ElemTexts(es)) != [];
  }

  /** Stop names need not be distinct: a name repeated in the array is kept
      as often as it is given. */
  lemma DuplicatesKept(x: string)
    requires IsStopName(x)
    ensures NormalizeStops(List([Given(x), Given(x)])) == Some([x, x])
  {
    assert Givens([x, x]) == [Given(x), Given(x)];
    NamesNormalizeToThemselves([x, x]);
  }

  /** An empty piece contributes nothing to the cleaned list. */
  lemma CleanDropsBlank(xs: seq<string>, ys: seq<string>)
    ensures Clean(xs + [""] + ys) == Clean(xs + ys)
  {
    var blank: seq<string> := [""];
    assert Clean(blank) == [] by {
      assert Trim("") == "";
      assert blank[1..] == [];
    }
    CleanAppend(xs + blank, ys);
    CleanAppend(xs, blank);
    CleanAppend(xs, ys);
    assert Clean(xs) + Clean(blank) == Clean(xs);
  }

  /** `null` and `undefined` array elements are dropped. */
  lemma MissingDropped(a: seq<StopElem>, b: seq<StopElem>)
    ensures NormalizeStops(List(a + [Missing] + b)) == NormalizeStops(List(a + b))
  {
    var ea, eb := ElemTexts(a), ElemTexts(b);
    var withMissing := a + [Missing];
    ElemTextsAppend(withMissing, b);
    ElemTextsAppend(a, [Missing]);
    ElemTextsAppend(a, b);
    assert ElemTexts([Missing]) == [""];
    assert Pieces(List(withMissing + b)) == ea + [""] + eb;
    assert Pieces(List(a + b)) == ea + eb;
    CleanDropsBlank(ea, eb);
    SamePiecesSameResult(List(withMissing + b), List(a + b));
  }

  /** Blanks around comma-separated names are trimmed and an entry that is
      only blanks is dropped. */
  lemma BlanksAroundNames(a: string, b: string, c: string)
    requires IsStopName(a) && IsStopName(b) && IsStopName(c)
    requires ',' !in a && ',' !in b && ',' !in c
    ensures NormalizeStops(Str(a + ", " + b + " ,  , " + c)) == Some([a, b, c])
  {
    var b', blank, c' := " " + b + " ", "  ", " " + c;
    BlanksSplit(a, b, c);
    BlanksTrimmed(a, b, c);
    CleanFour(a, b', blank, c', a, b, c);
  }

  lemma CleanFour(p0: string, p1: string, p2: string, p3: string, a: string, b: string, c: string)
    requires Trim(p0) == a && Trim(p1) == b && Trim(p2) == "" && Trim(p3) == c
    requires a != "" && b != "" && c != ""
    ensures Clean([p0, p1, p2, p3]) == [a, b, c]
  {
    CleanCons(p0, [p1, p2, p3]);
    CleanCons(p1, [p2, p3]);
    CleanCons(p2, [p3]);
    CleanCons(p3, []);
  }

  lemma BlanksTrimmed(a: string, b: string, c: string)
    requires IsStopName(a) && IsStopName(b) && IsStopName(c)
    ensures Trim(a) == a && Trim(" " + b + " ") == b
    ensures Trim("  ") == "" && Trim(" " + c) == c
  {
    TrimStopName(a);
    TrimUnique(" ", b, " ");
    assert "  " == "  " + "" + "";
    TrimUnique("  ", "", "");
    assert " " + c == " " + c + "";
    TrimUnique(" ", c, "");
  }

  lemma CleanCons(x: string, rest: seq<string>)
    ensures Clean([x] + rest) == (if Trim(x) == [] then [] else [Trim(x)]) + Clean(rest)
  {
    assert ([x] + rest)[1..] == rest;
  }

  lemma BlanksSplit(a: string, b: string, c: string)
    requires ',' !in a && ',' !in b && ',' !in c
    ensures Split(a + ", " + b + " ,  , " + c, ',') == [a, " " + b + " ", "  ", " " + c]
  {
    var b', blank, c' := " " + b + " ", "  ", " " + c;
    var parts := [a, b', blank, c'];
    assert a + ", " + b + " ,  , " + c == a + [','] + (b' + [','] + (blank + [','] + c'));
    JoinFour(a, b', blank, c');
    SplitJoin(parts, ',');
  }

  lemma JoinFour(a: string, b: string, c: string, d: string)
    ensures Join([a, b, c, d], ',') == a + [','] + (b + [','] + (c + [','] + d))
  {
    var parts := [a, b, c, d];
    assert parts[3..] == [d];
    assert Join(parts[3..], ',') == d;
    assert parts[2..] == [c, d];
    assert parts[2..][1..] == parts[3..];
    assert Join(parts[2..], ',') == c + [','] + d;
    assert parts[1..] == [b, c, d];
    assert parts[1..][1..] == parts[2..];
    assert Join(parts[1..], ',') == b + [','] + (c + [','] + d);
  }

  /** The admin-input example "Colombo, Kandy ,  , Galle". */
  lemma CommaStringExample()
    ensures NormalizeStops(Str("Colombo, Kandy ,  , Galle")) == Some(["Colombo", "Kandy", "Galle"])
  {
    assert "Colombo, Kandy ,  , Galle" == "Colombo" + ", " + "Kandy" + " ,  , " + "Galle";
    BlanksAroundNames("Colombo", "Kandy", "Galle");
  }
}
