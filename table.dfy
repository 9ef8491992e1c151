/** The working table of the dashboard: the lycées of Île-de-France joined with
    their yearly results, one row per establishment and year, and the
    equality filters (pandas boolean-mask selections) applied to it. */
module Table {

  datatype Option<T> = None | Some(value: T)

  /** One row of the working table. Only the columns that the filters read
      are kept, plus the join key and the year that tell rows apart. */
  datatype Row = Row(
    uai: string,
    academie: string,
    departement: string,
    commune: string,
    etablissement: string,
    annee: int)

  /** The four columns a dropdown or the map can filter on: `Academie`,
      `Departement`, `Nom_commune` and `Nom_etablissement`. */
  datatype Column = Academie | Departement | Commune | Etablissement

  function Field(row: Row, c: Column): string
  {
    match c
    case Academie => row.academie
    case Departement => row.departement
    case Commune => row.commune
    case Etablissement => row.etablissement
  }

  /** The column `c` of the table as a list, one entry per row, in table order. */
  function Values(t: seq<Row>, c: Column): (vs: seq<string>)
    ensures |vs| == |t|
    ensures forall v :: v in vs <==> exists x :: x in t && Field(x, c) == v
  {
    if t == [] then [] else [Field(t[0], c)] + Values(t[1..], c)
  }

  /** `df[df[c] == v]`: the rows whose column `c` equals `v`, in table order. */
  function Where(t: seq<Row>, c: Column, v: string): (r: seq<Row>)
    ensures forall x :: x in r <==> x in t && Field(x, c) == v
    ensures |r| <= |t|
  {
    if t == [] then []
    else if Field(t[0], c) == v then [t[0]] + Where(t[1..], c, v)
    else Where(t[1..], c, v)
  }

  /** Python truthiness of a dropdown value: neither None nor the empty string. */
  predicate Truthy(sel: Option<string>)
  {
    sel.Some? && sel.value != ""
  }

  /** Whether a value passes the filter a dropdown value stands for: a falsy
      selection lets everything through. */
  predicate Passes(sel: Option<string>, value: string)
  {
    !Truthy(sel) || sel.value == value
  }

  /** `if sel: df = df[df[c] == sel]`: one step of the filter cascade. */
  function Narrow(t: seq<Row>, c: Column, sel: Option<string>): (r: seq<Row>)
    ensures forall x :: x in r <==> x in t && Passes(sel, Field(x, c))
    ensures !Truthy(sel) ==> r == t
  {
    if Truthy(sel) then Where(t, c, sel.value) else t
  }

  /** The values of the four filtering dropdowns of the dashboard, each one
      None when nothing is chosen. */
  datatype Selection = Selection(
    academie: Option<string>,
    departement: Option<string>,
    commune: Option<string>,
    etablissement: Option<string>)

  const NoSelection := Selection(None, None, None, None)

  /** Whether a row satisfies every filter of a selection that is set. */
  predicate Matches(s: Selection, x: Row)
  {
    && Passes(s.academie, x.academie)
    && Passes(s.departement, x.departement)
    && Passes(s.commune, x.commune)
    && Passes(s.etablissement, x.etablissement)
  }

  /** Reference definition of a filtered view: one pass over the table that
      keeps, in order, the rows satisfying every active filter at once. */
  function Matching(t: seq<Row>, s: Selection): seq<Row>
  {
    if t == [] then []
    else if Matches(s, t[0]) then [t[0]] + Matching(t[1..], s)
    else Matching(t[1..], s)
  }

  /** `s2` keeps every active filter of `s1` with the same value and may set
      more filters besides. */
  predicate Refines(s2: Selection, s1: Selection)
  {
    && (Truthy(s1.academie) ==> s2.academie == s1.academie)
    && (Truthy(s1.departement) ==> s2.departement == s1.departement)
    && (Truthy(s1.commune) ==> s2.commune == s1.commune)
    && (Truthy(s1.etablissement) ==> s2.etablissement == s1.etablissement)
  }

  /** `a` is `b` with some rows taken out and the rest left in their order. */
  ghost predicate IsSubsequence<T>(a: seq<T>, b: seq<T>)
    decreases |b|
  {
    if a == [] then true
    else if b == [] then false
    else if a[0] == b[0] then IsSubsequence(a[1..], b[1..])
    else IsSubsequence(a, b[1..])
  }

  /** The one-column filter distributes over the concatenation of two tables. */
  lemma {:induction false} WhereAppend(a: seq<Row>, b: seq<Row>, c: Column, v: string)
    ensures Where(a + b, c, v) == Where(a, c, v) + Where(b, c, v)
    decreases |a|
  {
    if a != [] {
      assert (a + b)[0] == a[0] && (a + b)[1..] == a[1..] + b;
      WhereAppend(a[1..], b, c, v);
    } else {
      assert a + b == b;
    }
  }

  lemma NarrowAppend(a: seq<Row>, b: seq<Row>, c: Column, sel: Option<string>)
    ensures Narrow(a + b, c, sel) == Narrow(a, c, sel) + Narrow(b, c, sel)
  {
    if Truthy(sel) {
      WhereAppend(a, b, c, sel.value);
    }
  }

  /** The filtered view holds exactly the rows that satisfy every active
      filter. */
  lemma {:induction false} MatchingMembers(t: seq<Row>, s: Selection)
    ensures forall x :: x in Matching(t, s) <==> x in t && Matches(s, x)
    decreases |t|
  {
    if t != [] {
      MatchingMembers(t[1..], s);
      assert t == [t[0]] + t[1..];
    }
  }

  /** With no filter set, the view is the whole table. */
  lemma {:induction false} MatchingNothing(t: seq<Row>, s: Selection)
    requires !Truthy(s.academie) && !Truthy(s.departement)
    requires !Truthy(s.commune) && !Truthy(s.etablissement)
    ensures Matching(t, s) == t
    decreases |t|
  {
    if t != [] {
      MatchingNothing(t[1..], s);
      assert t == [t[0]] + t[1..];
    }
  }

  /** A filtered view keeps the surviving rows in their table order. */
  lemma {:induction false} MatchingIsSubsequence(t: seq<Row>, s: Selection)
    ensures IsSubsequence(Matching(t, s), t)
    decreases |t|
  {
    if t != [] {
      MatchingIsSubsequence(t[1..], s);
      if !Matches(s, t[0]) {
        var m := Matching(t[1..], s);
        if m != [] {
          MatchingMembers(t[1..], s);
          assert m[0] in m;
          assert m[0] != t[0];
        }
      }
    }
  }

  /** Filtering an already filtered view by a stronger selection is the same
      as filtering the table by the stronger selection directly. */
  lemma {:induction false} MatchingOfMatching(t: seq<Row>, s1: Selection, s2: Selection)
    requires Refines(s2, s1)
    ensures Matching(Matching(t, s1), s2) == Matching(t, s2)
    decreases |t|
  {
    if t != [] {
      MatchingOfMatching(t[1..], s1, s2);
    }
  }
}
