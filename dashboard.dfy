/** The two callbacks of the dashboard that carry logic: the map subset
    (`update_map`) and the dependent dropdown cascade (`update_dropdowns`),
    together with the option lists the sidebar starts with. */
module Dashboard {
  import opened Table
  import opened StringOrder

  /** `sorted(df[c].unique())`: the distinct values of column `c`, ascending. */
  function Options(t: seq<Row>, c: Column): (opts: seq<string>)
    ensures StrictlyAscending(opts)
    ensures forall v :: v in opts <==> exists x :: x in t && Field(x, c) == v
  {
    SortedDistinct(Values(t, c))
  }

  /** The option lists of the four dropdowns when the page is built. */
  datatype Sidebar = Sidebar(
    academies: seq<string>,
    departements: seq<string>,
    communes: seq<string>,
    etablissements: seq<string>)

  function Initial(t: seq<Row>): (r: Sidebar)
    ensures StrictlyAscending(r.academies) && StrictlyAscending(r.departements)
    ensures StrictlyAscending(r.communes) && StrictlyAscending(r.etablissements)
    ensures forall v :: v in r.academies <==> exists x :: x in t && x.academie == v
    ensures forall v :: v in r.departements <==> exists x :: x in t && x.departement == v
    ensures forall v :: v in r.communes <==> exists x :: x in t && x.commune == v
    ensures forall v :: v in r.etablissements <==> exists x :: x in t && x.etablissement == v
  {
    Sidebar(
      Options(t, Academie),
      Options(t, Departement),
      Options(t, Commune),
      Options(t, Etablissement))
  }

  // ---------------------------------------------------------------------------
  // The map subset

  /** The rows put on the map: the table narrowed by académie, département,
      commune and établissement in turn, each step skipped when its dropdown
      is empty. */
  function UpdateMap(t: seq<Row>, s: Selection): (r: seq<Row>)
    ensures forall x :: x in r <==> x in t && Matches(s, x)
    ensures |r| <= |t|
  {
    var byAcademie := Narrow(t, Academie, s.academie);
    var byDepartement := Narrow(byAcademie, Departement, s.departement);
    var byCommune := Narrow(byDepartement, Commune, s.commune);
    Narrow(byCommune, Etablissement, s.etablissement)
  }

  /** The map is re-centred on the subset only when the subset has a row. */
  function Recenters(t: seq<Row>, s: Selection): (b: bool)
    ensures b <==> exists x :: x in t && Matches(s, x)
  {
    var subset := UpdateMap(t, s);
    assert subset != [] ==> subset[0] in subset;
    subset != []
  }

  lemma UpdateMapAppend(a: seq<Row>, b: seq<Row>, s: Selection)
    ensures UpdateMap(a + b, s) == UpdateMap(a, s) + UpdateMap(b, s)
  {
    NarrowAppend(a, b, Academie, s.academie);
    var a1, b1 := Narrow(a, Academie, s.academie), Narrow(b, Academie, s.academie);
    NarrowAppend(a1, b1, Departement, s.departement);
    var a2, b2 := Narrow(a1, Departement, s.departement), Narrow(b1, Departement, s.departement);
    NarrowAppend(a2, b2, Commune, s.commune);
    var a3, b3 := Narrow(a2, Commune, s.commune), Narrow(b2, Commune, s.commune);
    NarrowAppend(a3, b3, Etablissement, s.etablissement);
  }

  /** The four successive filters select exactly what one pass keeping the
      rows that satisfy all of them at once selects, in the same order. */
  lemma {:induction false} UpdateMapIsMatching(t: seq<Row>, s: Selection)
    ensures UpdateMap(t, s) == Matching(t, s)
    decreases |t|
  {
    if t != [] {
      assert t == [t[0]] + t[1..];
      UpdateMapAppend([t[0]], t[1..], s);
      UpdateMapIsMatching(t[1..], s);
    }
  }

  /** The subset keeps the table's order, and dropdowns left empty (None or
      the empty string) filter nothing. */
  lemma UpdateMapSubsequence(t: seq<Row>, s: Selection)
    ensures IsSubsequence(UpdateMap(t, s), t)
    ensures (!Truthy(s.academie) && !Truthy(s.departement) && !Truthy(s.commune)
             && !Truthy(s.etablissement)) ==> UpdateMap(t, s) == t
  {
    UpdateMapIsMatching(t, s);
    MatchingIsSubsequence(t, s);
  }

  /** Setting more map filters, the others unchanged, only removes rows: the
      narrower subset is the wider one filtered further. */
  lemma UpdateMapMonotone(t: seq<Row>, s1: Selection, s2: Selection)
    requires Refines(s2, s1)
    ensures UpdateMap(t, s2) == Matching(UpdateMap(t, s1), s2)
    ensures IsSubsequence(UpdateMap(t, s2), UpdateMap(t, s1))
  {
    UpdateMapIsMatching(t, s1);
    UpdateMapIsMatching(t, s2);
    MatchingOfMatching(t, s1, s2);
    MatchingIsSubsequence(UpdateMap(t, s1), s2);
  }

  // ---------------------------------------------------------------------------
  // The dropdown cascade

  /** What the cascade sends back to the three dependent dropdowns. */
  datatype Dropdowns = Dropdowns(
    departementOptions: seq<string>,
    departement: Option<string>,
    communeOptions: seq<string>,
    commune: Option<string>,
    etablissementOptions: seq<string>,
    etablissement: Option<string>)

  /** `sel if sel in options else None`. */
  function Retain(sel: Option<string>, options: seq<string>): (r: Option<string>)
    ensures r.Some? ==> r == sel && r.value in options
    ensures sel.Some? && sel.value in options ==> r == sel
  {
    if sel.Some? && sel.value in options then sel else None
  }

  /** The chain académie → département → commune → établissement: each list
      of options is taken from the rows left by the filters before it, and a
      filter counts only once its own value has been checked against its
      fresh options. */
  function UpdateDropdowns(t: seq<Row>, academie: Option<string>,
                           departement: Option<string>, commune: Option<string>): (r: Dropdowns)
    ensures StrictlyAscending(r.departementOptions)
    ensures StrictlyAscending(r.communeOptions)
    ensures StrictlyAscending(r.etablissementOptions)
    ensures forall v :: v in r.departementOptions <==>
      exists x :: x in t && Passes(academie, x.academie) && x.departement == v
    ensures r.departement.Some? ==> r.departement == departement && r.departement.value in r.departementOptions
    ensures departement.Some? && departement.value in r.departementOptions ==> r.departement == departement
    ensures forall v :: v in r.communeOptions <==>
      exists x :: x in t && Passes(academie, x.academie) && Passes(r.departement, x.departement)
                  && x.commune == v
    ensures r.commune.Some? ==> r.commune == commune && r.commune.value in r.communeOptions
    ensures commune.Some? && commune.value in r.communeOptions ==> r.commune == commune
    ensures forall v :: v in r.etablissementOptions <==>
      exists x :: x in t && Passes(academie, x.academie) && Passes(r.departement, x.departement)
                  && Passes(r.commune, x.commune) && x.etablissement == v
    ensures r.etablissement == None
  {
    var byAcademie := Narrow(t, Academie, academie);
    var departements := Options(byAcademie, Departement);
    var updatedDepartement := Retain(departement, departements);
    var byDepartement := Narrow(byAcademie, Departement, updatedDepartement);
    var communes := Options(byDepartement, Commune);
    var updatedCommune := Retain(commune, communes);
    var byCommune := Narrow(byDepartement, Commune, updatedCommune);
    var etablissements := Options(byCommune, Etablissement);
    Dropdowns(departements, updatedDepartement, communes, updatedCommune, etablissements, None)
  }

  /** Each list of options is exactly the sorted distinct list of its column
      over the map subset for the corrected selections before it in the
      chain, so the dropdowns and the map never disagree. */
  lemma DropdownsFollowMap(t: seq<Row>, academie: Option<string>,
                           departement: Option<string>, commune: Option<string>)
    ensures var r := UpdateDropdowns(t, academie, departement, commune);
      && r.departementOptions == Options(UpdateMap(t, Selection(academie, None, None, None)), Departement)
      && r.communeOptions == Options(UpdateMap(t, Selection(academie, r.departement, None, None)), Commune)
      && r.etablissementOptions
         == Options(UpdateMap(t, Selection(academie, r.departement, r.commune, None)), Etablissement)
  {
    var r := UpdateDropdowns(t, academie, departement, commune);
    var m1 := UpdateMap(t, Selection(academie, None, None, None));
    var m2 := UpdateMap(t, Selection(academie, r.departement, None, None));
    var m3 := UpdateMap(t, Selection(academie, r.departement, r.commune, None));
    AscendingUnique(r.departementOptions, Options(m1, Departement));
    AscendingUnique(r.communeOptions, Options(m2, Commune));
    AscendingUnique(r.etablissementOptions, Options(m3, Etablissement));
  }

  /** With no académie chosen the département options are the full list the
      sidebar starts with; with one chosen they are a part of it. */
  lemma DepartementOptionsWithinInitial(t: seq<Row>, academie: Option<string>,
                                        departement: Option<string>, commune: Option<string>)
    ensures var r := UpdateDropdowns(t, academie, departement, commune);
      && (forall v :: v in r.departementOptions ==> v in Initial(t).departements)
      && (!Truthy(academie) ==> r.departementOptions == Initial(t).departements)
  {
    var r := UpdateDropdowns(t, academie, departement, commune);
    if !Truthy(academie) {
      AscendingUnique(r.departementOptions, Initial(t).departements);
    }
  }

  /** A département that is no longer among its options is dropped and does
      not narrow the communes: they are those of the académie alone. */
  lemma StaleDepartementDoesNotNarrow(t: seq<Row>, academie: Option<string>,
                                      departement: Option<string>, commune: Option<string>)
    requires departement.Some?
    requires departement.value !in UpdateDropdowns(t, academie, departement, commune).departementOptions
    ensures var r := UpdateDropdowns(t, academie, departement, commune);
      && r.departement == None
      && r.communeOptions == Options(UpdateMap(t, Selection(academie, None, None, None)), Commune)
  {
    var r := UpdateDropdowns(t, academie, departement, commune);
    AscendingUnique(r.communeOptions,
                    Options(UpdateMap(t, Selection(academie, None, None, None)), Commune));
  }

  /** An établissement found only in one département leaves the options, and
      the établissement value is cleared, once another département that is
      legal for the académie is chosen. */
  lemma EtablissementLeavesWithItsDepartement(t: seq<Row>, academie: Option<string>,
                                              other: string, commune: Option<string>,
                                              home: string, name: string)
    requires forall x :: x in t && x.etablissement == name ==> x.departement == home
    requires other != home && other != ""
    requires exists x :: x in t && Passes(academie, x.academie) && x.departement == other
    ensures var r := UpdateDropdowns(t, academie, Some(other), commune);
      && r.departement == Some(other)
      && name !in r.etablissementOptions
      && r.etablissement == None
  {
  }

  /** The département options never depend on the département or commune
      chosen, and the commune options never on the commune chosen. */
  lemma ChainIndependence(t: seq<Row>, academie: Option<string>,
                          departement: Option<string>, commune: Option<string>,
                          departement': Option<string>, commune': Option<string>)
    ensures UpdateDropdowns(t, academie, departement, commune).departementOptions
         == UpdateDropdowns(t, academie, departement', commune').departementOptions
    ensures UpdateDropdowns(t, academie, departement, commune).communeOptions
         == UpdateDropdowns(t, academie, departement, commune').communeOptions
  {
  }

  /** Feeding the cascade its own corrected values changes nothing. */
  lemma UpdateDropdownsIdempotent(t: seq<Row>, academie: Option<string>,
                                  departement: Option<string>, commune: Option<string>)
    ensures var r := UpdateDropdowns(t, academie, departement, commune);
      UpdateDropdowns(t, academie, r.departement, r.commune) == r
  {
  }

  /** The page as it first loads: with nothing chosen, the cascade offers the
      sidebar's initial lists. */
  lemma InitialIsFixedPoint(t: seq<Row>)
    ensures var r := UpdateDropdowns(t, None, None, None);
      && r.departementOptions == Initial(t).departements
      && r.communeOptions == Initial(t).communes
      && r.etablissementOptions == Initial(t).etablissements
      && r.departement == None && r.commune == None
  {
  }

  /** A one-row table: nothing chosen shows that row on the map and offers its
      département as the only option. */
  lemma SingleRowScenario(annee: int)
    ensures var t := [Row("X1", "PARIS", "75", "PARIS", "Lycée A", annee)];
      && UpdateMap(t, NoSelection) == t
      && UpdateDropdowns(t, None, None, None).departementOptions == ["75"]
  {
  }
}
