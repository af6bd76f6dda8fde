/**
 The resource resolver: narrows the cluster's catalog of resource types down
 to the single one the command line designates (src/main.rs:68-89 and
 src/main.rs:191-208).
 */
module Resolver {
  import opened Results

  /** The identity of a resource type as the discovery catalog reports it. */
  datatype ApiResource = ApiResource(
    group: string,
    version: string,
    apiVersion: string,
    kind: string,
    plural: string)

  /** Whether the resource type lives in namespaces or cluster-wide. */
  datatype Scope = Cluster | Namespaced

  /** One catalog entry: a resource type and its scope. */
  datatype CatalogEntry = CatalogEntry(resource: ApiResource, scope: Scope)

  /** The narrowing criteria given on the command line; `kind` is mandatory,
      every other field is optional. */
  datatype Criteria = Criteria(
    kind: string,
    group: Option<string>,
    groupVersion: Option<string>,
    apiVersion: Option<string>,
    plural: Option<string>)

  /** Why resolution failed. */
  datatype ResolveError =
    | NotFound   // no catalog entry satisfies the criteria
    | Ambiguous  // two or more catalog entries satisfy the criteria

  /** An optional criterion accepts `actual` when it is absent or equal to it. */
  predicate Accepts(criterion: Option<string>, actual: string) {
    match criterion
    case None => true
    case Some(wanted) => wanted == actual
  }

  /** `Args::filter_resource`. The plural criterion is compared with the
      resource's apiVersion, exactly as the command-line tool does. */
  predicate FilterResource(c: Criteria, r: ApiResource) {
    && Accepts(c.group, r.group)
    && Accepts(c.groupVersion, r.version)
    && Accepts(c.apiVersion, r.apiVersion)
    && c.kind == r.kind
    && Accepts(c.plural, r.apiVersion)
  }

  /** A resource passes the filter only if its kind equals the required kind,
      and every criterion that is present agrees with the resource; the plural
      criterion must agree with the apiVersion. */
  lemma PresentCriteriaMustAgree(c: Criteria, r: ApiResource)
    requires FilterResource(c, r)
    ensures c.kind == r.kind
    ensures c.group.Some? ==> c.group.value == r.group
    ensures c.groupVersion.Some? ==> c.groupVersion.value == r.version
    ensures c.apiVersion.Some? ==> c.apiVersion.value == r.apiVersion
    ensures c.plural.Some? ==> c.plural.value == r.apiVersion
  {
  }

  /** With every optional criterion absent, the filter reduces to the kind. */
  lemma AbsentCriteriaAreWildcards(c: Criteria, r: ApiResource)
    requires c.group.None? && c.groupVersion.None? && c.apiVersion.None? && c.plural.None?
    ensures FilterResource(c, r) <==> c.kind == r.kind
  {
  }

  /** Dropping an optional criterion never rejects a resource that passed. */
  lemma DroppingCriterionWidens(c: Criteria, r: ApiResource)
    requires FilterResource(c, r)
    ensures FilterResource(c.(group := None), r)
    ensures FilterResource(c.(groupVersion := None), r)
    ensures FilterResource(c.(apiVersion := None), r)
    ensures FilterResource(c.(plural := None), r)
  {
  }

  /** Giving the resource's own plural name as the plural criterion rejects
      it whenever that name differs from its apiVersion: the criterion is
      compared with the apiVersion, not with the plural name. */
  lemma PluralNameIsComparedWithApiVersion(c: Criteria, r: ApiResource)
    requires r.plural != r.apiVersion
    ensures !FilterResource(c.(plural := Some(r.plural)), r)
  {
  }

  /** Whether the criteria select a catalog entry. */
  predicate Selects(c: Criteria, e: CatalogEntry) {
    FilterResource(c, e.resource)
  }

  /** The catalog entries the criteria select. */
  function Candidates(c: Criteria, catalog: seq<CatalogEntry>): (found: seq<CatalogEntry>)
    ensures |found| <= |catalog|
    ensures forall e :: e in found ==> e in catalog && Selects(c, e)
    ensures forall i :: 0 <= i < |catalog| && Selects(c, catalog[i]) ==> catalog[i] in found
  {
    if catalog == [] then []
    else
      var rest := Candidates(c, catalog[1..]);
      if Selects(c, catalog[0]) then [catalog[0]] + rest else rest
  }

  /** Some two distinct positions of the catalog are selected. */
  predicate TwoSelected(c: Criteria, catalog: seq<CatalogEntry>) {
    exists i, j :: 0 <= i < j < |catalog| && Selects(c, catalog[i]) && Selects(c, catalog[j])
  }

  /** Position `i` is the only selected position of the catalog. */
  predicate OnlySelectedAt(c: Criteria, catalog: seq<CatalogEntry>, i: int) {
    && 0 <= i < |catalog|
    && Selects(c, catalog[i])
    && forall j :: 0 <= j < |catalog| && j != i ==> !Selects(c, catalog[j])
  }

  /** Some position of the catalog is selected. */
  predicate AnySelected(c: Criteria, catalog: seq<CatalogEntry>) {
    exists i :: 0 <= i < |catalog| && Selects(c, catalog[i])
  }

  /** At least one candidate exactly when some position is selected. */
  lemma SomeCandidate(c: Criteria, catalog: seq<CatalogEntry>)
    ensures |Candidates(c, catalog)| >= 1 <==> AnySelected(c, catalog)
  {
    var found := Candidates(c, catalog);
    if |found| >= 1 {
      assert found[0] in found;
    }
  }

  /** Two selected positions are either the head and a later one, or two in
      the tail. */
  lemma TwoSelectedUnfold(c: Criteria, catalog: seq<CatalogEntry>)
    requires catalog != []
    ensures TwoSelected(c, catalog) <==>
      (Selects(c, catalog[0]) && AnySelected(c, catalog[1..])) || TwoSelected(c, catalog[1..])
  {
    var rest := catalog[1..];
    if TwoSelected(c, catalog) {
      var i, j :| 0 <= i < j < |catalog| && Selects(c, catalog[i]) && Selects(c, catalog[j]);
      assert rest[j - 1] == catalog[j];
      if i > 0 {
        assert rest[i - 1] == catalog[i];
      }
    }
    if Selects(c, catalog[0]) && AnySelected(c, rest) {
      var k :| 0 <= k < |rest| && Selects(c, rest[k]);
      assert catalog[k + 1] == rest[k];
    }
    if TwoSelected(c, rest) {
      var i, j :| 0 <= i < j < |rest| && Selects(c, rest[i]) && Selects(c, rest[j]);
      assert catalog[i + 1] == rest[i] && catalog[j + 1] == rest[j];
    }
  }

  /** Two or more candidates exactly when two distinct positions are selected. */
  lemma {:induction false} CandidateCount(c: Criteria, catalog: seq<CatalogEntry>)
    ensures |Candidates(c, catalog)| >= 2 <==> TwoSelected(c, catalog)
  {
    if catalog != [] {
      CandidateCount(c, catalog[1..]);
      SomeCandidate(c, catalog[1..]);
      TwoSelectedUnfold(c, catalog);
    }
  }

  /** A single candidate comes from the only selected position. */
  lemma {:induction false} SoleCandidate(c: Criteria, catalog: seq<CatalogEntry>)
    requires |Candidates(c, catalog)| == 1
    ensures exists i :: OnlySelectedAt(c, catalog, i) && catalog[i] == Candidates(c, catalog)[0]
  {
    CandidateCount(c, catalog);
    var e := Candidates(c, catalog)[0];
    assert e in Candidates(c, catalog);
    var i :| 0 <= i < |catalog| && catalog[i] == e;
    assert !TwoSelected(c, catalog);
    forall j | 0 <= j < |catalog| && j != i
      ensures !Selects(c, catalog[j])
    {
      var here, there := catalog[i], catalog[j];
      if i < j {
        assert !(Selects(c, here) && Selects(c, there));
      } else {
        assert !(Selects(c, there) && Selects(c, here));
      }
    }
    assert OnlySelectedAt(c, catalog, i);
  }

  /** The selection block of `main`: collect the selected catalog entries,
      fail when there is none or more than one, else return the one. */
  function Resolve(c: Criteria, catalog: seq<CatalogEntry>): (r: Result<CatalogEntry, ResolveError>)
    ensures r == Err(NotFound) <==> forall i :: 0 <= i < |catalog| ==> !Selects(c, catalog[i])
    ensures r == Err(Ambiguous) <==> TwoSelected(c, catalog)
    ensures r.Ok? ==> exists i :: OnlySelectedAt(c, catalog, i) && catalog[i] == r.value
  {
    var found := Candidates(c, catalog);
    CandidateCount(c, catalog);
    if |found| == 0 then
      Err(NotFound)
    else if |found| != 1 then
      Err(Ambiguous)
    else
      SoleCandidate(c, catalog);
      Ok(found[0])
  }
}
