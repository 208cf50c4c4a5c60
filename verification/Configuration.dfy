/** `configuration.py`: merge built-in and target packs, and validate ownership transfers. */
module Configuration {
  import opened Results
  import opened TextOrder
  import opened Packs

  datatype Document = Document(id: string, pack: Pack)

  datatype ConfigurationError = InvalidManifest | DuplicatePack | InvalidReplacement | ReplacedDependency

  predicate ValidManifest(d: Document) {
    d.id != "" && d.pack.commands != [] && Distinct(d.pack.takesOver) && "" !in d.pack.takesOver
  }

  predicate ValidDocuments(documents: seq<Document>) {
    && (forall i :: 0 <= i < |documents| ==> ValidManifest(documents[i]))
    && (forall i, j :: 0 <= i < j < |documents| ==> documents[i].id != documents[j].id)
  }

  /** The packs of all documents, by id. */
  function Merged(documents: seq<Document>): PackSet {
    if documents == [] then map[]
    else Merged(documents[..|documents| - 1])[documents[|documents| - 1].id := documents[|documents| - 1].pack]
  }

  /** `pack` may take over the concern of the built-in. */
  predicate MayReplace(packs: PackSet, pack: string, builtin: string)
    requires pack in packs
  {
    && builtin != pack
    && builtin in packs && packs[builtin].origin.Builtin?
    && packs[builtin].role != "supplemental"
    && AtLeastAsStrong(packs[pack].enforcement, packs[builtin].enforcement)
    && packs[builtin].stages <= packs[pack].stages
  }

  predicate MayOwn(pack: Pack) {
    pack.takesOver == [] || (pack.origin.Target? && pack.status == "active" && pack.packetContract)
  }

  predicate Replaces(packs: PackSet, pack: string, builtin: string) {
    pack in packs && builtin in packs[pack].takesOver
  }

  /** Every ownership transfer is permitted and unique, and nobody depends on a replaced built-in. */
  ghost predicate Accepted(packs: PackSet) {
    && (forall p :: p in packs ==> MayOwn(packs[p]))
    && (forall p, b :: Replaces(packs, p, b) ==> MayReplace(packs, p, b))
    && UniqueOwners(packs)
    && (forall p, q, d :: p in packs && d in packs[p].dependsOn ==> !Replaces(packs, q, d))
  }

  /** The claims of the first `n` packs. */
  ghost predicate ClaimsOf(packs: PackSet, ids: seq<string>, n: nat, claims: map<string, string>)
    requires n <= |ids|
  {
    && (forall b :: b in claims ==> claims[b] in ids[..n] && Replaces(packs, claims[b], b))
    && (forall k, b :: 0 <= k < n && Replaces(packs, ids[k], b) ==> b in claims && claims[b] == ids[k])
  }

  ghost predicate TransfersValid(packs: PackSet, ids: seq<string>)
  {
    && (forall p :: p in ids && p in packs ==> MayOwn(packs[p]))
    && (forall p, b :: p in ids && Replaces(packs, p, b) ==> MayReplace(packs, p, b))
  }

  /** Validate the transfers one pack claims and record their effective owner. */
  method ClaimReplacements(packs: PackSet, claims: map<string, string>, pack: string)
    returns (valid: bool, claims': map<string, string>)
    requires pack in packs && Distinct(packs[pack].takesOver)
    ensures valid <==>
              && MayOwn(packs[pack])
              && (forall b :: b in packs[pack].takesOver ==> MayReplace(packs, pack, b) && b !in claims)
    ensures valid ==> claims'.Keys == claims.Keys + Elements(packs[pack].takesOver)
    ensures valid ==> forall b :: b in claims' ==> claims'[b] == if b in claims then claims[b] else pack
  {
    claims' := claims;
    var claimed := packs[pack].takesOver;
    if !MayOwn(packs[pack]) { return false, claims'; }
    for i := 0 to |claimed|
      invariant forall k :: 0 <= k < i ==> MayReplace(packs, pack, claimed[k]) && claimed[k] !in claims
      invariant claims'.Keys == claims.Keys + Elements(claimed[..i])
      invariant forall b :: b in claims' ==> claims'[b] == if b in claims then claims[b] else pack
    {
      var b := claimed[i];
      assert b !in claimed[..i];
      if !MayReplace(packs, pack, b) || b in claims' { return false, claims'; }
      claims' := claims'[b := pack];
      assert claimed[..i + 1] == claimed[..i] + [b];
      ElementsOfAppend(claimed[..i], [b]);
    }
    valid := true;
    assert claimed[..|claimed|] == claimed;
  }

  ghost predicate UniqueOwners(packs: PackSet) {
    forall p, q, b :: Replaces(packs, p, b) && Replaces(packs, q, b) ==> p == q
  }

  lemma ClaimsExtend(packs: PackSet, ids: seq<string>, i: nat, claims: map<string, string>, claims': map<string,
                     string>)
    requires i < |ids| && ids[i] in packs && ClaimsOf(packs, ids, i, claims)
    requires forall b :: b in packs[ids[i]].takesOver ==> b !in claims
    requires claims'.Keys == claims.Keys + Elements(packs[ids[i]].takesOver)
    requires forall b :: b in claims' ==> claims'[b] == if b in claims then claims[b] else ids[i]
    ensures ClaimsOf(packs, ids, i + 1, claims')
  {
    var own := packs[ids[i]].takesOver;
    forall k, b | 0 <= k < i + 1 && Replaces(packs, ids[k], b) ensures b in claims' && claims'[b] == ids[k] {
      if k == i { assert b in Elements(own); }
    }
    forall b | b in claims' ensures claims'[b] in ids[..i + 1] && Replaces(packs, claims'[b], b) {
      assert b in claims || b in Elements(own);
      if b in claims { assert claims[b] in ids[..i]; }
    }
  }

  lemma ClaimRefused(packs: PackSet, ids: seq<string>, i: nat, claims: map<string, string>)
    requires Distinct(ids) && Elements(ids) == packs.Keys && i < |ids| && ids[i] in packs
    requires ClaimsOf(packs, ids, i, claims)
    requires !(MayOwn(packs[ids[i]])
               && forall b :: b in packs[ids[i]].takesOver ==> MayReplace(packs, ids[i], b) && b !in claims)
    ensures !(TransfersValid(packs, ids) && UniqueOwners(packs))
  {
    if MayOwn(packs[ids[i]]) {
      var b :| b in packs[ids[i]].takesOver && !(MayReplace(packs, ids[i], b) && b !in claims);
      assert Replaces(packs, ids[i], b);
      if b in claims {
        var k :| 0 <= k < i && ids[k] == claims[b];
        assert Replaces(packs, ids[k], b) && ids[k] != ids[i];
      }
    }
  }

  lemma ClaimsAreUnique(packs: PackSet, ids: seq<string>, claims: map<string, string>)
    requires Elements(ids) == packs.Keys && ClaimsOf(packs, ids, |ids|, claims)
    ensures UniqueOwners(packs)
  {
    forall p, q, b | Replaces(packs, p, b) && Replaces(packs, q, b) ensures p == q {
      assert p in Elements(ids) && q in Elements(ids);
      var i, k :| 0 <= i < |ids| && ids[i] == p && 0 <= k < |ids| && ids[k] == q;
      assert Replaces(packs, ids[i], b) && Replaces(packs, ids[k], b);
      assert b in claims && claims[b] == ids[i] && claims[b] == ids[k];
    }
  }

  /** The claims of all packs, in the given order of ids; refused exactly when one is not permitted or made twice. */
  method ReplacementClaims(packs: PackSet, ids: seq<string>)
    returns (r: Result<map<string, string>, ConfigurationError>)
    requires Distinct(ids) && Elements(ids) == packs.Keys
    requires forall p :: p in packs ==> Distinct(packs[p].takesOver)
    ensures r.Ok? ==> ClaimsOf(packs, ids, |ids|, r.value)
    ensures r.Ok? <==> TransfersValid(packs, ids) && UniqueOwners(packs)
    ensures r.Err? ==> r.error == InvalidReplacement
  {
    var claims: map<string, string> := map[];
    for i := 0 to |ids|
      invariant ClaimsOf(packs, ids, i, claims)
      invariant TransfersValid(packs, ids[..i])
    {
      assert ids[i] in Elements(ids);
      var valid, claims' := ClaimReplacements(packs, claims, ids[i]);
      if !valid {
        ClaimRefused(packs, ids, i, claims);
        return Err(InvalidReplacement);
      }
      ClaimsExtend(packs, ids, i, claims, claims');
      claims := claims';
    }
    assert ids[..|ids|] == ids;
    ClaimsAreUnique(packs, ids, claims);
    r := Ok(claims);
  }

  predicate DependenciesAvoid(packs: PackSet, claims: map<string, string>, ids: seq<string>) {
    forall p, d :: p in ids && p in packs && d in packs[p].dependsOn ==> d !in claims
  }

  /** No listed pack depends on a claimed built-in. */
  method ValidateReplacementDependencies(packs: PackSet, claims: map<string, string>, ids: seq<string>)
    returns (valid: bool)
    requires Elements(ids) <= packs.Keys
    ensures valid <==> DependenciesAvoid(packs, claims, ids)
  {
    for i := 0 to |ids|
      invariant DependenciesAvoid(packs, claims, ids[..i])
    {
      assert ids[i] in Elements(ids);
      var dependencies := Sorted(packs[ids[i]].dependsOn);
      for k := 0 to |dependencies|
        invariant forall m :: 0 <= m < k ==> dependencies[m] !in claims
      {
        assert dependencies[k] in Elements(dependencies);
        if dependencies[k] in claims { return false; }
      }
      forall d | d in packs[ids[i]].dependsOn ensures d !in claims { assert d in Elements(dependencies); }
    }
    assert ids[..|ids|] == ids;
    valid := true;
  }

  lemma AcceptedIsChecked(packs: PackSet, ids: seq<string>, claims: map<string, string>)
    requires Elements(ids) == packs.Keys && ClaimsOf(packs, ids, |ids|, claims)
    requires TransfersValid(packs, ids) && UniqueOwners(packs)
    ensures Accepted(packs) <==> DependenciesAvoid(packs, claims, ids)
  {
    forall p | p in packs ensures p in ids { assert p in Elements(ids); }
    forall q, d | Replaces(packs, q, d) ensures d in claims {
      assert q in Elements(ids);
      var k :| 0 <= k < |ids| && ids[k] == q;
    }
    assert forall d :: d in claims ==> Replaces(packs, claims[d], d);
  }

  lemma {:induction false} MergedHolds(documents: seq<Document>, i: nat)
    requires ValidDocuments(documents) && i < |documents|
    ensures documents[i].id in Merged(documents) && Merged(documents)[documents[i].id] == documents[i].pack
    decreases |documents|
  {
    if i < |documents| - 1 { MergedHolds(documents[..|documents| - 1], i); }
  }

  lemma NextName(names: seq<string>, taken: set<string>, document: Document)
    requires Elements(names) == taken && Distinct(names) && document.id !in taken
    ensures Elements(names + [document.id]) == taken + {document.id} && Distinct(names + [document.id])
  {
    ElementsOfAppend(names, [document.id]);
    forall k | 0 <= k < |names| ensures names[k] != document.id { assert names[k] in Elements(names); }
  }

  /** The documents under their ids, in the order they come in. */
  method ReadDocuments(documents: seq<Document>) returns (packs: PackSet, ids: Result<seq<string>, ConfigurationError>)
    ensures ids.Ok? <==> ValidDocuments(documents)
    ensures ids.Ok? ==>
              && packs == Merged(documents) && Elements(ids.value) == packs.Keys && Distinct(ids.value)
              && forall p :: p in packs ==> Distinct(packs[p].takesOver)
    ensures ids.Err? ==>
              || (ids.error == InvalidManifest && exists i :: 0 <= i < |documents| && !ValidManifest(documents[i]))
              || (ids.error == DuplicatePack
                  && exists i, k :: 0 <= i < k < |documents| && documents[i].id == documents[k].id)
  {
    packs := map[];
    var names: seq<string> := [];
    for i := 0 to |documents|
      invariant forall k :: 0 <= k < i ==> ValidManifest(documents[k])
      invariant packs == Merged(documents[..i])
      invariant |names| == i && forall k :: 0 <= k < i ==> names[k] == documents[k].id
      invariant Elements(names) == packs.Keys && Distinct(names)
      invariant forall p :: p in packs ==> Distinct(packs[p].takesOver)
    {
      var document := documents[i];
      if !ValidManifest(document) { return packs, Err(InvalidManifest); }
      if document.id in packs {
        assert document.id in Elements(names);
        return packs, Err(DuplicatePack);
      }
      assert documents[..i + 1][..i] == documents[..i];
      NextName(names, packs.Keys, document);
      packs := packs[document.id := document.pack];
      names := names + [document.id];
    }
    assert documents[..|documents|] == documents;
    ids := Ok(names);
  }

  /** Merge the documents into one pack set, and accept it exactly when every manifest is valid, no id
      is used twice, and every ownership transfer is permitted, unique and respected by dependencies. */
  method LoadPacks(documents: seq<Document>) returns (r: Result<PackSet, ConfigurationError>)
    ensures r.Ok? ==> r.value == Merged(documents)
    ensures r.Ok? <==> ValidDocuments(documents) && Accepted(Merged(documents))
    ensures r.Err? ==> (r.error == InvalidManifest || r.error == DuplicatePack <==> !ValidDocuments(documents))
    ensures r == Err(InvalidManifest) ==> exists i :: 0 <= i < |documents| && !ValidManifest(documents[i])
    ensures r == Err(DuplicatePack) ==> exists i, k :: 0 <= i < k < |documents| && documents[i].id == documents[k].id
    ensures r == Err(ReplacedDependency) ==>
              exists p, q, d :: p in Merged(documents) && d in Merged(documents)[p].dependsOn
                                && Replaces(Merged(documents), q, d)
  {
    var packs, ids := ReadDocuments(documents);
    if ids.Err? { return Err(ids.error); }
    var claims := ReplacementClaims(packs, ids.value);
    if claims.Err? {
      NotAccepted(packs, ids.value);
      return Err(claims.error);
    }
    AcceptedIsChecked(packs, ids.value, claims.value);
    var valid := ValidateReplacementDependencies(packs, claims.value, ids.value);
    r := if valid then Ok(packs) else Err(ReplacedDependency);
  }

  lemma NotAccepted(packs: PackSet, ids: seq<string>)
    requires !(TransfersValid(packs, ids) && UniqueOwners(packs))
    ensures !Accepted(packs)
  {
  }

  // ---------------------------------------------------------------- what is accepted, in full

  /** Pack `p` may take over `b`: it is an active target pack with the packet contract; `b` is another pack, built-in
      and not supplemental, no more strongly enforced and at no other stages; nobody else takes it over, and nobody
      depends on it. */
  ghost predicate Permitted(packs: PackSet, p: string, b: string)
    requires p in packs
  {
    && packs[p].origin == Target && packs[p].status == "active" && packs[p].packetContract
    && b != p && b in packs && packs[b].origin == Builtin && packs[b].role != "supplemental"
    && !(packs[b].enforcement == Blocking && packs[p].enforcement == Advisory)
    && (forall stage :: stage in packs[b].stages ==> stage in packs[p].stages)
    && (forall q :: q in packs && b in packs[q].takesOver ==> q == p)
    && forall q :: q in packs ==> b !in packs[q].dependsOn
  }

  /** A set of packs is accepted exactly when everything that is taken over may be. */
  lemma AcceptedExactlyWhen(packs: PackSet)
    ensures Accepted(packs) <==>
              forall p, b :: p in packs && b in packs[p].takesOver ==> Permitted(packs, p, b)
  {
    forall p, b ensures Replaces(packs, p, b) <==> p in packs && b in packs[p].takesOver {}
    if Accepted(packs) {
      forall p, b | p in packs && b in packs[p].takesOver ensures Permitted(packs, p, b) {
        AcceptedIsPermitted(packs, p, b);
      }
    }
    if forall p, b :: p in packs && b in packs[p].takesOver ==> Permitted(packs, p, b) {
      forall p | p in packs ensures MayOwn(packs[p]) {
        if packs[p].takesOver != [] { assert Permitted(packs, p, packs[p].takesOver[0]); }
      }
      forall p, b | Replaces(packs, p, b) ensures MayReplace(packs, p, b) { assert Permitted(packs, p, b); }
    }
  }

  lemma AcceptedIsPermitted(packs: PackSet, p: string, b: string)
    requires Accepted(packs) && p in packs && b in packs[p].takesOver
    ensures Permitted(packs, p, b)
  {
    assert Replaces(packs, p, b);
    forall q | q in packs && b in packs[q].takesOver ensures q == p { assert Replaces(packs, q, b); }
  }

  /** Documents are valid when each has an id of its own and a command, and takes nothing over twice or without a
      name. */
  lemma DocumentsExactlyWhen(documents: seq<Document>)
    ensures ValidDocuments(documents) <==>
              && (forall i :: 0 <= i < |documents| ==>
                    var d := documents[i];
                    && d.id != "" && |d.pack.commands| > 0
                    && (forall k :: 0 <= k < |d.pack.takesOver| ==> d.pack.takesOver[k] != "")
                    && forall k, m :: 0 <= k < m < |d.pack.takesOver| ==> d.pack.takesOver[k] != d.pack.takesOver[m])
              && forall i, k :: 0 <= i < k < |documents| ==> documents[i].id != documents[k].id
  {
  }
}
