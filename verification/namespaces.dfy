/** Which namespaces count when naming the typed context, and which namespaces
    the query editor imports. */
module Namespaces {
  import opened Wrappers
  import opened Edm

  /** Qualified names of the vocabulary terms whose declaration marks a
      referenced model as annotation-only. */
  const VocabularyTerms: seq<string> := [
    "Org.OData.Core.V1.OptimisticConcurrency",
    "Org.OData.Capabilities.V1.ChangeTracking",
    "Org.OData.Core.V1.AlternateKeys",
    "Org.OData.Authorization.V1.Authorizations",
    "Org.OData.Validation.V1.DerivedTypeConstraint",
    "Org.OData.Community.V1.UrlEscapeFunction"
  ]

  predicate IsVocabularyModel(r: ReferencedModel) {
    exists i :: 0 <= i < |VocabularyTerms| && VocabularyTerms[i] in r.terms
  }

  /** A referenced model that contributes no namespace: the EDM core model or
      a vocabulary model. */
  predicate Skipped(r: ReferencedModel) {
    r.isCoreModel || IsVocabularyModel(r)
  }

  function ElementNamespaces(elements: seq<SchemaElement>): set<string> {
    set e | e in elements :: e.namespace
  }

  /** `refs[i]` is counted and has an element in namespace `x`. */
  predicate Contributes(refs: seq<ReferencedModel>, i: int, x: string) {
    0 <= i < |refs| && !Skipped(refs[i]) && x in ElementNamespaces(refs[i].elements)
  }

  /** Some referenced model in `refs` is counted and has an element in namespace `x`. */
  ghost predicate Counted(refs: seq<ReferencedModel>, x: string) {
    exists i :: Contributes(refs, i, x)
  }

  /** The loop over the referenced models, adding the namespaces of each one
      that is not skipped. */
  function AddReferenced(ns: set<string>, refs: seq<ReferencedModel>): set<string>
    decreases |refs|
  {
    if |refs| == 0 then ns
    else
      var next := if Skipped(refs[0]) then ns else ns + ElementNamespaces(refs[0].elements);
      AddReferenced(next, refs[1..])
  }

  lemma {:induction false} AddReferencedMembers(ns: set<string>, refs: seq<ReferencedModel>, x: string)
    ensures x in AddReferenced(ns, refs) <==> x in ns || Counted(refs, x)
    decreases |refs|
  {
    if |refs| > 0 {
      var next := if Skipped(refs[0]) then ns else ns + ElementNamespaces(refs[0].elements);
      AddReferencedMembers(next, refs[1..], x);
      if x in next && x !in ns {
        assert Contributes(refs, 0, x);
      }
      if exists i :: Contributes(refs[1..], i, x) {
        var i :| Contributes(refs[1..], i, x);
        assert Contributes(refs, i + 1, x);
      }
      if exists i :: Contributes(refs, i, x) {
        var i :| Contributes(refs, i, x);
        if i > 0 {
          assert Contributes(refs[1..], i - 1, x);
        }
      }
    }
  }

  /** `GetNamespacesFromModelTree`: namespaces of the root model's elements and
      of the elements of every referenced model that is not skipped. */
  function NamespacesFromModelTree(m: Model): (r: set<string>)
    ensures ElementNamespaces(m.elements) <= r
    ensures forall x :: x in r <==> x in ElementNamespaces(m.elements) || Counted(m.referenced, x)
  {
    var r := AddReferenced(ElementNamespaces(m.elements), m.referenced);
    forall x ensures x in r <==> x in ElementNamespaces(m.elements) || Counted(m.referenced, x) {
      AddReferencedMembers(ElementNamespaces(m.elements), m.referenced, x);
    }
    r
  }

  /** Adding a skipped model anywhere among the references changes nothing. */
  lemma SkippedModelAddsNothing(m: Model, k: nat, extra: ReferencedModel)
    requires Skipped(extra) && k <= |m.referenced|
    ensures NamespacesFromModelTree(m.(referenced := m.referenced[..k] + [extra] + m.referenced[k..]))
            == NamespacesFromModelTree(m)
  {
    var refs := m.referenced;
    var refs' := refs[..k] + [extra] + refs[k..];
    var m' := m.(referenced := refs');
    forall x ensures Counted(refs', x) <==> Counted(refs, x) {
      if exists i :: Contributes(refs', i, x) {
        var i :| Contributes(refs', i, x);
        if i < k {
          assert Contributes(refs, i, x);
        } else {
          assert i != k;
          assert refs'[i] == refs[i - 1];
          assert Contributes(refs, i - 1, x);
        }
      }
      if exists i :: Contributes(refs, i, x) {
        var i :| Contributes(refs, i, x);
        if i < k {
          assert refs'[i] == refs[i];
          assert Contributes(refs', i, x);
        } else {
          assert refs'[i + 1] == refs[i];
          assert Contributes(refs', i + 1, x);
        }
      }
    }
    assert NamespacesFromModelTree(m') == NamespacesFromModelTree(m);
  }

  /** `GetContainerName`: the container's namespace-qualified name when more than
      one namespace counts, its bare name otherwise. */
  function ContainerName(m: Model): (r: string)
    ensures r == m.container.FullName() <==> |NamespacesFromModelTree(m)| > 1
    ensures r == m.container.name <==> |NamespacesFromModelTree(m)| <= 1
  {
    assert |m.container.FullName()| > |m.container.name|;
    if |NamespacesFromModelTree(m)| > 1 then m.container.FullName() else m.container.name
  }

  lemma TwoElementsCard(a: string, b: string, s: set<string>)
    requires a in s && b in s && a != b
    ensures |s| > 1
  {
    var rest := s - {a};
    assert b in rest;
    assert |rest| >= 1;
    assert |s| == |rest| + 1;
  }

  // ---------------------------------------------------------------------------
  // Worked example: container Demo in namespace NS

  const DemoContainer := EntityContainer("Demo", "NS", [])
  const DemoElements := [SchemaElement(EntityTypeElement, "Person", "NS"), SchemaElement(ContainerElement, "Demo", "NS")]

  /** With a second real namespace from a referenced model the name is
      qualified; when that model is a vocabulary model it is not. */
  lemma DemoContainerNames(other: seq<SchemaElement>)
    requires |other| > 0 && forall e :: e in other ==> e.namespace == "Other"
    ensures ContainerName(Model(map[], DemoContainer, DemoElements,
                                [ReferencedModel(false, other, [])], ["NS"])) == "NS.Demo"
    ensures ContainerName(Model(map[], DemoContainer, DemoElements,
                                [ReferencedModel(false, other, ["Org.OData.Core.V1.OptimisticConcurrency"])], ["NS"])) == "Demo"
  {
    var m1 := Model(map[], DemoContainer, DemoElements, [ReferencedModel(false, other, [])], ["NS"]);
    assert DemoElements[0] in DemoElements;
    assert "NS" in NamespacesFromModelTree(m1);
    assert other[0] in other;
    assert !Skipped(m1.referenced[0]);
    assert Contributes(m1.referenced, 0, "Other");
    TwoElementsCard("NS", "Other", NamespacesFromModelTree(m1));

    var vocabulary := ReferencedModel(false, other, ["Org.OData.Core.V1.OptimisticConcurrency"]);
    var m2 := Model(map[], DemoContainer, DemoElements, [vocabulary], ["NS"]);
    assert VocabularyTerms[0] in vocabulary.terms;
    assert Skipped(vocabulary);
    assert NamespacesFromModelTree(m2) == {"NS"};
  }

  // ---------------------------------------------------------------------------
  // Namespaces imported into queries

  const BaseNamespacePrefix := "LINQPad.User"
  const ClientNamespace := "Microsoft.OData.Client"

  /** The driver's remembered list has to be (re)computed: it was never set, or is empty. */
  predicate NeedsCompute(cache: Option<seq<string>>) {
    cache.None? || |cache.value| == 0
  }

  /** `GetNamespacesToAdd`, with the driver's remembered list as `cache` and the
      root model's `DeclaredNamespaces` as `declared`. The result is also the
      new remembered list. */
  function NamespacesToAdd(cache: Option<seq<string>>, declared: seq<string>): (r: seq<string>)
    ensures |r| > 0
    ensures !NeedsCompute(cache) ==> r == cache.value
    ensures NeedsCompute(cache) ==> r[|r| - 1] == ClientNamespace
    ensures NeedsCompute(cache) && |declared| <= 1 ==> r == [ClientNamespace]
    ensures NeedsCompute(cache) && |declared| > 1 ==>
      |r| == |declared| + 1 && forall i :: 0 <= i < |declared| ==> r[i] == BaseNamespacePrefix + "." + declared[i]
  {
    if NeedsCompute(cache) then
      var prefixed := seq(|declared|, i requires 0 <= i < |declared| => BaseNamespacePrefix + "." + declared[i]);
      (if |prefixed| > 1 then prefixed else []) + [ClientNamespace]
    else cache.value
  }

  /** Once computed, later calls return the remembered list whatever the model says. */
  lemma NamespacesToAddRemembered(cache: Option<seq<string>>, declared: seq<string>, later: seq<string>)
    ensures NamespacesToAdd(Some(NamespacesToAdd(cache, declared)), later) == NamespacesToAdd(cache, declared)
  {
  }

  /** The import rule looks at the root model's declared namespaces only, so a
      qualified container name can come with no model namespace imported. */
  lemma ImportRuleIgnoresReferencedModels(other: seq<SchemaElement>)
    requires |other| > 0 && forall e :: e in other ==> e.namespace == "Other"
    ensures var m := Model(map[], DemoContainer, DemoElements, [ReferencedModel(false, other, [])], ["NS"]);
      ContainerName(m) == m.container.FullName() && NamespacesToAdd(None, m.declaredNamespaces) == [ClientNamespace]
  {
    DemoContainerNames(other);
  }
}
