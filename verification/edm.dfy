/** The already-parsed entity data model (EDM) the driver works on.

    Entity types live in a map indexed by `TypeId`; a type's base type, a
    navigation property's target and an entity set's element type are indices
    into that map, so "the same type" means "the same index" (the driver
    compares type references, not names). */
module Edm {
  import opened Wrappers

  type TypeId = nat

  /** Definition behind a property's type reference: a named type (primitive,
      complex, enum, entity, ...), a definition that exposes no name, or a
      collection of some element type. */
  datatype TypeDef =
    | NamedDef(name: string)
    | UnnamedDef
    | CollectionDef(element: TypeDef)
  {
    predicate IsCollection() { CollectionDef? }
  }

  datatype StructuralProperty = StructuralProperty(name: string, typ: TypeDef)

  /** A navigation property; its declaring type is the entity type whose
      `navigation` list holds it. */
  datatype NavigationProperty = NavigationProperty(name: string, target: TypeId, isCollection: bool)

  /** An entity type with its DECLARED members only (inherited ones live on the
      base types). `keys` names the declared key properties. */
  datatype EntityType = EntityType(
    name: string,
    base: Option<TypeId>,
    structural: seq<StructuralProperty>,
    navigation: seq<NavigationProperty>,
    keys: seq<string>)

  datatype EntitySet = EntitySet(name: string, entityType: TypeId)

  datatype EntityContainer = EntityContainer(name: string, namespace: string, sets: seq<EntitySet>)
  {
    /** `FullName()` of the container: namespace-qualified name. */
    function FullName(): string { namespace + "." + name }
  }

  datatype ElementKind = EntityTypeElement | ComplexTypeElement | EnumTypeElement
                       | TypeDefinitionElement | ActionElement | FunctionElement
                       | ContainerElement | TermElement

  /** An entry of a model's `SchemaElements`. */
  datatype SchemaElement = SchemaElement(kind: ElementKind, name: string, namespace: string)

  /** A model referenced by the root model. `isCoreModel` marks the built-in EDM
      core model; `terms` are the qualified names of the terms it declares. */
  datatype ReferencedModel = ReferencedModel(isCoreModel: bool, elements: seq<SchemaElement>, terms: seq<string>)

  /** The root model. `declaredNamespaces` is the model's `DeclaredNamespaces`
      (the namespaces of the schemas of the root document). */
  datatype Model = Model(
    types: map<TypeId, EntityType>,
    container: EntityContainer,
    elements: seq<SchemaElement>,
    referenced: seq<ReferencedModel>,
    declaredNamespaces: seq<string>)

  type Types = map<TypeId, EntityType>

  /** The base-type chain starting at `t` reaches a type without a base within
      `n` steps, every type on the way being defined. */
  predicate EndsWithin(types: Types, t: TypeId, n: nat)
    decreases n
  {
    && t in types
    && match types[t].base
       case None => true
       case Some(b) => n > 0 && EndsWithin(types, b, n - 1)
  }

  /** No base-type chain is cyclic: a chain longer than the number of types would
      have to revisit one. */
  predicate Acyclic(types: Types) {
    forall t :: t in types ==> EndsWithin(types, t, |types|)
  }

  /** Number of base steps from `t` to the root of its chain. */
  function DepthWithin(types: Types, t: TypeId, n: nat): nat
    requires EndsWithin(types, t, n)
    decreases n
  {
    match types[t].base
    case None => 0
    case Some(b) => 1 + DepthWithin(types, b, n - 1)
  }

  /** A larger step budget neither breaks the bound nor changes the depth. */
  lemma {:induction false} DepthWithinStable(types: Types, t: TypeId, n: nat, n': nat)
    requires EndsWithin(types, t, n) && n <= n'
    ensures EndsWithin(types, t, n')
    ensures DepthWithin(types, t, n') == DepthWithin(types, t, n)
    decreases n
  {
    match types[t].base
    case None =>
    case Some(b) => DepthWithinStable(types, b, n - 1, n' - 1);
  }

  /** Depth of `t` in an acyclic type map: the measure of the base-type walk. */
  function Depth(types: Types, t: TypeId): nat
    requires Acyclic(types) && t in types
  {
    DepthWithin(types, t, |types|)
  }

  /** One base step lowers the depth by exactly one. */
  lemma BaseDepth(types: Types, t: TypeId)
    requires Acyclic(types) && t in types && types[t].base.Some?
    ensures types[t].base.value in types
    ensures Depth(types, types[t].base.value) + 1 == Depth(types, t)
  {
    var b := types[t].base.value;
    DepthWithinStable(types, b, |types| - 1, |types|);
  }

  /** The inheritance chain of `t`: `t`, its base, the base's base, ... up to a
      type without a base. This is the sequence of levels the schema walk visits. */
  function Chain(types: Types, t: TypeId): (c: seq<TypeId>)
    requires Acyclic(types) && t in types
    ensures |c| == Depth(types, t) + 1
    ensures c[0] == t
    ensures forall i :: 0 <= i < |c| ==> c[i] in types
    ensures forall i :: 0 <= i < |c| - 1 ==> types[c[i]].base == Some(c[i + 1])
    ensures types[c[|c| - 1]].base.None?
    decreases Depth(types, t)
  {
    match types[t].base
    case None => [t]
    case Some(b) =>
      BaseDepth(types, t);
      [t] + Chain(types, b)
  }

  /** Along the chain each level is one step shallower than the previous one. */
  lemma {:induction false} ChainDepths(types: Types, t: TypeId, i: nat)
    requires Acyclic(types) && t in types && i < |Chain(types, t)|
    ensures Depth(types, Chain(types, t)[i]) == Depth(types, t) - i
    decreases i
  {
    if i > 0 {
      var b := types[t].base.value;
      BaseDepth(types, t);
      assert Chain(types, t)[i] == Chain(types, b)[i - 1];
      ChainDepths(types, b, i - 1);
    }
  }

  /** The walk over an acyclic map never visits a type twice. */
  lemma ChainDistinct(types: Types, t: TypeId)
    requires Acyclic(types) && t in types
    ensures forall i, j :: 0 <= i < j < |Chain(types, t)| ==> Chain(types, t)[i] != Chain(types, t)[j]
  {
    forall i, j | 0 <= i < j < |Chain(types, t)|
      ensures Chain(types, t)[i] != Chain(types, t)[j]
    {
      ChainDepths(types, t, i);
      ChainDepths(types, t, j);
    }
  }

  /** Two types that are each other's base are not acyclic: the walk from either
      of them would never end. */
  lemma TwoCycleIsNotAcyclic(a: EntityType, b: EntityType)
    requires a.base == Some(1) && b.base == Some(0)
    ensures !Acyclic(map[0 := a, 1 := b])
  {
    var types := map[0 := a, 1 := b];
    assert |types| == 2 by { assert types.Keys == {0, 1}; }
    assert !EndsWithin(types, 0, 0);
    assert !EndsWithin(types, 1, 1);
    assert !EndsWithin(types, 0, 2);
  }

  /** Everything the schema walk dereferences is defined. */
  predicate WellFormed(m: Model) {
    && Acyclic(m.types)
    && (forall t, i :: t in m.types && 0 <= i < |m.types[t].navigation| ==> m.types[t].navigation[i].target in m.types)
    && (forall s :: s in m.container.sets ==> s.entityType in m.types)
  }
}
