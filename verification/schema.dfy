/** Projection of an entity data model into the explorer tree LINQPad shows:
    entity-set nodes (sorted by name) with their columns and relationship
    links, followed by one node per action. */
module SchemaProjection {
  import opened Wrappers
  import opened Seqs
  import opened Edm
  import opened NameOrder

  datatype ItemKind = QueryableObject | Property | CollectionLink | ReferenceLink

  datatype Icon = Table | ScalarFunction | Key | Column | OneToOne | OneToMany | ManyToOne | ManyToMany

  /** A node of the explorer tree. `hyperlink` is a weak cross-reference: the
      position, in the top-level list, of the node a relationship points to.
      `tag` is the entity type a set node stands for. Unset properties of the
      driver's node are `None` / `false` / empty. */
  datatype ExplorerItem = ExplorerItem(
    text: string,
    kind: ItemKind,
    icon: Icon,
    isEnumerable: bool,
    toolTip: Option<string>,
    dragText: Option<string>,
    hyperlink: Option<nat>,
    tag: Option<TypeId>,
    children: seq<ExplorerItem>)

  // ---------------------------------------------------------------------------
  // Type names

  /** Display name of a property's type: the definition's name, or
      `Collection(<element name>)` for a collection; `None` (C#'s null)
      when the relevant definition has no name. */
  function TypeName(t: TypeDef): (r: Option<string>)
    ensures r.Some? <==> (t.NamedDef? || (t.CollectionDef? && t.element.NamedDef?))
    ensures t.CollectionDef? && r.Some? ==>
      |r.value| >= 12 && r.value[..11] == "Collection(" && r.value[|r.value| - 1] == ')'

  {
    match t
    case NamedDef(n) => Some(n)
    case UnnamedDef => None
    case CollectionDef(e) =>
      match e
      case NamedDef(n) => Some("Collection(" + n + ")")
      case _ => None
  }

  /** Reads a rendered type name back: whether it denotes a collection, and the
      (element) type name. */
  function ParseTypeName(s: string): (bool, string) {
    var open := "Collection(";
    if |s| > |open| && s[..|open|] == open && s[|s| - 1] == ')' then (true, s[|open|..|s| - 1])
    else (false, s)
  }

  /** Rendering loses nothing for EDM names, which never contain a parenthesis:
      the rendered text gives back the collection flag and the (element) name. */
  lemma TypeNameRoundTrip(t: TypeDef)
    requires TypeName(t).Some?
    requires t.NamedDef? ==> '(' !in t.name
    ensures ParseTypeName(TypeName(t).value)
            == (t.IsCollection(), if t.CollectionDef? then t.element.name else t.name)
  {
    var open := "Collection(";
    match t
    case NamedDef(n) =>
      if |n| > |open| {
        assert n[10] in n;
        assert n[..|open|][10] != open[10];
      }
    case CollectionDef(e) =>
      var s := open + e.name + ")";
      assert s[..|open|] == open;
      assert s[|open|..|s| - 1] == e.name;
  }

  // ---------------------------------------------------------------------------
  // Column nodes

  /** Column node for structural property `p` declared on `level`. */
  function StructuralItem(level: EntityType, p: StructuralProperty): (r: ExplorerItem)
    ensures r.icon == Key <==> p.name in level.keys
    ensures r.icon == Key || r.icon == Column
    ensures r.kind == Property && r.dragText == Some(p.name) && r.children == []
    ensures r.hyperlink.None? && r.tag.None? && r.toolTip.None?
    ensures r.text == p.name + " (" + TypeName(p.typ).GetOr("") + ")"
  {
    var icon := if p.name in level.keys then Key else Column;
    var text := p.name + " (" + TypeName(p.typ).GetOr("") + ")";
    ExplorerItem(text, Property, icon, false, None, Some(p.name), None, None, [])
  }

  // ---------------------------------------------------------------------------
  // Relationship nodes

  /** The relationship's far end (the targets) is "many". */
  predicate FarIsMany(icon: Icon) { icon == ManyToMany || icon == OneToMany }

  /** The relationship's near end (the declaring side, seen from the target) is "many". */
  predicate NearIsMany(icon: Icon) { icon == ManyToMany || icon == ManyToOne }

  predicate IsCardinality(icon: Icon) {
    icon == OneToOne || icon == OneToMany || icon == ManyToOne || icon == ManyToMany
  }

  /** Icon of a relationship from its own collection-ness and, when a partner
      exists, the partner's collection-ness. */
  function NavigationIcon(isCollection: bool, partnerIsCollection: Option<bool>): (icon: Icon)
    ensures partnerIsCollection.None? <==> icon == Column
    ensures partnerIsCollection.Some? ==> IsCardinality(icon)
    ensures partnerIsCollection.Some? ==> FarIsMany(icon) == isCollection
    ensures partnerIsCollection.Some? ==> NearIsMany(icon) == partnerIsCollection.value
  {
    match partnerIsCollection
    case None => Column
    case Some(partnerMany) =>
      if isCollection then (if partnerMany then ManyToMany else OneToMany)
      else (if partnerMany then ManyToOne else OneToOne)
  }

  /** Seeing the relationship from the other end swaps one-to-many and
      many-to-one and keeps one-to-one and many-to-many. */
  function Reversed(icon: Icon): Icon {
    match icon
    case OneToMany => ManyToOne
    case ManyToOne => OneToMany
    case other => other
  }

  lemma CardinalitySwap(a: bool, b: bool)
    ensures NavigationIcon(a, Some(b)) == Reversed(NavigationIcon(b, Some(a)))
    ensures (a && b) <==> NavigationIcon(a, Some(b)) == ManyToMany
    ensures (!a && !b) <==> NavigationIcon(a, Some(b)) == OneToOne
  {
  }

  /** Position of the first link in `links` that targets `t`. */
  function FirstLinkTo(links: seq<NavigationProperty>, t: TypeId): (r: Option<nat>)
    ensures r.Some? ==> r.value < |links| && links[r.value].target == t
    ensures r.Some? ==> forall j :: 0 <= j < r.value ==> links[j].target != t
    ensures r.None? <==> forall j :: 0 <= j < |links| ==> links[j].target != t
  {
    if |links| == 0 then None
    else if links[0].target == t then Some(0)
    else match FirstLinkTo(links[1..], t)
      case None => None
      case Some(k) => Some(k + 1)
  }

  /** Position of the first node in `sets` tagged with entity type `t`. */
  function FirstTagged(sets: seq<ExplorerItem>, t: TypeId): (r: Option<nat>)
    ensures r.Some? ==> r.value < |sets| && sets[r.value].tag == Some(t)
    ensures r.Some? ==> forall i :: 0 <= i < r.value ==> sets[i].tag != Some(t)
    ensures r.None? <==> forall i :: 0 <= i < |sets| ==> sets[i].tag != Some(t)
  {
    if |sets| == 0 then None
    else if sets[0].tag == Some(t) then Some(0)
    else match FirstTagged(sets[1..], t)
      case None => None
      case Some(k) => Some(k + 1)
  }

  /** Position of `p`'s partner: the first navigation property declared on
      `p`'s target type that points back at `declaring`. */
  function Partner(m: Model, declaring: TypeId, p: NavigationProperty): (r: Option<nat>)
    requires p.target in m.types
    ensures var back := m.types[p.target].navigation;
      && (r.Some? ==> r.value < |back| && back[r.value].target == declaring)
      && (r.Some? ==> forall j :: 0 <= j < r.value ==> back[j].target != declaring)
      && (r.None? <==> forall j :: 0 <= j < |back| ==> back[j].target != declaring)
  {
    FirstLinkTo(m.types[p.target].navigation, declaring)
  }

  /** Relationship node for navigation property `p` declared on `declaring`;
      `sets` are the top-level set nodes its hyperlink may point at. */
  function NavigationItem(m: Model, declaring: TypeId, p: NavigationProperty, sets: seq<ExplorerItem>): (r: ExplorerItem)
    requires p.target in m.types
    ensures r.kind == (if p.isCollection then CollectionLink else ReferenceLink)
    ensures r.text == p.name && r.dragText == Some(p.name) && r.children == []
    ensures r.toolTip == Some(m.types[p.target].name)
    ensures r.icon == Column || IsCardinality(r.icon)
    ensures r.hyperlink.Some? ==> r.hyperlink.value < |sets| && sets[r.hyperlink.value].tag == Some(p.target)
    ensures r.hyperlink.Some? ==> forall i :: 0 <= i < r.hyperlink.value ==> sets[i].tag != Some(p.target)
    ensures r.hyperlink.None? <==> forall i :: 0 <= i < |sets| ==> sets[i].tag != Some(p.target)
  {
    var back := m.types[p.target].navigation;
    var partner := Partner(m, declaring, p);
    var partnerIsCollection := if partner.Some? then Some(back[partner.value].isCollection) else None;
    var kind := if p.isCollection then CollectionLink else ReferenceLink;
    var link := FirstTagged(sets, p.target);
    ExplorerItem(p.name, kind, NavigationIcon(p.isCollection, partnerIsCollection), false,
                 Some(m.types[p.target].name), Some(p.name), link, None, [])
  }

  /** The relationship icon: plain exactly when the target type declares no
      link back to `declaring`; otherwise the first such link is the partner,
      and the icon's far end follows `p` and its near end the partner. */
  lemma NavigationPartner(m: Model, declaring: TypeId, p: NavigationProperty, sets: seq<ExplorerItem>)
    requires p.target in m.types
    ensures var r := NavigationItem(m, declaring, p, sets); var back := m.types[p.target].navigation;
      r.icon == Column <==> forall j :: 0 <= j < |back| ==> back[j].target != declaring
    ensures var r := NavigationItem(m, declaring, p, sets); var back := m.types[p.target].navigation;
      forall j :: 0 <= j < |back| && back[j].target == declaring
                  && (forall i :: 0 <= i < j ==> back[i].target != declaring)
               ==> FarIsMany(r.icon) == p.isCollection && NearIsMany(r.icon) == back[j].isCollection
    ensures var r := NavigationItem(m, declaring, p, sets);
      && (r.icon == Column <==> Partner(m, declaring, p).None?)
      && (Partner(m, declaring, p).Some? ==>
            r.icon == NavigationIcon(p.isCollection,
                                     Some(m.types[p.target].navigation[Partner(m, declaring, p).value].isCollection)))
  {
  }

  /** When a type's first navigation property overall (`navigation[0]`)
      targets the type itself, that property is its own partner, so it shows
      one-to-one or many-to-many whatever the type's other links are. */
  lemma SelfReferenceIsOwnPartner(m: Model, d: TypeId, sets: seq<ExplorerItem>)
    requires d in m.types && |m.types[d].navigation| > 0
    requires m.types[d].navigation[0].target == d
    ensures var p := m.types[d].navigation[0];
      NavigationItem(m, d, p, sets).icon == (if p.isCollection then ManyToMany else OneToOne)
  {
  }

  // ---------------------------------------------------------------------------
  // Children of a set node

  /** Names of the members a type declares: structural first, then navigation. */
  function DeclaredNames(e: EntityType): (r: seq<string>)
    ensures |r| == |e.structural| + |e.navigation|
  {
    seq(|e.structural|, i requires 0 <= i < |e.structural| => e.structural[i].name)
      + seq(|e.navigation|, i requires 0 <= i < |e.navigation| => e.navigation[i].name)
  }

  /** Member names of the levels `chain`, level by level. */
  function ChainNames(types: Types, chain: seq<TypeId>): seq<string>
    requires forall i :: 0 <= i < |chain| ==> chain[i] in types
  {
    if |chain| == 0 then [] else DeclaredNames(types[chain[0]]) + ChainNames(types, chain[1..])
  }

  /** Number of members declared over the levels `chain`. */
  function ChainCount(types: Types, chain: seq<TypeId>): nat
    requires forall i :: 0 <= i < |chain| ==> chain[i] in types
  {
    if |chain| == 0 then 0
    else |types[chain[0]].structural| + |types[chain[0]].navigation| + ChainCount(types, chain[1..])
  }

  /** Column nodes for the structural properties `props` a level declares. */
  function StructuralItems(e: EntityType, props: seq<StructuralProperty>): (r: seq<ExplorerItem>)
    ensures |r| == |props|
  {
    if |props| == 0 then [] else [StructuralItem(e, props[0])] + StructuralItems(e, props[1..])
  }

  /** The `i`-th column node is the one for the `i`-th property. */
  lemma {:induction false} StructuralItemsAt(e: EntityType, props: seq<StructuralProperty>, i: nat)
    requires i < |props|
    ensures StructuralItems(e, props)[i] == StructuralItem(e, props[i])
  {
    if i > 0 {
      StructuralItemsAt(e, props[1..], i - 1);
    }
  }

  /** Relationship nodes for the navigation properties `props` declared on
      `declaring`. */
  function NavigationItems(m: Model, declaring: TypeId, props: seq<NavigationProperty>, sets: seq<ExplorerItem>): (r: seq<ExplorerItem>)
    requires forall i :: 0 <= i < |props| ==> props[i].target in m.types
    ensures |r| == |props|
  {
    if |props| == 0 then []
    else [NavigationItem(m, declaring, props[0], sets)] + NavigationItems(m, declaring, props[1..], sets)
  }

  /** The `i`-th relationship node is the one for the `i`-th property. */
  lemma {:induction false} NavigationItemsAt(m: Model, declaring: TypeId, props: seq<NavigationProperty>, sets: seq<ExplorerItem>, i: nat)
    requires forall i :: 0 <= i < |props| ==> props[i].target in m.types
    requires i < |props|
    ensures NavigationItems(m, declaring, props, sets)[i] == NavigationItem(m, declaring, props[i], sets)
  {
    if i > 0 {
      NavigationItemsAt(m, declaring, props[1..], sets, i - 1);
    }
  }

  /** Child nodes contributed by one level: its declared structural properties,
      then its declared navigation properties. */
  function LevelItems(m: Model, level: TypeId, sets: seq<ExplorerItem>): (r: seq<ExplorerItem>)
    requires WellFormed(m) && level in m.types
    ensures |r| == |DeclaredNames(m.types[level])|
  {
    var e := m.types[level];
    StructuralItems(e, e.structural) + NavigationItems(m, level, e.navigation, sets)
  }

  /** Child `i` of a level is the column node of its `i`-th structural
      property or, past those, the relationship node of the matching
      navigation property, looked up against this level. */
  lemma LevelAt(m: Model, level: TypeId, sets: seq<ExplorerItem>, i: nat)
    requires WellFormed(m) && level in m.types
    requires i < |DeclaredNames(m.types[level])|
    ensures var e := m.types[level]; var n := |e.structural|;
      LevelItems(m, level, sets)[i]
      == if i < n then StructuralItem(e, e.structural[i]) else NavigationItem(m, level, e.navigation[i - n], sets)
  {
    var e := m.types[level];
    var columns := StructuralItems(e, e.structural);
    var links := NavigationItems(m, level, e.navigation, sets);
    if i < |columns| {
      StructuralItemsAt(e, e.structural, i);
      PrefixAt(columns, links, i);
    } else {
      NavigationItemsAt(m, level, e.navigation, sets, i - |columns|);
      AppendAt(columns, links, i - |columns|);
    }
  }

  /** Each child of a level is dragged as the name of the member it shows;
      columns are properties without a link, and relationships are links
      whose target, when there is one, is a set node of the related type. */
  lemma LevelMember(m: Model, level: TypeId, sets: seq<ExplorerItem>, i: nat)
    requires WellFormed(m) && level in m.types
    requires i < |DeclaredNames(m.types[level])|
    ensures var e := m.types[level]; var c := LevelItems(m, level, sets)[i];
      && c.dragText == Some(DeclaredNames(e)[i])
      && (i < |e.structural| ==> c.kind == Property && c.hyperlink.None?)
      && (|e.structural| <= i ==>
            && (c.kind == CollectionLink || c.kind == ReferenceLink)
            && (c.hyperlink.Some? ==>
                  c.hyperlink.value < |sets|
                  && sets[c.hyperlink.value].tag == Some(e.navigation[i - |e.structural|].target)))
  {
    LevelAt(m, level, sets, i);
  }

  /** The `i`-th column child of a level is a key exactly when the level itself
      declares that column a key. */
  lemma LevelKey(m: Model, level: TypeId, sets: seq<ExplorerItem>, i: nat)
    requires WellFormed(m) && level in m.types
    requires i < |m.types[level].structural|
    ensures var e := m.types[level];
      LevelItems(m, level, sets)[i].icon == Key <==> e.structural[i].name in e.keys
  {
    LevelAt(m, level, sets, i);
  }

  /** The child for the `j`-th link a level declares looks for its partner
      against that level: it shows a cardinality exactly when the target type
      declares a link back to the level, and then the cardinality of the
      first such link. */
  lemma LevelPartner(m: Model, level: TypeId, sets: seq<ExplorerItem>, j: nat)
    requires WellFormed(m) && level in m.types
    requires j < |m.types[level].navigation|
    ensures var e := m.types[level]; var p := e.navigation[j];
      var c := LevelItems(m, level, sets)[|e.structural| + j];
      && (c.icon == Column <==> Partner(m, level, p).None?)
      && (Partner(m, level, p).Some? ==>
            c.icon == NavigationIcon(p.isCollection,
                                     Some(m.types[p.target].navigation[Partner(m, level, p).value].isCollection)))
  {
    var e := m.types[level];
    LevelAt(m, level, sets, |e.structural| + j);
    NavigationPartner(m, level, e.navigation[j], sets);
  }

  /** Child nodes of the levels `chain`, level by level. */
  function ChainItems(m: Model, chain: seq<TypeId>, sets: seq<ExplorerItem>): (r: seq<ExplorerItem>)
    requires WellFormed(m) && forall i :: 0 <= i < |chain| ==> chain[i] in m.types
    ensures |r| == ChainCount(m.types, chain)
  {
    if |chain| == 0 then [] else LevelItems(m, chain[0], sets) + ChainItems(m, chain[1..], sets)
  }

  /** `ChainItems` of a non-empty chain: the first level's children, then the rest's. */
  lemma ChainItemsCons(m: Model, chain: seq<TypeId>, sets: seq<ExplorerItem>)
    requires WellFormed(m) && forall i :: 0 <= i < |chain| ==> chain[i] in m.types
    requires |chain| > 0
    ensures ChainItems(m, chain, sets) == LevelItems(m, chain[0], sets) + ChainItems(m, chain[1..], sets)
  {
  }

  /** Each child of a chain is dragged as the name of the member it shows,
      level by level. */
  lemma {:induction false} ChainItemsNames(m: Model, chain: seq<TypeId>, sets: seq<ExplorerItem>)
    requires WellFormed(m) && forall i :: 0 <= i < |chain| ==> chain[i] in m.types
    ensures |ChainItems(m, chain, sets)| == |ChainNames(m.types, chain)|
    ensures forall i :: 0 <= i < |ChainItems(m, chain, sets)| ==>
      ChainItems(m, chain, sets)[i].dragText == Some(ChainNames(m.types, chain)[i])
  {
    if |chain| > 0 {
      ChainItemsNames(m, chain[1..], sets);
      ChainItemsCons(m, chain, sets);
      var head := LevelItems(m, chain[0], sets);
      var tail := ChainItems(m, chain[1..], sets);
      var names := ChainNames(m.types, chain);
      assert names == DeclaredNames(m.types[chain[0]]) + ChainNames(m.types, chain[1..]);
      var items: seq<ExplorerItem> := head + tail;
      forall i | 0 <= i < |items| ensures items[i].dragText == Some(names[i]) {
        if i < |head| {
          LevelMember(m, chain[0], sets, i);
          PrefixAt(head, tail, i);
        } else {
          AppendAt(head, tail, i - |head|);
        }
      }
    }
  }

  /** Every link among a chain's children points at a tagged node of `sets`. */
  lemma {:induction false} ChainItemsLinks(m: Model, chain: seq<TypeId>, sets: seq<ExplorerItem>)
    requires WellFormed(m) && forall i :: 0 <= i < |chain| ==> chain[i] in m.types
    ensures forall i :: 0 <= i < |ChainItems(m, chain, sets)| && ChainItems(m, chain, sets)[i].hyperlink.Some? ==>
      ChainItems(m, chain, sets)[i].hyperlink.value < |sets| && sets[ChainItems(m, chain, sets)[i].hyperlink.value].tag.Some?
  {
    if |chain| > 0 {
      ChainItemsLinks(m, chain[1..], sets);
      ChainItemsCons(m, chain, sets);
      var head := LevelItems(m, chain[0], sets);
      var tail := ChainItems(m, chain[1..], sets);
      var items: seq<ExplorerItem> := head + tail;
      forall i | 0 <= i < |items| && items[i].hyperlink.Some?
        ensures items[i].hyperlink.value < |sets| && sets[items[i].hyperlink.value].tag.Some?
      {
        if i < |head| {
          LevelMember(m, chain[0], sets, i);
          PrefixAt(head, tail, i);
        } else {
          AppendAt(head, tail, i - |head|);
        }
      }
    }
  }

  /** The members before level `k` are those of the first level and those
      before level `k - 1` of the rest. */
  lemma ChainCountCons(types: Types, chain: seq<TypeId>, k: nat)
    requires forall i :: 0 <= i < |chain| ==> chain[i] in types
    requires 0 < k <= |chain|
    ensures ChainCount(types, chain[..k])
            == |types[chain[0]].structural| + |types[chain[0]].navigation| + ChainCount(types, chain[1..][..k - 1])
  {
    assert chain[..k][1..] == chain[1..][..k - 1];
  }

  /** The children of level `chain[k]` sit, in order, after those of the
      levels before it. */
  lemma {:induction false} ChainItemsAt(m: Model, chain: seq<TypeId>, sets: seq<ExplorerItem>, k: nat, j: nat)
    requires WellFormed(m) && forall i :: 0 <= i < |chain| ==> chain[i] in m.types
    requires k < |chain| && j < |DeclaredNames(m.types[chain[k]])|
    ensures ChainCount(m.types, chain[..k]) + j < |ChainItems(m, chain, sets)|
    ensures ChainItems(m, chain, sets)[ChainCount(m.types, chain[..k]) + j] == LevelItems(m, chain[k], sets)[j]
    decreases k
  {
    var head := LevelItems(m, chain[0], sets);
    var tail := ChainItems(m, chain[1..], sets);
    if k == 0 {
      assert chain[..0] == [];
      ChainItemsCons(m, chain, sets);
      PrefixAt(head, tail, j);
    } else {
      var rest := chain[1..];
      assert rest[k - 1] == chain[k];
      ChainCountCons(m.types, chain, k);
      ChainItemsAt(m, rest, sets, k - 1, j);
      ChainItemsCons(m, chain, sets);
      AppendAt(head, tail, ChainCount(m.types, rest[..k - 1]) + j);
    }
  }

  /** With no member name repeated along the chain, no two children coincide. */
  lemma ChildrenDistinct(m: Model, chain: seq<TypeId>, sets: seq<ExplorerItem>)
    requires WellFormed(m) && forall i :: 0 <= i < |chain| ==> chain[i] in m.types
    requires forall i, j :: 0 <= i < j < |ChainNames(m.types, chain)| ==> ChainNames(m.types, chain)[i] != ChainNames(m.types, chain)[j]
    ensures forall i, j :: 0 <= i < j < |ChainItems(m, chain, sets)| ==> ChainItems(m, chain, sets)[i] != ChainItems(m, chain, sets)[j]
  {
    ChainItemsNames(m, chain, sets);
  }

  // ---------------------------------------------------------------------------
  // Top level

  /** Set node for entity set `s`, before its children are attached. */
  function SetNode(m: Model, s: EntitySet): (r: ExplorerItem)
    requires s.entityType in m.types
    ensures r.text == s.name && r.dragText == Some(s.name) && r.tag == Some(s.entityType)
    ensures r.kind == QueryableObject && r.icon == Table && r.isEnumerable
    ensures r.toolTip == Some(m.types[s.entityType].name)
  {
    ExplorerItem(s.name, QueryableObject, Table, true, Some(m.types[s.entityType].name),
                 Some(s.name), None, Some(s.entityType), [])
  }

  /** The schema elements that are actions, in declaration order (functions and
      every other kind of element are dropped). */
  function Actions(elements: seq<SchemaElement>): (r: seq<SchemaElement>)
    ensures forall i :: 0 <= i < |r| ==> r[i].kind == ActionElement && r[i] in elements
    ensures forall e :: e in elements && e.kind == ActionElement ==> e in r
    ensures |r| <= |elements|
  {
    if |elements| == 0 then []
    else (if elements[0].kind == ActionElement then [elements[0]] else []) + Actions(elements[1..])
  }

  /** Filtering distributes over concatenation, so actions keep their
      declaration order. */
  lemma {:induction false} ActionsAppend(a: seq<SchemaElement>, b: seq<SchemaElement>)
    ensures Actions(a + b) == Actions(a) + Actions(b)
    decreases |a|
  {
    if |a| > 0 {
      var h := if a[0].kind == ActionElement then [a[0]] else [];
      assert (a + b)[0] == a[0] && (a + b)[1..] == a[1..] + b;
      assert Actions(a + b) == h + Actions(a[1..] + b);
      ActionsAppend(a[1..], b);
      assert h + (Actions(a[1..]) + Actions(b)) == (h + Actions(a[1..])) + Actions(b);
    } else {
      assert a + b == b;
    }
  }

  function ActionNode(e: SchemaElement): (r: ExplorerItem)
    ensures r.text == e.name && r.kind == QueryableObject && r.icon == ScalarFunction
    ensures r.children == [] && r.tag.None? && r.hyperlink.None? && !r.isEnumerable
  {
    ExplorerItem(e.name, QueryableObject, ScalarFunction, false, None, None, None, None, [])
  }

  /** Set nodes of the name-sorted entity sets, without children. */
  function SetNodes(m: Model): (r: seq<ExplorerItem>)
    requires WellFormed(m)
    ensures |r| == |m.container.sets|
    ensures forall i :: 0 <= i < |r| ==> r[i] == SetNode(m, SortByName(m.container.sets)[i])
  {
    var sorted := SortByName(m.container.sets);
    assert forall i :: 0 <= i < |sorted| ==> sorted[i].entityType in m.types;
    seq(|sorted|, i requires 0 <= i < |sorted| => SetNode(m, sorted[i]))
  }

  /** Set nodes of the name-sorted entity sets, each with the children found
      by walking its entity type's base chain. */
  function SetItems(m: Model): (r: seq<ExplorerItem>)
    requires WellFormed(m)
    ensures |r| == |m.container.sets|
    ensures forall i :: 0 <= i < |r| ==>
      var s := SortByName(m.container.sets)[i];
      && r[i].text == s.name && r[i].tag == Some(s.entityType)
      && r[i].kind == QueryableObject && r[i].icon == Table && r[i].isEnumerable
      && r[i].children == ChainItems(m, Chain(m.types, s.entityType), SetNodes(m))
  {
    var sorted := SortByName(m.container.sets);
    var nodes := SetNodes(m);
    var r := seq(|sorted|, i requires 0 <= i < |sorted| =>
      nodes[i].(children := ChainItems(m, Chain(m.types, sorted[i].entityType), nodes)));
    assert forall i :: 0 <= i < |r| ==>
      var s := sorted[i];
      && r[i].text == s.name && r[i].tag == Some(s.entityType)
      && r[i].kind == QueryableObject && r[i].icon == Table && r[i].isEnumerable
      && r[i].children == ChainItems(m, Chain(m.types, s.entityType), nodes)
    by {
      forall i | 0 <= i < |r|
        ensures r[i].text == sorted[i].name && r[i].tag == Some(sorted[i].entityType)
        ensures r[i].kind == QueryableObject && r[i].icon == Table && r[i].isEnumerable
        ensures r[i].children == ChainItems(m, Chain(m.types, sorted[i].entityType), nodes)
      {
        assert nodes[i] == SetNode(m, sorted[i]);
      }
    }
    r
  }

  /** `GetSchema`: the explorer tree of a model. */
  function GetSchema(m: Model): (r: seq<ExplorerItem>)
    requires WellFormed(m)
    ensures |r| == |m.container.sets| + |Actions(m.elements)|
    // the set nodes come first, in the stable name order of the container's sets
    ensures r[..|m.container.sets|] == SetItems(m)
    // then one node per action, in declaration order
    ensures forall j :: 0 <= j < |Actions(m.elements)| ==>
      r[|m.container.sets| + j] == ActionNode(Actions(m.elements)[j])
  {
    var sets := SetItems(m);
    var actions := Actions(m.elements);
    var actionItems := seq(|actions|, j requires 0 <= j < |actions| => ActionNode(actions[j]));
    assert (sets + actionItems)[..|sets|] == sets;
    sets + actionItems
  }

  /** The `i`-th top-level node is the set node of the `i`-th name-sorted set,
      with its children attached: tooltip, drag text and tag are those of
      `SetNode`, and it carries no hyperlink. */
  lemma SetItemIsSetNode(m: Model, i: nat)
    requires WellFormed(m) && i < |m.container.sets|
    ensures GetSchema(m)[i] == SetNode(m, SortByName(m.container.sets)[i]).(children := GetSchema(m)[i].children)
  {
    assert GetSchema(m)[i] == SetItems(m)[i];
  }

  /** The top-level set nodes appear in ascending name order and are exactly
      the container's sets (same names and types, same multiplicities). */
  lemma SchemaSetsSorted(m: Model)
    requires WellFormed(m)
    ensures forall i, j :: 0 <= i <= j < |m.container.sets| ==> NameLe(GetSchema(m)[i].text, GetSchema(m)[j].text)
    ensures multiset(seq(|m.container.sets|, i requires 0 <= i < |m.container.sets| =>
              EntitySet(GetSchema(m)[i].text, GetSchema(m)[i].tag.value))) == multiset(m.container.sets)
  {
    var r := GetSchema(m);
    var sorted := SortByName(m.container.sets);
    forall i | 0 <= i < |m.container.sets| ensures r[i].text == sorted[i].name && r[i].tag == Some(sorted[i].entityType) {
      SetItemIsSetNode(m, i);
    }
    forall i, j | 0 <= i <= j < |m.container.sets| ensures NameLe(r[i].text, r[j].text) {
      SortedAllPairs(sorted, i, j);
    }
    assert seq(|m.container.sets|, i requires 0 <= i < |m.container.sets| =>
             EntitySet(r[i].text, r[i].tag.value)) == sorted;
  }

  /** Every relationship link of the tree points at a top-level set node. */
  lemma HyperlinksTargetSetNodes(m: Model)
    requires WellFormed(m)
    ensures forall i, c :: 0 <= i < |m.container.sets| && 0 <= c < |GetSchema(m)[i].children|
                           && GetSchema(m)[i].children[c].hyperlink.Some? ==>
      var h := GetSchema(m)[i].children[c].hyperlink.value;
      h < |m.container.sets| && GetSchema(m)[h].tag.Some? && GetSchema(m)[h].icon == Table
  {
    var r := GetSchema(m);
    var n := |m.container.sets|;
    forall i, c | 0 <= i < n && 0 <= c < |r[i].children| && r[i].children[c].hyperlink.Some?
      ensures r[i].children[c].hyperlink.value < n
      ensures r[r[i].children[c].hyperlink.value].tag.Some?
      ensures r[r[i].children[c].hyperlink.value].icon == Table
    {
      assert r[i] == SetItems(m)[i];
      ChainItemsLinks(m, Chain(m.types, SortByName(m.container.sets)[i].entityType), SetNodes(m));
      var h := r[i].children[c].hyperlink.value;
      assert r[h] == SetItems(m)[h];
    }
  }

  /** A set node has one child per member declared along its type's base chain. */
  lemma SetChildCount(m: Model, i: nat)
    requires WellFormed(m) && i < |m.container.sets|
    ensures var t := GetSchema(m)[i].tag.value;
      t in m.types && |GetSchema(m)[i].children| == ChainCount(m.types, Chain(m.types, t))
  {
  }

  // ---------------------------------------------------------------------------
  // Worked example: a person with trips

  const Person := EntityType("Person", None, [StructuralProperty("UserName", NamedDef("String"))],
                             [NavigationProperty("Trips", 1, true)], ["UserName"])
  const Trip := EntityType("Trip", None, [StructuralProperty("Budget", NamedDef("Single"))],
                           [NavigationProperty("PersonInfo", 0, false)], [])
  const TripModel := Model(map[0 := Person, 1 := Trip],
                           EntityContainer("Container", "NS", [EntitySet("People", 0), EntitySet("Trips", 1)]),
                           [], [], ["NS"])

  /** `Person.Trips` (a collection) and `Trip.PersonInfo` (single) are each
      other's partners: one-to-many from the person, many-to-one from the trip;
      `UserName` is a key column. */
  lemma PersonTripCardinalities(sets: seq<ExplorerItem>)
    ensures NavigationItem(TripModel, 0, Person.navigation[0], sets).icon == OneToMany
    ensures NavigationItem(TripModel, 1, Trip.navigation[0], sets).icon == ManyToOne
    ensures StructuralItem(Person, Person.structural[0]).icon == Key
    ensures StructuralItem(Person, Person.structural[0]).text == "UserName (String)"
    ensures StructuralItem(Trip, Trip.structural[0]).icon == Column
  {
  }
}
