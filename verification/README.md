# LINQPad OData v4 driver — a Dafny model of its core

This project models the rule-heavy core of the LINQPad driver for OData v4 services:

- **Schema tree.** `GetSchema` and its helpers project an entity data model (EDM) into the explorer tree LINQPad shows:
  - one node per entity set, sorted by name;
  - each set's columns and relationship links, collected by walking the entity type's base-type chain;
  - one node per action.
- **Cardinality icons.** Each relationship link's icon is decided by a first-match "partner" lookup and a 2×2 table of collection flags.
- **Type names.** Property types render as `Name` or `Collection(Name)`.
- **Metadata address.** The service URI gets `$metadata` appended, with a separating slash only when the URI does not end in one.
- **Namespaces and container name.**
  - The namespace set is built from the model and every referenced model that is neither the EDM core model nor a vocabulary model.
  - It decides whether the typed context is named by the container's qualified or bare name.
  - Separately, a remembered list of namespaces is imported into queries.
- **Build failure message.** The compiler's error diagnostics are folded into one exception message.
- **Request headers.** The per-request header hook sets the custom headers, then a Basic `Authorization` header built as in section 2 of RFC 7617. The header is base64 as in section 4 of RFC 4648 of the ASCII bytes of `user ":" password`, and it overrides any custom value.

The EDM is an immutable datatype (`Edm.Model`):

- Entity types sit in a map keyed by `TypeId`. Base types, navigation targets and set element types are keys into that map, so "the same type" means "the same key", as the driver compares type references.
- `Edm.Acyclic` says every base chain ends within as many steps as there are types. The chain's depth is the termination measure of the walk.

Ordering, encodings and header folding are written out in full. The `.dfy` files are:

| file | module | models |
|---|---|---|
| wrappers.dfy | Wrappers | `Option`, the stand-in for null |
| seqs.dfy | Seqs | first-match search (the colon split of a Basic value), concatenation |
| edm.dfy | Edm | the EDM, acyclicity, base chains |
| name_order.dfy | NameOrder | ordinal string order and the stable `OrderBy(Name)` |
| schema.dfy | SchemaProjection | `GetSchema`, `GetStructuralChildItem`, `GetNavigationChildItem`, `GetTypeName` |
| metadata_uri.dfy | MetadataAddress | the `$metadata` rule of `GetModel` |
| namespaces.dfy | Namespaces | `GetNamespacesFromModelTree`, `GetContainerName`, `GetNamespacesToAdd` |
| compile_errors.dfy | CompileErrors | the failure message of `BuildAssembly` |
| encodings.dfy | Encodings | `Encoding.ASCII`, `Convert.ToBase64String` |
| request_headers.dfy | RequestHeaders | the header part of the `SendingRequest2` handler |

Column nodes carry no tooltip (Extensions.cs:125-128).

## Model

| member | source | states |
|---|---|---|
| MetadataAddress.MetadataUri | Extensions.cs:23-24 | The metadata address starts with the service URI and ends with `/$metadata`. A slash is added only when the URI does not already end with one. |
| MetadataAddress.TrailingSlashIrrelevant | Extensions.cs:24 | A URI with and without a trailing slash give the same metadata address. |
| MetadataAddress.ServiceRootRecovered | Extensions.cs:24 | Removing `$metadata` from the address gives back the URI, with a slash added only when it had none. |
| Edm.Chain | Extensions.cs:95-102 | The base-type walk from a set's type visits the type, its base, the base's base, and so on. It has depth + 1 levels, each defined, each the base of the previous, and the last has no base. On an acyclic model it terminates. |
| Edm.ChainDistinct | Extensions.cs:98 | On an acyclic model the walk never visits a type twice. |
| Edm.TwoCycleIsNotAcyclic | Extensions.cs:98 | Two types that are each other's base violate acyclicity: the walk from them would not end. |
| NameOrder.SortByName | Extensions.cs:80-82 | `OrderBy(o => o.Name)`: the result is a permutation of the sets (same multiset, every element drawn from the input), in ascending name order. |
| NameOrder.SortByNameStable | Extensions.cs:82 | The sort is stable: for every name, the sets carrying it appear in the output in their original order. |
| NameOrder.SortUnique | Extensions.cs:82 | A sorted sequence that keeps each name's sets in their original order is unique, so the stable sort's output is fully determined. |
| NameOrder.SortedAllPairs | Extensions.cs:82 | In the sorted list, every earlier set's name sorts no later than every later set's name. |
| NameOrder.InsertNamed | Extensions.cs:82 | Inserting a set puts it before existing sets of the same name and keeps their order. |
| SchemaProjection.TypeName | Extensions.cs:161-169 | A type renders as its name, or as `Collection(<element name>)`. It is null exactly when the definition, or the collection's element definition, has no name. |
| SchemaProjection.TypeNameRoundTrip | Extensions.cs:161-169 | For names without a parenthesis, the rendered name gives back whether the type is a collection and its (element) name. |
| SchemaProjection.StructuralItem | Extensions.cs:118-131 | A column node has the Key icon exactly when its declaring level lists it as a key, and Column otherwise. Its text is `Name (TypeName)` (an empty type name for null) and its drag text is the name. It has no tooltip, link or children. |
| SchemaProjection.NavigationIcon | Extensions.cs:144-149 | With no partner the icon is Column, whatever the property's own collection flag. With a partner the far end is many exactly when the property is a collection, and the near end is many exactly when the partner is a collection. |
| SchemaProjection.CardinalitySwap | Extensions.cs:146-149 | Swapping the two collection flags swaps OneToMany and ManyToOne. Both flags true is exactly ManyToMany; both false is exactly OneToOne. |
| SchemaProjection.Partner | Extensions.cs:137-138 | The partner is the first navigation property declared on the target type that points back at the declaring type. There is none exactly when no such property exists. |
| SchemaProjection.NavigationItem | Extensions.cs:133-159 | The link kind is CollectionLink exactly when the property is a collection. Text and drag text are the property's name, and the tooltip is the target type's name. The icon is Column or one of the four cardinalities. The hyperlink is the first top-level set node tagged with the target type, or none when there is no such node. |
| SchemaProjection.NavigationPartner | Extensions.cs:135-149 | The icon is Column exactly when the target type declares no link back to the declaring type. Otherwise the first such link is the partner: the icon's far end is many exactly when the property is a collection, and its near end exactly when the partner is. |
| SchemaProjection.SelfReferenceIsOwnPartner | Extensions.cs:137-138 | When a type's first navigation property overall targets the type itself, it is its own partner, so it shows OneToOne or ManyToMany. |
| SchemaProjection.StructuralItemsAt | Extensions.cs:100 | The `Select` over a level's structural properties maps the `i`-th property to the `i`-th column node. |
| SchemaProjection.NavigationItemsAt | Extensions.cs:101 | The `Select` over a level's navigation properties maps the `i`-th property to the `i`-th relationship node. |
| SchemaProjection.LevelAt | Extensions.cs:100-101 | A level's child `i` is the column node of its `i`-th structural property or, past those, the relationship node of its matching navigation property, with the partner looked up against that level. |
| SchemaProjection.LevelMember | Extensions.cs:100-101 | Each child of a level is dragged as the name of the member it shows. Columns are Property nodes without a link. Relationships are link nodes whose hyperlink, when present, is a set node tagged with that property's target. |
| SchemaProjection.LevelKey | Extensions.cs:118-122 | A level's `i`-th column child has the Key icon exactly when that level declares the column a key. |
| SchemaProjection.LevelPartner | Extensions.cs:133-149 | The child for a level's `j`-th link is Column exactly when its target declares no link back to that level. Otherwise its icon is the cardinality of the first such link. |
| SchemaProjection.ChainItems | Extensions.cs:98-102 | A set has one child per member declared along the base chain. |
| SchemaProjection.ChainItemsAt | Extensions.cs:98-102 | The children of chain level `k` sit, in order, right after the children of the levels before it. |
| SchemaProjection.ChainItemsNames | Extensions.cs:98-102 | The children's drag texts are the chain's declared member names, level by level, in declaration order. |
| SchemaProjection.ChainItemsLinks | Extensions.cs:154 | Every hyperlink among a chain's children points at a tagged node of the top-level set list. |
| SchemaProjection.ChildrenDistinct | Extensions.cs:98-102 | When no member name repeats along the chain, no two child nodes are equal. |
| SchemaProjection.SetNode | Extensions.cs:83-90 | A set node: text and drag text are the set's name, icon Table, enumerable, tooltip the entity type's name, tagged with the entity type. |
| SchemaProjection.Actions | Extensions.cs:109-111 | Exactly the action elements are kept and nothing is added, so there is no more output than input. Functions and other elements are dropped. Together with `ActionsAppend`, this fixes each action to appear once, in declaration order. |
| SchemaProjection.ActionsAppend | Extensions.cs:109-110 | Filtering the elements of two consecutive parts gives the actions of the first part followed by those of the second, so actions keep their declaration order. |
| SchemaProjection.ActionNode | Extensions.cs:111 | An action node: the action's name with the ScalarFunction icon, and no children or link. |
| SchemaProjection.SetNodes | Extensions.cs:80-91 | One set node per sorted entity set, in sorted order. |
| SchemaProjection.SetItems | Extensions.cs:93-105 | Each sorted set node gets as children the items of its entity type's base chain. |
| SchemaProjection.SetItemIsSetNode | Extensions.cs:83-91 | Each top-level set node is exactly the set node of its name-sorted set, with tooltip, drag text, tag and no hyperlink, plus its children. |
| SchemaProjection.GetSchema | Extensions.cs:76-116 | The tree is the set nodes in name order, then one node per action in declaration order. Nothing else is at the top level. |
| SchemaProjection.SchemaSetsSorted | Extensions.cs:80-91 | The top-level set nodes are in ascending name order, and as (name, type) pairs they are a permutation of the container's sets. |
| SchemaProjection.HyperlinksTargetSetNodes | Extensions.cs:154 | Every hyperlink of a set's child points at a top-level Table node that carries a tag. |
| SchemaProjection.SetChildCount | Extensions.cs:95-104 | A set node has one child per member declared along its entity type's base chain. |
| SchemaProjection.PersonTripCardinalities | Extensions.cs:118-159 | Worked example: Person.Trips (a collection) and Trip.PersonInfo (single) are partners. Person.Trips shows OneToMany and Trip.PersonInfo shows ManyToOne. `UserName (String)` is a Key column. |
| Namespaces.AddReferencedMembers | DynamicDriver.cs:185-201 | After the loop over referenced models, a namespace is in the set exactly when it was there before or comes from a model that is not skipped. |
| Namespaces.NamespacesFromModelTree | DynamicDriver.cs:181-204 | The set contains every namespace of the root model's elements. Besides those, it contains exactly the namespaces of elements of referenced models that are neither the core model nor declare one of the six vocabulary terms. |
| Namespaces.SkippedModelAddsNothing | DynamicDriver.cs:187-197 | Inserting a core or vocabulary model anywhere among the referenced models leaves the namespace set unchanged. |
| Namespaces.ContainerName | DynamicDriver.cs:169-179 | The context is named by the container's qualified name exactly when more than one namespace counts, and by its bare name otherwise. |
| Namespaces.DemoContainerNames | DynamicDriver.cs:169-204 | Worked example: a second namespace from a referenced model qualifies the name. The same model declaring OptimisticConcurrency does not. |
| Namespaces.NamespacesToAdd | DynamicDriver.cs:67-78 | The imported list is never empty, and a remembered non-empty list is returned unchanged. A fresh list is exactly `[Microsoft.OData.Client]` for at most one declared namespace. Otherwise it is each declared namespace prefixed with `LINQPad.User.`, in order, then `Microsoft.OData.Client`. |
| Namespaces.NamespacesToAddRemembered | DynamicDriver.cs:69-77 | Once computed, later calls return the same list whatever the model declares. |
| Namespaces.ImportRuleIgnoresReferencedModels | DynamicDriver.cs:72-73 | The import rule looks only at the root's declared namespaces. A container name qualified because of a referenced model still imports only the client namespace. |
| CompileErrors.Errors | DynamicDriver.cs:160 | Exactly the error-severity diagnostics are kept. |
| CompileErrors.AggregateIsConcat | DynamicDriver.cs:161 | The `Aggregate` fold is the seed followed by one line break plus message per diagnostic, in order. |
| CompileErrors.FailureMessage | DynamicDriver.cs:158-161 | The message is the marker followed by a line break plus message for each error, in emission order. |
| CompileErrors.BuildOutcome | DynamicDriver.cs:153-163 | A successful emit throws nothing. A failed emit throws exactly the failure message. That message starts with the marker, and is the marker alone when no diagnostic is an error. |
| CompileErrors.FailureMessageMentionsEveryError | DynamicDriver.cs:158-161 | Every error's message appears in the failure message, after a line break. |
| CompileErrors.NonErrorsIgnored | DynamicDriver.cs:160 | Inserting a non-error diagnostic anywhere leaves the message unchanged. |
| Encodings.AsciiBytes | DynamicDriver.cs:262 | ASCII encoding gives one byte per character: the character's code below 128, and `?` otherwise. |
| Encodings.AsciiRoundTrip | DynamicDriver.cs:262 | ASCII text survives encoding and decoding. Any other character comes back as `?`. |
| Encodings.Base64Encode | DynamicDriver.cs:261-262 | The base64 text has 4⌈n/3⌉ characters, all from the alphabet or the pad. |
| Encodings.Base64TestVectors | DynamicDriver.cs:261-262 | The encoder gives the test vectors of section 10 of RFC 4648 for `foo`, `f` and `fo`. These fix the alphabet, bit order and padding independently of the decoder. |
| Encodings.Base64RoundTrip | DynamicDriver.cs:261-262 | Decoding undoes base64 encoding for every byte sequence. |
| RequestHeaders.FoldedLookup | DynamicDriver.cs:255-256 | In a header collection stored under folded names, every entry is found under its own name. |
| RequestHeaders.LookupIgnoresCase | DynamicDriver.cs:255-256 | Two names that differ only in the case of their letters look up the same header. |
| RequestHeaders.SetHeader | DynamicDriver.cs:255-256 | Setting a header gives it the value under every spelling of its name and leaves every other header as it was. The headers gain exactly the folded name, and stay stored under folded names. |
| RequestHeaders.ApplyCustomHeaders | DynamicDriver.cs:254-256 | Starting from headers stored under folded names, they stay so. Afterwards the message carries exactly its earlier headers plus one per distinct custom name, compared ignoring case. |
| RequestHeaders.LastSetting | DynamicDriver.cs:254-256 | The reference reading: the value of the last custom entry with a given name, or none exactly when no entry has that name. |
| RequestHeaders.CustomHeadersLastWins | DynamicDriver.cs:254-256 | Applying the custom headers in order leaves each header with its last custom value, or its earlier value when no custom entry names it. |
| RequestHeaders.BasicCredentials | DynamicDriver.cs:260-263 | The Basic value is `Basic ` followed by base64 text. |
| RequestHeaders.SendingRequestHeaders | DynamicDriver.cs:251-264 | Under Basic authentication with a non-empty user name, `Authorization` is the Basic value. Otherwise the headers are exactly those the custom headers left. No earlier header is lost, and headers stay stored under folded names. |
| RequestHeaders.EffectiveHeaders | DynamicDriver.cs:251-264 | For every header name, the value is the Basic value for `Authorization` when Basic applies, overriding custom entries. Otherwise it is the last custom setting, or what the message carried before. |
| RequestHeaders.BasicCredentialsRoundTrip | DynamicDriver.cs:260-263 | Splitting at the first colon gives back an ASCII user without a colon and an ASCII password (section 2 of RFC 7617). |
| RequestHeaders.ColonInUserNameIsAmbiguous | DynamicDriver.cs:262 | A colon in the user name makes the value ambiguous: user `a:b` with password `c` reads back as user `a` with password `b:c`. |
| RequestHeaders.BobExample | DynamicDriver.cs:251-264 | Worked example: the custom `X-A: 1` header is kept and the Basic value overrides a custom `authorization` entry. |

## Left out

- `GetMetadataStream`, `CreateHandler`, `GetClientCertificate` and `InitializeContext`'s HTTP client factory wiring are left out. They are HTTP, proxy, credential, certificate and dependency-injection plumbing.
- `CsdlReader.Parse` is left out: it is a foreign XML parser. The model starts from the parsed `Edm.Model`.
- The code generator, the Roslyn compilation, `Emit` and `File.Create` are left out, because they are foreign code and file I/O. The diagnostics and the emit's success flag are parameters of `CompileErrors.BuildOutcome`. The line separator is the `newline` parameter.
- The logging branch of the request hook (DynamicDriver.cs:267-280) is left out, because it writes to a host writer.
- `AreRepositoriesEquivalent` is left out, because it compares XML element references and not URI values.
- The dialog, `PreprocessObjectToWrite`, the context-constructor members and the constant driver metadata are left out: they are host UI and glue.
- `ConnectionProperties` and `IConnectionInfo` are not part of this model. Of `GetModel`, only the metadata address is modelled; its fetch and parse are left out, as above.
  - `Namespaces.NamespacesToAdd` takes the model's `DeclaredNamespaces` and the driver's remembered list as parameters.
  - `RequestHeaders.SendingRequestHeaders` takes the settings it reads as a `ConnectionSettings` value.
- `NameOrder.SortByName` uses ordinal (character-code) order. `OrderBy` with the default string comparer is culture-sensitive, and culture data is not part of the model.
- `MetadataAddress.MetadataUri` tests for a trailing slash ordinally. `EndsWith("/")` is culture-sensitive in .NET, which only matters for exotic ignorable characters.
- `RequestHeaders.Fold` folds only ASCII letters. The message's header collection compares names ignoring case across all of Unicode, and HTTP header names are ASCII anyway. Header-value validation, multi-valued headers, and a null value removing a header are not modelled.
- `RequestHeaders.ConnectionSettings` uses the empty string for a null user name or password. That matches `string.IsNullOrEmpty` and string interpolation, which print null as nothing.
- `SchemaProjection.GetSchema` assumes the model has an entity container (`Edm.Model.container` is not optional), while the driver would throw on a null container. `Edm.WellFormed` requires that the base chains are acyclic and that every referenced type is defined; the parser guarantees both for a valid document.
- `SchemaProjection.StructuralItem`: key membership is by property name among the declaring level's key names. The driver compares property references, which coincide with names within one type.
- `SchemaProjection.NavigationItem`: the hyperlink is the index of the target set node in the top-level list, rather than an object reference.
- `SchemaProjection.ExplorerItem` node properties the driver never sets here (SQL name, custom icons and the like) are not modelled.
