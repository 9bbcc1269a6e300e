# erbee core in Dafny

erbee draws a Mermaid `erDiagram` of the ActiveRecord models reachable from one start model.
It works in three steps:

1. The **polymorphic collector** scans every model once. It registers each reverse-polymorphic
   declaration (`has_many :images, as: :imageable`) in a **polymorphic registry**. The registry
   maps a role to association names, and each association name to its owner classes.
2. The **association explorer** walks the association graph depth-first from the start model,
   up to a depth bound. It builds one model-info record per model it reaches:
   - a polymorphic `belongs_to` is resolved to the role's possible owners from the registry;
   - when the role has no owners, the target is the `"POLYMORPHIC"` sentinel.
3. The **diagram renderer** turns the records into text:
   - the opening fence and the keyword;
   - one table block per record;
   - one relationship line per table pair (a pair is recognised by its two table names,
     sorted and joined with `-`), and a placeholder line per sentinel record;
   - the closing fence.

The Dafny modules follow the source files:

- `PolymorphicRegistry` (`polymorphic_registry.dfy`): the registry. Each role keeps a sequence
  of buckets, so Ruby's hash insertion order is kept.
- `PolymorphicCollector` (`polymorphic_collector.dfy`): `collect!`.
- `AssociationExplorer` (`association_explorer.dfy`):
  - `build_model_info`, `traverse` and `explore`;
  - the explorer's mutable `@visited` and `@results`, threaded through as a `State` value.
- `DiagramRenderer` (`diagram_renderer.dfy`):
  - `build_mermaid_er`, `build_table_definition`, `mermaid_type`, `mermaid_relation` and
    `draw_poly_dummy_edge`;
  - the relationship loop, as the recursive `RelLines`. It takes the key that recognises
    a table pair already drawn as a parameter. The diagram (`DrawnLines`) uses the source's
    key, the sorted names joined with `-`. `PairLines` runs the same loop with the
    unordered pair as the key (see "## Findings").
- Support modules:
  - `Wrappers`: `Option` and `Result`;
  - `SeqUtil`: Ruby's `uniq`, `flatten` and `join("\n")`, and reading text back by lines;
  - `SchemaModel`: the ORM facts the core reads.

ActiveRecord reflection is replaced by a `Schema` value. It maps each class name to the
class's table name, its columns and its association declarations. Each declaration carries:
- its name and kind;
- its `polymorphic:` flag;
- its `as:` option;
- its resolved target class name.

`ActiveRecord::Base.descendants` becomes a sequence of class names. `constantize` becomes a
lookup in the schema.

`mermaid_relation` has no branch for `has_and_belongs_to_many`, so it falls back to "1:1"
(`lib/erbee/diagram_renderer.rb:124-126`). `DiagramRenderer.RelationNotation` states the
fallback.

## Model

| member | source | states |
|---|---|---|
| `PolymorphicRegistry.Add` | lib/erbee/polymorphic_registry.rb:17-20 | Registering adds exactly one occurrence of the owner to the role, possibly a duplicate. It leaves every other role's buckets unchanged. It keeps each association name at the head of at most one bucket. |
| `PolymorphicRegistry.AddPlacesOwner` | lib/erbee/polymorphic_registry.rb:17-20 | A new association name opens the bucket `[owner]` after the role's existing buckets. A known name gets the owner appended to the bucket it heads. Every other bucket of the role stays in its place, unchanged. |
| `PolymorphicRegistry.AddToSingleBucket` | lib/erbee/polymorphic_registry.rb:18-19 | A role whose only bucket is the added association name (or that has no bucket) keeps one bucket, with the owner appended at the end. |
| `PolymorphicRegistry.PossibleOwners` | lib/erbee/polymorphic_registry.rb:25-29 | The result has no duplicates. A class is in it exactly when it is among the role's flattened owners, that is, when some bucket of the role lists it. |
| `PolymorphicRegistry.UnknownRoleHasNoOwners` | lib/erbee/polymorphic_registry.rb:9-12 | A role never registered (the hash default) has no possible owners. |
| `PolymorphicRegistry.AddExtendsOwners` | lib/erbee/polymorphic_registry.rb:17-29 | After `add(p, a, o)` the owner set of `p` is the old owner set plus `o`. |
| `PolymorphicRegistry.AddTwiceSameOwners` | lib/erbee/polymorphic_registry.rb:17-29 | Registering an owner again, under any association name, does not change the role's owner set. |
| `PolymorphicRegistry.AddLeavesOtherRoles` | lib/erbee/polymorphic_registry.rb:17-20 | Registering under one role leaves the possible owners of every other role unchanged. |
| `PolymorphicRegistry.PossibleOwnersOrder` | lib/erbee/polymorphic_registry.rb:28 | Owners come out in the order of their first occurrence in the flattened buckets. |
| `SeqUtil.UniqKeepsFirstOccurrenceOrder` | lib/erbee/polymorphic_registry.rb:28 | Ruby's `uniq` keeps elements in the order of their first occurrence. |
| `PolymorphicCollector.RegisterDecl` | lib/erbee/polymorphic_collector.rb:11-18 | A declaration that is not `has_many`/`has_one` with a non-blank `as:` changes no role. Registration keeps the registry well formed. |
| `PolymorphicCollector.Collect` | lib/erbee/polymorphic_collector.rb:5-23 | The collected registry is well formed: no association name heads two buckets of one role. |
| `PolymorphicCollector.CollectOwnersExactly` | lib/erbee/polymorphic_collector.rb:5-23 | A class is a possible owner of role `p` if and only if one of its declarations is a `has_many`/`has_one` with `as: p`. |
| `PolymorphicCollector.CollectGrouped` | lib/erbee/polymorphic_collector.rb:5-23 | After the scan, a role has one bucket per association name, in the order the names were first registered. Each bucket holds the classes that declared that name under the role, in scan order (class order, then declaration order), duplicates kept. |
| `PolymorphicCollector.CollectOwnersInScanOrder` | lib/erbee/polymorphic_collector.rb:10-18 | The possible owners of a role are the owners of its first association name, then those of its second, and so on. Each owner is listed once, at its first appearance. |
| `PolymorphicCollector.GroupedOrderExample` | lib/erbee/polymorphic_collector.rb:10-18 | The grouped order is not scan order. `A` and `C` register under association `x` and `B` registers under `y` in between, and the owners come out as `A`, `C`, `B`. |
| `PolymorphicCollector.CollectOwnersSingleName` | lib/erbee/polymorphic_collector.rb:10-18 | When a role is always declared under one association name, its possible owners are the declaring classes in scan order, each listed once. |
| `AssociationExplorer.DeclRecords` | lib/erbee/association_explorer.rb:56-101 | Each declaration yields at least one record, with its own name and kind. A polymorphic `belongs_to` yields the sentinel record when its role has no owner; otherwise it yields one record per owner, in owner order. A reverse-polymorphic declaration yields one record flagged polymorphic. Any other declaration yields one record, not flagged, pointing at its class. |
| `AssociationExplorer.BuildAssociations` | lib/erbee/association_explorer.rb:56-102 | A record is present exactly when some declaration yields it. There are at least as many records as declarations. |
| `AssociationExplorer.BuildAssociationsAppend` | lib/erbee/association_explorer.rb:56-102 | The records keep declaration order: a later declaration's records follow the earlier ones. |
| `AssociationExplorer.BuildModelInfo` | lib/erbee/association_explorer.rb:55-114 | The model info carries the class, its table and its columns unchanged. It carries exactly the records the class's declarations yield, in declaration order, as `BuildAssociations` lists them (with `BuildAssociationsAppend`, one declaration's records follow the previous ones'). |
| `AssociationExplorer.Traverse` | lib/erbee/association_explorer.rb:23-49 | Each step keeps these true: every visited class resolves and is reachable within its recorded depth; results hold one record per visited class, each built from its declarations; a visited class with budget left has its children visited one level down or better. Beyond the depth bound, or for a class already seen at an equal or lower depth, the state is unchanged. A new class's record is appended next. |
| `AssociationExplorer.TraverseTargets` | lib/erbee/association_explorer.rb:36-48 | After the loop over a class's targets, every resolvable non-sentinel target has been visited one level down or better (when the bound allows it). Depths only decrease and results are only appended. |
| `AssociationExplorer.Explore` | lib/erbee/association_explorer.rb:15-19 | An unresolvable start class is the one error. Otherwise the result has the start class first (when the bound is not negative) and each class once. A class is in the result if and only if it is reachable from the start within the bound, following resolvable non-sentinel targets. Every record equals the class's freshly built model info. |
| `DiagramRenderer.MermaidType` | lib/erbee/diagram_renderer.rb:91-104 | The result is one of five diagram types. The first four stand exactly for their column types (`integer`; `float`/`decimal`; `datetime`/`date`/`time`/`timestamp`; `boolean`); everything else is `string`. |
| `DiagramRenderer.TableLines` | lib/erbee/diagram_renderer.rb:74-88 | A table block has one line per column, in column order, between its header line and its closing brace. |
| `DiagramRenderer.TableDefinition` | lib/erbee/diagram_renderer.rb:74-88 | When no name holds a line break, the block text reads back line by line as the header, one line per column in order, and the closing brace. |
| `DiagramRenderer.RelationDecodes` | lib/erbee/diagram_renderer.rb:109-128 | Between the same two tables, two relationship lines are equal if and only if both kinds are drawn one-to-one, or both are the same `belongs_to` or `has_many` with the same polymorphic flag. |
| `DiagramRenderer.RenderedTexts` | lib/erbee/diagram_renderer.rb:112-135 | The exact text of each line, with its indentation: `S |{--|| D : "N:1"` and `"N:1 (poly)"` for `belongs_to`, `S ||--|{ D : "1:N"` and `"1:N (poly)"` for `has_many`, and `S -- "(poly:name)"` for a sentinel record. It also spells out a column line, the type then the name, as lines 78 and 84 build it. |
| `DiagramRenderer.RelationNotation` | lib/erbee/diagram_renderer.rb:111-127 | Every kind other than `belongs_to` and `has_many` (so `has_one` and `has_and_belongs_to_many`) is drawn one-to-one, whatever the flag. The polymorphic flag changes the line if and only if the kind is `belongs_to` or `has_many`. |
| `DiagramRenderer.FindInfo` | lib/erbee/diagram_renderer.rb:46-47 | The lookup fails exactly when no record has the class name. Otherwise it yields the first record with that name. |
| `DiagramRenderer.EdgeKeyAsWrittenSymmetric` | lib/erbee/diagram_renderer.rb:53 | The source's sorted-and-joined key does not depend on the direction of the edge. |
| `DiagramRenderer.EdgeKeyAsWrittenCollides` | lib/erbee/diagram_renderer.rb:53 | Two different table pairs get the same sorted-and-joined key. |
| `DiagramRenderer.EdgeKeyIdentifiesPair` | lib/erbee/diagram_renderer.rb:52-55 | Two edges share a corrected key if and only if they join the same two tables, in either direction. |
| `DiagramRenderer.WrittenKeyExactWithoutHyphens` | lib/erbee/diagram_renderer.rb:53 | When no table name holds `-`, two edges share the sorted-and-joined key if and only if they share the unordered pair. |
| `DiagramRenderer.RelLines` | lib/erbee/diagram_renderer.rb:31-67 | The loop draws at most one line per record, and no link whose key was already seen. |
| `DiagramRenderer.RelLinesDrawEachKeyOnce` | lib/erbee/diagram_renderer.rb:31-67 | Whatever the key, each key is drawn at most once and never when it was already seen. Every key some record would draw is drawn or was already seen. |
| `DiagramRenderer.RelLinesFirstWins` | lib/erbee/diagram_renderer.rb:45-64 | Each drawn link is the line of the first record that reaches its key. That record's kind and flag decide the notation. |
| `DiagramRenderer.RelLinesPlaceholders` | lib/erbee/diagram_renderer.rb:37-43 | Every sentinel record draws its placeholder line, in record order, whatever keys were drawn. |
| `DiagramRenderer.DrawnLinesOnePerWrittenKey` | lib/erbee/diagram_renderer.rb:31-67 | The diagram's relationship lines: every sentinel record's placeholder in record order; at most one link per sorted-and-joined key; a link for the key of every record whose target has a model info; and each link comes from the first record that reaches its key. |
| `DiagramRenderer.DrawnLinesOnePerPair` | lib/erbee/diagram_renderer.rb:52-55 | The diagram's loop never draws two links between the same two tables, in either direction, because both directions share one sorted-and-joined key. |
| `DiagramRenderer.PairLinesDrawEachPairOnce` | lib/erbee/diagram_renderer.rb:52-55 | With the corrected key, no two links join the same pair of tables, and every pair some record links is drawn, in one direction or the other. |
| `DiagramRenderer.LoopsAgreeWithoutHyphens` | lib/erbee/diagram_renderer.rb:52-55 | When no table name holds `-`, the diagram's loop draws exactly the lines of the corrected loop. |
| `DiagramRenderer.WrittenLoopOnSample` | lib/erbee/diagram_renderer.rb:53-55 | For tables `a-b`, `c`, `a`, `b-c`, where `a-b` has many `c` and `a` has many `b-c`, the source's loop draws only the link from `a-b` to `c`. |
| `DiagramRenderer.PairLoopOnSample` | lib/erbee/diagram_renderer.rb:53-55 | On the same tables the corrected loop draws both links. |
| `DiagramRenderer.DocumentLines` | lib/erbee/diagram_renderer.rb:19-71 | The diagram's physical lines start with the fence and the keyword and end with the closing fence. |
| `DiagramRenderer.BuildMermaidEr` | lib/erbee/diagram_renderer.rb:19-71 | The diagram text is its physical lines joined by line breaks, each table block contributing its own lines. When no name holds a line break, splitting the text at line breaks gives back exactly those lines. |
| `DiagramRenderer.BlockLineAt` | lib/erbee/diagram_renderer.rb:26-28 | The block of the i-th record sits at its computed start line, in input order and without gaps. |
| `DiagramRenderer.DocumentShape` | lib/erbee/diagram_renderer.rb:30-70 | The relationship lines follow the last table block and precede the closing fence. |
| `DiagramRenderer.NoAssociationsNoRelationships` | lib/erbee/diagram_renderer.rb:30-67 | Records without associations produce no relationship line. |
| `SeqUtil.SplitJoinLines` | lib/erbee/diagram_renderer.rb:70 | Joining lines without line breaks by `"\n"` can be undone by splitting at line breaks. |

## Left out

- `render` writes the text to the configured output path and prints a message. The model
  stops at the text that `build_mermaid_er` returns, because file output and console output
  are I/O.
- The configuration object and the command-line entry point are left out. The depth bound and
  the start class are parameters of `Explore`.
- ActiveRecord reflection, `eager_load!` and `constantize` are left out because they are
  external code. The `Schema` value and the `descendants` sequence stand in for them. A
  declaration's target is given already resolved.
- `AssociationExplorer.Explore`: does not model the `NameError` that `assoc.klass` raises
  (`lib/erbee/association_explorer.rb:90` and `:99`) when a declaration that is not a
  polymorphic `belongs_to` names a class that does not exist. In the source such a class is
  marked visited (`:28`) but its record is never built, so it never enters the results and
  none of its targets is followed. The `rescue` at `:44` swallows the error in the caller;
  when the class is the start class, `explore` raises. The model builds the class's record
  anyway, with the unresolvable name as a target. Traversal skips that target like any
  name that does not resolve, and the renderer draws no line for it. The model and the
  source agree whenever every declared target resolves.
- `as:` is modelled as present when it is given and not empty, which is Ruby's `present?`
  on a symbol. Blank strings made of spaces are not distinguished.
- The model has no branch for a `class_name` that is an `Array`
  (`lib/erbee/association_explorer.rb:37`, `lib/erbee/diagram_renderer.rb:35`).
  `build_model_info` only ever stores single names, so that branch never happens.
- `@visited` is keyed by the class name rather than the class object. Class names identify
  classes one to one, so nothing changes.
- Column types are strings holding the symbol's name (`"integer"`). The `null` flag of a
  column is carried along but never rendered, as in the source.
- `DiagramRenderer.PolyDummyEdge`, `ColumnLine`, `Connector` and `Label` have no contract of
  their own. Their bodies are the format strings of `lib/erbee/diagram_renderer.rb:78`, `:84`,
  `:112-127` and `:135`. `RenderedTexts` spells out the resulting lines. `RelationNotation`
  and `RelationDecodes` fix which relationship lines coincide, not their text.
- `DiagramRenderer.MermaidRelation`: its own contract only splits a line into the source
  table, the connector, the target table and the label. What the notation promises is
  stated by `RelationDecodes`, `RelationNotation` and `RenderedTexts`.
- The test fixtures and their random model generator are left out; they are test code.

## Findings

| source | as written | input that shows it | evidently intended | confidence | as-written member | corrected member |
|---|---|---|---|---|---|---|
| lib/erbee/diagram_renderer.rb:53-55 | The duplicate-edge key is the two table names sorted and joined with `-`. Different pairs can share one key when a table name contains `-`. | Tables `a-b` and `c`, and tables `a` and `b-c`: both keys are `"a-b-c"`. The second edge is silently dropped. | Skip an edge only when the same unordered pair of tables was drawn before. | low: hyphens in table names are rare in Rails; not executed | `DiagramRenderer.WrittenLoopOnSample` | `DiagramRenderer.PairLinesDrawEachPairOnce` |

The diagram keeps the source's key: `DrawnLines`, and so `BuildMermaidEr`, draw exactly what
the source draws. The corrected loop `PairLines` uses the unordered pair `{src, dst}` as the
key (`EdgeKeyIdentifiesPair`). `LoopsAgreeWithoutHyphens` shows that the two loops draw the
same lines whenever no table name holds `-`.
