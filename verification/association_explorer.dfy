/** The association explorer: builds one model-info record per model class it reaches from a
    start class, following association targets depth-first up to a depth bound. */
module AssociationExplorer {
  import opened Wrappers
  import opened SeqUtil
  import opened SchemaModel
  import opened PolymorphicRegistry
  import opened PolymorphicCollector

  /** The target recorded for a polymorphic `belongs_to` whose role has no known owner. */
  const Sentinel: string := "POLYMORPHIC"

  /** One association record: `{name:, type:, polymorphic:, class_name:}`. */
  datatype Assoc = Assoc(name: string, macro: Macro, polymorphic: bool, className: string)

  /** What the explorer records about one model class. */
  datatype ModelInfo = ModelInfo(
    model: string,
    table: string,
    associations: seq<Assoc>,
    columns: seq<Column>)

  /** The only fatal condition: the start class does not resolve. */
  datatype ExploreError = UnknownEntity(name: string)

  /** The records one declaration turns into (one branch of `build_model_info`'s `flat_map`). */
  function DeclRecords(reg: Registry, d: Declaration): (r: seq<Assoc>)
    ensures |r| >= 1
    ensures forall i :: 0 <= i < |r| ==> r[i].name == d.name && r[i].macro == d.macro
    ensures forall i :: 0 <= i < |r| ==>
      (r[i].polymorphic <==> IsPolymorphicBelongsTo(d) || IsReversePolymorphic(d))
    ensures IsPolymorphicBelongsTo(d) && PossibleOwners(reg, d.name) == [] ==>
      r == [Assoc(d.name, d.macro, true, Sentinel)]
    ensures IsPolymorphicBelongsTo(d) && PossibleOwners(reg, d.name) != [] ==>
      |r| == |PossibleOwners(reg, d.name)|
      && forall i :: 0 <= i < |r| ==> r[i].className == PossibleOwners(reg, d.name)[i]
    ensures !IsPolymorphicBelongsTo(d) ==> |r| == 1 && r[0].className == d.target
  {
    if IsPolymorphicBelongsTo(d) then
      var owners := PossibleOwners(reg, d.name);
      if |owners| == 0 then [Assoc(d.name, d.macro, true, Sentinel)]
      else seq(|owners|, i requires 0 <= i < |owners| => Assoc(d.name, d.macro, true, owners[i]))
    else if IsReversePolymorphic(d) then [Assoc(d.name, d.macro, true, d.target)]
    else [Assoc(d.name, d.macro, false, d.target)]
  }

  /** All records of a declaration list, declaration after declaration. */
  function BuildAssociations(reg: Registry, decls: seq<Declaration>): (r: seq<Assoc>)
    ensures |r| >= |decls|
    ensures forall a :: a in r <==> exists i :: 0 <= i < |decls| && a in DeclRecords(reg, decls[i])
  {
    var groups := seq(|decls|, i requires 0 <= i < |decls| => DeclRecords(reg, decls[i]));
    assert forall i :: 0 <= i < |decls| ==> groups[i] == DeclRecords(reg, decls[i]);
    ConcatLength(groups);
    Concat(groups)
  }

  lemma {:induction false} ConcatLength(groups: seq<seq<Assoc>>)
    requires forall i :: 0 <= i < |groups| ==> |groups[i]| >= 1
    ensures |Concat(groups)| >= |groups|
    decreases |groups|
  {
    if |groups| > 0 {
      ConcatLength(groups[1..]);
    }
  }

  /** `flat_map` keeps declaration order: the records of a later declaration follow those of
      the earlier ones. */
  lemma BuildAssociationsAppend(reg: Registry, decls: seq<Declaration>, d: Declaration)
    ensures BuildAssociations(reg, decls + [d]) == BuildAssociations(reg, decls) + DeclRecords(reg, d)
  {
    var groups := seq(|decls|, i requires 0 <= i < |decls| => DeclRecords(reg, decls[i]));
    var groups' := seq(|decls + [d]|, i requires 0 <= i < |decls + [d]| => DeclRecords(reg, (decls + [d])[i]));
    assert groups' == groups + [DeclRecords(reg, d)];
    ConcatAppend(groups, DeclRecords(reg, d));
  }

  /** `build_model_info`: the class's records, table name and columns, copied in order. */
  function BuildModelInfo(reg: Registry, name: string, e: Entity): (r: ModelInfo)
    ensures r.model == name && r.table == e.table && r.columns == e.columns
    ensures forall a :: a in r.associations <==>
      exists i :: 0 <= i < |e.decls| && a in DeclRecords(reg, e.decls[i])
    ensures r.associations == BuildAssociations(reg, e.decls)
  {
    ModelInfo(name, e.table, BuildAssociations(reg, e.decls), e.columns)
  }

  /** The record the explorer builds for a resolvable class. */
  function Info(schema: Schema, reg: Registry, name: string): ModelInfo
    requires name in schema
  {
    BuildModelInfo(reg, name, schema[name])
  }

  /** The class names an info's records point at, record by record. */
  function Targets(info: ModelInfo): (r: seq<string>)
    ensures |r| == |info.associations|
    ensures forall i :: 0 <= i < |r| ==> r[i] == info.associations[i].className
  {
    seq(|info.associations|, i requires 0 <= i < |info.associations| => info.associations[i].className)
  }

  /** The class names of a result list, in order. */
  function Models(rs: seq<ModelInfo>): (r: seq<string>)
    ensures |r| == |rs|
    ensures forall i :: 0 <= i < |rs| ==> r[i] == rs[i].model
  {
    seq(|rs|, i requires 0 <= i < |rs| => rs[i].model)
  }

  /** One traversal step: `t` is a target of `k` that the explorer follows (not the
      sentinel, and resolvable). */
  ghost predicate IsChild(schema: Schema, reg: Registry, k: string, t: string) {
    k in schema && t in schema && t != Sentinel && t in Targets(Info(schema, reg, k))
  }

  ghost predicate IsPath(schema: Schema, reg: Registry, p: seq<string>) {
    |p| >= 1 && p[0] in schema
    && forall i :: 0 <= i < |p| - 1 ==> IsChild(schema, reg, p[i], p[i + 1])
  }

  /** `k` can be reached from `start` in at most `n` steps. */
  ghost predicate ReachableWithin(schema: Schema, reg: Registry, start: string, k: string, n: int) {
    exists p :: IsPath(schema, reg, p) && p[0] == start && p[|p| - 1] == k && |p| - 1 <= n
  }

  lemma ReachStart(schema: Schema, reg: Registry, start: string)
    requires start in schema
    ensures ReachableWithin(schema, reg, start, start, 0)
  {
    assert IsPath(schema, reg, [start]);
  }

  lemma ReachStep(schema: Schema, reg: Registry, start: string, k: string, n: int, t: string)
    requires ReachableWithin(schema, reg, start, k, n) && IsChild(schema, reg, k, t)
    ensures ReachableWithin(schema, reg, start, t, n + 1)
  {
    var p :| IsPath(schema, reg, p) && p[0] == start && p[|p| - 1] == k && |p| - 1 <= n;
    var q := p + [t];
    assert forall i :: 0 <= i < |p| ==> q[i] == p[i];
    assert IsPath(schema, reg, q);
  }

  /** The explorer's mutable state: best depth per class, and results in discovery order. */
  datatype State = State(visited: map<string, int>, results: seq<ModelInfo>)

  const Fresh: State := State(map[], [])

  /** What holds of the state between steps: every visited class resolves, was reached within
      its recorded depth, and has exactly one record, built from its declarations. */
  ghost predicate Sound(schema: Schema, reg: Registry, maxDepth: int, start: string, st: State) {
    && (forall k :: k in st.visited ==>
          k in schema && 0 <= st.visited[k] <= maxDepth
          && ReachableWithin(schema, reg, start, k, st.visited[k]))
    && NoDup(Models(st.results))
    && (forall k :: k in st.visited <==> k in Models(st.results))
    && (forall i :: 0 <= i < |st.results| ==>
          st.results[i].model in schema && st.results[i] == Info(schema, reg, st.results[i].model))
  }

  /** Every visited class outside `pending` that had depth budget left has had all its
      children visited one level further down or better. */
  ghost predicate Closed(schema: Schema, reg: Registry, maxDepth: int, st: State, pending: set<string>) {
    forall k, t :: k in st.visited && k !in pending && st.visited[k] < maxDepth && IsChild(schema, reg, k, t)
      ==> t in st.visited && st.visited[t] <= st.visited[k] + 1
  }

  /** Depths only go down, and results are only appended to. */
  ghost predicate Descends(st: State, r: State) {
    (forall k :: k in st.visited ==> k in r.visited && r.visited[k] <= st.visited[k])
    && st.results <= r.results
  }

  /** Classes recorded at depth `bound` or less keep their depth. */
  ghost predicate Frozen(st: State, r: State, bound: int) {
    forall k :: k in st.visited && st.visited[k] <= bound ==> k in r.visited && r.visited[k] == st.visited[k]
  }

  /** The remaining depth budget; the traversal's termination measure. */
  function Budget(maxDepth: int, depth: int): nat {
    if depth > maxDepth then 0 else maxDepth + 1 - depth
  }

  /** `traverse(model, depth)`. */
  function Traverse(schema: Schema, reg: Registry, maxDepth: int, name: string, depth: int, st: State,
                    ghost start: string, ghost pending: set<string>): (r: State)
    requires name in schema && 0 <= depth
    requires Sound(schema, reg, maxDepth, start, st)
    requires Closed(schema, reg, maxDepth, st, pending)
    requires depth <= maxDepth ==> ReachableWithin(schema, reg, start, name, depth)
    ensures Sound(schema, reg, maxDepth, start, r)
    ensures Closed(schema, reg, maxDepth, r, pending)
    ensures Descends(st, r)
    ensures Frozen(st, r, depth)
    ensures depth > maxDepth ==> r == st
    ensures name in st.visited && st.visited[name] <= depth ==> r == st
    ensures depth <= maxDepth ==> name in r.visited && r.visited[name] <= depth
    ensures depth <= maxDepth && name !in Models(st.results) ==>
      |r.results| > |st.results| && r.results[|st.results|].model == name
    decreases Budget(maxDepth, depth), 1, 0
  {
    if depth > maxDepth then st
    else if name in st.visited && st.visited[name] <= depth then st
    else
      var info := Info(schema, reg, name);
      var st1 := Record(schema, reg, st, name, depth);
      RecordSound(schema, reg, maxDepth, start, st, name, depth);
      RecordClosed(schema, reg, maxDepth, st, name, depth, pending);
      ChildrenReachable(schema, reg, start, name, depth);
      var r := TraverseTargets(schema, reg, maxDepth, Targets(info), depth, st1, start, pending + {name});
      ExpandCloses(schema, reg, maxDepth, st1, r, name, depth, pending);
      r
  }

  /** The loop over the targets of the class just expanded at `depth`. */
  function TraverseTargets(schema: Schema, reg: Registry, maxDepth: int, ts: seq<string>, depth: int, st: State,
                           ghost start: string, ghost pending: set<string>): (r: State)
    requires 0 <= depth <= maxDepth
    requires Sound(schema, reg, maxDepth, start, st)
    requires Closed(schema, reg, maxDepth, st, pending)
    requires forall t :: t in ts && t != Sentinel && t in schema ==> ReachableWithin(schema, reg, start, t, depth + 1)
    ensures Sound(schema, reg, maxDepth, start, r)
    ensures Closed(schema, reg, maxDepth, r, pending)
    ensures Descends(st, r)
    ensures Frozen(st, r, depth + 1)
    ensures forall t :: t in ts && t != Sentinel && t in schema && depth < maxDepth ==>
      t in r.visited && r.visited[t] <= depth + 1
    decreases Budget(maxDepth, depth), 0, |ts|
  {
    if |ts| == 0 then st
    else
      var st1 := Follow(schema, reg, maxDepth, ts[0], depth, st, start, pending);
      var r := TraverseTargets(schema, reg, maxDepth, ts[1..], depth, st1, start, pending);
      StepsCompose(st, st1, r, depth + 1);
      TargetsCovered(schema, maxDepth, ts, depth, st1, r);
      r
  }

  /** One iteration of the target loop: the sentinel and unresolvable names are skipped,
      any other name is traversed one level down. */
  function Follow(schema: Schema, reg: Registry, maxDepth: int, t: string, depth: int, st: State,
                  ghost start: string, ghost pending: set<string>): (r: State)
    requires 0 <= depth <= maxDepth
    requires Sound(schema, reg, maxDepth, start, st)
    requires Closed(schema, reg, maxDepth, st, pending)
    requires t != Sentinel && t in schema ==> ReachableWithin(schema, reg, start, t, depth + 1)
    ensures Sound(schema, reg, maxDepth, start, r)
    ensures Closed(schema, reg, maxDepth, r, pending)
    ensures Descends(st, r)
    ensures Frozen(st, r, depth + 1)
    ensures t == Sentinel || t !in schema ==> r == st
    ensures t != Sentinel && t in schema && depth < maxDepth ==> t in r.visited && r.visited[t] <= depth + 1
    decreases Budget(maxDepth, depth), 0, 0
  {
    if t == Sentinel || t !in schema then st
    else Traverse(schema, reg, maxDepth, t, depth + 1, st, start, pending)
  }

  lemma TargetsCovered(schema: Schema, maxDepth: int, ts: seq<string>, depth: int, st1: State, r: State)
    requires |ts| >= 1
    requires ts[0] != Sentinel && ts[0] in schema && depth < maxDepth ==>
      ts[0] in st1.visited && st1.visited[ts[0]] <= depth + 1
    requires Descends(st1, r)
    requires forall t :: t in ts[1..] && t != Sentinel && t in schema && depth < maxDepth ==>
      t in r.visited && r.visited[t] <= depth + 1
    ensures forall t :: t in ts && t != Sentinel && t in schema && depth < maxDepth ==>
      t in r.visited && r.visited[t] <= depth + 1
  {
    forall t | t in ts && t != Sentinel && t in schema && depth < maxDepth
      ensures t in r.visited && r.visited[t] <= depth + 1
    {
      if t != ts[0] {
        assert t in ts[1..];
      }
    }
  }

  lemma StepsCompose(st: State, st1: State, r: State, bound: int)
    requires Descends(st, st1) && Descends(st1, r)
    requires Frozen(st, st1, bound) && Frozen(st1, r, bound)
    ensures Descends(st, r) && Frozen(st, r, bound)
  {
  }

  /** The state after recording `name` at `depth`, and its record if it has none yet. */
  function Record(schema: Schema, reg: Registry, st: State, name: string, depth: int): (r: State)
    requires name in schema
    ensures name in Models(st.results) ==> r.results == st.results
    ensures name !in Models(st.results) ==> r.results == st.results + [Info(schema, reg, name)]
    ensures r.visited == st.visited[name := depth]
  {
    var results := if name in Models(st.results) then st.results else st.results + [Info(schema, reg, name)];
    State(st.visited[name := depth], results)
  }

  /** Recording `name` at `depth` keeps the state sound. */
  lemma RecordSound(schema: Schema, reg: Registry, maxDepth: int, start: string, st: State,
                    name: string, depth: int)
    requires name in schema && 0 <= depth <= maxDepth
    requires Sound(schema, reg, maxDepth, start, st)
    requires ReachableWithin(schema, reg, start, name, depth)
    ensures Sound(schema, reg, maxDepth, start, Record(schema, reg, st, name, depth))
  {
    var st1 := Record(schema, reg, st, name, depth);
    forall k | k in st1.visited
      ensures k in schema && 0 <= st1.visited[k] <= maxDepth
      ensures ReachableWithin(schema, reg, start, k, st1.visited[k])
    {
      if k != name {
        assert st1.visited[k] == st.visited[k];
      }
    }
    var ms := Models(st.results);
    if name !in ms {
      assert Models(st1.results) == ms + [name];
      NoDupSnoc(ms, name);
      assert forall i :: 0 <= i < |st.results| ==> st1.results[i] == st.results[i];
    } else {
      assert st1.results == st.results;
    }
    forall k
      ensures k in st1.visited <==> k in Models(st1.results)
    {
      assert k in st1.visited <==> k == name || k in st.visited;
    }
  }

  /** Recording `name` at a smaller depth than before keeps the state closed outside `name`. */
  lemma RecordClosed(schema: Schema, reg: Registry, maxDepth: int, st: State,
                     name: string, depth: int, pending: set<string>)
    requires name in schema
    requires !(name in st.visited && st.visited[name] <= depth)
    requires Closed(schema, reg, maxDepth, st, pending)
    ensures Closed(schema, reg, maxDepth, Record(schema, reg, st, name, depth), pending + {name})
    ensures Descends(st, Record(schema, reg, st, name, depth))
    ensures Frozen(st, Record(schema, reg, st, name, depth), depth)
  {
  }

  lemma ChildrenReachable(schema: Schema, reg: Registry, start: string, name: string, depth: int)
    requires name in schema && ReachableWithin(schema, reg, start, name, depth)
    ensures forall t :: t in Targets(Info(schema, reg, name)) && t != Sentinel && t in schema ==>
      ReachableWithin(schema, reg, start, t, depth + 1)
  {
    forall t | t in Targets(Info(schema, reg, name)) && t != Sentinel && t in schema
      ensures ReachableWithin(schema, reg, start, t, depth + 1)
    {
      ReachStep(schema, reg, start, name, depth, t);
    }
  }

  /** Once every target of `name` has been followed, `name` no longer needs exempting. */
  lemma ExpandCloses(schema: Schema, reg: Registry, maxDepth: int, st1: State, r: State,
                     name: string, depth: int, pending: set<string>)
    requires name in schema && name in st1.visited && st1.visited[name] == depth
    requires Closed(schema, reg, maxDepth, r, pending + {name})
    requires Frozen(st1, r, depth + 1)
    requires forall t :: t in Targets(Info(schema, reg, name)) && t != Sentinel && t in schema && depth < maxDepth ==>
      t in r.visited && r.visited[t] <= depth + 1
    ensures Closed(schema, reg, maxDepth, r, pending)
  {
  }

  /** In a state closed everywhere, every class reachable from a start recorded at depth 0
      is recorded, at most at its distance. */
  lemma {:induction false} ClosedReachesAll(schema: Schema, reg: Registry, maxDepth: int, st: State,
                                           start: string, p: seq<string>)
    requires Closed(schema, reg, maxDepth, st, {})
    requires start in st.visited && st.visited[start] == 0
    requires IsPath(schema, reg, p) && p[0] == start && |p| - 1 <= maxDepth
    ensures p[|p| - 1] in st.visited && st.visited[p[|p| - 1]] <= |p| - 1
    decreases |p|
  {
    if |p| > 1 {
      var q := p[..|p| - 1];
      assert forall i :: 0 <= i < |q| ==> q[i] == p[i];
      assert IsPath(schema, reg, q);
      ClosedReachesAll(schema, reg, maxDepth, st, start, q);
      assert IsChild(schema, reg, p[|p| - 2], p[|p| - 1]);
    }
  }

  /** `explore`: the records of every class within `maxDepth` steps of `start`, each once,
      the start class first. An unresolvable start class is the one error. */
  function Explore(schema: Schema, descendants: seq<string>, start: string, maxDepth: int)
    : (r: Result<seq<ModelInfo>, ExploreError>)
    requires forall i :: 0 <= i < |descendants| ==> descendants[i] in schema
    ensures r.Failure? <==> start !in schema
    ensures r.Failure? ==> r.error == UnknownEntity(start)
    ensures r.Success? ==> NoDup(Models(r.value))
    ensures r.Success? ==> forall i :: 0 <= i < |r.value| ==>
      r.value[i].model in schema && r.value[i] == Info(schema, Collect(schema, descendants), r.value[i].model)
    ensures r.Success? && maxDepth < 0 ==> r.value == []
    ensures r.Success? && maxDepth >= 0 ==> |r.value| >= 1 && r.value[0].model == start
    ensures r.Success? ==> forall k :: k in Models(r.value) <==>
      ReachableWithin(schema, Collect(schema, descendants), start, k, maxDepth)
  {
    if start !in schema then Failure(UnknownEntity(start))
    else
      var reg := Collect(schema, descendants);
      ReachStart(schema, reg, start);
      var st := Traverse(schema, reg, maxDepth, start, 0, Fresh, start, {});
      ExploreExact(schema, reg, maxDepth, start, st);
      Success(st.results)
  }

  lemma ExploreExact(schema: Schema, reg: Registry, maxDepth: int, start: string, st: State)
    requires Sound(schema, reg, maxDepth, start, st) && Closed(schema, reg, maxDepth, st, {})
    requires 0 <= maxDepth ==> start in st.visited && st.visited[start] <= 0
    ensures forall k :: k in Models(st.results) <==> ReachableWithin(schema, reg, start, k, maxDepth)
  {
    forall k | ReachableWithin(schema, reg, start, k, maxDepth)
      ensures k in Models(st.results)
    {
      var p :| IsPath(schema, reg, p) && p[0] == start && p[|p| - 1] == k && |p| - 1 <= maxDepth;
      ClosedReachesAll(schema, reg, maxDepth, st, start, p);
    }
    forall k | k in Models(st.results)
      ensures ReachableWithin(schema, reg, start, k, maxDepth)
    {
      var p :| IsPath(schema, reg, p) && p[0] == start && p[|p| - 1] == k && |p| - 1 <= st.visited[k];
    }
  }
}
