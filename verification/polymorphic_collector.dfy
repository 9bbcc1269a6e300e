/** The polymorphic collector: one flat pass over every model class and its association
    declarations, registering the reverse-polymorphic ones (`has_many`/`has_one ..., as: :role`)
    in a fresh registry. */
module PolymorphicCollector {
  import opened SeqUtil
  import opened SchemaModel
  import opened PolymorphicRegistry

  /** The declarations the collector registers: reverse-polymorphic ones under role `p`. */
  predicate RegistersUnder(d: Declaration, p: string) {
    IsReversePolymorphic(d) && d.asRole.value == p
  }

  /** The body of the scan for one declaration `d` of model `owner`: registers it under
      `(as-role, association name, owner)` when it is reverse-polymorphic, skips it otherwise. */
  function RegisterDecl(reg: Registry, owner: string, d: Declaration): (r: Registry)
    ensures WellFormed(reg) ==> WellFormed(r)
    ensures forall q :: !RegistersUnder(d, q) ==> BucketsOf(r, q) == BucketsOf(reg, q)
  {
    if IsReversePolymorphic(d) then Add(reg, d.asRole.value, d.name, owner) else reg
  }

  /** Registers the qualifying declarations of one model, in declaration order. */
  function RegisterDecls(reg: Registry, owner: string, decls: seq<Declaration>): (r: Registry)
    ensures WellFormed(reg) ==> WellFormed(r)
    decreases |decls|
  {
    if |decls| == 0 then reg
    else RegisterDecl(RegisterDecls(reg, owner, decls[..|decls| - 1]), owner, decls[|decls| - 1])
  }

  /** `collect!`: scans the model classes in the order given (`descendants`) and each one's
      declarations in declaration order. */
  function Collect(schema: Schema, descendants: seq<string>): (r: Registry)
    requires forall i :: 0 <= i < |descendants| ==> descendants[i] in schema
    ensures WellFormed(r)
    decreases |descendants|
  {
    if |descendants| == 0 then Empty
    else
      var last := descendants[|descendants| - 1];
      RegisterDecls(Collect(schema, descendants[..|descendants| - 1]), last, schema[last].decls)
  }

  /** The owner registered for role `p` by each declaration of one model, in scan order. */
  function DeclLog(owner: string, decls: seq<Declaration>, p: string): seq<string>
    decreases |decls|
  {
    if |decls| == 0 then []
    else
      DeclLog(owner, decls[..|decls| - 1], p)
        + (if RegistersUnder(decls[|decls| - 1], p) then [owner] else [])
  }

  /** The owners registered for role `p` across the whole scan, in scan order. */
  function Log(schema: Schema, ds: seq<string>, p: string): seq<string>
    requires forall i :: 0 <= i < |ds| ==> ds[i] in schema
    decreases |ds|
  {
    if |ds| == 0 then []
    else Log(schema, ds[..|ds| - 1], p) + DeclLog(ds[|ds| - 1], schema[ds[|ds| - 1]].decls, p)
  }

  /** Some model `o` of the scan declares a reverse-polymorphic association under role `p`. */
  ghost predicate Declares(schema: Schema, ds: seq<string>, p: string, o: string)
    requires forall i :: 0 <= i < |ds| ==> ds[i] in schema
  {
    exists i, j :: 0 <= i < |ds| && ds[i] == o && 0 <= j < |schema[ds[i]].decls|
      && RegistersUnder(schema[ds[i]].decls[j], p)
  }

  lemma {:induction false} RegisterDeclsLog(reg: Registry, owner: string, decls: seq<Declaration>, p: string)
    ensures multiset(AllOwners(BucketsOf(RegisterDecls(reg, owner, decls), p)))
         == multiset(AllOwners(BucketsOf(reg, p))) + multiset(DeclLog(owner, decls, p))
    decreases |decls|
  {
    if |decls| > 0 {
      var init := decls[..|decls| - 1];
      var d := decls[|decls| - 1];
      var prev := RegisterDecls(reg, owner, init);
      RegisterDeclsLog(reg, owner, init, p);
      RegisterDeclLog(prev, owner, d, p);
      assert RegisterDecls(reg, owner, decls) == RegisterDecl(prev, owner, d);
      var step := if RegistersUnder(d, p) then [owner] else [];
      assert DeclLog(owner, decls, p) == DeclLog(owner, init, p) + step;
      assert multiset(DeclLog(owner, decls, p)) == multiset(DeclLog(owner, init, p)) + multiset(step);
    }
  }

  /** One declaration adds its owner to role `p` exactly when it registers under `p`. */
  lemma RegisterDeclLog(prev: Registry, owner: string, d: Declaration, p: string)
    ensures multiset(AllOwners(BucketsOf(RegisterDecl(prev, owner, d), p)))
         == multiset(AllOwners(BucketsOf(prev, p))) + multiset(if RegistersUnder(d, p) then [owner] else [])
  {
  }

  lemma {:induction false} DeclLogMembers(owner: string, decls: seq<Declaration>, p: string, o: string)
    ensures o in DeclLog(owner, decls, p) <==>
      o == owner && exists j :: 0 <= j < |decls| && RegistersUnder(decls[j], p)
    decreases |decls|
  {
    if |decls| > 0 {
      var init := decls[..|decls| - 1];
      DeclLogMembers(owner, init, p, o);
      if exists j :: 0 <= j < |decls| && RegistersUnder(decls[j], p) {
        var j :| 0 <= j < |decls| && RegistersUnder(decls[j], p);
        if j < |decls| - 1 {
          assert init[j] == decls[j];
        }
      }
      if exists j :: 0 <= j < |init| && RegistersUnder(init[j], p) {
        var j :| 0 <= j < |init| && RegistersUnder(init[j], p);
        assert decls[j] == init[j];
      }
    }
  }

  lemma {:induction false} LogMembers(schema: Schema, ds: seq<string>, p: string, o: string)
    requires forall i :: 0 <= i < |ds| ==> ds[i] in schema
    ensures o in Log(schema, ds, p) <==> Declares(schema, ds, p, o)
    decreases |ds|
  {
    if |ds| > 0 {
      var init := ds[..|ds| - 1];
      var last := ds[|ds| - 1];
      LogMembers(schema, init, p, o);
      DeclLogMembers(last, schema[last].decls, p, o);
      if Declares(schema, ds, p, o) {
        var i, j :| 0 <= i < |ds| && ds[i] == o && 0 <= j < |schema[ds[i]].decls|
          && RegistersUnder(schema[ds[i]].decls[j], p);
        if i < |ds| - 1 {
          assert init[i] == ds[i];
        }
      }
      if Declares(schema, init, p, o) {
        var i, j :| 0 <= i < |init| && init[i] == o && 0 <= j < |schema[init[i]].decls|
          && RegistersUnder(schema[init[i]].decls[j], p);
        assert ds[i] == init[i];
      }
    }
  }

  /** The owners stored under role `p` are exactly the logged registrations, duplicates kept. */
  lemma {:induction false} CollectStoresLog(schema: Schema, ds: seq<string>, p: string)
    requires forall i :: 0 <= i < |ds| ==> ds[i] in schema
    ensures multiset(AllOwners(BucketsOf(Collect(schema, ds), p))) == multiset(Log(schema, ds, p))
    decreases |ds|
  {
    if |ds| > 0 {
      var init := ds[..|ds| - 1];
      var last := ds[|ds| - 1];
      CollectStoresLog(schema, init, p);
      RegisterDeclsLog(Collect(schema, init), last, schema[last].decls, p);
    }
  }

  /** A model is a possible owner of role `p` exactly when one of its declarations is a
      `has_many`/`has_one` with `as: p`; no other declaration contributes anything. */
  lemma CollectOwnersExactly(schema: Schema, ds: seq<string>, p: string, o: string)
    requires forall i :: 0 <= i < |ds| ==> ds[i] in schema
    ensures o in PossibleOwners(Collect(schema, ds), p) <==> Declares(schema, ds, p, o)
  {
    var flat := AllOwners(BucketsOf(Collect(schema, ds), p));
    CollectStoresLog(schema, ds, p);
    LogMembers(schema, ds, p, o);
    assert o in flat <==> o in multiset(flat);
    assert o in Log(schema, ds, p) <==> o in multiset(Log(schema, ds, p));
  }

  /** Every qualifying declaration of role `p` uses the association name `a`. */
  ghost predicate SingleAssocName(schema: Schema, ds: seq<string>, p: string, a: string)
    requires forall i :: 0 <= i < |ds| ==> ds[i] in schema
  {
    forall i, j ::
      (0 <= i < |ds| && 0 <= j < |schema[ds[i]].decls| && RegistersUnder(schema[ds[i]].decls[j], p))
      ==> schema[ds[i]].decls[j].name == a
  }

  /** A role's buckets are empty or the single bucket `a`. */
  ghost predicate AtMostBucket(bs: seq<Bucket>, a: string) {
    bs == [] || (|bs| == 1 && bs[0].assoc == a)
  }

  lemma RegisterDeclSingleBucket(prev: Registry, owner: string, d: Declaration, p: string, a: string)
    requires AtMostBucket(BucketsOf(prev, p), a)
    requires RegistersUnder(d, p) ==> d.name == a
    ensures AtMostBucket(BucketsOf(RegisterDecl(prev, owner, d), p), a)
    ensures AllOwners(BucketsOf(RegisterDecl(prev, owner, d), p))
         == AllOwners(BucketsOf(prev, p)) + (if RegistersUnder(d, p) then [owner] else [])
  {
    if RegistersUnder(d, p) {
      AddToSingleBucket(prev, p, a, owner);
      var b := Bucket(a, AllOwners(BucketsOf(prev, p)) + [owner]);
      assert AllOwners([b]) == b.owners;
    }
  }

  lemma {:induction false} RegisterDeclsSingleBucket(reg: Registry, owner: string, decls: seq<Declaration>, p: string, a: string)
    requires AtMostBucket(BucketsOf(reg, p), a)
    requires forall j :: 0 <= j < |decls| && RegistersUnder(decls[j], p) ==> decls[j].name == a
    ensures AtMostBucket(BucketsOf(RegisterDecls(reg, owner, decls), p), a)
    ensures AllOwners(BucketsOf(RegisterDecls(reg, owner, decls), p))
         == AllOwners(BucketsOf(reg, p)) + DeclLog(owner, decls, p)
    decreases |decls|
  {
    if |decls| == 0 {
      assert DeclLog(owner, decls, p) == [];
    } else {
      var init := decls[..|decls| - 1];
      var d := decls[|decls| - 1];
      assert forall j :: 0 <= j < |init| ==> init[j] == decls[j];
      RegisterDeclsSingleBucket(reg, owner, init, p, a);
      var prev := RegisterDecls(reg, owner, init);
      RegisterDeclSingleBucket(prev, owner, d, p, a);
      var step := if RegistersUnder(d, p) then [owner] else [];
      assert DeclLog(owner, decls, p) == DeclLog(owner, init, p) + step;
      AppendAssoc(AllOwners(BucketsOf(reg, p)), DeclLog(owner, init, p), step);
    }
  }

  lemma {:induction false} CollectSingleBucket(schema: Schema, ds: seq<string>, p: string, a: string)
    requires forall i :: 0 <= i < |ds| ==> ds[i] in schema
    requires SingleAssocName(schema, ds, p, a)
    ensures AtMostBucket(BucketsOf(Collect(schema, ds), p), a)
    ensures AllOwners(BucketsOf(Collect(schema, ds), p)) == Log(schema, ds, p)
    decreases |ds|
  {
    if |ds| > 0 {
      var init := ds[..|ds| - 1];
      var last := ds[|ds| - 1];
      assert forall i :: 0 <= i < |init| ==> init[i] == ds[i];
      assert SingleAssocName(schema, init, p, a);
      CollectSingleBucket(schema, init, p, a);
      var decls := schema[last].decls;
      assert forall j :: 0 <= j < |decls| && RegistersUnder(decls[j], p) ==> decls[j].name == a by {
        forall j | 0 <= j < |decls| && RegistersUnder(decls[j], p)
          ensures decls[j].name == a
        {
          assert schema[ds[|ds| - 1]].decls[j] == decls[j];
        }
      }
      RegisterDeclsSingleBucket(Collect(schema, init), last, decls, p, a);
    }
  }

  /** When every model declares role `p` under the same association name, the possible
      owners of `p` are the declaring models in scan order (model order, then declaration
      order), each listed once. */
  lemma CollectOwnersSingleName(schema: Schema, ds: seq<string>, p: string, a: string)
    requires forall i :: 0 <= i < |ds| ==> ds[i] in schema
    requires SingleAssocName(schema, ds, p, a)
    ensures PossibleOwners(Collect(schema, ds), p) == Uniq(Log(schema, ds, p))
  {
    CollectSingleBucket(schema, ds, p, a);
  }

  // ---------------------------------------------------------------------------------------
  // Bucket layout in general

  /** One call `add(role, assoc, owner)` the scan makes for a given role. */
  datatype Registration = Registration(assoc: string, owner: string)

  /** The registrations of one model's declarations under role `p`, in declaration order. */
  function DeclRegs(owner: string, decls: seq<Declaration>, p: string): seq<Registration>
    decreases |decls|
  {
    if |decls| == 0 then []
    else
      var d := decls[|decls| - 1];
      DeclRegs(owner, decls[..|decls| - 1], p)
        + (if RegistersUnder(d, p) then [Registration(d.name, owner)] else [])
  }

  /** The registrations under role `p` across the whole scan, in scan order. */
  function Regs(schema: Schema, ds: seq<string>, p: string): seq<Registration>
    requires forall i :: 0 <= i < |ds| ==> ds[i] in schema
    decreases |ds|
  {
    if |ds| == 0 then []
    else Regs(schema, ds[..|ds| - 1], p) + DeclRegs(ds[|ds| - 1], schema[ds[|ds| - 1]].decls, p)
  }

  function AssocSeq(regs: seq<Registration>): seq<string> {
    seq(|regs|, i requires 0 <= i < |regs| => regs[i].assoc)
  }

  /** The association names of some registrations, each once, in order of first use. */
  function AssocsOf(regs: seq<Registration>): seq<string> {
    Uniq(AssocSeq(regs))
  }

  /** The owners registered under association name `a`, in registration order. */
  function OwnersUnder(regs: seq<Registration>, a: string): seq<string>
    decreases |regs|
  {
    if |regs| == 0 then []
    else
      var x := regs[|regs| - 1];
      OwnersUnder(regs[..|regs| - 1], a) + (if x.assoc == a then [x.owner] else [])
  }

  /** The buckets registrations produce, described without replaying `add`: one bucket per
      association name in order of first use, holding that name's owners in registration
      order. */
  function Grouped(regs: seq<Registration>): seq<Bucket> {
    var names := AssocsOf(regs);
    seq(|names|, i requires 0 <= i < |names| => Bucket(names[i], OwnersUnder(regs, names[i])))
  }

  lemma {:induction false} OwnersUnderAbsent(regs: seq<Registration>, a: string)
    requires a !in AssocSeq(regs)
    ensures OwnersUnder(regs, a) == []
    decreases |regs|
  {
    if |regs| > 0 {
      var init := regs[..|regs| - 1];
      assert AssocSeq(init) == AssocSeq(regs)[..|regs| - 1];
      assert AssocSeq(regs)[|regs| - 1] == regs[|regs| - 1].assoc;
      OwnersUnderAbsent(init, a);
    }
  }

  lemma GroupedNames(regs: seq<Registration>)
    ensures AssocNames(Grouped(regs)) == AssocsOf(regs)
  {
  }

  /** One more registration changes the grouped buckets as `add` does. */
  lemma GroupedSnoc(regs: seq<Registration>, x: Registration)
    ensures Grouped(regs + [x]) == AppendOwner(Grouped(regs), x.assoc, x.owner)
  {
    var regs' := regs + [x];
    assert regs'[..|regs|] == regs;
    assert AssocSeq(regs') == AssocSeq(regs) + [x.assoc];
    GroupedNames(regs);
    if x.assoc in AssocsOf(regs) {
      GroupedSnocKnown(regs, x);
    } else {
      GroupedSnocNew(regs, x);
    }
  }

  lemma OwnersUnderSnoc(regs: seq<Registration>, x: Registration, b: string)
    ensures OwnersUnder(regs + [x], b) == OwnersUnder(regs, b) + (if x.assoc == b then [x.owner] else [])
  {
    assert (regs + [x])[..|regs|] == regs;
  }

  lemma GroupedSnocKnown(regs: seq<Registration>, x: Registration)
    requires x.assoc in AssocsOf(regs)
    requires AssocsOf(regs + [x]) == AssocsOf(regs)
    ensures Grouped(regs + [x]) == AppendOwner(Grouped(regs), x.assoc, x.owner)
  {
    var a := x.assoc;
    var g := Grouped(regs);
    var g' := Grouped(regs + [x]);
    var names := AssocsOf(regs);
    GroupedNames(regs);
    AppendOwnerExtendsBucket(g, a, x.owner);
    var r := AppendOwner(g, a, x.owner);
    var k := FirstIndex(names, a);
    assert |g'| == |g| == |r|;
    forall i | 0 <= i < |g|
      ensures g'[i] == r[i]
    {
      OwnersUnderSnoc(regs, x, names[i]);
      if i != k {
        assert names[i] != a;
      }
    }
  }

  lemma GroupedSnocNew(regs: seq<Registration>, x: Registration)
    requires x.assoc !in AssocsOf(regs)
    requires AssocsOf(regs + [x]) == AssocsOf(regs) + [x.assoc]
    ensures Grouped(regs + [x]) == AppendOwner(Grouped(regs), x.assoc, x.owner)
  {
    var a := x.assoc;
    var g := Grouped(regs);
    var g' := Grouped(regs + [x]);
    var names := AssocsOf(regs);
    var b := Bucket(a, [x.owner]);
    GroupedNames(regs);
    OwnersUnderAbsent(regs, a);
    OwnersUnderSnoc(regs, x, a);
    AppendOwnerOpensBucket(g, a, x.owner);
    assert |g'| == |g| + 1;
    forall i | 0 <= i < |g'|
      ensures g'[i] == (g + [b])[i]
    {
      if i < |g| {
        assert names[i] != a;
        OwnersUnderSnoc(regs, x, names[i]);
      }
    }
  }


  /** A role's buckets after one declaration of the scan. */
  lemma RegisterDeclBuckets(prev: Registry, owner: string, d: Declaration, p: string)
    ensures BucketsOf(RegisterDecl(prev, owner, d), p)
         == if RegistersUnder(d, p) then AppendOwner(BucketsOf(prev, p), d.name, owner) else BucketsOf(prev, p)
  {
    if RegistersUnder(d, p) {
      assert RegisterDecl(prev, owner, d) == Add(prev, p, d.name, owner);
    }
  }

  lemma {:induction false} RegisterDeclsGrouped(reg: Registry, owner: string, decls: seq<Declaration>,
                                                p: string, before: seq<Registration>)
    requires BucketsOf(reg, p) == Grouped(before)
    ensures BucketsOf(RegisterDecls(reg, owner, decls), p) == Grouped(before + DeclRegs(owner, decls, p))
    decreases |decls|
  {
    if |decls| == 0 {
      assert before + DeclRegs(owner, decls, p) == before;
    } else {
      var init := decls[..|decls| - 1];
      var d := decls[|decls| - 1];
      var prev := RegisterDecls(reg, owner, init);
      var mid := before + DeclRegs(owner, init, p);
      var step := if RegistersUnder(d, p) then [Registration(d.name, owner)] else [];
      assert RegisterDecls(reg, owner, decls) == RegisterDecl(prev, owner, d);
      assert DeclRegs(owner, decls, p) == DeclRegs(owner, init, p) + step;
      AppendAssoc(before, DeclRegs(owner, init, p), step);
      RegisterDeclsGrouped(reg, owner, init, p, before);
      RegisterDeclBuckets(prev, owner, d, p);
      if RegistersUnder(d, p) {
        GroupedSnoc(mid, Registration(d.name, owner));
      } else {
        assert mid + step == mid;
      }
    }
  }

  /** After `collect!`, a role's buckets are the grouped registrations of the scan: one per
      association name in order of first registration, each holding the declaring models in
      scan order (duplicates kept). */
  lemma {:induction false} CollectGrouped(schema: Schema, ds: seq<string>, p: string)
    requires forall i :: 0 <= i < |ds| ==> ds[i] in schema
    ensures BucketsOf(Collect(schema, ds), p) == Grouped(Regs(schema, ds, p))
    decreases |ds|
  {
    if |ds| == 0 {
      assert AssocSeq([]) == [];
    } else {
      var init := ds[..|ds| - 1];
      var last := ds[|ds| - 1];
      CollectGrouped(schema, init, p);
      RegisterDeclsGrouped(Collect(schema, init), last, schema[last].decls, p, Regs(schema, init, p));
    }
  }

  /** The possible owners of a role after `collect!`: the owners of the first association
      name registered under it, then those of the second, and so on, each owner listed once
      at its first appearance. */
  lemma CollectOwnersInScanOrder(schema: Schema, ds: seq<string>, p: string)
    requires forall i :: 0 <= i < |ds| ==> ds[i] in schema
    ensures var regs := Regs(schema, ds, p); var names := AssocsOf(regs);
      PossibleOwners(Collect(schema, ds), p)
        == Uniq(Concat(seq(|names|, i requires 0 <= i < |names| => OwnersUnder(regs, names[i]))))
  {
    var regs := Regs(schema, ds, p);
    var names := AssocsOf(regs);
    var g := Grouped(regs);
    CollectGrouped(schema, ds, p);
    AllOwnersConcat(g);
    assert seq(|g|, i requires 0 <= i < |g| => g[i].owners)
        == seq(|names|, i requires 0 <= i < |names| => OwnersUnder(regs, names[i]));
  }

  const ExampleRegs: seq<Registration> :=
    [Registration("x", "A"), Registration("y", "B"), Registration("x", "C")]

  lemma ExampleFirstTwo()
    ensures Grouped(ExampleRegs[..2]) == [Bucket("x", ["A"]), Bucket("y", ["B"])]
  {
    var r0, r1 := ExampleRegs[0], ExampleRegs[1];
    assert Grouped([]) == [] by {
      assert AssocSeq([]) == [];
    }
    GroupedSnoc([], r0);
    assert [] + [r0] == [r0];
    GroupedSnoc([r0], r1);
    assert AppendOwner([Bucket("x", ["A"])], "y", "B") == [Bucket("x", ["A"])] + AppendOwner([], "y", "B");
    assert ExampleRegs[..2] == [r0] + [r1];
  }

  lemma ExampleBuckets()
    ensures Grouped(ExampleRegs) == [Bucket("x", ["A", "C"]), Bucket("y", ["B"])]
  {
    var g1 := [Bucket("x", ["A"]), Bucket("y", ["B"])];
    ExampleFirstTwo();
    GroupedSnoc(ExampleRegs[..2], ExampleRegs[2]);
    assert ExampleRegs == ExampleRegs[..2] + [ExampleRegs[2]];
    assert AppendOwner(g1, "x", "C") == [Bucket("x", ["A"] + ["C"])] + g1[1..];
    assert ["A"] + ["C"] == ["A", "C"] && g1[1..] == [Bucket("y", ["B"])];
  }

  /** Grouping is not scan order: `A` and `C` register under association `x` and `B` under
      `y` in between, yet `B` comes last among the possible owners. */
  lemma GroupedOrderExample()
    ensures Uniq(AllOwners(Grouped(ExampleRegs))) == ["A", "C", "B"]
  {
    var g2 := [Bucket("x", ["A", "C"]), Bucket("y", ["B"])];
    ExampleBuckets();
    AllOwnersCons(g2[0], g2[1..]);
    AllOwnersCons(g2[1], []);
    var flat := ["A", "C", "B"];
    assert AllOwners(g2) == flat;
    assert flat[..2] == ["A", "C"] && ["A", "C"][..1] == ["A"] && ["A"][..0] == [];
  }

  /** `values.flatten`: the owners of the buckets, bucket after bucket. */
  lemma {:induction false} AllOwnersConcat(bs: seq<Bucket>)
    ensures AllOwners(bs) == Concat(seq(|bs|, i requires 0 <= i < |bs| => bs[i].owners))
    decreases |bs|
  {
    if |bs| > 0 {
      var ss := seq(|bs|, i requires 0 <= i < |bs| => bs[i].owners);
      AllOwnersConcat(bs[1..]);
      assert ss[1..] == seq(|bs[1..]|, i requires 0 <= i < |bs[1..]| => bs[1..][i].owners);
    }
  }
}
