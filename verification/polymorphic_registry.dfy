/** The polymorphic registry: role name -> association name -> owner class names, the
    owners being the models that declare `has_many <association>, as: <role>`. */
module PolymorphicRegistry {
  import opened SeqUtil

  /** The owners registered under one association name, in registration order. */
  datatype Bucket = Bucket(assoc: string, owners: seq<string>)

  /** Each role keeps its buckets in the order their association names were first added. */
  datatype Registry = Registry(roles: map<string, seq<Bucket>>)

  const Empty: Registry := Registry(map[])

  /** The buckets under a role; a role never added has none. */
  function BucketsOf(reg: Registry, role: string): seq<Bucket> {
    if role in reg.roles then reg.roles[role] else []
  }

  function AssocNames(bs: seq<Bucket>): (r: seq<string>)
    ensures |r| == |bs| && forall i :: 0 <= i < |bs| ==> r[i] == bs[i].assoc
  {
    if |bs| == 0 then [] else [bs[0].assoc] + AssocNames(bs[1..])
  }

  /** Every association name heads at most one bucket. */
  ghost predicate WellFormed(reg: Registry) {
    forall role :: role in reg.roles ==> NoDup(AssocNames(reg.roles[role]))
  }

  /** All owners of a role's buckets, bucket after bucket (`values.flatten`). */
  function AllOwners(bs: seq<Bucket>): (r: seq<string>)
    ensures forall o :: o in r <==> exists i :: 0 <= i < |bs| && o in bs[i].owners
  {
    if |bs| == 0 then []
    else
      var rest := AllOwners(bs[1..]);
      assert forall o, i :: 1 <= i < |bs| && o in bs[i].owners ==> o in bs[1..][i - 1].owners;
      bs[0].owners + rest
  }

  lemma AllOwnersCons(b: Bucket, bs: seq<Bucket>)
    ensures AllOwners([b] + bs) == b.owners + AllOwners(bs)
    ensures AssocNames([b] + bs) == [b.assoc] + AssocNames(bs)
  {
    assert ([b] + bs)[1..] == bs;
  }

  /** Appends `owner` to the bucket named `assoc`, first opening an empty bucket for that
      name at the end when the name is new. Every other bucket, and the order of the buckets,
      stays as it was. */
  function AppendOwner(bs: seq<Bucket>, assoc: string, owner: string): (r: seq<Bucket>)
    ensures assoc in AssocNames(bs) ==> AssocNames(r) == AssocNames(bs)
    ensures assoc !in AssocNames(bs) ==> AssocNames(r) == AssocNames(bs) + [assoc]
    decreases |bs|
  {
    if |bs| == 0 then [Bucket(assoc, [owner])]
    else if bs[0].assoc == assoc then [Bucket(assoc, bs[0].owners + [owner])] + bs[1..]
    else
      var rest := AppendOwner(bs[1..], assoc, owner);
      assert AssocNames([bs[0]] + rest) == [bs[0].assoc] + AssocNames(rest);
      assert AssocNames(bs) == [bs[0].assoc] + AssocNames(bs[1..]);
      [bs[0]] + rest
  }

  /** Past a bucket of another name, appending works on the rest. */
  lemma AppendOwnerSkip(bs: seq<Bucket>, assoc: string, owner: string)
    requires |bs| > 0 && bs[0].assoc != assoc
    ensures AppendOwner(bs, assoc, owner) == [bs[0]] + AppendOwner(bs[1..], assoc, owner)
    ensures AssocNames(bs) == [bs[0].assoc] + AssocNames(bs[1..])
  {
  }

  /** A new association name opens its bucket after all the others. */
  lemma {:induction false} AppendOwnerOpensBucket(bs: seq<Bucket>, assoc: string, owner: string)
    requires assoc !in AssocNames(bs)
    ensures AppendOwner(bs, assoc, owner) == bs + [Bucket(assoc, [owner])]
    decreases |bs|
  {
    if |bs| > 0 {
      var tail := bs[1..];
      assert AssocNames(bs)[0] == bs[0].assoc;
      AppendOwnerSkip(bs, assoc, owner);
      AppendOwnerOpensBucket(tail, assoc, owner);
      assert bs == [bs[0]] + tail;
      AppendAssoc([bs[0]], tail, [Bucket(assoc, [owner])]);
    }
  }

  /** A known association name gets the owner at the end of the bucket it heads; every other
      bucket stays in place, unchanged. */
  lemma {:induction false} AppendOwnerExtendsBucket(bs: seq<Bucket>, assoc: string, owner: string)
    requires assoc in AssocNames(bs)
    ensures var r := AppendOwner(bs, assoc, owner); var k := FirstIndex(AssocNames(bs), assoc);
      && |r| == |bs|
      && r[k] == Bucket(assoc, bs[k].owners + [owner])
      && forall i :: 0 <= i < |bs| && i != k ==> r[i] == bs[i]
    decreases |bs|
  {
    var r := AppendOwner(bs, assoc, owner);
    var names := AssocNames(bs);
    if bs[0].assoc == assoc {
      assert FirstIndex(names, assoc) == 0;
      var head := [Bucket(assoc, bs[0].owners + [owner])];
      assert r == head + bs[1..];
      forall i | 1 <= i < |bs|
        ensures r[i] == bs[i]
      {
        assert r[i] == bs[1..][i - 1];
      }
    } else {
      var tail := bs[1..];
      AppendOwnerSkip(bs, assoc, owner);
      AppendOwnerExtendsBucket(tail, assoc, owner);
      var rest := AppendOwner(tail, assoc, owner);
      var k := FirstIndex(AssocNames(tail), assoc);
      FirstIndexCons(names, assoc);
      assert r[k + 1] == rest[k];
      forall i | 1 <= i < |bs| && i != k + 1
        ensures r[i] == bs[i]
      {
        assert r[i] == rest[i - 1] && bs[i] == tail[i - 1];
      }
    }
  }

  /** Appending registers exactly one more occurrence of the owner. */
  lemma {:induction false} AppendOwnerCounts(bs: seq<Bucket>, assoc: string, owner: string)
    ensures multiset(AllOwners(AppendOwner(bs, assoc, owner))) == multiset(AllOwners(bs)) + multiset{owner}
    decreases |bs|
  {
    if |bs| == 0 {
      AllOwnersCons(Bucket(assoc, [owner]), []);
    } else {
      var b := bs[0];
      var tail := bs[1..];
      assert bs == [b] + tail;
      AllOwnersCons(b, tail);
      if b.assoc == assoc {
        var b' := Bucket(assoc, b.owners + [owner]);
        AllOwnersCons(b', tail);
        assert multiset(b'.owners) == multiset(b.owners) + multiset{owner};
      } else {
        AppendOwnerCounts(tail, assoc, owner);
        AllOwnersCons(b, AppendOwner(tail, assoc, owner));
      }
    }
  }

  /** `add(role, assoc, owner)`: registers one owner. An owner already present is appended
      again; duplicates are only removed when the registry is queried. */
  function Add(reg: Registry, role: string, assoc: string, owner: string): (r: Registry)
    ensures role in r.roles
    ensures forall q :: q != role ==> BucketsOf(r, q) == BucketsOf(reg, q)
    ensures multiset(AllOwners(BucketsOf(r, role)))
         == multiset(AllOwners(BucketsOf(reg, role))) + multiset{owner}
    ensures WellFormed(reg) ==> WellFormed(r)
  {
    var bs := AppendOwner(BucketsOf(reg, role), assoc, owner);
    AppendOwnerKeepsNames(BucketsOf(reg, role), assoc, owner);
    AppendOwnerCounts(BucketsOf(reg, role), assoc, owner);
    SetRoleKeepsOthers(reg, role, bs);
    Registry(reg.roles[role := bs])
  }

  /** Replacing one role's buckets leaves every other role's buckets, and keeps the registry
      well formed when the new buckets are. */
  lemma SetRoleKeepsOthers(reg: Registry, role: string, bs: seq<Bucket>)
    ensures forall q :: q != role ==> BucketsOf(Registry(reg.roles[role := bs]), q) == BucketsOf(reg, q)
    ensures WellFormed(reg) && NoDup(AssocNames(bs)) ==> WellFormed(Registry(reg.roles[role := bs]))
  {
    var m := reg.roles[role := bs];
    assert forall q :: q in m && q != role ==> q in reg.roles && m[q] == reg.roles[q];
  }

  lemma AppendOwnerKeepsNames(bs: seq<Bucket>, assoc: string, owner: string)
    ensures NoDup(AssocNames(bs)) ==> NoDup(AssocNames(AppendOwner(bs, assoc, owner)))
  {
    var n := AssocNames(bs);
    if !NoDup(n) {
    } else if assoc !in n {
      NoDupSnoc(n, assoc);
      assert AssocNames(AppendOwner(bs, assoc, owner)) == n + [assoc];
    } else {
      assert AssocNames(AppendOwner(bs, assoc, owner)) == n;
    }
  }

  /** `add(role, assoc, owner)` on the role's buckets: a new association name opens a
      bucket `[owner]` after the existing ones; a known one gets `owner` appended to its
      bucket, and every other bucket of the role stays where and as it was. */
  lemma AddPlacesOwner(reg: Registry, role: string, assoc: string, owner: string)
    ensures assoc !in AssocNames(BucketsOf(reg, role)) ==>
      BucketsOf(Add(reg, role, assoc, owner), role) == BucketsOf(reg, role) + [Bucket(assoc, [owner])]
    ensures assoc in AssocNames(BucketsOf(reg, role)) ==>
      var bs := BucketsOf(reg, role);
      var after := BucketsOf(Add(reg, role, assoc, owner), role);
      var k := FirstIndex(AssocNames(bs), assoc);
      && |after| == |bs|
      && after[k] == Bucket(assoc, bs[k].owners + [owner])
      && forall i :: 0 <= i < |bs| && i != k ==> after[i] == bs[i]
  {
    var bs := BucketsOf(reg, role);
    assert BucketsOf(Add(reg, role, assoc, owner), role) == AppendOwner(bs, assoc, owner);
    if assoc in AssocNames(bs) {
      AppendOwnerExtendsBucket(bs, assoc, owner);
    } else {
      AppendOwnerOpensBucket(bs, assoc, owner);
    }
  }

  /** A role with at most the one bucket `assoc` keeps a single bucket when `assoc` is added
      again, its owners extended at the end. */
  lemma AddToSingleBucket(reg: Registry, role: string, assoc: string, owner: string)
    requires BucketsOf(reg, role) == []
          || (|BucketsOf(reg, role)| == 1 && BucketsOf(reg, role)[0].assoc == assoc)
    ensures BucketsOf(Add(reg, role, assoc, owner), role)
         == [Bucket(assoc, AllOwners(BucketsOf(reg, role)) + [owner])]
  {
    var bs := BucketsOf(reg, role);
    if bs != [] {
      assert bs[1..] == [];
      assert AllOwners(bs) == bs[0].owners;
      assert AppendOwner(bs, assoc, owner) == [Bucket(assoc, bs[0].owners + [owner])];
    } else {
      assert AllOwners(bs) + [owner] == [owner];
    }
    assert BucketsOf(Add(reg, role, assoc, owner), role) == AppendOwner(bs, assoc, owner);
  }

  /** `possible_owners(role)`: every owner under the role, once each, in the order of first
      registration when walking the buckets in order. */
  function PossibleOwners(reg: Registry, role: string): (r: seq<string>)
    ensures NoDup(r)
    ensures forall o :: o in r <==> o in AllOwners(BucketsOf(reg, role))
  {
    Uniq(AllOwners(BucketsOf(reg, role)))
  }

  /** A role that was never added has no owners (in particular, none in the empty registry). */
  lemma UnknownRoleHasNoOwners(reg: Registry, role: string)
    requires role !in reg.roles
    ensures PossibleOwners(reg, role) == []
  {
  }

  /** After `add(p, a, o)` the owners of `p` are the former owners plus `o`. Hence `o` is
      visible, and adding an owner that is already there changes no owner set. */
  lemma AddExtendsOwners(reg: Registry, p: string, a: string, o: string)
    ensures Elems(PossibleOwners(Add(reg, p, a, o), p)) == Elems(PossibleOwners(reg, p)) + {o}
  {
    var before := PossibleOwners(reg, p);
    var after := PossibleOwners(Add(reg, p, a, o), p);
    AddExtendsFlatOwners(reg, p, a, o);
    assert forall x :: x in after <==> x in before || x == o;
    assert forall x :: x in Elems(after) <==> x in after;
    assert forall x :: x in Elems(before) <==> x in before;
  }

  /** The flattened owners after `add(p, a, o)` hold the former ones and `o`, and nothing else. */
  lemma AddExtendsFlatOwners(reg: Registry, p: string, a: string, o: string)
    ensures forall x ::
              x in AllOwners(BucketsOf(Add(reg, p, a, o), p)) <==> x in AllOwners(BucketsOf(reg, p)) || x == o
  {
    var before := AllOwners(BucketsOf(reg, p));
    var after := AllOwners(BucketsOf(Add(reg, p, a, o), p));
    assert multiset(after) == multiset(before) + multiset{o};
    forall x
      ensures x in after <==> x in before || x == o
    {
      assert x in after <==> x in multiset(after);
      assert x in before <==> x in multiset(before);
    }
  }

  /** Registering an owner twice leaves the set of owners as registering it once. */
  lemma AddTwiceSameOwners(reg: Registry, p: string, a: string, b: string, o: string)
    ensures Elems(PossibleOwners(Add(Add(reg, p, a, o), p, b, o), p))
         == Elems(PossibleOwners(Add(reg, p, a, o), p))
  {
    AddExtendsOwners(reg, p, a, o);
    AddExtendsOwners(Add(reg, p, a, o), p, b, o);
  }

  /** `add(p, ...)` leaves the owners of every other role as they were. */
  lemma AddLeavesOtherRoles(reg: Registry, p: string, a: string, o: string, q: string)
    requires q != p
    ensures PossibleOwners(Add(reg, p, a, o), q) == PossibleOwners(reg, q)
  {
  }

  /** The owners of a role come in the order of their first occurrence in the flattened
      buckets: buckets in insertion order, owners within a bucket in insertion order. */
  lemma PossibleOwnersOrder(reg: Registry, role: string)
    ensures var flat := AllOwners(BucketsOf(reg, role));
      forall i, j :: 0 <= i < j < |PossibleOwners(reg, role)| ==>
        FirstIndex(flat, PossibleOwners(reg, role)[i]) < FirstIndex(flat, PossibleOwners(reg, role)[j])
  {
    UniqKeepsFirstOccurrenceOrder(AllOwners(BucketsOf(reg, role)));
  }
}
