/** guard: shared ownership of a block that starts out unshared, as a tagged pointer, and gets a
    reference count when it is first shared; and the byte_blobs that hold guards. Guards and counted
    owners are kept under their addresses. */
module Guards {

  /** The tagged pointer: null, a block to be freed directly, or a counted owner. */
  datatype Ref = Empty | Direct(block: nat) | Shared(impl: nat)

  datatype Impl = Impl(block: nat, refs: nat)

  // ---------------------------------------------------------------- ownership as a value

  function Holders(gs: map<nat, Ref>, i: nat): set<nat> {
    set g | g in gs && gs[g] == Shared(i)
  }

  /** The block a guard keeps alive; 0 if none. */
  function BlockOf(gs: map<nat, Ref>, os: map<nat, Impl>, g: nat): nat {
    if g !in gs then 0
    else match gs[g]
      case Empty => 0
      case Direct(b) => b
      case Shared(i) => if i in os then os[i].block else 0
  }

  /** g keeps a block alive, and no other guard does. */
  ghost predicate OnlyGuard(gs: map<nat, Ref>, os: map<nat, Impl>, g: nat) {
    BlockOf(gs, os, g) != 0 && forall h: nat :: BlockOf(gs, os, h) == BlockOf(gs, os, g) ==> h == g
  }

  ghost predicate DirectOwner(gs: map<nat, Ref>, b: nat, g: nat) {
    g in gs && gs[g] == Direct(b)
  }

  ghost predicate CountedOwner(os: map<nat, Impl>, b: nat, i: nat) {
    i in os && os[i].block == b
  }

  ghost predicate Owned(gs: map<nat, Ref>, os: map<nat, Impl>, b: nat) {
    (exists g :: DirectOwner(gs, b, g)) || (exists i :: CountedOwner(os, b, i))
  }

  ghost predicate Shaped(gs: map<nat, Ref>, os: map<nat, Impl>) {
    && (forall g :: g in gs && gs[g].Shared? ==> gs[g].impl in os)
    && (forall g :: g in gs && gs[g].Direct? ==> gs[g].block != 0)
    && (forall i :: i in os ==> os[i].block != 0)
  }

  /** A reference count is the number of guards that hold the owner. */
  ghost predicate Counted(gs: map<nat, Ref>, os: map<nat, Impl>) {
    forall i :: i in os ==> os[i].refs == |Holders(gs, i)| && os[i].refs > 0
  }

  /** A block has one owner: one guard holding it directly, or one counted owner. */
  ghost predicate OneOwner(gs: map<nat, Ref>, os: map<nat, Impl>) {
    && (forall g, h, b :: DirectOwner(gs, b, g) && DirectOwner(gs, b, h) ==> g == h)
    && (forall i, j, b :: CountedOwner(os, b, i) && CountedOwner(os, b, j) ==> i == j)
    && (forall g, i, b :: DirectOwner(gs, b, g) ==> !CountedOwner(os, b, i))
  }

  /** Every block given out has been freed, or is owned, once. */
  ghost predicate Conserved(gs: map<nat, Ref>, os: map<nat, Impl>, given: multiset<nat>, released: multiset<nat>) {
    forall b: nat :: given[b] == released[b] + (if Owned(gs, os, b) then 1 else 0)
  }

  ghost predicate Sound(gs: map<nat, Ref>, os: map<nat, Impl>) {
    Shaped(gs, os) && Counted(gs, os) && OneOwner(gs, os)
  }

  /** A block is owned exactly when some guard keeps it alive. */
  lemma OwnedIsHeld(gs: map<nat, Ref>, os: map<nat, Impl>, b: nat)
    requires Sound(gs, os) && b != 0
    ensures Owned(gs, os, b) <==> exists g :: BlockOf(gs, os, g) == b
  {
    if g :| DirectOwner(gs, b, g) { assert BlockOf(gs, os, g) == b; }
    if i :| CountedOwner(os, b, i) {
      assert |Holders(gs, i)| > 0;
      var g :| g in Holders(gs, i);
      assert BlockOf(gs, os, g) == b;
    }
    if g :| BlockOf(gs, os, g) == b {
      assert gs[g].Direct? ==> DirectOwner(gs, b, g);
      assert gs[g].Shared? ==> CountedOwner(os, b, gs[g].impl);
    }
  }

  lemma HoldersPut(gs: map<nat, Ref>, g: nat, r: Ref, i: nat)
    ensures Holders(gs[g := r], i) == if r == Shared(i) then Holders(gs, i) + {g} else Holders(gs, i) - {g}
  {
  }

  lemma HoldersGone(gs: map<nat, Ref>, g: nat, i: nat)
    ensures Holders(gs - {g}, i) == Holders(gs, i) - {g}
  {
  }

  // ---------------------------------------------------------------- the steps

  /** A guard for a block just allocated, or for none. */
  lemma MakeSound(gs: map<nat, Ref>, os: map<nat, Impl>, g: nat, r: Ref)
    requires Sound(gs, os) && g !in gs && (r == Empty || (r.Direct? && r.block != 0 && !Owned(gs, os, r.block)))
    ensures Sound(gs[g := r], os)
    ensures forall b: nat :: Owned(gs[g := r], os, b) <==> Owned(gs, os, b) || r == Direct(b)
    ensures forall h :: h != g ==> BlockOf(gs[g := r], os, h) == BlockOf(gs, os, h)
  {
    var gs' := gs[g := r];
    forall i | i in os
      ensures os[i].refs == |Holders(gs', i)|
    {
      HoldersPut(gs, g, r, i);
      assert g !in Holders(gs, i);
      assert Holders(gs', i) == Holders(gs, i);
    }
    forall b, h | DirectOwner(gs', b, h) ensures (h == g && r == Direct(b)) || DirectOwner(gs, b, h) { }
    forall b: nat ensures Owned(gs', os, b) <==> Owned(gs, os, b) || r == Direct(b) {
      if h :| DirectOwner(gs, b, h) { assert DirectOwner(gs', b, h); }
      if r == Direct(b) { assert DirectOwner(gs', b, g); }
    }
    forall h, k, b | DirectOwner(gs', b, h) && DirectOwner(gs', b, k) ensures h == k { }
  }

  /** The upgrade of a tagged guard: a counted owner with one reference takes its place. */
  lemma UpgradeCounted(gs: map<nat, Ref>, os: map<nat, Impl>, g: nat, i: nat)
    requires Shaped(gs, os) && Counted(gs, os) && g in gs && gs[g].Direct? && i !in os
    ensures Counted(gs[g := Shared(i)], os[i := Impl(gs[g].block, 1)])
  {
    var gs', os' := gs[g := Shared(i)], os[i := Impl(gs[g].block, 1)];
    assert Holders(gs, i) == {};
    forall j | j in os' ensures os'[j].refs == |Holders(gs', j)| && os'[j].refs > 0 {
      HoldersPut(gs, g, Shared(i), j);
      if j == i {
        assert Holders(gs', i) == {g};
      } else {
        assert g !in Holders(gs, j);
        assert Holders(gs', j) == Holders(gs, j);
      }
    }
  }

  lemma UpgradeSound(gs: map<nat, Ref>, os: map<nat, Impl>, g: nat, i: nat)
    requires Sound(gs, os) && g in gs && gs[g].Direct? && i !in os
    ensures var gs', os' := gs[g := Shared(i)], os[i := Impl(gs[g].block, 1)];
            Sound(gs', os') && (forall b: nat :: Owned(gs', os', b) <==> Owned(gs, os, b))
            && forall h :: BlockOf(gs', os', h) == BlockOf(gs, os, h)
  {
    hide Counted, OneOwner, Owned;
    UpgradeCounted(gs, os, g, i);
    UpgradeOwners(gs, os, g, i);
  }

  lemma UpgradeOwners(gs: map<nat, Ref>, os: map<nat, Impl>, g: nat, i: nat)
    requires OneOwner(gs, os) && g in gs && gs[g].Direct? && i !in os
    ensures var gs', os' := gs[g := Shared(i)], os[i := Impl(gs[g].block, 1)];
            OneOwner(gs', os') && forall b: nat :: Owned(gs', os', b) <==> Owned(gs, os, b)
  {
    var b0 := gs[g].block;
    var gs', os' := gs[g := Shared(i)], os[i := Impl(b0, 1)];
    assert DirectOwner(gs, b0, g) && CountedOwner(os', b0, i);
    assert forall b, h :: DirectOwner(gs', b, h) <==> DirectOwner(gs, b, h) && h != g;
    assert forall b, j :: CountedOwner(os', b, j) <==> CountedOwner(os, b, j) || (j == i && b == b0);
    forall b: nat ensures Owned(gs', os', b) <==> Owned(gs, os, b) {
      if h :| DirectOwner(gs, b, h) {
        if h != g { assert DirectOwner(gs', b, h); } else { assert CountedOwner(os', b, i); }
      }
      if j :| CountedOwner(os, b, j) { assert CountedOwner(os', b, j); }
    }
  }

  /** One more guard of a counted owner. */
  lemma AddRefSound(gs: map<nat, Ref>, os: map<nat, Impl>, g: nat, i: nat)
    requires Sound(gs, os) && g !in gs && i in os
    ensures var gs', os' := gs[g := Shared(i)], os[i := Impl(os[i].block, os[i].refs + 1)];
            Sound(gs', os') && (forall b: nat :: Owned(gs', os', b) <==> Owned(gs, os, b))
            && (forall h :: h != g ==> BlockOf(gs', os', h) == BlockOf(gs, os, h))
               && BlockOf(gs', os', g) == os[i].block
  {
    hide Owned, OneOwner, Shaped, Counted;
    AddRefCounted(gs, os, g, i);
    AddRefOwners(gs, os, g, i);
  }

  lemma AddRefCounted(gs: map<nat, Ref>, os: map<nat, Impl>, g: nat, i: nat)
    requires Shaped(gs, os) && Counted(gs, os) && g !in gs && i in os
    ensures var gs', os' := gs[g := Shared(i)], os[i := Impl(os[i].block, os[i].refs + 1)];
            Shaped(gs', os') && Counted(gs', os')
  {
    var gs', os' := gs[g := Shared(i)], os[i := Impl(os[i].block, os[i].refs + 1)];
    forall j | j in os' ensures os'[j].refs == |Holders(gs', j)| && os'[j].refs > 0 {
      HoldersPut(gs, g, Shared(i), j);
      assert g !in Holders(gs, j);
      if j != i { assert Holders(gs', j) == Holders(gs, j); }
    }
  }

  lemma AddRefOwners(gs: map<nat, Ref>, os: map<nat, Impl>, g: nat, i: nat)
    requires OneOwner(gs, os) && g !in gs && i in os
    ensures var gs', os' := gs[g := Shared(i)], os[i := Impl(os[i].block, os[i].refs + 1)];
            OneOwner(gs', os') && forall b: nat :: Owned(gs', os', b) <==> Owned(gs, os, b)
  {
    var gs', os' := gs[g := Shared(i)], os[i := Impl(os[i].block, os[i].refs + 1)];
    assert forall b, h :: DirectOwner(gs', b, h) <==> DirectOwner(gs, b, h);
    assert forall b, j :: CountedOwner(os', b, j) <==> CountedOwner(os, b, j);
  }

  /** The guards and owners once g has been destroyed. */
  function DropGuards(gs: map<nat, Ref>, g: nat): map<nat, Ref> {
    gs - {g}
  }

  function DropImpls(gs: map<nat, Ref>, os: map<nat, Impl>, g: nat): map<nat, Impl> {
    if g in gs && gs[g].Shared? && gs[g].impl in os then
      var i := gs[g].impl;
      if os[i].refs <= 1 then os - {i} else os[i := Impl(os[i].block, os[i].refs - 1)]
    else os
  }

  lemma DropCounted(gs: map<nat, Ref>, os: map<nat, Impl>, g: nat)
    requires Sound(gs, os) && g in gs
    ensures Shaped(DropGuards(gs, g), DropImpls(gs, os, g)) && Counted(DropGuards(gs, g), DropImpls(gs, os, g))
  {
    var gs', os' := DropGuards(gs, g), DropImpls(gs, os, g);
    forall j | j in os' ensures os'[j].refs == |Holders(gs', j)| && os'[j].refs > 0 {
      HoldersGone(gs, g, j);
      if gs[g] == Shared(j) {
        assert g in Holders(gs, j);
      } else {
        assert g !in Holders(gs, j);
        assert Holders(gs', j) == Holders(gs, j);
      }
    }
    forall h | h in gs' && gs'[h].Shared? ensures gs'[h].impl in os' {
      if gs[g].Shared? && gs[h].impl == gs[g].impl {
        var i := gs[g].impl;
        assert {g, h} <= Holders(gs, i);
        AtLeastTwo(Holders(gs, i), g, h);
      }
    }
  }

  lemma AtLeastTwo(s: set<nat>, a: nat, b: nat)
    requires a in s && b in s && a != b
    ensures |s| >= 2
  {
    assert s == {a, b} + (s - {a, b});
  }

  /** The block whose last guard g is goes; every other keeps its owner. */
  lemma DropOwners(gs: map<nat, Ref>, os: map<nat, Impl>, g: nat)
    requires Sound(gs, os) && g in gs
    ensures var gs', os', b0 := DropGuards(gs, g), DropImpls(gs, os, g), BlockOf(gs, os, g);
            OneOwner(gs', os')
            && (forall b: nat :: b != b0 ==> (Owned(gs', os', b) <==> Owned(gs, os, b)))
            && (b0 != 0 ==> Owned(gs, os, b0))
            && (gs[g].Direct? ==> !Owned(gs', os', b0))
            && (gs[g].Shared? ==> (Owned(gs', os', b0) <==> os[gs[g].impl].refs > 1))
  {
    var gs', os', b0 := DropGuards(gs, g), DropImpls(gs, os, g), BlockOf(gs, os, g);
    assert forall b, h :: DirectOwner(gs', b, h) <==> DirectOwner(gs, b, h) && h != g;
    assert forall b, j :: CountedOwner(os', b, j) <==>
             CountedOwner(os, b, j) && !(gs[g] == Shared(j) && os[j].refs <= 1);
    if gs[g].Direct? { assert DirectOwner(gs, b0, g); }
    if gs[g].Shared? {
      assert CountedOwner(os, b0, gs[g].impl);
      if os[gs[g].impl].refs > 1 { assert CountedOwner(os', b0, gs[g].impl); }
    }
    forall b: nat | b != b0 ensures Owned(gs', os', b) <==> Owned(gs, os, b) {
      if h :| DirectOwner(gs, b, h) { assert DirectOwner(gs', b, h); }
      if j :| CountedOwner(os, b, j) { assert CountedOwner(os', b, j); }
    }
  }

  lemma DropBlocks(gs: map<nat, Ref>, os: map<nat, Impl>, g: nat, h: nat)
    requires Sound(gs, os) && g in gs && h != g
    ensures BlockOf(DropGuards(gs, g), DropImpls(gs, os, g), h) == BlockOf(gs, os, h)
  {
    if h in gs && gs[h].Shared? && gs[g].Shared? && gs[h].impl == gs[g].impl {
      AtLeastTwo(Holders(gs, gs[g].impl), g, h);
    }
  }

  /** Moving a guard to another address. */
  lemma MoveCounted(gs: map<nat, Ref>, os: map<nat, Impl>, g: nat, h: nat)
    requires Counted(gs, os) && g in gs && h !in gs
    ensures Counted(gs[h := gs[g]][g := Empty], os)
  {
    hide Holders;
    var r := gs[g];
    var g1 := gs[h := r];
    forall i | i in os ensures os[i].refs == |Holders(g1[g := Empty], i)| {
      HoldersPut(gs, h, r, i);
      HoldersPut(g1, g, Empty, i);
      MoveCount(gs, g, h, i);
    }
  }

  lemma MoveOwners(gs: map<nat, Ref>, os: map<nat, Impl>, g: nat, h: nat)
    requires OneOwner(gs, os) && g in gs && h !in gs
    ensures var gs' := gs[h := gs[g]][g := Empty];
            OneOwner(gs', os) && forall b: nat :: Owned(gs', os, b) <==> Owned(gs, os, b)
  {
    var gs' := gs[h := gs[g]][g := Empty];
    assert forall b, k :: DirectOwner(gs', b, k) <==>
             (k == h && DirectOwner(gs, b, g)) || (k != h && k != g && DirectOwner(gs, b, k));
    hide DirectOwner, CountedOwner;
    forall b: nat ensures Owned(gs', os, b) <==> Owned(gs, os, b) {
      if k :| DirectOwner(gs, b, k) {
        if k == g { assert DirectOwner(gs', b, h); } else { assert DirectOwner(gs', b, k); }
      }
    }
  }

  lemma MoveSound(gs: map<nat, Ref>, os: map<nat, Impl>, g: nat, h: nat)
    requires Sound(gs, os) && g in gs && h !in gs
    ensures var gs' := gs[h := gs[g]][g := Empty];
            Sound(gs', os) && (forall b: nat :: Owned(gs', os, b) <==> Owned(gs, os, b))
            && BlockOf(gs', os, h) == BlockOf(gs, os, g) && BlockOf(gs', os, g) == 0
            && forall k :: k != g && k != h ==> BlockOf(gs', os, k) == BlockOf(gs, os, k)
  {
    hide Counted, OneOwner, Owned;
    MoveCounted(gs, os, g, h);
    MoveOwners(gs, os, g, h);
  }

  lemma MoveCount(gs: map<nat, Ref>, g: nat, h: nat, i: nat)
    requires g in gs && h !in gs
    ensures |(if gs[g] == Shared(i) then Holders(gs, i) + {h} else Holders(gs, i) - {h}) - {g}| == |Holders(gs, i)|
  {
    assert h !in Holders(gs, i);
    if gs[g] == Shared(i) {
      assert g in Holders(gs, i);
      assert Holders(gs, i) + {h} - {g} == (Holders(gs, i) - {g}) + {h};
    } else {
      assert g !in Holders(gs, i);
      assert Holders(gs, i) - {h} - {g} == Holders(gs, i);
    }
  }

  // ---------------------------------------------------------------- the guards as they are used

  /** All guards there are. A method that creates a guard or an owner is given its address. */
  class GuardHeap {
    var guards: map<nat, Ref>
    var owners: map<nat, Impl>
    /** Every call of free, and what has been allocated for guards to free. */
    var released: multiset<nat>
    ghost var given: multiset<nat>

    constructor ()
      ensures Valid() && guards == map[] && released == multiset{} && given == multiset{}
    {
      guards, owners, released, given := map[], map[], multiset{}, multiset{};
    }

    ghost predicate Valid()
      reads this
    {
      Sound(guards, owners) && Conserved(guards, owners, given, released)
    }

    function Block(g: nat): nat
      reads this
    {
      BlockOf(guards, owners, g)
    }

    /** make_simple_guard: for a block just allocated, or none. */
    method MakeSimple(g: nat, block: nat)
      requires Valid() && g !in guards && (block != 0 ==> !Owned(guards, owners, block))
      modifies this
      ensures Valid() && guards.Keys == old(guards.Keys) + {g} && Block(g) == block && released == old(released)
      ensures forall h :: h != g ==> Block(h) == old(Block(h))
      ensures given == if block == 0 then old(given) else old(given) + multiset{block}
    {
      hide Sound, Owned, BlockOf;
      var r := if block == 0 then Empty else Direct(block);
      MakeSound(guards, owners, g, r);
      MakeBlock(guards, owners, g, r);
      guards := guards[g := r];
      if block != 0 { given := given + multiset{block}; }
    }

    /** share: r becomes a guard of the same block; a tagged guard gets a counted owner, at address i,
        on the way. */
    method Share(g: nat, r: nat, i: nat)
      requires Valid() && g in guards && r !in guards && i !in owners
      modifies this
      ensures Valid() && guards.Keys == old(guards.Keys) + {r} && Block(r) == old(Block(g)) && released == old(released)
              && given == old(given)
      ensures forall h :: h != r ==> Block(h) == old(Block(h))
      ensures owners.Keys <= old(owners.Keys) + {i}
    {
      hide Sound, Owned, BlockOf;
      if guards[g] == Empty {
        MakeSound(guards, owners, r, Empty);
        MakeBlock(guards, owners, r, Empty);
        EmptyBlock(guards, owners, g);
        guards := guards[r := Empty];
        return;
      }
      if guards[g].Direct? {
        UpgradeSound(guards, owners, g, i);
        guards, owners := guards[g := Shared(i)], owners[i := Impl(guards[g].block, 1)];
      }
      var o := guards[g].impl;
      SharedBlock(guards, owners, g);
      AddRefSound(guards, owners, r, o);
      guards, owners := guards[r := Shared(o)], owners[o := Impl(owners[o].block, owners[o].refs + 1)];
    }

    /** The move constructor. */
    method Move(g: nat, h: nat)
      requires Valid() && g in guards && h !in guards
      modifies this
      ensures Valid() && guards.Keys == old(guards.Keys) + {h} && Block(h) == old(Block(g)) && Block(g) == 0
      ensures forall k :: k != g && k != h ==> Block(k) == old(Block(k))
      ensures released == old(released) && given == old(given)
    {
      hide Sound, Owned, BlockOf;
      MoveSound(guards, owners, g, h);
      guards := guards[h := guards[g]][g := Empty];
    }

    /** ~guard: the block is freed when this was the last guard that kept it alive, and only then. */
    method Destroy(g: nat)
      requires Valid() && g in guards
      modifies this
      ensures Valid() && guards.Keys == old(guards.Keys) - {g} && given == old(given) && owners.Keys <= old(owners.Keys)
      ensures Block(g) == 0 && forall h :: h != g ==> Block(h) == old(Block(h))
      ensures released == if OnlyGuard(old(guards), old(owners), g)
                          then old(released) + multiset{old(Block(g))} else old(released)
    {
      hide Sound, Owned, BlockOf, Conserved, DropImpls, DropGuards, OnlyGuard;
      ghost var gs, os, b, was := guards, owners, Block(g), released;
      DropCounted(gs, os, g);
      DropOwners(gs, os, g);
      forall h | h != g
        ensures BlockOf(DropGuards(gs, g), DropImpls(gs, os, g), h) == BlockOf(gs, os, h)
      {
        DropBlocks(gs, os, g, h);
      }
      DropSound(gs, os, g);
      if b != 0 { OwnedIsHeld(DropGuards(gs, g), DropImpls(gs, os, g), b); }
      match guards[g] {
        case Empty => EmptyBlock(gs, os, g);
        case Direct(block) =>
          DirectBlock(gs, os, g);
          released := released + multiset{block};
        case Shared(i) =>
          SharedBlock(gs, os, g);
          var refs := owners[i].refs - 1;
          if refs == 0 {
            released := released + multiset{owners[i].block};
            owners := owners - {i};
          } else {
            owners := owners[i := Impl(owners[i].block, refs)];
          }
      }
      guards := guards - {g};
      DropIs(gs, os, g);
      DropConserved(gs, os, g, given, was, released);
      NoGuardNoBlock(guards, owners, g);
      OnlyGuardIs(gs, os, g, guards, owners);
    }

    /** Move assignment; assigning a guard to itself does nothing. */
    method Assign(dst: nat, src: nat)
      requires Valid() && dst in guards && src in guards
      modifies this
      ensures Valid() && guards.Keys == old(guards.Keys) && given == old(given) && Block(dst) == old(Block(src))
      ensures dst != src ==> Block(src) == 0
      ensures forall k :: k != dst && k != src ==> Block(k) == old(Block(k))
      ensures released == if dst != src && OnlyGuard(old(guards), old(owners), dst)
                          then old(released) + multiset{old(Block(dst))} else old(released)
    {
      hide Sound, Owned, BlockOf, Conserved, OnlyGuard;
      if dst != src {
        Destroy(dst);
        Move(src, dst);
      }
    }
  }

  lemma MakeBlock(gs: map<nat, Ref>, os: map<nat, Impl>, g: nat, r: Ref)
    requires !r.Shared?
    ensures BlockOf(gs[g := r], os, g) == if r.Direct? then r.block else 0
  {
  }

  lemma NoGuardNoBlock(gs: map<nat, Ref>, os: map<nat, Impl>, g: nat)
    requires g !in gs
    ensures BlockOf(gs, os, g) == 0
  {
  }

  lemma OnlyGuardIs(gs: map<nat, Ref>, os: map<nat, Impl>, g: nat, gs': map<nat, Ref>, os': map<nat, Impl>)
    requires BlockOf(gs', os', g) == 0 && forall h: nat :: h != g ==> BlockOf(gs', os', h) == BlockOf(gs, os, h)
    ensures OnlyGuard(gs, os, g) <==>
              BlockOf(gs, os, g) != 0 && forall h: nat :: BlockOf(gs', os', h) != BlockOf(gs, os, g)
  {
    hide BlockOf;
    if OnlyGuard(gs, os, g) {
      forall h: nat
        ensures BlockOf(gs', os', h) != BlockOf(gs, os, g)
      {
        assert h != g ==> BlockOf(gs', os', h) == BlockOf(gs, os, h);
      }
    }
  }

  lemma EmptyBlock(gs: map<nat, Ref>, os: map<nat, Impl>, g: nat)
    requires g in gs && gs[g] == Empty
    ensures BlockOf(gs, os, g) == 0
  {
  }

  lemma DirectBlock(gs: map<nat, Ref>, os: map<nat, Impl>, g: nat)
    requires Sound(gs, os) && g in gs && gs[g].Direct?
    ensures BlockOf(gs, os, g) == gs[g].block != 0
  {
  }

  lemma SharedBlock(gs: map<nat, Ref>, os: map<nat, Impl>, g: nat)
    requires Sound(gs, os) && g in gs && gs[g].Shared?
    ensures gs[g].impl in os && BlockOf(gs, os, g) == os[gs[g].impl].block != 0 && os[gs[g].impl].refs > 0
  {
  }

  lemma DropIs(gs: map<nat, Ref>, os: map<nat, Impl>, g: nat)
    requires Sound(gs, os) && g in gs
    ensures DropGuards(gs, g) == gs - {g}
    ensures DropImpls(gs, os, g) == if !gs[g].Shared? then os
                                    else if os[gs[g].impl].refs - 1 == 0 then os - {gs[g].impl}
                                    else os[gs[g].impl := Impl(os[gs[g].impl].block, os[gs[g].impl].refs - 1)]
  {
  }

  lemma DropConserved(gs: map<nat, Ref>, os: map<nat, Impl>, g: nat, given: multiset<nat>, was: multiset<nat>,
                      released: multiset<nat>)
    requires Sound(gs, os) && g in gs && Conserved(gs, os, given, was)
    requires released == if BlockOf(gs, os, g) != 0
             && !Owned(DropGuards(gs, g), DropImpls(gs, os, g), BlockOf(gs, os, g))
                         then was + multiset{BlockOf(gs, os, g)} else was
    ensures Conserved(DropGuards(gs, g), DropImpls(gs, os, g), given, released)
  {
    hide Sound, Owned, DropImpls, DropGuards;
    DropOwners(gs, os, g);
    NoZero(gs, os);
  }

  lemma NoZero(gs: map<nat, Ref>, os: map<nat, Impl>)
    requires Sound(gs, os)
    ensures !Owned(gs, os, 0)
    ensures forall g :: g in gs ==> Sound(gs, os) && !Owned(DropGuards(gs, g), DropImpls(gs, os, g), 0)
  {
    forall g | g in gs ensures !Owned(DropGuards(gs, g), DropImpls(gs, os, g), 0) {
      DropCounted(gs, os, g);
    }
  }

  lemma DropSound(gs: map<nat, Ref>, os: map<nat, Impl>, g: nat)
    requires Shaped(DropGuards(gs, g), DropImpls(gs, os, g)) && Counted(DropGuards(gs, g), DropImpls(gs, os, g))
    requires OneOwner(DropGuards(gs, g), DropImpls(gs, os, g))
    ensures Sound(DropGuards(gs, g), DropImpls(gs, os, g))
  {
    hide DropGuards, DropImpls, Shaped, Counted, OneOwner;
  }

  /** In every state the operations reach: a block given out has been freed, once, exactly when no
      guard keeps it alive any more. */
  lemma FreedOnce(h: GuardHeap, b: nat)
    requires h.Valid() && b != 0 && h.given[b] == 1
    ensures h.released[b] == if exists g :: h.Block(g) == b then 0 else 1
  {
    hide Sound, Owned, BlockOf;
    OwnedIsHeld(h.guards, h.owners, b);
    if g :| BlockOf(h.guards, h.owners, g) == b { assert h.Block(g) == b; }
    if g :| h.Block(g) == b { assert BlockOf(h.guards, h.owners, g) == b; }
  }

  lemma BlocksAreOwned(h: GuardHeap, b: nat)
    requires h.Valid() && b != 0 && !Owned(h.guards, h.owners, b)
    ensures forall g :: h.Block(g) != b
  {
    hide Sound, Owned, BlockOf;
    OwnedIsHeld(h.guards, h.owners, b);
    forall g ensures h.Block(g) != b { assert BlockOf(h.guards, h.owners, g) != b; }
  }
}
