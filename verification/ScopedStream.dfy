/** Scoped ownership of streams: construction acquires, moving transfers, and
    destruction releases unless the handle was moved away. */
module ScopedOwnership {
  import opened StreamPool

  /** The pool, and the handle inside every living scoped stream. A client that calls
      the pool itself and gives back what it took is an owner that is never moved. */
  datatype Owned = Owned(s: PoolState, owners: map<nat, StreamHandle>)

  ghost predicate Construct(r: Owned, o: nat, klass: StreamClass, r': Owned) {
    && o !in r.owners
    && exists h :: AcquireStep(r.s, klass, r'.s, h) && r'.owners == r.owners[o := h]
  }

  ghost predicate MoveTo(r: Owned, from: nat, o: nat, r': Owned) {
    && from in r.owners && o !in r.owners
    && r' == r.(owners := r.owners[o := r.owners[from]][from := r.owners[from].(id := 0)])
  }

  ghost predicate Destruct(r: Owned, o: nat, r': Owned) {
    && o in r.owners
    && r'.owners == r.owners - {o}
    && (if r.owners[o].id != 0 then ReleaseStep(r.s, r.owners[o], r'.s) else r'.s == r.s)
  }

  ghost predicate OwnedStep(r: Owned, r': Owned) {
    || (exists o, klass :: Construct(r, o, klass, r'))
    || (exists from, o :: MoveTo(r, from, o, r'))
    || (exists o :: Destruct(r, o, r'))
    || (r'.owners == r.owners && (DrainStep(r.s, r'.s) || DrawStep(r.s, r'.s)))
  }

  ghost predicate Owns(r: Owned, o: nat, h: StreamHandle) {
    o in r.owners && r.owners[o] == h && h.id != 0
  }

  /** The streams handed out are exactly those inside living owners, one owner each. */
  ghost predicate OwnersHoldAll(r: Owned) {
    && (forall h :: h in r.s.account.held <==> exists o :: Owns(r, o, h))
    && (forall o1, o2, h | Owns(r, o1, h) && Owns(r, o2, h) :: o1 == o2)
  }

  lemma ConstructOwns(r: Owned, o: nat, h: StreamHandle, r': Owned, o': nat, g: StreamHandle)
    requires o !in r.owners && r'.owners == r.owners[o := h]
    ensures Owns(r', o', g) <==> if o' == o then g == h && h.id != 0 else Owns(r, o', g)
  {
  }

  lemma ConstructKeeps(r: Owned, o: nat, klass: StreamClass, r': Owned)
    requires Conserved(r.s) && OwnersHoldAll(r) && Construct(r, o, klass, r')
    ensures Conserved(r'.s) && OwnersHoldAll(r')
  {
    var h :| AcquireStep(r.s, klass, r'.s, h) && r'.owners == r.owners[o := h];
    AcquireConserves(r.s, klass, r'.s, h);
    AcquireHeld(r.s, klass, r'.s, h);
    ConstructHoldsAll(r, o, h, r');
  }

  lemma AcquireHeld(s: PoolState, klass: StreamClass, s': PoolState, h: StreamHandle)
    requires Conserved(s) && AcquireStep(s, klass, s', h)
    ensures h.id != 0 ==> h !in s.account.held
    ensures forall g :: g in s'.account.held <==> g in s.account.held || (g == h && h.id != 0)
  {
    AcquireConserves(s, klass, s', h);
  }

  lemma ConstructHoldsAll(r: Owned, o: nat, h: StreamHandle, r': Owned)
    requires OwnersHoldAll(r) && o !in r.owners && r'.owners == r.owners[o := h]
    requires h.id != 0 ==> h !in r.s.account.held
    requires forall g :: g in r'.s.account.held <==> g in r.s.account.held || (g == h && h.id != 0)
    ensures OwnersHoldAll(r')
  {
    forall g ensures g in r'.s.account.held <==> exists o' :: Owns(r', o', g) {
      if g in r.s.account.held {
        var o' :| Owns(r, o', g);
        ConstructOwns(r, o, h, r', o', g);
      }
      ConstructOwns(r, o, h, r', o, g);
      if o' :| Owns(r', o', g) {
        ConstructOwns(r, o, h, r', o', g);
      }
    }
    forall o1, o2, g | Owns(r', o1, g) && Owns(r', o2, g) ensures o1 == o2 {
      ConstructOwns(r, o, h, r', o1, g);
      ConstructOwns(r, o, h, r', o2, g);
    }
  }

  lemma MoveKeeps(r: Owned, from: nat, o: nat, r': Owned)
    requires Conserved(r.s) && OwnersHoldAll(r) && MoveTo(r, from, o, r')
    ensures Conserved(r'.s) && OwnersHoldAll(r')
  {
    forall g ensures g in r'.s.account.held <==> exists o' :: Owns(r', o', g) {
      if g in r.s.account.held {
        var o' :| Owns(r, o', g);
        assert Owns(r', if o' == from then o else o', g);
      } else if o' :| Owns(r', o', g) {
        assert Owns(r, if o' == o then from else o', g);
      }
    }
    forall o1, o2, g | Owns(r', o1, g) && Owns(r', o2, g) ensures o1 == o2 {
      assert Owns(r, if o1 == o then from else o1, g);
      assert Owns(r, if o2 == o then from else o2, g);
    }
  }

  lemma DestructKeeps(r: Owned, o: nat, r': Owned)
    requires Conserved(r.s) && OwnersHoldAll(r) && Destruct(r, o, r')
    ensures Conserved(r'.s) && OwnersHoldAll(r')
  {
    var h := r.owners[o];
    if h.id != 0 {
      assert Owns(r, o, h);
      HeldOnce(r.s, h);
      ReleaseConservesIff(r.s, h, r'.s);
    }
    forall g ensures g in r'.s.account.held <==> exists o' :: Owns(r', o', g) {
      if g in r.s.account.held && g != h {
        var o' :| Owns(r, o', g);
        assert Owns(r', o', g);
      } else if o' :| Owns(r', o', g) {
        assert Owns(r, o', g);
      }
    }
    forall o1, o2, g | Owns(r', o1, g) && Owns(r', o2, g) ensures o1 == o2 {
      assert Owns(r, o1, g) && Owns(r, o2, g);
    }
  }

  lemma IdleKeeps(r: Owned, r': Owned)
    requires Conserved(r.s) && OwnersHoldAll(r)
    requires r'.owners == r.owners && (DrainStep(r.s, r'.s) || DrawStep(r.s, r'.s))
    ensures Conserved(r'.s) && OwnersHoldAll(r')
  {
    if DrainStep(r.s, r'.s) {
      DrainConserves(r.s, r'.s);
    } else {
      DrawConserves(r.s, r'.s);
    }
    assert forall o, h :: Owns(r', o, h) <==> Owns(r, o, h);
  }

  lemma OwnedStepKeeps(r: Owned, r': Owned)
    requires Conserved(r.s) && OwnersHoldAll(r) && OwnedStep(r, r')
    ensures Conserved(r'.s) && OwnersHoldAll(r')
  {
    if o, klass :| Construct(r, o, klass, r') {
      ConstructKeeps(r, o, klass, r');
    } else if from, o :| MoveTo(r, from, o, r') {
      MoveKeeps(r, from, o, r');
    } else if o :| Destruct(r, o, r') {
      DestructKeeps(r, o, r');
    } else {
      IdleKeeps(r, r');
    }
  }

  /** Scoped streams meet the pool's discipline by themselves: from any filled pool,
      after any sequence of constructions, moves, destructions, drains and module loads
      every stream is in one place, and once no owner lives no stream is handed out. */
  lemma {:induction false} ScopedRun(run: seq<Owned>, i: nat)
    requires i < |run| && Conserved(run[0].s) && run[0].s.account.held == multiset{} && run[0].owners == map[]
    requires forall j | 0 < j < |run| :: OwnedStep(run[j - 1], run[j])
    ensures Conserved(run[i].s) && OwnersHoldAll(run[i])
    ensures run[i].owners == map[] ==> run[i].s.account.held == multiset{}
  {
    if i > 0 {
      ScopedRun(run, i - 1);
      assert OwnedStep(run[i - 1], run[i]);
      OwnedStepKeeps(run[i - 1], run[i]);
    } else {
      assert forall o, h :: !Owns(run[0], o, h);
    }
    if run[i].owners == map[] {
      forall h ensures h !in run[i].s.account.held {
        assert forall o :: !Owns(run[i], o, h);
      }
    }
  }
}

module ScopedStreams {
  import opened StreamPool
  import opened MicroKernels

  class ScopedStream {
    const kernel: MicroKernel
    var h: StreamHandle

    constructor (kernel: MicroKernel, klass: StreamClass)
      requires kernel.Valid()
      modifies kernel
      ensures this.kernel == kernel && kernel.Valid()
      ensures AcquireStep(old(kernel.State()), klass, kernel.State(), h)
    {
      var g := kernel.AcquireStream(klass);
      this.kernel := kernel;
      h := g;
    }

    constructor MoveFrom(o: ScopedStream)
      modifies o
      ensures kernel == o.kernel && h == old(o.h) && o.h == old(o.h).(id := 0)
    {
      kernel := o.kernel;
      h := o.h;
      new;
      o.h := o.h.(id := 0);
    }

    method Destroy()
      modifies kernel
      ensures old(kernel.Valid()) && (h.id != 0 ==> h in old(kernel.account.held)) ==> kernel.Valid()
      ensures if h.id != 0 then ReleaseStep(old(kernel.State()), h, kernel.State())
              else kernel.State() == old(kernel.State())
    {
      if h.id != 0 {
        kernel.ReleaseStream(h);
      }
    }
  }
}
