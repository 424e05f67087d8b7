/** NovaLoader.c: loading and unloading modules, the reference counts they keep, and their caches. */
module Loader {
  import T = TreeShape
  import B = BinTree
  import C = Cache
  import opened Modules
  import IC = InterfaceCache

  ghost predicate Apart(a: C.CacheRoot, b: C.CacheRoot)
    reads a.root, b.root
  {
    a != b && a.root != b.root && a.Entries() !! b.Entries()
  }

  class NovaLoader {
    const files: map<string, Module>
    ghost const w: Dag
    // The modules handed out to callers and not given back, once for every load.
    ghost var outstanding: seq<Module>
    // Everything the caches have been made of so far.
    ghost var born: set<object>

    ghost predicate Fixed() {
      w.files == files
    }

    ghost function Made(c: C.CacheRoot): set<object>
      reads c.root
    {
      {c, c.root} + set n <- c.Entries()
    }

    ghost predicate CacheOf(m: Module, c: C.CacheRoot)
      reads c, c.root, c.Entries()
    {
      m in w.rank && Loadable(w, m) && IC.Holding(c, IC.Listing(w, m))
    }

    // The caches are made of what has been born, and the loader and its modules are not.
    ghost predicate Owned()
      reads this`born, w.rank.Keys`cache, born
    {
      var owned :=
        && (forall m <- w.rank :: m.cache != null ==>
              m.cache in born && m.cache.root in born && forall n <- m.cache.Entries() :: n in born)
        && this !in born && (forall m <- w.rank :: m !in born);
      owned
    }

    // Every cache has been filled with what its module offers.
    ghost predicate Filled()
      requires Owned()
      reads this`born, w.rank.Keys`cache, born
    {
      var filled := forall m <- w.rank :: m.cache != null ==> CacheOf(m, m.cache);
      filled
    }

    // No two caches share anything.
    ghost predicate Separate()
      requires Owned()
      reads this`born, w.rank.Keys`cache, born
    {
      var separate :=
        forall m, n :: m in w.rank && n in w.rank && m != n && m.cache != null && n.cache != null ==>
          Apart(m.cache, n.cache);
      separate
    }

    // Of all caches ever made, only those that are some module's hold anything, and perhaps one.
    ghost predicate TidyBut(d: C.CacheRoot?)
      reads this`born, w.rank.Keys`cache, born
    {
      var tidy :=
        && (forall o <- born :: o is C.CacheRoot ==> (o as C.CacheRoot).root in born)
        && (forall o, p :: o in born && p in born && o is C.CacheRoot && p is C.CacheRoot && o != p ==>
              (o as C.CacheRoot).root != (p as C.CacheRoot).root)
        && (forall o <- born :: o is C.CacheRoot ==>
              o == d || (exists m <- w.rank :: m.cache == o) || (o as C.CacheRoot).Entries() == {});
      tidy
    }

    ghost predicate Kept()
      reads this`born, w.rank.Keys`cache, born
    {
      Owned() && Filled() && Separate() && TidyBut(null)
    }

    lemma NotBorn()
      requires Kept()
      ensures this !in born
    {}

    // The end of a load: a cache for m, filled with all it offers.
    method SetUpCache(m: Module)
      requires Kept() && m in w.rank && m.cache == null && IC.Ready(w, Now(w.rank.Keys), m)
      modifies m`cache, this`born
      ensures Kept() && m.cache != null && Now(w.rank.Keys) == old(Now(w.rank.Keys))[m := m.Image()]
      ensures m.Image() == old(m.Image()).(cache := m.cache)
      ensures fresh(born - old(born))
    {
      hide Acyclic, IC.Holding, IC.Ready, IC.Listing, Loadable, C.CacheRoot.Valid, C.CacheRoot.Held;
      var cache := CacheFor(m);
      Attach(m, cache);
    }

    method Attach(m: Module, cache: C.CacheRoot)
      requires Kept() && m in w.rank && m.cache == null && CacheOf(m, cache)
      requires forall x <- w.rank :: x.cache != null ==> Apart(x.cache, cache)
      requires Owned() && this !in Made(cache) && Made(cache) !! w.rank.Keys && Made(cache) !! born
      modifies m`cache, this`born
      ensures Kept() && m.cache == cache && Now(w.rank.Keys) == old(Now(w.rank.Keys))[m := m.Image()]
      ensures m.Image() == old(m.Image()).(cache := cache) && born == old(born) + Made(cache)
    {
      hide Acyclic, IC.Holding, IC.Listing, Loadable, CacheOf;
      Bear(m, cache);
      HandOver(m, cache);
    }

    method HandOver(m: Module, cache: C.CacheRoot)
      requires Owned() && Filled() && Separate() && TidyBut(cache) && m in w.rank && m.cache == null
      requires cache in born && cache.root in born && (forall n <- cache.Entries() :: n in born) && CacheOf(m, cache)
      requires forall x <- w.rank :: x.cache != null ==> Apart(x.cache, cache)
      modifies m`cache
      ensures Kept() && m.cache == cache && Now(w.rank.Keys) == old(Now(w.rank.Keys))[m := m.Image()]
      ensures m.Image() == old(m.Image()).(cache := cache) && born == old(born)
    {
      hide Acyclic, IC.Holding, IC.Listing, Loadable, CacheOf;
      m.cache := cache;
      assert Owned();
      assert Filled();
      assert Separate();
      assert TidyBut(null);
    }

    // A cache that has been made, and is no module's yet.
    ghost method Bear(m: Module, cache: C.CacheRoot)
      requires Kept() && CacheOf(m, cache) && this !in Made(cache) && Made(cache) !! w.rank.Keys && Made(cache) !! born
      modifies this`born
      ensures Owned() && Filled() && Separate() && TidyBut(cache) && born == old(born) + Made(cache)
      ensures CacheOf(m, cache)
    {
      hide Acyclic, IC.Holding, IC.Listing, Loadable, CacheOf;
      born := born + Made(cache);
      assert Owned();
      assert Filled();
      assert Separate();
      assert TidyBut(cache);
    }

    // All other caches stay as they are, and have nothing in common with the new one.
    method CacheFor(m: Module) returns (cache: C.CacheRoot)
      requires Kept() && m in w.rank && IC.Ready(w, Now(w.rank.Keys), m)
      ensures CacheOf(m, cache) && fresh(cache) && fresh(cache.root) && fresh(cache.Entries())
      ensures Now(w.rank.Keys) == old(Now(w.rank.Keys))
      ensures forall x <- w.rank :: x.cache != null ==> CacheOf(x, x.cache) && Apart(x.cache, cache)
    {
      hide Acyclic, IC.Holding, IC.Ready, IC.Listing, Loadable, C.CacheRoot.Valid, C.CacheRoot.Held;
      IC.ReadyLoadable(w, Now(w.rank.Keys), m);
      assert forall x <- w.rank :: x.cache != null ==> allocated(x.cache.Entries());
      cache := IC.NewCache(m, w);
      assert forall x <- w.rank :: x.cache != null ==> old(CacheOf(x, x.cache)) && CacheOf(x, x.cache);
    }

    // Frees the entries of a cache, and the cache.
    method CloseCache(m: Module)
      requires Kept() && m in w.rank && m.cache != null
      modifies m`cache, m.cache, m.cache.root, m.cache.Entries()
      ensures Kept() && m.cache == null && Now(w.rank.Keys) == old(Now(w.rank.Keys))[m := m.Image()]
      ensures m.Image() == old(m.Image()).(cache := null) && born == old(born)
      ensures old(m.cache).Entries() == {}
    {
      hide Acyclic, IC.Holding, IC.Listing, Loadable, C.CacheRoot.Valid, C.CacheRoot.Held, CacheOf;
      EmptyCache(m);
      assert Owned();
      assert Separate();
      assert TidyBut(null);
      Forget(m);
    }

    // Lets go of a cache that is empty.
    method Forget(m: Module)
      requires m in w.rank && m.cache != null && m.cache.Entries() == {} && Owned() && Separate() && TidyBut(null)
      requires forall x <- w.rank :: x != m && x.cache != null ==> CacheOf(x, x.cache)
      modifies m`cache
      ensures Kept() && m.cache == null && Now(w.rank.Keys) == old(Now(w.rank.Keys))[m := m.Image()]
      ensures m.Image() == old(m.Image()).(cache := null) && born == old(born)
      ensures old(m.cache).Entries() == {}
    {
      hide Acyclic, IC.Holding, IC.Listing, Loadable, CacheOf;
      m.cache := null;
      assert Owned();
      assert Filled();
      assert Separate();
      assert TidyBut(null);
    }

    method EmptyCache(m: Module)
      requires Kept() && m in w.rank && m.cache != null
      modifies m.cache, m.cache.root, m.cache.Entries()
      ensures Now(w.rank.Keys) == old(Now(w.rank.Keys)) && born == old(born)
      ensures forall x <- w.rank :: x != m && x.cache != null ==> CacheOf(x, x.cache)
      ensures forall x <- w.rank :: x != m && x.cache != null ==> x.cache.Entries() == old(x.cache.Entries())
      ensures m.cache.Entries() == {}
      ensures forall o <- born :: o is C.CacheRoot && o != m.cache ==>
          (o as C.CacheRoot).Entries() == old((o as C.CacheRoot).Entries())
    {
      hide Acyclic, IC.Holding, IC.Listing, Loadable, C.CacheRoot.Valid, C.CacheRoot.Held;
      ghost var c := m.cache;
      IC.HoldingValid(c, IC.Listing(w, m));
      assert forall x <- w.rank :: x.cache != null ==> allocated(x.cache.Entries());
      var entries := m.cache.Clear();
      forall x | x in w.rank && x != m && x.cache != null
        ensures CacheOf(x, x.cache) && x.cache.Entries() == old(x.cache.Entries())
      {
        assert old(CacheOf(x, x.cache)) && old(Apart(x.cache, c));
      }
    }

    // Rewrites the record of one module.
    method Set(m: Module, accessCounter: nat, modules: seq<Module>, dll: bool)
      requires m in w.rank && Kept()
      modifies m`accessCounter, m`modules, m`dll
      ensures Kept() && m.Image() == Slot(accessCounter, modules, m.interfaces, dll, m.cache)
      ensures Now(w.rank.Keys) == old(Now(w.rank.Keys))[m := m.Image()]
    {
      hide Filled, Separate, TidyBut, CacheOf, Acyclic;
      m.accessCounter, m.modules, m.dll := accessCounter, modules, dll;
    }

    method IncrementAccess(m: Module, ghost rs: seq<Module>, ghost k: nat)
      requires m in w.rank && w.rank[m] < k && Known(w, rs)
      requires Counted(w, Now(w.rank.Keys), rs, k) && m.accessCounter > 0
      requires Kept()
      modifies w.rank.Keys`accessCounter, w.rank.Keys`modules, w.rank.Keys`dll
      ensures Kept()
      ensures Counted(w, Now(w.rank.Keys), rs + [m], k)
      ensures Untouched(w, old(Now(w.rank.Keys)), Now(w.rank.Keys), w.rank[m], m)
      ensures Within(w, old(Now(w.rank.Keys)), Now(w.rank.Keys))
      decreases w.rank[m], 1
    {
      hide Acyclic, Counted, Untouched, Settled, Needs, Sum, Loadable, Within, Kept;
      ghost var h, ds := Now(w.rank.Keys), Needs(w, m);
      Opened(w, h, rs, m, k);
      WithinSelf(w, h);
      var idx := 0;
      Steps(rs, ds, 0);
      while idx < |m.modules|
        invariant idx <= |m.modules| && m.modules == ds && m.Image() == h[m] && Kept()
        invariant Counted(w, Now(w.rank.Keys), rs + ds[..idx], w.rank[m])
        invariant Untouched(w, h, Now(w.rank.Keys), w.rank[m], m) && Within(w, h, Now(w.rank.Keys))
      {
        IncrementNext(m, idx, rs, h, k);
        idx := idx + 1;
      }
      Steps(rs, ds, idx);
      IncrementSelf(m, rs, h, k);
    }

    // One round of its loop.
    method IncrementNext(m: Module, idx: nat, ghost rs: seq<Module>, ghost h: State, ghost k: nat)
      requires m in w.rank && w.rank[m] < k && Known(w, rs) && idx < |m.modules| && m.modules == Needs(w, m)
      requires Counted(w, h, rs, k) && m in h && h[m].accessCounter > 0 && m.Image() == h[m]
      requires Counted(w, Now(w.rank.Keys), rs + Needs(w, m)[..idx], w.rank[m])
      requires Untouched(w, h, Now(w.rank.Keys), w.rank[m], m) && Within(w, h, Now(w.rank.Keys))
      requires Kept()
      modifies w.rank.Keys`accessCounter, w.rank.Keys`modules, w.rank.Keys`dll
      ensures Kept()
      ensures m.Image() == h[m] && Counted(w, Now(w.rank.Keys), rs + Needs(w, m)[..idx + 1], w.rank[m])
      ensures Untouched(w, h, Now(w.rank.Keys), w.rank[m], m) && Within(w, h, Now(w.rank.Keys))
      decreases w.rank[m], 0
    {
      hide Acyclic, Counted, Untouched, Settled, Needs, Sum, Loadable, Within, Kept;
      ghost var now, ds := Now(w.rank.Keys), Needs(w, m);
      NeedsAreLoaded(w, h, now, m, rs, idx, k);
      IncrementAccess(m.modules[idx], rs + ds[..idx], w.rank[m]);
      UntouchedThen(w, h, now, Now(w.rank.Keys), m, ds[idx]);
      WithinThen(w, h, now, Now(w.rank.Keys));
      Steps(rs, ds, idx);
    }

    // Its last statement.
    method IncrementSelf(m: Module, ghost rs: seq<Module>, ghost h: State, ghost k: nat)
      requires m in w.rank && w.rank[m] < k && Known(w, rs) && m in h && m.Image() == h[m]
      requires Counted(w, h, rs, k) && h[m].accessCounter > 0 && Settled(w, m, h[m])
      requires Counted(w, Now(w.rank.Keys), rs + Needs(w, m), w.rank[m])
      requires Untouched(w, h, Now(w.rank.Keys), w.rank[m], m) && Within(w, h, Now(w.rank.Keys))
      requires Kept()
      modifies m`accessCounter, m`modules, m`dll
      ensures Kept()
      ensures Counted(w, Now(w.rank.Keys), rs + [m], k) && Untouched(w, h, Now(w.rank.Keys), w.rank[m], m)
      ensures Within(w, h, Now(w.rank.Keys))
    {
      hide Acyclic, Counted, Untouched, Settled, Needs, Sum, Loadable, Within, Kept;
      ghost var now := Now(w.rank.Keys);
      Set(m, m.accessCounter + 1, m.modules, m.dll);
      OwnChange(w, h, now, Now(w.rank.Keys), m, rs + Needs(w, m), m.Image());
      WithinOwn(w, h, now, Now(w.rank.Keys), m, m.Image());
      SettledMore(w, m, h[m]);
      Completed(w, h, Now(w.rank.Keys), m, rs, k);
    }

    // Takes back one reference to m and, through it, to everything it holds.  A module half
    // loaded holds what has been loaded for it so far.
    method NovaUnload(m: Module, ghost r1: seq<Module>, ghost r2: seq<Module>)
      requires m in w.rank && Known(w, r1) && Known(w, r2) && Under(w, m.modules, w.rank[m])
      requires Counted(w, Now(w.rank.Keys), r1 + m.modules + r2, w.rank[m]) && m.accessCounter > 0 && m.dll && Kept()
      modifies w.rank.Keys, born
      ensures Kept() && born == old(born) && Within(w, Now(w.rank.Keys), old(Now(w.rank.Keys)))
      ensures Counted(w, Now(w.rank.Keys), r1 + r2, w.rank[m])
      ensures Untouched(w, old(Now(w.rank.Keys)), Now(w.rank.Keys), w.rank[m], m)
      ensures m.Image() == if old(m.accessCounter) == 1 then UNLOADED
                           else old(m.Image()).(accessCounter := old(m.accessCounter) - 1)
      decreases w.rank[m], 0
    {
      hide Acyclic, Counted, Untouched, Settled, Needs, Sum, Within, Kept;
      ghost var h, ds := Now(w.rank.Keys), m.modules;
      UntouchedSelf(w, h, m);
      WithinSelf(w, h);
      var moduleIndex := 0;
      Rest(r1, ds, r2, 0);
      while moduleIndex < |m.modules|
        invariant moduleIndex <= |m.modules| && m.modules == ds && m.Image() == h[m]
        invariant Counted(w, Now(w.rank.Keys), r1 + ds[moduleIndex..] + r2, w.rank[m])
        invariant Untouched(w, h, Now(w.rank.Keys), w.rank[m], m) && Within(w, Now(w.rank.Keys), h)
        invariant Kept() && born == old(born)
      {
        ghost var now := Now(w.rank.Keys);
        Rest(r1, ds, r2, moduleIndex);
        UnloadOne(m.modules[moduleIndex], r1, ds[moduleIndex + 1..] + r2, w.rank[m]);
        UntouchedThen(w, h, now, Now(w.rank.Keys), m, ds[moduleIndex]);
        WithinThen(w, Now(w.rank.Keys), now, h);
        moduleIndex := moduleIndex + 1;
      }
      Rest(r1, ds, r2, moduleIndex);
      ghost var now := Now(w.rank.Keys);
      Release(m);
      OwnChange(w, h, now, Now(w.rank.Keys), m, r1 + r2, m.Image());
      WithinLess(w, now, Now(w.rank.Keys), m, m.Image());
      WithinThen(w, Now(w.rank.Keys), now, h);
    }

    // Takes back one reference to a loaded module.
    method UnloadOne(d: Module, ghost r1: seq<Module>, ghost r2: seq<Module>, ghost k: nat)
      requires d in w.rank && w.rank[d] < k && Known(w, r1) && Known(w, r2)
      requires Counted(w, Now(w.rank.Keys), r1 + [d] + r2, k) && Kept()
      modifies w.rank.Keys, born
      ensures Kept() && born == old(born) && Within(w, Now(w.rank.Keys), old(Now(w.rank.Keys)))
      ensures Counted(w, Now(w.rank.Keys), r1 + r2, k)
      ensures Untouched(w, old(Now(w.rank.Keys)), Now(w.rank.Keys), w.rank[d], d)
      ensures d.accessCounter == old(d.accessCounter) - 1
      decreases w.rank[d], 1
    {
      hide Acyclic, Counted, Untouched, Settled, Needs, Sum, Within, Kept;
      ghost var h := Now(w.rank.Keys);
      Expanded(w, h, r1, d, r2, k);
      SettledMore(w, d, h[d]);
      NovaUnload(d, r1, r2);
      SettledNone(w, d);
      Dropped(w, h, Now(w.rank.Keys), r1, d, r2, k);
    }

    // Drops one reference; the last one closes the library.
    method Release(m: Module)
      requires m in w.rank && m.accessCounter > 0 && m.dll && Kept()
      modifies m, born
      ensures Kept() && born == old(born)
      ensures m.Image() == if old(m.accessCounter) == 1 then UNLOADED
                           else old(m.Image()).(accessCounter := old(m.accessCounter) - 1)
      ensures Now(w.rank.Keys) == old(Now(w.rank.Keys))[m := m.Image()]
    {
      hide Kept, Acyclic;
      Set(m, m.accessCounter - 1, m.modules, m.dll);
      if m.accessCounter == 0 && m.dll {
        Close(m);
      }
    }

    // Gives up all that a module without references holds.
    method Close(m: Module)
      requires m in w.rank && m.accessCounter == 0 && Kept()
      modifies m, born
      ensures Kept() && born == old(born)
      ensures m.Image() == UNLOADED && Now(w.rank.Keys) == old(Now(w.rank.Keys))[m := m.Image()]
    {
      hide Kept, Acyclic;
      GiveUpCache(m);
      Blank(m);
    }

    method GiveUpCache(m: Module)
      requires m in w.rank && Kept()
      modifies m`cache, born
      ensures Kept() && born == old(born) && m.Image() == old(m.Image()).(cache := null)
      ensures Now(w.rank.Keys) == old(Now(w.rank.Keys))[m := m.Image()]
    {
      hide Kept, Acyclic;
      if m.cache != null {
        Closable(m);
        CloseCache(m);
      } else {
        NothingChanged(m);
      }
    }

    lemma NothingChanged(m: Module)
      requires m in w.rank
      ensures Now(w.rank.Keys) == Now(w.rank.Keys)[m := m.Image()]
    {}

    method Blank(m: Module)
      requires m in w.rank && Kept()
      modifies m`modules, m`interfaces, m`dll
      ensures Kept() && m.Image() == Slot(m.accessCounter, [], [], false, m.cache)
      ensures Now(w.rank.Keys) == old(Now(w.rank.Keys))[m := m.Image()]
    {
      hide Filled, Separate, TidyBut, CacheOf, Acyclic;
      m.modules := [];
      m.interfaces := [];
      m.dll := false;
    }

    lemma Closable(m: Module)
      requires Kept() && m in w.rank && m.cache != null
      ensures m.cache in born && m.cache.root in born && forall n <- m.cache.Entries() :: n in born
    {}

    // One round of LoadRequired.
    method LoadOne(m: Module, name: string, ghost rs: seq<Module>) returns (ok: bool)
      requires Fixed() && m in w.rank && Known(w, rs) && Under(w, m.modules, w.rank[m])
      requires Counted(w, Now(w.rank.Keys), rs + m.modules, w.rank[m])
      requires name in w.files ==> w.rank[w.files[name]] < w.rank[m]
      requires Kept()
      modifies w.rank.Keys, this`born, born
      ensures Kept() && Within(w, old(Now(w.rank.Keys)), Now(w.rank.Keys))
      ensures fresh(born - old(born))
      ensures Untouched(w, old(Now(w.rank.Keys)), Now(w.rank.Keys), w.rank[m], m)
      ensures ok <==> name in w.files && Loadable(w, w.files[name])
      ensures m.Image() == old(m.Image()).(modules := if ok then old(m.modules) + [w.files[name]] else old(m.modules))
      ensures Under(w, m.modules, w.rank[m]) && Counted(w, Now(w.rank.Keys), rs + m.modules, w.rank[m])
      decreases w.rank[m], 0
    {
      hide Acyclic, Counted, Untouched, Settled, Needs, Sum, Loadable, Deps, AllLoadable, Within, Kept;
      ghost var h, ds, k := Now(w.rank.Keys), m.modules, w.rank[m];
      UntouchedSelf(w, h, m);
      WithinSelf(w, h);
      var d := NovaLoad(name, rs + ds, k);
      ok := d != null;
      ghost var now := Now(w.rank.Keys);
      if d != null {
        OffersRanked(w, name);
        UntouchedThen(w, h, h, now, m, d);
        Set(m, m.accessCounter, m.modules + [d], m.dll);
        Glue(rs, ds, d);
        OwnChange(w, h, now, Now(w.rank.Keys), m, rs + (ds + [d]), m.Image());
        WithinOwn(w, h, now, Now(w.rank.Keys), m, m.Image());
      }
    }

    // Loads what a new module requires, in order, up to the first failure.
    method LoadRequired(m: Module, ghost rs: seq<Module>) returns (ok: bool)
      requires Fixed() && m in w.rank && Known(w, rs) && Counted(w, Now(w.rank.Keys), rs, w.rank[m])
      requires m.Image() == Slot(1, [], [], true, null) && Kept()
      modifies w.rank.Keys, this`born, born
      ensures Kept() && Within(w, old(Now(w.rank.Keys)), Now(w.rank.Keys))
      ensures fresh(born - old(born))
      ensures Untouched(w, old(Now(w.rank.Keys)), Now(w.rank.Keys), w.rank[m], m)
      ensures m.Image() == Slot(1, m.modules, [], true, null) && Under(w, m.modules, w.rank[m])
      ensures Counted(w, Now(w.rank.Keys), rs + m.modules, w.rank[m])
      ensures ok <==> RequiresEnd(m) && AllLoadable(w, m.required)
      ensures ok ==> m.modules == Needs(w, m)
      // One module for each name required, in order: the file of that name.
      ensures ok ==> |m.modules| == |m.required|
      ensures ok ==> forall i :: 0 <= i < |m.required| ==>
          m.required[i] in w.files && m.modules[i] == w.files[m.required[i]]
      decreases w.rank[m], 1
    {
      hide Acyclic, Counted, Untouched, Settled, Needs, Sum, Loadable, Deps, AllLoadable, Within, Kept;
      ghost var h := Now(w.rank.Keys);
      UntouchedSelf(w, h, m);
      WithinSelf(w, h);
      Steps(rs, [], 0);
      NamesFrom(w, m, 0);
      var idx := 0;
      while m.HasRequires(idx)
        invariant idx <= |m.required| && m.Image() == Slot(1, m.modules, [], true, null)
        invariant m.modules == Deps(w, m.required[..idx]) && AllLoadable(w, m.required[..idx])
        invariant Under(w, m.modules, w.rank[m]) && Counted(w, Now(w.rank.Keys), rs + m.modules, w.rank[m])
        invariant Untouched(w, h, Now(w.rank.Keys), w.rank[m], m) && Within(w, h, Now(w.rank.Keys)) && Kept()
        invariant fresh(born - old(born))
        decreases |m.required| - idx
      {
        ghost var now := Now(w.rank.Keys);
        NamesFrom(w, m, idx);
        if idx < MODULE_REQUIRES_MAX {
          NamesFrom(w, m, idx + 1);
          ok := LoadOne(m, m.required[idx], rs);
          UntouchedTwice(w, h, now, Now(w.rank.Keys), m);
          WithinThen(w, h, now, Now(w.rank.Keys));
          if !ok {
            return;
          }
        } else {
          return false;
        }
        idx := idx + 1;
      }
      NamesFrom(w, m, idx);
      NeedsAre(w, m);
      return true;
    }

    method AddInterfaces(m: Module) returns (ok: bool)
      requires m.interfaces == [] && m in w.rank && Kept()
      modifies m`interfaces
      ensures Kept()
      ensures Now(w.rank.Keys) == old(Now(w.rank.Keys))[m := m.Image()]
      ensures ok <==> ImplementsEnd(m) && forall n <- m.implements :: n in m.symbols
      ensures ok ==> m.interfaces == Offers(m, m.implements)
      // One interface for each name implemented, in order: the module's symbol of that name.
      ensures ok ==> |m.interfaces| == |m.implements| && forall i :: 0 <= i < |m.implements| ==>
          m.interfaces[i] == m.symbols[m.implements[i]]
    {
      var idx := 0;
      while m.HasImplements(idx)
        invariant idx <= |m.implements| && forall i :: 0 <= i < idx ==> m.implements[i] in m.symbols
        invariant m.interfaces == seq(idx, i requires 0 <= i < idx => m.symbols[m.implements[i]])
        decreases |m.implements| - idx
      {
        if idx < MODULE_IMPLEMENTS_MAX {
          if m.implements[idx] !in m.symbols {
            return false;
          }
          m.interfaces := m.interfaces + [m.symbols[m.implements[idx]]];
        } else {
          return false;
        }
        idx := idx + 1;
      }
      return true;
    }

    method NovaLoad(name: string, ghost rs: seq<Module>, ghost k: nat) returns (r: Module?)
      requires Fixed() && Known(w, rs) && Counted(w, Now(w.rank.Keys), rs, k)
      requires name in w.files ==> w.rank[w.files[name]] < k
      requires Kept()
      modifies w.rank.Keys, this`born, born
      ensures Kept() && Within(w, old(Now(w.rank.Keys)), Now(w.rank.Keys))
      ensures fresh(born - old(born))
      ensures r != null <==> name in w.files && Loadable(w, w.files[name])
      ensures r != null ==> r == w.files[name] && Counted(w, Now(w.rank.Keys), rs + [r], k)
      ensures r != null ==> Untouched(w, old(Now(w.rank.Keys)), Now(w.rank.Keys), w.rank[r], r)
      // A failed load leaves no trace.
      ensures r == null ==> Now(w.rank.Keys) == old(Now(w.rank.Keys))
      decreases if name in w.files then w.rank[w.files[name]] else -1, 4
    {
      hide Acyclic, Counted, Untouched, Settled, Needs, Sum, Deps, AllLoadable, Loadable, Within, Kept;
      ghost var h := Now(w.rank.Keys);
      WithinSelf(w, h);
      if name !in files {
        return null;
      }
      var m := files[name];
      OffersRanked(w, name);
      Opened(w, h, rs, m, k);
      if m.accessCounter > 0 {
        SettledLoadable(w, m, m.Image());
        IncrementAccess(m, rs, k);
        return m;
      }
      SettledLoadable(w, m, m.Image());
      var ok := LoadNew(m, rs, k);
      return if ok then m else null;
    }

    // What NovaLoad does with a module that is not loaded yet.
    method LoadNew(m: Module, ghost rs: seq<Module>, ghost k: nat) returns (ok: bool)
      requires Fixed() && m in w.rank && Known(w, rs) && Counted(w, Now(w.rank.Keys), rs, k)
      requires w.rank[m] < k && m.Image() == UNLOADED && Kept()
      modifies w.rank.Keys, this`born, born
      ensures Kept() && Within(w, old(Now(w.rank.Keys)), Now(w.rank.Keys))
      ensures fresh(born - old(born))
      ensures ok <==> Loadable(w, m)
      ensures ok ==> Counted(w, Now(w.rank.Keys), rs + [m], k)
      ensures Untouched(w, old(Now(w.rank.Keys)), Now(w.rank.Keys), w.rank[m], m)
      ensures !ok ==> Now(w.rank.Keys) == old(Now(w.rank.Keys))
      decreases w.rank[m], 3
    {
      hide Acyclic, Counted, Untouched, Settled, Needs, Sum, Deps, AllLoadable, Loadable, Within, Kept;
      ghost var h := Now(w.rank.Keys);
      Opened(w, h, rs, m, k);
      WithinSelf(w, h);
      ok := Fill(m, rs);
      ghost var now := Now(w.rank.Keys);
      if ok {
        SettledNew(w, m, m.Image());
        Completed(w, h, now, m, rs, k);
      } else {
        Glue(rs, m.modules, m);
        NovaUnload(m, rs, []);
        UntouchedTwice(w, h, now, Now(w.rank.Keys), m);
        RolledBack(w, h, now, Now(w.rank.Keys), m, rs);
      }
    }

    // Opens a module, loads what it requires and collects its interfaces.
    method Fill(m: Module, ghost rs: seq<Module>) returns (ok: bool)
      requires Fixed() && m in w.rank && Known(w, rs) && Counted(w, Now(w.rank.Keys), rs, w.rank[m])
      requires m.Image() == UNLOADED && Kept()
      modifies w.rank.Keys, this`born, born
      ensures Kept() && Within(w, old(Now(w.rank.Keys)), Now(w.rank.Keys))
      ensures fresh(born - old(born))
      ensures ok <==> Loadable(w, m)
      ensures Untouched(w, old(Now(w.rank.Keys)), Now(w.rank.Keys), w.rank[m], m)
      ensures m.Image() == Slot(1, m.modules, m.interfaces, true, m.cache) && Under(w, m.modules, w.rank[m])
      ensures Counted(w, Now(w.rank.Keys), rs + m.modules, w.rank[m])
      ensures ok ==> m.modules == Needs(w, m) && m.interfaces == Offers(m, m.implements) && m.cache != null
      decreases w.rank[m], 2
    {
      hide Acyclic, Counted, Untouched, Settled, Needs, Sum, Deps, AllLoadable, Loadable, Within, Kept;
      ghost var h := Now(w.rank.Keys);
      UntouchedSelf(w, h, m);
      WithinSelf(w, h);
      LoadableParts(w, m);
      Set(m, 1, [], true);
      ghost var h1 := Now(w.rank.Keys);
      OwnChange(w, h, h, h1, m, rs, m.Image());
      WithinOwn(w, h, h, h1, m, m.Image());
      ok := LoadRequired(m, rs);
      ghost var h2 := Now(w.rank.Keys);
      UntouchedTwice(w, h, h1, h2, m);
      WithinThen(w, h, h1, h2);
      if ok {
        ok := Finish(m, rs, h);
      }
    }

    // The last steps of loading a module: its interfaces, and the cache.
    method Finish(m: Module, ghost rs: seq<Module>, ghost h: State) returns (ok: bool)
      requires m in w.rank && Known(w, rs) && Kept() && m.Image() == Slot(1, Needs(w, m), [], true, null)
      requires RequiresEnd(m) && AllLoadable(w, m.required)
      requires Counted(w, Now(w.rank.Keys), rs + m.modules, w.rank[m])
      requires Untouched(w, h, Now(w.rank.Keys), w.rank[m], m) && Within(w, h, Now(w.rank.Keys))
      requires m in h && h[m] == UNLOADED
      modifies m`interfaces, m`cache, this`born
      ensures Kept() && Within(w, h, Now(w.rank.Keys)) && Untouched(w, h, Now(w.rank.Keys), w.rank[m], m)
      ensures fresh(born - old(born))
      ensures ok <==> Loadable(w, m)
      ensures m.Image() == Slot(1, Needs(w, m), m.interfaces, true, m.cache)
      ensures Counted(w, Now(w.rank.Keys), rs + m.modules, w.rank[m])
      ensures ok ==> m.interfaces == Offers(m, m.implements) && m.cache != null
    {
      hide Acyclic, Counted, Untouched, Settled, Needs, Sum, Deps, AllLoadable, Loadable, Within, Kept, IC.Ready;
      LoadableParts(w, m);
      ghost var h2 := Now(w.rank.Keys);
      ok := AddInterfaces(m);
      ghost var h3 := Now(w.rank.Keys);
      OwnChange(w, h, h2, h3, m, rs + m.modules, m.Image());
      WithinOwn(w, h, h2, h3, m, m.Image());
      if ok {
        IC.CompleteIsReady(w, h3, rs, m);
        SetUpCache(m);
        OwnChange(w, h, h3, Now(w.rank.Keys), m, rs + m.modules, m.Image());
        WithinOwn(w, h, h3, Now(w.rank.Keys), m, m.Image());
      }
    }
  
    // ---------- what callers see ----------

    // Every counter is the number of dependency paths from the loads still outstanding.
    ghost predicate Valid()
      reads this, w.rank.Keys, born
    {
      Fixed() && Known(w, outstanding) && Counted(w, Now(w.rank.Keys), outstanding, w.height) && Kept()
    }

    constructor (files: map<string, Module>, ghost w: Dag)
      requires w.files == files && forall m <- w.rank :: m.Image() == UNLOADED
      ensures Valid() && outstanding == [] && this.files == files && this.w == w
      ensures born == {}
    {
      this.files, this.w, outstanding := files, w, [];
      born := {};
    }

    method Load(name: string) returns (r: Module?)
      requires Valid()
      modifies this`outstanding
      modifies w.rank.Keys, this`born, born
      ensures Valid() && Within(w, old(Now(w.rank.Keys)), Now(w.rank.Keys))
      ensures fresh(born - old(born))
      ensures r != null <==> name in files && Loadable(w, files[name])
      ensures r != null ==> r == files[name] && outstanding == old(outstanding) + [r]
      ensures r == null ==> outstanding == old(outstanding) && Now(w.rank.Keys) == old(Now(w.rank.Keys))
    {
      hide Acyclic, Counted, Untouched, Settled, Needs, Sum, Loadable, Within, Kept;
      if name in files {
        OffersRanked(w, name);
      }
      NotBorn();
      r := NovaLoad(name, outstanding, w.height);
      if r != null {
        outstanding := outstanding + [r];
      }
    }

    // A caller gives back one of the loads it made.
    method Unload(m: Module, ghost i: nat)
      requires Valid() && i < |outstanding| && outstanding[i] == m
      modifies this`outstanding
      modifies w.rank.Keys, born
      ensures Valid() && outstanding == old(outstanding[..i] + outstanding[i + 1..])
      ensures Within(w, Now(w.rank.Keys), old(Now(w.rank.Keys))) && born == old(born)
      ensures m.accessCounter == old(m.accessCounter) - 1
    {
      hide Counted, Untouched, Sum, Within, Kept;
      NotBorn();
      ghost var r1, r2 := outstanding[..i], outstanding[i + 1..];
      assert outstanding == r1 + [m] + r2;
      UnloadOne(m, r1, r2, w.height);
      outstanding := r1 + r2;
    }

    // A module is in memory, complete, as long as an outstanding load depends on it; and no longer.
    lemma {:induction false} InUse(x: Module)
      requires Valid() && x in w.rank
      ensures x.dll <==> exists r <- outstanding :: DependsOn(w, r, x)
      ensures x.dll ==> x.modules == Needs(w, x) && x.interfaces == Offers(x, x.implements) && Loadable(w, x)
      ensures x.dll ==> x.accessCounter > 0 && x.cache != null && CacheOf(x, x.cache)
      ensures !x.dll ==> x.Image() == UNLOADED
    {
      SumIffDepends(w, outstanding, x);
    }

    lemma OwnFields()
      requires Valid()
      ensures w.files == files && this !in born
    {}

    // Its record then, by the names in it and what is behind them.
    lemma {:induction false} RecordInUse(x: Module)
      requires Valid() && x in w.rank && x.dll
      ensures |x.modules| == |x.required| && |x.interfaces| == |x.implements|
      ensures forall i :: 0 <= i < |x.required| ==>
          x.required[i] in files && x.modules[i] == files[x.required[i]] && x.modules[i].dll
      ensures forall i :: 0 <= i < |x.implements| ==>
          x.implements[i] in x.symbols && x.interfaces[i] == x.symbols[x.implements[i]]
    {
      InUse(x);
      hide Loadable, Deps, Kept, Acyclic;
      LoadableParts(w, x);
      NeedsAre(w, x);
      forall i | 0 <= i < |x.required|
        ensures x.modules[i].dll
      {
        AllReached(w, outstanding, x, x.modules[i]);
      }
    }

    // What has been loaded and not given back is open.
    lemma {:induction false} OneLoaded(m: Module)
      requires Valid() && m in outstanding
      ensures Counted(w, Now(w.rank.Keys), outstanding, w.height) && Known(w, outstanding)
      ensures m in w.rank && w.rank[m] < w.height && m.accessCounter > 0
    {
      SumMember(w, outstanding, m, m);
      NoPathUp(w, m, m);
    }

    lemma {:induction false} NothingLeft()
      requires Valid() && outstanding == []
      ensures forall x <- w.rank :: x.Image() == UNLOADED
      // Nor is anything left in a cache.
      ensures forall o <- born :: o is C.CacheRoot ==>
          (o as C.CacheRoot).root in born && (o as C.CacheRoot).Entries() == {}
    {
      forall x | x in w.rank
        ensures x.Image() == UNLOADED
      {
        assert Sum(w, outstanding, x) == 0;
      }
    }

    // ---------- searching in a loaded module ----------

    lemma {:induction false} OpenReady(m: Module)
      requires Valid() && m in w.rank && m.accessCounter > 0
      ensures IC.Ready(w, Now(w.rank.Keys), m) && m.cache != null && Loadable(w, m) && CacheOf(m, m.cache)
      ensures m.cache in born && m.cache.root in born && forall n <- m.cache.Entries() :: n in born
    {
      IC.LoadedIsReady(w, Now(w.rank.Keys), outstanding, w.height, m);
    }

    // findInterface in a loaded module, by way of its cache.
    method Find(m: Module, name: string) returns (found: IC.Option<Interface>)
      requires Valid() && m in w.rank && m.accessCounter > 0
      modifies born
      ensures Valid() && born == old(born) && Now(w.rank.Keys) == old(Now(w.rank.Keys)) && Loadable(w, m)
      ensures m.cache != null && IC.Answers(m.cache.Entries(), name, found)
      ensures |IC.Names(IC.Listing(w, m))| <= IC.CAPACITY ==> found == IC.First(IC.Listing(w, m), name)
      ensures found.Some? ==> IC.Exported(w, m, name, found.value)
      ensures |IC.Names(IC.Listing(w, m))| <= IC.CAPACITY ==>
          (found.None? <==> forall v :: !IC.Exported(w, m, name, v)) && IC.OwnAnswers(m, name, found)
    {
      hide Acyclic, Counted, Needs, Loadable, Kept, CacheOf, IC.Holding, IC.Ready, IC.Listing, IC.Names, IC.Answers,
          IC.First, IC.Exported, IC.OwnAnswers;
      OpenReady(m);
      found := Lookup(m, name);
    }

    // A lookup moves entries of one cache only.
    method Lookup(m: Module, name: string) returns (found: IC.Option<Interface>)
      requires Kept() && m in w.rank && Loadable(w, m) && m.cache != null
      modifies m.cache, m.cache.root, m.cache.Entries()
      ensures Kept() && born == old(born) && Now(w.rank.Keys) == old(Now(w.rank.Keys))
      ensures IC.Answers(m.cache.Entries(), name, found)
      ensures |IC.Names(IC.Listing(w, m))| <= IC.CAPACITY ==> found == IC.First(IC.Listing(w, m), name)
      ensures found.Some? ==> IC.Exported(w, m, name, found.value)
      ensures |IC.Names(IC.Listing(w, m))| <= IC.CAPACITY ==>
          (found.None? <==> forall v :: !IC.Exported(w, m, name, v)) && IC.OwnAnswers(m, name, found)
    {
      hide Acyclic, Loadable, CacheOf, IC.Holding, IC.Listing, IC.Names, IC.Answers, IC.First, IC.Exported,
          IC.OwnAnswers;
      found := LookupAlone(m, name);
      assert Owned();
      assert Filled();
      assert Separate();
      assert TidyBut(null);
    }

    method LookupAlone(m: Module, name: string) returns (found: IC.Option<Interface>)
      requires Kept() && m in w.rank && Loadable(w, m) && m.cache != null
      modifies m.cache, m.cache.root, m.cache.Entries()
      ensures Now(w.rank.Keys) == old(Now(w.rank.Keys)) && born == old(born)
      ensures forall x <- w.rank :: x.cache != null ==>
          CacheOf(x, x.cache) && x.cache.Entries() == old(x.cache.Entries())
      ensures forall o <- born :: o is C.CacheRoot ==>
          (o as C.CacheRoot).Entries() == old((o as C.CacheRoot).Entries())
      ensures IC.Answers(m.cache.Entries(), name, found)
      ensures |IC.Names(IC.Listing(w, m))| <= IC.CAPACITY ==> found == IC.First(IC.Listing(w, m), name)
      ensures found.Some? ==> IC.Exported(w, m, name, found.value)
      ensures |IC.Names(IC.Listing(w, m))| <= IC.CAPACITY ==>
          (found.None? <==> forall v :: !IC.Exported(w, m, name, v)) && IC.OwnAnswers(m, name, found)
    {
      hide Acyclic, Loadable, IC.Holding, IC.Listing, IC.Names, IC.Answers, IC.First, C.CacheRoot.Valid,
          IC.Exported, IC.OwnAnswers;
      ghost var c := m.cache;
      assert CacheOf(m, c);
      assert forall x <- w.rank :: x.cache != null ==> allocated(x.cache.Entries());
      found := IC.LookupInterface(m, m.cache, name, IC.Listing(w, m));
      IC.FoundExported(w, m, name, found);
      IC.FoundIffExported(w, m, name);
      IC.OwnAnswered(w, m, name);
      forall x | x in w.rank && x != m && x.cache != null
        ensures CacheOf(x, x.cache) && x.cache.Entries() == old(x.cache.Entries())
      {
        assert old(CacheOf(x, x.cache)) && old(Apart(x.cache, c));
      }
    }

    // In every loaded module, cache and search agree exactly if the names fit.
    lemma {:induction false} CacheAgrees(m: Module)
      requires Valid() && m in w.rank && m.accessCounter > 0
      ensures m.cache != null && Loadable(w, m) && IC.Ready(w, Now(w.rank.Keys), m)
      ensures IC.AnswersAll(m.cache.Entries(), IC.Listing(w, m)) <==> |IC.Names(IC.Listing(w, m))| <= IC.CAPACITY
    {
      hide Acyclic, Counted, Needs, Loadable, Kept, IC.Holding, IC.Ready, IC.Listing, IC.Names, IC.AnswersAll;
      OpenReady(m);
      IC.AgreesIffFits(m.cache, IC.Listing(w, m));
    }
  }
}
