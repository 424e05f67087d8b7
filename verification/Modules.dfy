/** Loadable modules, their dependency graph, and what the reference counts of a loader mean. */
module Modules {
  import C = Cache

  const MODULE_REQUIRES_MAX := 32
  const MODULE_IMPLEMENTS_MAX := 16

  // What an interface symbol of a module points to.
  type Interface = int

  // The lists in a module's record are arrays, whose end is a null pointer unless they are full.
  type Implements = s: seq<string> | |s| <= MODULE_IMPLEMENTS_MAX
  type Requires = s: seq<string> | |s| <= MODULE_REQUIRES_MAX

  // A loadable module: the `this` record of its library, and the library's symbol table.
  // A module that is unloaded and loaded again starts from the same initial image.
  class Module {
    const implements: Implements
    const required: Requires
    // Whether the first of its options has a name.
    const options: bool
    const symbols: map<string, Interface>
    var accessCounter: nat
    var modules: seq<Module>
    var interfaces: seq<Interface>
    var dll: bool
    var cache: C.CacheRoot?

    constructor (implements: Implements, required: Requires, options: bool, symbols: map<string, Interface>)
      ensures this.implements == implements && this.required == required && this.options == options
      ensures this.symbols == symbols && Image() == UNLOADED
    {
      this.implements, this.required, this.options, this.symbols := implements, required, options, symbols;
      accessCounter, modules, interfaces, dll, cache := 0, [], [], false, null;
    }

    // implements[idx] and requires[idx] are not null.  Right behind each array lies the next list
    // of the record, which is what is seen at the end of an array that is full.
    predicate HasImplements(idx: nat)
      requires idx <= MODULE_IMPLEMENTS_MAX
    {
      if idx == MODULE_IMPLEMENTS_MAX then HasRequires(0) else idx < |implements|
    }

    predicate HasRequires(idx: nat)
      requires idx <= MODULE_REQUIRES_MAX
    {
      if idx == MODULE_REQUIRES_MAX then options else idx < |required|
    }

    ghost function Image(): Slot
      reads this
    {
      Slot(accessCounter, modules, interfaces, dll, cache)
    }
  }

  // The changing part of a module record.
  datatype Slot =
    Slot(accessCounter: nat, modules: seq<Module>, interfaces: seq<Interface>, dll: bool, cache: C.CacheRoot?)

  const UNLOADED: Slot := Slot(0, [], [], false, null)

  type State = map<Module, Slot>

  ghost function Now(s: set<Module>): State
    reads s
  {
    map m <- s :: m.Image()
  }

  // ---------- the dependency graph ----------

  // The modules the search path offers by name; rank, below height, decreases along dependencies.
  datatype World = World(files: map<string, Module>, rank: map<Module, nat>, height: nat)

  ghost predicate Acyclic(w: World) {
    && (forall n <- w.files :: w.files[n] in w.rank) && (forall m <- w.rank :: w.rank[m] < w.height)
    && (forall m, n :: m in w.rank && n in m.required && n in w.files ==> w.rank[w.files[n]] < w.rank[m])
  }

  lemma OffersRanked(w: World, name: string)
    requires Acyclic(w) && name in w.files
    ensures w.files[name] in w.rank && w.rank[w.files[name]] < w.height
  {}

  type Dag = w: World | Acyclic(w) witness World(map[], map[], 0)

  ghost function Deps(w: Dag, names: seq<string>): seq<Module> {
    if names == [] then [] else
      var n := names[|names| - 1];
      Deps(w, names[..|names| - 1]) + if n in w.files then [w.files[n]] else []
  }

  ghost predicate Known(w: Dag, ms: seq<Module>) {
    forall m <- ms :: m in w.rank
  }

  ghost predicate Under(w: Dag, ms: seq<Module>, k: nat) {
    forall m <- ms :: m in w.rank && w.rank[m] < k
  }

  lemma {:induction false} DepsUnder(w: Dag, m: Module, i: nat)
    requires m in w.rank && i <= |m.required|
    ensures Under(w, Deps(w, m.required[..i]), w.rank[m])
  {
    if i > 0 {
      DepsUnder(w, m, i - 1);
      var names := m.required[..i];
      assert names[..|names| - 1] == m.required[..i - 1];
      assert names[|names| - 1] == m.required[i - 1];
    }
  }

  ghost function Needs(w: Dag, m: Module): (ds: seq<Module>)
    requires m in w.rank
    ensures Under(w, ds, w.rank[m])
  {
    DepsUnder(w, m, |m.required|);
    assert m.required[..|m.required|] == m.required;
    Deps(w, m.required)
  }

  ghost function Ceiling(w: Dag, ms: seq<Module>): (k: nat)
    requires Known(w, ms)
    ensures Under(w, ms, k)
    ensures forall j: nat :: Under(w, ms, j) ==> k <= j
  {
    if ms == [] then 0 else
      var k := Ceiling(w, ms[1..]);
      assert forall j: nat :: Under(w, ms, j) ==> Under(w, ms[1..], j) && w.rank[ms[0]] + 1 <= j;
      assert ms == [ms[0]] + ms[1..];
      if k < w.rank[ms[0]] + 1 then w.rank[ms[0]] + 1 else k
  }

  // The number of dependency paths from r to x, the empty path included.
  ghost function Paths(w: Dag, r: Module, x: Module): nat
    requires r in w.rank
    decreases w.rank[r]
  {
    (if r == x then 1 else 0) + Sum(w, Needs(w, r), x)
  }

  ghost function Sum(w: Dag, rs: seq<Module>, x: Module): nat
    requires Known(w, rs)
    decreases Ceiling(w, rs), |rs|
  {
    if rs == [] then 0 else Paths(w, rs[0], x) + Sum(w, rs[1..], x)
  }

  lemma {:induction false} SumAppend(w: Dag, a: seq<Module>, b: seq<Module>, x: Module)
    requires Known(w, a) && Known(w, b)
    ensures Known(w, a + b) && Sum(w, a + b, x) == Sum(w, a, x) + Sum(w, b, x)
  {
    if a == [] {
      assert a + b == b;
    } else {
      SumAppend(w, a[1..], b, x);
      assert (a + b)[1..] == a[1..] + b;
    }
  }

  // No path leads upwards, nor to another module of the same rank.
  lemma {:induction false} NoPathUp(w: Dag, r: Module, x: Module)
    requires r in w.rank && x in w.rank && w.rank[r] <= w.rank[x]
    ensures Paths(w, r, x) == if r == x then 1 else 0
    decreases w.rank[r]
  {
    NoPathsUp(w, Needs(w, r), x);
  }

  lemma {:induction false} NoPathsUp(w: Dag, rs: seq<Module>, x: Module)
    requires x in w.rank && Under(w, rs, w.rank[x])
    ensures Sum(w, rs, x) == 0
    decreases Ceiling(w, rs), |rs|
  {
    if rs != [] {
      NoPathUp(w, rs[0], x);
      NoPathsUp(w, rs[1..], x);
    }
  }

  // What can be reached is reached together with all it requires.
  lemma {:induction false} ReachedNeeds(w: Dag, r: Module, x: Module, d: Module)
    requires r in w.rank && x in w.rank && d in Needs(w, x) && Paths(w, r, x) > 0
    ensures Paths(w, r, d) > 0
    decreases w.rank[r]
  {
    if r == x {
      SumMember(w, Needs(w, r), d, d);
    } else {
      AllReached(w, Needs(w, r), x, d);
    }
  }

  lemma {:induction false} AllReached(w: Dag, rs: seq<Module>, x: Module, d: Module)
    requires Known(w, rs) && x in w.rank && d in Needs(w, x) && Sum(w, rs, x) > 0
    ensures Sum(w, rs, d) > 0
    decreases Ceiling(w, rs), |rs|
  {
    if Paths(w, rs[0], x) > 0 {
      ReachedNeeds(w, rs[0], x, d);
    } else {
      AllReached(w, rs[1..], x, d);
    }
  }

  lemma {:induction false} SumMember(w: Dag, rs: seq<Module>, r: Module, x: Module)
    requires Known(w, rs) && r in rs
    ensures Sum(w, rs, x) >= Paths(w, r, x)
  {
    if r != rs[0] {
      SumMember(w, rs[1..], r, x);
    }
  }

  // x is m, or required by it or by what it requires, going by the names in the records and the
  // files behind them.
  ghost predicate DependsOn(w: Dag, m: Module, x: Module)
    requires m in w.rank
    decreases w.rank[m]
  {
    m == x || exists n <- m.required :: n in w.files && DependsOn(w, w.files[n], x)
  }

  ghost predicate RequiresIt(w: Dag, m: Module, d: Module) {
    exists n <- m.required :: n in w.files && w.files[n] == d
  }

  lemma {:induction false} DepsMember(w: Dag, names: seq<string>, d: Module)
    ensures d in Deps(w, names) <==> exists n <- names :: n in w.files && w.files[n] == d
  {
    if names != [] {
      var rest, last := names[..|names| - 1], names[|names| - 1];
      DepsMember(w, rest, d);
      assert names == rest + [last];
    }
  }

  lemma {:induction false} NeedsRequired(w: Dag, m: Module, d: Module)
    requires m in w.rank
    ensures d in Needs(w, m) <==> RequiresIt(w, m, d)
  {
    DepsMember(w, m.required, d);
  }

  // There is a path exactly to the modules depended on.
  lemma {:induction false} CountedIffDepends(w: Dag, r: Module, x: Module)
    requires r in w.rank
    ensures Paths(w, r, x) > 0 <==> DependsOn(w, r, x)
    decreases w.rank[r]
  {
    hide Deps, Ceiling;
    SumIffDepends(w, Needs(w, r), x);
    if DependsOn(w, r, x) && r != x {
      var n :| n in r.required && n in w.files && DependsOn(w, w.files[n], x);
      assert RequiresIt(w, r, w.files[n]);
      NeedsRequired(w, r, w.files[n]);
    }
    forall d | d in Needs(w, r) && DependsOn(w, d, x)
      ensures DependsOn(w, r, x)
    {
      NeedsRequired(w, r, d);
    }
  }

  lemma {:induction false} SumIffDepends(w: Dag, rs: seq<Module>, x: Module)
    requires Known(w, rs)
    ensures Sum(w, rs, x) > 0 <==> exists r <- rs :: DependsOn(w, r, x)
    decreases Ceiling(w, rs), |rs|
  {
    hide DependsOn, Deps;
    if rs != [] {
      CountedIffDepends(w, rs[0], x);
      SumIffDepends(w, rs[1..], x);
      assert rs == [rs[0]] + rs[1..];
    }
  }

  // A walk by positions in the lists of requirements; two requirements of the same module make
  // two walks.
  ghost predicate Leads(w: Dag, r: Module, walk: seq<nat>, x: Module)
    requires r in w.rank
    decreases |walk|
  {
    if walk == [] then r == x
    else walk[0] < |Needs(w, r)| && Leads(w, Needs(w, r)[walk[0]], walk[1..], x)
  }

  ghost predicate LeadsFrom(w: Dag, rs: seq<Module>, walk: seq<nat>, x: Module)
    requires Known(w, rs)
  {
    walk != [] && walk[0] < |rs| && Leads(w, rs[walk[0]], walk[1..], x)
  }

  // Paths is the number of walks.
  lemma {:induction false} PathsCountWalks(w: Dag, r: Module, x: Module) returns (walks: set<seq<nat>>)
    requires r in w.rank
    ensures (forall q :: q in walks <==> Leads(w, r, q, x)) && |walks| == Paths(w, r, x)
    decreases w.rank[r]
  {
    walks := SumCountsWalks(w, Needs(w, r), x);
    if r == x {
      assert [] !in walks;
      walks := walks + {[]};
    }
  }

  lemma {:induction false} SumCountsWalks(w: Dag, rs: seq<Module>, x: Module) returns (walks: set<seq<nat>>)
    requires Known(w, rs)
    ensures (forall q :: q in walks <==> LeadsFrom(w, rs, q, x)) && |walks| == Sum(w, rs, x)
    decreases Ceiling(w, rs), |rs|
  {
    walks := {};
    if rs != [] {
      var here := PathsCountWalks(w, rs[0], x);
      var there := SumCountsWalks(w, rs[1..], x);
      walks := Combined(here, there);
      forall q
        ensures q in walks <==> LeadsFrom(w, rs, q, x)
      {
        Either(w, rs, x, here, there, q);
      }
    }
  }

  lemma {:induction false} Combined(here: set<seq<nat>>, there: set<seq<nat>>) returns (walks: set<seq<nat>>)
    requires [] !in there
    ensures |walks| == |here| + |there|
    ensures forall q :: q in walks <==> (exists p <- here :: First(p) == q) || (exists p <- there :: Later(p) == q)
  {
    var a, b := set q <- here :: First(q), set q <- there :: Later(q);
    forall p, q | First(p) == First(q)
      ensures p == q
    {
      assert First(p)[1..] == p && First(q)[1..] == q;
    }
    forall p, q | p in there && q in there && Later(p) == Later(q)
      ensures p == q
    {
      LaterBack(p);
      LaterBack(q);
    }
    OneToOne(First, here, a);
    OneToOne(Later, there, b);
    forall q | q in b
      ensures q !in a
    {
      var p :| p in there && Later(p) == q;
      LaterBack(p);
    }
    walks := a + b;
    assert a !! b;
  }

  function First(q: seq<nat>): seq<nat> {
    [0] + q
  }

  function Later(q: seq<nat>): seq<nat> {
    if q == [] then [] else [q[0] + 1] + q[1..]
  }

  lemma LaterBack(q: seq<nat>)
    ensures q != [] ==> Later(q) != [] && Later(q)[0] > 0 && q == [Later(q)[0] - 1] + Later(q)[1..]
  {}

  lemma Either(w: Dag, rs: seq<Module>, x: Module, here: set<seq<nat>>, there: set<seq<nat>>, q: seq<nat>)
    requires rs != [] && Known(w, rs)
    requires forall p :: p in here <==> Leads(w, rs[0], p, x)
    requires forall p :: p in there <==> LeadsFrom(w, rs[1..], p, x)
    ensures LeadsFrom(w, rs, q, x) <==> (exists p <- here :: First(p) == q) || (exists p <- there :: Later(p) == q)
  {
    if q != [] && q[0] == 0 {
      assert First(q[1..]) == q;
    }
    if q != [] && q[0] > 0 {
      var p: seq<nat> := [q[0] - 1] + q[1..];
      assert Later(p) == q && p[1..] == q[1..];
    }
    forall p | p in there
      ensures LeadsFrom(w, rs, Later(p), x)
    {
      assert Later(p)[1..] == p[1..];
    }
    forall p | p in here
      ensures LeadsFrom(w, rs, First(p), x)
    {
      assert First(p)[1..] == p;
    }
  }

  lemma {:induction false} OneToOne(f: seq<nat> -> seq<nat>, s: set<seq<nat>>, t: set<seq<nat>>)
    requires t == set q <- s :: f(q)
    requires forall p, q :: p in s && q in s && f(p) == f(q) ==> p == q
    ensures |t| == |s|
  {
    if s != {} {
      var q :| q in s;
      OneToOne(f, s - {q}, t - {f(q)});
    }
  }

  // ---------- which modules can be loaded ----------

  // The lists end where they should: a full one, if nothing is seen behind it.
  predicate RequiresEnd(m: Module) {
    |m.required| < MODULE_REQUIRES_MAX || !m.options
  }

  predicate ImplementsEnd(m: Module) {
    |m.implements| < MODULE_IMPLEMENTS_MAX || m.required == []
  }

  ghost predicate Loadable(w: Dag, m: Module)
    requires m in w.rank
    decreases w.rank[m]
  {
    && RequiresEnd(m) && (forall n <- m.required :: n in w.files && Loadable(w, w.files[n]))
    && ImplementsEnd(m) && (forall n <- m.implements :: n in m.symbols)
  }

  ghost predicate AllLoadable(w: Dag, names: seq<string>) {
    forall n <- names :: n in w.files && Loadable(w, w.files[n])
  }

  ghost function Offers(m: Module, names: seq<string>): seq<Interface>
    requires forall n <- names :: n in m.symbols
  {
    seq(|names|, i requires 0 <= i < |names| => m.symbols[names[i]])
  }

  // The modules behind the names m requires, one for each, in order.
  lemma {:induction false} DepsAre(w: Dag, m: Module, i: nat)
    requires i <= |m.required| && forall n <- m.required :: n in w.files
    ensures |Deps(w, m.required[..i])| == i
    ensures forall j :: 0 <= j < i ==> Deps(w, m.required[..i])[j] == w.files[m.required[j]]
  {
    if i > 0 {
      DepsAre(w, m, i - 1);
      var names := m.required[..i];
      assert names[..|names| - 1] == m.required[..i - 1] && names[|names| - 1] == m.required[i - 1];
    }
  }

  lemma {:induction false} NeedsAre(w: Dag, m: Module)
    requires m in w.rank && AllLoadable(w, m.required)
    ensures |Needs(w, m)| == |m.required|
    ensures forall i :: 0 <= i < |m.required| ==> m.required[i] in w.files && Needs(w, m)[i] == w.files[m.required[i]]
  {
    DepsAre(w, m, |m.required|);
    assert m.required[..|m.required|] == m.required;
  }

  // ---------- the invariant ----------

  ghost predicate Settled(w: Dag, m: Module, s: Slot)
    requires m in w.rank
  {
    if s.accessCounter == 0 then s == UNLOADED
    else
      s.dll && s.modules == Needs(w, m) && Loadable(w, m) && s.interfaces == Offers(m, m.implements) && s.cache != null
  }

  // Below rank k every counter is the number of paths from rs.
  ghost predicate Counted(w: Dag, st: State, rs: seq<Module>, k: nat)
    requires Known(w, rs)
  {
    forall x <- w.rank :: w.rank[x] < k ==>
      x in st && st[x].accessCounter == Sum(w, rs, x) && Settled(w, x, st[x])
  }

  // From rank k upwards only m has changed.
  ghost predicate Untouched(w: Dag, st: State, st': State, k: nat, m: Module) {
    forall x <- w.rank :: w.rank[x] >= k && x != m ==> x in st && x in st' && st'[x] == st[x]
  }

  lemma {:induction false} UntouchedThen(w: Dag, st: State, st1: State, st2: State, m: Module, d: Module)
    requires m in w.rank && d in w.rank && w.rank[d] < w.rank[m]
    requires Untouched(w, st, st1, w.rank[m], m) && Untouched(w, st1, st2, w.rank[d], d)
    ensures Untouched(w, st, st2, w.rank[m], m)
    ensures m in st1 ==> m in st2 && st2[m] == st1[m]
  {}

  // The step from the modules m requires to m itself.
  lemma {:induction false} Completed(w: Dag, st0: State, st1: State, m: Module, rs: seq<Module>, k: nat)
    requires m in w.rank && w.rank[m] < k && Known(w, rs)
    requires Counted(w, st0, rs, k) && Counted(w, st1, rs + Needs(w, m), w.rank[m])
    requires Untouched(w, st0, st1, w.rank[m], m)
    requires m in st1 && st1[m].accessCounter == st0[m].accessCounter + 1 && Settled(w, m, st1[m])
    ensures Counted(w, st1, rs + [m], k)
  {
    forall x | x in w.rank && w.rank[x] < k
      ensures x in st1 && st1[x].accessCounter == Sum(w, rs + [m], x) && Settled(w, x, st1[x])
    {
      SumAppend(w, rs, [m], x);
      SumAppend(w, rs, Needs(w, m), x);
      assert Sum(w, [m], x) == Paths(w, m, x);
      if w.rank[x] >= w.rank[m] {
        NoPathUp(w, m, x);
      }
    }
  }

  lemma {:induction false} Expanded(w: Dag, st: State, r1: seq<Module>, m: Module, r2: seq<Module>, k: nat)
    requires m in w.rank && w.rank[m] < k && Known(w, r1) && Known(w, r2)
    requires Counted(w, st, r1 + [m] + r2, k)
    ensures Counted(w, st, r1 + Needs(w, m) + r2, w.rank[m])
    ensures m in st && st[m].accessCounter > 0 && Settled(w, m, st[m])
  {
    SumMember(w, r1 + [m] + r2, m, m);
    NoPathUp(w, m, m);
    forall x | x in w.rank && w.rank[x] < w.rank[m]
      ensures Sum(w, r1 + Needs(w, m) + r2, x) == Sum(w, r1 + [m] + r2, x)
    {
      SumThree(w, r1, Needs(w, m), r2, x);
      SumThree(w, r1, [m], r2, x);
      assert Sum(w, [m], x) == Paths(w, m, x);
    }
  }

  lemma {:induction false} SumThree(w: Dag, a: seq<Module>, b: seq<Module>, c: seq<Module>, x: Module)
    requires Known(w, a) && Known(w, b) && Known(w, c)
    ensures Known(w, a + b + c) && Sum(w, a + b + c, x) == Sum(w, a, x) + Sum(w, b, x) + Sum(w, c, x)
  {
    SumAppend(w, a, b, x);
    SumAppend(w, a + b, c, x);
  }

  // The step back from m.
  lemma {:induction false} Dropped(w: Dag, st0: State, st1: State, r1: seq<Module>, m: Module, r2: seq<Module>, k: nat)
    requires m in w.rank && w.rank[m] < k && Known(w, r1) && Known(w, r2)
    requires Counted(w, st0, r1 + [m] + r2, k) && Counted(w, st1, r1 + r2, w.rank[m])
    requires Untouched(w, st0, st1, w.rank[m], m)
    requires m in st1 && st1[m].accessCounter + 1 == st0[m].accessCounter && Settled(w, m, st1[m])
    ensures Counted(w, st1, r1 + r2, k)
  {
    forall x | x in w.rank && w.rank[m] <= w.rank[x] < k
      ensures x in st1 && st1[x].accessCounter == Sum(w, r1 + r2, x) && Settled(w, x, st1[x])
    {
      SumThree(w, r1, [m], r2, x);
      SumAppend(w, r1, r2, x);
      assert Sum(w, [m], x) == Paths(w, m, x);
      NoPathUp(w, m, x);
    }
  }

  // What a loaded module requires is loaded, too.
  lemma {:induction false} NeedsAreLoaded(w: Dag, st0: State, st: State, m: Module, rs: seq<Module>, i: nat, k: nat)
    requires m in w.rank && w.rank[m] < k && Known(w, rs) && i < |Needs(w, m)| && Known(w, Needs(w, m)[..i])
    requires Counted(w, st0, rs, k) && st0[m].accessCounter > 0 && Counted(w, st, rs + Needs(w, m)[..i], w.rank[m])
    ensures var d := Needs(w, m)[i]; d in st && st[d].accessCounter > 0
  {
    var d := Needs(w, m)[i];
    AllReached(w, rs, m, d);
    SumAppend(w, rs, Needs(w, m)[..i], d);
  }

  lemma {:induction false} Opened(w: Dag, st: State, rs: seq<Module>, m: Module, k: nat)
    requires m in w.rank && w.rank[m] < k && Known(w, rs) && Counted(w, st, rs, k) && st.Keys == w.rank.Keys
    ensures Counted(w, st, rs, w.rank[m]) && Untouched(w, st, st, w.rank[m], m)
    ensures m in st && Settled(w, m, st[m])
    ensures st[m].accessCounter > 0 ==> st[m].modules == Needs(w, m)
  {}

  lemma UntouchedSelf(w: Dag, st: State, m: Module)
    requires m in w.rank && st.Keys == w.rank.Keys
    ensures Untouched(w, st, st, w.rank[m], m)
  {}

  // Changing m itself is not seen below its rank.
  lemma {:induction false} OwnChange(w: Dag, h: State, st: State, st': State, m: Module, rs: seq<Module>, s: Slot)
    requires m in w.rank && Known(w, rs) && st' == st[m := s]
    requires Counted(w, st, rs, w.rank[m]) && Untouched(w, h, st, w.rank[m], m)
    ensures Counted(w, st', rs, w.rank[m]) && Untouched(w, h, st', w.rank[m], m)
  {}

  lemma {:induction false} SettledMore(w: Dag, m: Module, s: Slot)
    requires m in w.rank && s.accessCounter > 0 && Settled(w, m, s)
    ensures Settled(w, m, s.(accessCounter := s.accessCounter + 1))
    ensures s.accessCounter > 1 ==> Settled(w, m, s.(accessCounter := s.accessCounter - 1))
    ensures s.dll && s.modules == Needs(w, m)
  {}

  lemma SettledLoadable(w: Dag, m: Module, s: Slot)
    requires m in w.rank && Settled(w, m, s)
    ensures if s.accessCounter > 0 then Loadable(w, m) else s == UNLOADED
  {}

  lemma {:induction false} LoadableParts(w: Dag, m: Module)
    requires m in w.rank
    ensures Loadable(w, m) <==>
            RequiresEnd(m) && AllLoadable(w, m.required) && ImplementsEnd(m) &&
                forall n <- m.implements :: n in m.symbols
  {}

  // The prefix of the required names that have been dealt with.
  lemma {:induction false} NamesFrom(w: Dag, m: Module, i: nat)
    requires m in w.rank && i <= |m.required|
    ensures Under(w, Deps(w, m.required[..i]), w.rank[m])
    ensures i == 0 ==> Deps(w, m.required[..i]) == [] && AllLoadable(w, m.required[..i])
    ensures i < |m.required| ==> var n := m.required[i];
              (AllLoadable(w, m.required[..i + 1]) <==>
                  AllLoadable(w, m.required[..i]) && n in w.files && Loadable(w, w.files[n]))
    ensures i < |m.required| && m.required[i] in w.files ==>
              Deps(w, m.required[..i + 1]) == Deps(w, m.required[..i]) + [w.files[m.required[i]]]
    ensures i < |m.required| && m.required[i] in w.files ==> w.rank[w.files[m.required[i]]] < w.rank[m]
    ensures i == |m.required| ==> m.required[..i] == m.required && Deps(w, m.required) == Needs(w, m)
    ensures AllLoadable(w, m.required) ==> AllLoadable(w, m.required[..i])
  {
    DepsUnder(w, m, i);
    if i < |m.required| {
      var names := m.required[..i + 1];
      assert names[..|names| - 1] == m.required[..i] && names[|names| - 1] == m.required[i];
      assert names == m.required[..i] + [m.required[i]];
    } else {
      assert m.required[..i] == m.required;
    }
  }

  lemma {:induction false} UntouchedTwice(w: Dag, st: State, st1: State, st2: State, m: Module)
    requires m in w.rank && Untouched(w, st, st1, w.rank[m], m) && Untouched(w, st1, st2, w.rank[m], m)
    ensures Untouched(w, st, st2, w.rank[m], m)
  {}

  lemma SettledNew(w: Dag, m: Module, s: Slot)
    requires m in w.rank && Loadable(w, m) && s.cache != null &&
        s == Slot(1, Needs(w, m), Offers(m, m.implements), true, s.cache)
    ensures Settled(w, m, s)
  {}

  lemma SettledNone(w: Dag, m: Module)
    requires m in w.rank
    ensures Settled(w, m, UNLOADED)
  {}

  lemma Glue<T>(rs: seq<T>, ds: seq<T>, d: T)
    ensures rs + ds + [d] == rs + (ds + [d]) && rs + ds + [] == rs + ds && rs + [] == rs
  {}

  lemma Steps<T>(rs: seq<T>, ds: seq<T>, i: nat)
    requires i <= |ds|
    ensures ds[..0] == [] && rs + ds[..0] == rs && rs + ds[..|ds|] == rs + ds
    ensures i < |ds| ==> rs + ds[..i + 1] == rs + ds[..i] + [ds[i]]
  {
    assert i < |ds| ==> ds[..i + 1] == ds[..i] + [ds[i]];
    assert ds[..|ds|] == ds;
    assert rs + [] == rs;
  }

  lemma Rest<T>(a: seq<T>, ds: seq<T>, b: seq<T>, i: nat)
    requires i <= |ds|
    ensures a + ds[0..] + b == a + ds + b && a + ds[|ds|..] + b == a + b
    ensures i < |ds| ==> a + ds[i..] + b == a + [ds[i]] + (ds[i + 1..] + b)
    ensures i < |ds| ==> a + (ds[i + 1..] + b) == a + ds[i + 1..] + b
  {
    assert ds[0..] == ds;
    assert a + [] == a;
    assert i < |ds| ==> ds[i..] == [ds[i]] + ds[i + 1..];
  }

  // What is open in st is open in st', with the same cache.
  ghost predicate Within(w: Dag, st: State, st': State) {
    forall x <- w.rank :: x in st && st[x].accessCounter > 0 ==>
      x in st' && st'[x].accessCounter > 0 && st'[x].cache == st[x].cache
  }

  lemma {:induction false} WithinThen(w: Dag, st: State, st1: State, st2: State)
    requires Within(w, st, st1) && Within(w, st1, st2)
    ensures Within(w, st, st2)
  {}

  lemma {:induction false} WithinSelf(w: Dag, st: State)
    ensures Within(w, st, st)
  {}

  // Only m changes, from being closed or without its cache changing.
  lemma {:induction false} WithinOwn(w: Dag, h: State, st: State, st': State, m: Module, s: Slot)
    requires Within(w, h, st) && st' == st[m := s] && m in st
    requires (m in h && h[m].accessCounter == 0) ||
        (s.cache == st[m].cache && (st[m].accessCounter > 0 ==> s.accessCounter > 0))
    ensures Within(w, h, st')
  {}

  // Only m changes, and loses its cache only with its last reference.
  lemma {:induction false} WithinLess(w: Dag, st: State, st': State, m: Module, s: Slot)
    requires st' == st[m := s] && m in st && st[m].accessCounter > 0
    requires s.accessCounter > 0 ==> s.cache == st[m].cache
    ensures Within(w, st', st)
  {}

  // Counters, and the caches there were, determine everything else.
  lemma {:induction false} RolledBack(w: Dag, st0: State, now: State, st1: State, m: Module, rs: seq<Module>)
    requires m in w.rank && Known(w, rs) && st0.Keys == st1.Keys == w.rank.Keys
    requires Counted(w, st0, rs, w.rank[m]) && Counted(w, st1, rs, w.rank[m])
    requires Untouched(w, st0, st1, w.rank[m], m) && st1[m] == st0[m]
    requires Within(w, st0, now) && Within(w, st1, now) && st0[m] == UNLOADED
    ensures st1 == st0
  {}
}
