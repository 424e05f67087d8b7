/** The two ways of finding an interface by name: the recursive search of source-stub.h and
    the splay cache that NovaLoader.c fills for every module. */
module InterfaceCache {
  import opened TreeShape
  import opened TreeOrder
  import opened Cache
  import L = Modules

  const INTERFACE_NAME_MAXLEN := 100
  const INTERFACE_CACHE_MAX_ENTRIES := 255
  const INTERFACE_CACHE_MAX_MEMORY := 255 * 16
  // sizeof (interface_entry_t) + sizeof (interface_t) with 8-byte pointers.
  const ENTRY_SIZE := 64
  // How many entries both limits leave room for.
  const CAPACITY := 63

  datatype Option<T> = None | Some(value: T)

  // ---------- names, and numbers for names ----------

  function StrNCmp(a: string, b: string, n: nat): int {
    if n == 0 || (a == [] && b == []) then 0
    else if a == [] then -1
    else if b == [] then 1
    else if a[0] != b[0] then (if a[0] < b[0] then -1 else 1)
    else StrNCmp(a[1..], b[1..], n - 1)
  }

  function Clip(s: string, n: nat): string {
    if |s| <= n then s else s[..n]
  }

  lemma {:induction false} SameIffClipped(a: string, b: string, n: nat)
    ensures StrNCmp(a, b, n) == 0 <==> Clip(a, n) == Clip(b, n)
  {
    if n != 0 && a != [] && b != [] {
      SameIffClipped(a[1..], b[1..], n - 1);
      assert Clip(a, n) == [a[0]] + Clip(a[1..], n - 1);
      assert Clip(b, n) == [b[0]] + Clip(b[1..], n - 1);
    }
  }

  lemma {:induction false} StrNCmpOrders(a: string, b: string, c: string, n: nat)
    ensures StrNCmp(a, a, n) == 0
    ensures StrNCmp(a, b, n) == -StrNCmp(b, a, n)
    ensures StrNCmp(a, b, n) <= 0 && StrNCmp(b, c, n) <= 0 ==> StrNCmp(a, c, n) <= 0
  {
    if n != 0 {
      StrNCmpOrders(if a == [] then a else a[1..], if b == [] then b else b[1..], if c == [] then c else c[1..], n - 1);
    }
  }

  const BASE := 0x110001

  predicate IsChar(c: int) {
    0 <= c < 0xD800 || 0xE000 <= c < 0x110000
  }

  // A numbering of all strings: the keys of the tree nodes are numbers.
  function Encode(s: string): nat {
    if s == [] then 0 else s[0] as int + 1 + BASE * Encode(s[1..])
  }

  function Decode(k: int): string
    decreases if k < 0 then 0 else k
  {
    if k <= 0 || !IsChar(k % BASE - 1) then [] else [(k % BASE - 1) as char] + Decode(k / BASE)
  }

  lemma {:induction false} DecodeEncode(s: string)
    ensures Decode(Encode(s)) == s
  {
    if s != [] {
      var c, rest := s[0] as int, Encode(s[1..]);
      DivMod(c + 1, rest);
      DecodeEncode(s[1..]);
    }
  }

  lemma DivMod(digit: nat, rest: nat)
    requires digit < BASE
    ensures (digit + BASE * rest) % BASE == digit && (digit + BASE * rest) / BASE == rest
  {}

  // interface_entry_cmp.
  function NameCmp(a: int, b: int): int {
    StrNCmp(Decode(a), Decode(b), INTERFACE_NAME_MAXLEN)
  }

  predicate SameName(a: string, b: string) {
    StrNCmp(a, b, INTERFACE_NAME_MAXLEN) == 0
  }

  lemma {:induction false} NamesAreOrdered()
    ensures Preorder(NameCmp)
  {
    forall a, b, c
      ensures NameCmp(a, a) == 0 && (NameCmp(a, b) < 0 <==> NameCmp(b, a) > 0)
      ensures NameCmp(a, b) <= 0 && NameCmp(b, c) <= 0 ==> NameCmp(a, c) <= 0
    {
      StrNCmpOrders(Decode(a), Decode(b), Decode(c), INTERFACE_NAME_MAXLEN);
    }
  }

  lemma {:induction false} SameNames(a: string, b: string, c: string)
    ensures SameName(a, a) && (SameName(a, b) <==> SameName(b, a))
    ensures SameName(a, b) ==> (SameName(a, c) <==> SameName(b, c))
  {
    SameIffClipped(a, b, INTERFACE_NAME_MAXLEN);
    SameIffClipped(b, a, INTERFACE_NAME_MAXLEN);
    SameIffClipped(a, c, INTERFACE_NAME_MAXLEN);
    SameIffClipped(b, c, INTERFACE_NAME_MAXLEN);
    SameIffClipped(a, a, INTERFACE_NAME_MAXLEN);
  }

  lemma {:induction false} KeyMatches(s: string, n: Node)
    ensures Heading(NameCmp, Encode(s), n) == EQUAL <==> SameName(s, Decode(n.key))
  {
    DecodeEncode(s);
  }

  // ---------- what a module offers, in search order ----------

  datatype Pair = Pair(name: string, iface: L.Interface)

  ghost function Own(names: seq<string>, ifaces: seq<L.Interface>): seq<Pair>
    requires |names| == |ifaces|
  {
    seq(|names|, i requires 0 <= i < |names| => Pair(names[i], ifaces[i]))
  }

  // Its own interfaces first, then those of each required module in turn.
  ghost function Listing(w: L.Dag, m: L.Module): seq<Pair>
    requires m in w.rank && L.Loadable(w, m)
    decreases w.rank[m]
  {
    Own(m.implements, L.Offers(m, m.implements)) + Listings(w, Loadables(w, m))
  }

  ghost function Loadables(w: L.Dag, m: L.Module): (ds: seq<L.Module>)
    requires m in w.rank && L.Loadable(w, m)
    ensures ds == L.Needs(w, m) && AllLoadable(w, ds) && L.Under(w, ds, w.rank[m]) && |ds| == |m.required|
  {
    NeedsLoadable(w, m, |m.required|);
    assert m.required[..|m.required|] == m.required;
    L.Needs(w, m)
  }

  ghost predicate AllLoadable(w: L.Dag, ds: seq<L.Module>) {
    forall d <- ds :: d in w.rank && L.Loadable(w, d)
  }

  lemma {:induction false} NeedsLoadable(w: L.Dag, m: L.Module, i: nat)
    requires m in w.rank && L.Loadable(w, m) && i <= |m.required|
    ensures AllLoadable(w, L.Deps(w, m.required[..i])) && |L.Deps(w, m.required[..i])| == i
  {
    if i > 0 {
      NeedsLoadable(w, m, i - 1);
      var names := m.required[..i];
      assert names[..|names| - 1] == m.required[..i - 1];
      assert names[|names| - 1] == m.required[i - 1];
      assert m.required[i - 1] in m.required;
    }
  }

  ghost function Listings(w: L.Dag, ds: seq<L.Module>): seq<Pair>
    requires AllLoadable(w, ds) && L.Known(w, ds)
    decreases L.Ceiling(w, ds), |ds|
  {
    if ds == [] then [] else Listing(w, ds[0]) + Listings(w, ds[1..])
  }

  // The first interface listed under a name.
  ghost function First(l: seq<Pair>, s: string): Option<L.Interface> {
    if l == [] then None else if SameName(l[0].name, s) then Some(l[0].iface) else First(l[1..], s)
  }

  lemma {:induction false} FirstAppend(a: seq<Pair>, b: seq<Pair>, s: string)
    ensures First(a + b, s) == if First(a, s).Some? then First(a, s) else First(b, s)
  {
    if a == [] {
      assert a + b == b;
    } else {
      FirstAppend(a[1..], b, s);
      assert (a + b)[1..] == a[1..] + b;
    }
  }

  lemma {:induction false} FirstSame(l: seq<Pair>, s: string, t: string)
    requires SameName(s, t)
    ensures First(l, s) == First(l, t)
  {
    if l != [] {
      SameNames(s, t, l[0].name);
      SameNames(l[0].name, s, t);
      SameNames(l[0].name, t, s);
      FirstSame(l[1..], s, t);
    }
  }

  // The records in memory of m and of everything below it are complete.
  ghost predicate Ready(w: L.Dag, st: L.State, m: L.Module)
    requires m in w.rank
    decreases w.rank[m]
  {
    && L.Loadable(w, m) && m in st
    && st[m].modules == L.Needs(w, m) && st[m].interfaces == L.Offers(m, m.implements)
    && forall d <- L.Needs(w, m) :: Ready(w, st, d)
  }

  lemma {:induction false} LoadedIsReady(w: L.Dag, st: L.State, rs: seq<L.Module>, k: nat, m: L.Module)
    requires L.Known(w, rs) && L.Counted(w, st, rs, k) && m in w.rank && w.rank[m] < k && st[m].accessCounter > 0
    ensures Ready(w, st, m)
    decreases w.rank[m]
  {
    forall d | d in L.Needs(w, m)
      ensures Ready(w, st, d)
    {
      L.AllReached(w, rs, m, d);
      LoadedIsReady(w, st, rs, k, d);
    }
  }

  // A module whose own record is complete, above loaded ones.
  lemma {:induction false} CompleteIsReady(w: L.Dag, st: L.State, rs: seq<L.Module>, m: L.Module)
    requires m in w.rank && m in st && L.Known(w, rs) && L.Loadable(w, m)
    requires st[m].modules == L.Needs(w, m) && st[m].interfaces == L.Offers(m, m.implements)
    requires L.Counted(w, st, rs + L.Needs(w, m), w.rank[m])
    ensures Ready(w, st, m)
  {
    forall d | d in L.Needs(w, m)
      ensures Ready(w, st, d)
    {
      L.SumMember(w, rs + L.Needs(w, m), d, d);
      L.NoPathUp(w, d, d);
      LoadedIsReady(w, st, rs + L.Needs(w, m), w.rank[m], d);
    }
  }

  lemma {:induction false} ReadyParts(w: L.Dag, st: L.State, m: L.Module, l: seq<Pair>)
    requires m in w.rank && Ready(w, st, m)
    ensures L.Loadable(w, m) && st[m].modules == Loadables(w, m) && |st[m].interfaces| == |m.implements|
    ensures L.ImplementsEnd(m) && L.RequiresEnd(m) && |st[m].modules| == |m.required|
    ensures forall d <- Loadables(w, m) :: d in w.rank && w.rank[d] < w.rank[m] && Ready(w, st, d)
    ensures Listing(w, m) == Own(m.implements, st[m].interfaces) + Listings(w, Loadables(w, m))
    ensures l + Listing(w, m) == (l + Own(m.implements, st[m].interfaces)) + Listings(w, Loadables(w, m))
  {
    hide L.Deps, L.Ceiling, Listings;
    Assoc(l, Own(m.implements, st[m].interfaces), Listings(w, Loadables(w, m)));
  }

  lemma ReadyLoadable(w: L.Dag, st: L.State, m: L.Module)
    requires m in w.rank && Ready(w, st, m)
    ensures L.Loadable(w, m)
  {}

  lemma Assoc<T>(a: seq<T>, b: seq<T>, c: seq<T>)
    ensures a + (b + c) == (a + b) + c
  {}

  // ---------- where an answer comes from ----------

  // m, or a module it depends on, implements the name, and v is that module's symbol for it.
  ghost predicate Exported(w: L.Dag, m: L.Module, name: string, v: L.Interface)
    requires m in w.rank
  {
    exists x <- w.rank :: L.DependsOn(w, m, x) && Binds(x, name, v)
  }

  ghost predicate Binds(x: L.Module, name: string, v: L.Interface) {
    exists n <- x.implements :: n in x.symbols && SameName(n, name) && x.symbols[n] == v
  }

  // If the module itself implements the name, its own symbol for the first such name is the answer.
  ghost predicate OwnAnswers(m: L.Module, name: string, found: Option<L.Interface>) {
    forall i :: 0 <= i < |m.implements| && SameName(m.implements[i], name) &&
                (forall j :: 0 <= j < i ==> !SameName(m.implements[j], name)) ==>
      m.implements[i] in m.symbols && found == Some(m.symbols[m.implements[i]])
  }

  // What is listed is exported,
  lemma {:induction false} ListedExported(w: L.Dag, m: L.Module, q: Pair, name: string)
    requires m in w.rank && L.Loadable(w, m) && q in Listing(w, m) && SameName(q.name, name)
    ensures Exported(w, m, name, q.iface)
    decreases w.rank[m]
  {
    hide L.Loadable, Listing, L.Deps, L.Ceiling, Listings;
    L.LoadableParts(w, m);
    ListingParts(w, m);
    var own := Own(m.implements, L.Offers(m, m.implements));
    if q in own {
      assert L.DependsOn(w, m, m) && Binds(m, name, q.iface);
    } else {
      var d := ListedBelow(w, Loadables(w, m), q);
      ListedExported(w, d, q, name);
      L.NeedsRequired(w, m, d);
      var x :| x in w.rank && L.DependsOn(w, d, x) && Binds(x, name, q.iface);
      assert L.DependsOn(w, m, x);
    }
  }

  lemma {:induction false} ListedBelow(w: L.Dag, ds: seq<L.Module>, q: Pair) returns (d: L.Module)
    requires AllLoadable(w, ds) && L.Known(w, ds) && q in Listings(w, ds)
    ensures d in ds && d in w.rank && L.Loadable(w, d) && q in Listing(w, d)
  {
    hide L.Loadable, Listing, L.Ceiling;
    if q in Listing(w, ds[0]) {
      d := ds[0];
    } else {
      d := ListedBelow(w, ds[1..], q);
    }
  }

  // and every name exported is listed.
  lemma {:induction false} ExportedListed(w: L.Dag, m: L.Module, x: L.Module, n: string)
    requires m in w.rank && L.Loadable(w, m) && L.DependsOn(w, m, x) && n in x.implements
    ensures Clip(n, INTERFACE_NAME_MAXLEN) in Names(Listing(w, m))
    decreases w.rank[m]
  {
    hide L.Loadable, Listing, Names, Clip;
    if m == x {
      NamedHere(w, m);
    } else {
      var r :| r in m.required && r in w.files && L.DependsOn(w, w.files[r], x);
      var d := w.files[r];
      assert L.RequiresIt(w, m, d);
      L.NeedsRequired(w, m, d);
      NamedBelow(w, m, d);
      ExportedListed(w, d, x, n);
    }
  }

  lemma {:induction false} FirstListed(l: seq<Pair>, name: string) returns (q: Pair)
    requires First(l, name).Some?
    ensures q in l && SameName(q.name, name) && q.iface == First(l, name).value
  {
    if SameName(l[0].name, name) {
      q := l[0];
    } else {
      q := FirstListed(l[1..], name);
    }
  }

  // So the first listed under a name is exported under it, and there is one exactly if some module
  // below exports the name.
  lemma {:induction false} FoundIffExported(w: L.Dag, m: L.Module, name: string)
    requires m in w.rank && L.Loadable(w, m)
    ensures First(Listing(w, m), name).Some? <==> exists v :: Exported(w, m, name, v)
    ensures First(Listing(w, m), name).Some? ==> Exported(w, m, name, First(Listing(w, m), name).value)
  {
    hide L.Loadable, Listing, Names, L.DependsOn, First, SameName, Clip;
    var l := Listing(w, m);
    if First(l, name).Some? {
      var q := FirstListed(l, name);
      ListedExported(w, m, q, name);
    }
    if v :| Exported(w, m, name, v) {
      var x :| x in w.rank && L.DependsOn(w, m, x) && Binds(x, name, v);
      var n :| n in x.implements && SameName(n, name);
      ExportedListed(w, m, x, n);
      NamesClip(n, name);
      ListedIffNamed(l, name);
    }
  }

  // The module's own interfaces come first, in their order.
  lemma {:induction false} OwnFirst(w: L.Dag, m: L.Module, name: string, i: nat)
    requires m in w.rank && L.Loadable(w, m) && i < |m.implements| && SameName(m.implements[i], name)
    requires forall j :: 0 <= j < i ==> !SameName(m.implements[j], name)
    ensures m.implements[i] in m.symbols && First(Listing(w, m), name) == Some(m.symbols[m.implements[i]])
  {
    ListingParts(w, m);
    var own := Own(m.implements, L.Offers(m, m.implements));
    FirstAt(own, name, i);
    hide L.Loadable, Listing, First;
    FirstAppend(own, Listings(w, Loadables(w, m)), name);
  }

  lemma {:induction false} FirstAt(l: seq<Pair>, name: string, i: nat)
    requires i < |l| && SameName(l[i].name, name) && forall j :: 0 <= j < i ==> !SameName(l[j].name, name)
    ensures First(l, name) == Some(l[i].iface)
  {
    if i > 0 {
      FirstAt(l[1..], name, i - 1);
    }
  }

  lemma {:induction false} OwnAnswered(w: L.Dag, m: L.Module, name: string)
    requires m in w.rank && L.Loadable(w, m)
    ensures OwnAnswers(m, name, First(Listing(w, m), name))
  {
    hide L.Loadable, Listing, First, SameName;
    forall i | 0 <= i < |m.implements| && SameName(m.implements[i], name) &&
        (forall j :: 0 <= j < i ==> !SameName(m.implements[j], name))
      ensures m.implements[i] in m.symbols && First(Listing(w, m), name) == Some(m.symbols[m.implements[i]])
    {
      OwnFirst(w, m, name, i);
    }
  }

  // Then those of the first module required that has one.
  lemma {:induction false} RequiredNext(w: L.Dag, m: L.Module, name: string, i: nat)
    requires m in w.rank && L.Loadable(w, m) && i < |m.required| && L.AllLoadable(w, m.required)
    requires forall n <- m.implements :: !SameName(n, name)
    requires forall j :: 0 <= j < i ==> First(Listing(w, w.files[m.required[j]]), name).None?
    requires First(Listing(w, w.files[m.required[i]]), name).Some?
    ensures First(Listing(w, m), name) == First(Listing(w, w.files[m.required[i]]), name)
  {
    hide L.Loadable, Listing, First, Listings, L.Deps, L.Ceiling, SameName;
    L.LoadableParts(w, m);
    ListingParts(w, m);
    var own, ds := Own(m.implements, L.Offers(m, m.implements)), Loadables(w, m);
    NoneAmong(own, name);
    L.NeedsAre(w, m);
    FirstAppend(own, Listings(w, ds), name);
    FirstAmong(w, ds, name, i);
  }

  lemma {:induction false} FirstAmong(w: L.Dag, ds: seq<L.Module>, name: string, i: nat)
    requires AllLoadable(w, ds) && L.Known(w, ds) && i < |ds| && First(Listing(w, ds[i]), name).Some?
    requires forall j :: 0 <= j < i ==> First(Listing(w, ds[j]), name).None?
    ensures First(Listings(w, ds), name) == First(Listing(w, ds[i]), name)
  {
    hide L.Loadable, Listing, First, L.Deps, L.Ceiling;
    FirstAppend(Listing(w, ds[0]), Listings(w, ds[1..]), name);
    if i > 0 {
      assert ds[1..][i - 1] == ds[i];
      FirstAmong(w, ds[1..], name, i - 1);
    }
  }

  lemma {:induction false} NoneAmong(l: seq<Pair>, name: string)
    requires forall q <- l :: !SameName(q.name, name)
    ensures First(l, name) == None
  {
    if l != [] {
      NoneAmong(l[1..], name);
    }
  }

  // ---------- the recursive search ----------

  // The module's own list.
  method SearchOwn(m: L.Module, name: string) returns (found: Option<L.Interface>)
    requires |m.interfaces| == |m.implements| && L.ImplementsEnd(m)
    ensures found == First(Own(m.implements, m.interfaces), name)
  {
    ghost var own := Own(m.implements, m.interfaces);
    var interfaceIndex := 0;
    while m.HasImplements(interfaceIndex)
      invariant interfaceIndex <= |m.implements|
      invariant First(own, name) == First(own[interfaceIndex..], name)
      decreases |m.implements| - interfaceIndex
    {
      assert own[interfaceIndex..][0] == own[interfaceIndex] && own[interfaceIndex..][1..] == own[interfaceIndex + 1..];
      if SameName(m.implements[interfaceIndex], name) {
        return Some(m.interfaces[interfaceIndex]);
      }
      interfaceIndex := interfaceIndex + 1;
    }
    return None;
  }

  // The search, with what the answer is: see OwnFirst and RequiredNext for the order.
  method SearchInterface(m: L.Module?, name: string, ghost w: L.Dag) returns (found: Option<L.Interface>)
    requires m != null ==> m in w.rank && Ready(w, L.Now(w.rank.Keys), m)
    ensures found == if m == null then None else First(Listing(w, m), name)
    // Without the listing: the module's own symbol for the name if it has one, else one of a
    // module below, and None exactly if there is none.
    ensures m != null ==> (found.None? <==> forall v :: !Exported(w, m, name, v))
    ensures m != null && found.Some? ==> Exported(w, m, name, found.value)
    ensures m != null ==> OwnAnswers(m, name, found)
    decreases if m == null then -1 else w.rank[m]
  {
    hide Ready, Listing, Listings, Loadables, First, OwnAnswers, Exported;
    if m == null {
      return None;
    }
    ReadyParts(w, L.Now(w.rank.Keys), m, []);
    ghost var ds := Loadables(w, m);
    FoundIffExported(w, m, name);
    OwnAnswered(w, m, name);
    FirstAppend(Own(m.implements, m.interfaces), Listings(w, ds), name);
    found := SearchOwn(m, name);
    if found.Some? {
      return;
    }
    FirstFrom(w, ds, name, 0);
    var moduleIndex := 0;
    while m.HasRequires(moduleIndex)
      invariant moduleIndex <= |m.required| &&
          First(Listings(w, ds), name) == First(Listings(w, ds[moduleIndex..]), name)
      decreases |m.required| - moduleIndex
    {
      FirstFrom(w, ds, name, moduleIndex);
      found := SearchInterface(m.modules[moduleIndex], name, w);
      if found.Some? {
        return;
      }
      moduleIndex := moduleIndex + 1;
    }
    FirstFrom(w, ds, name, moduleIndex);
    return None;
  }

  lemma {:induction false} FirstFrom(w: L.Dag, ds: seq<L.Module>, s: string, i: nat)
    requires AllLoadable(w, ds) && L.Known(w, ds) && i <= |ds|
    ensures i == 0 ==> ds[i..] == ds
    ensures i == |ds| ==> First(Listings(w, ds[i..]), s) == None
    ensures i < |ds| ==> var a := First(Listing(w, ds[i]), s);
              First(Listings(w, ds[i..]), s) == if a.Some? then a else First(Listings(w, ds[i + 1..]), s)
  {
    hide L.Deps, L.Ceiling, L.Loadable, Listing;
    if i < |ds| {
      var rest := ds[i..];
      assert rest[0] == ds[i] && rest[1..] == ds[i + 1..];
      FirstAppend(Listing(w, ds[i]), Listings(w, rest[1..]), s);
    }
  }

  // ---------- what the cache holds ----------

  // The distinct names of a listing; a name is what its first characters say.
  ghost function Names(l: seq<Pair>): set<string> {
    set p <- l :: Clip(p.name, INTERFACE_NAME_MAXLEN)
  }

  // The entries answer every lookup as the listing does.
  ghost predicate Filled(entries: set<Node>, l: seq<Pair>) {
    && (forall n <- entries :: First(l, Decode(n.key)) == Some(n.value))
    && (forall s: string :: First(l, s).Some? ==> exists n <- entries :: SameName(s, Decode(n.key)))
  }

  lemma {:induction false} ListedIffNamed(l: seq<Pair>, s: string)
    ensures First(l, s).Some? <==> Clip(s, INTERFACE_NAME_MAXLEN) in Names(l)
  {
    if l != [] {
      ListedIffNamed(l[1..], s);
      SameIffClipped(l[0].name, s, INTERFACE_NAME_MAXLEN);
      assert l == [l[0]] + l[1..];
    }
  }

  lemma {:induction false} NamesGrow(l: seq<Pair>, p: Pair)
    ensures Names(l + [p]) == Names(l) + {Clip(p.name, INTERFACE_NAME_MAXLEN)}
    ensures |Names(l + [p])| == |Names(l)| + if First(l, p.name).Some? then 0 else 1
  {
    ListedIffNamed(l, p.name);
    var k := l + [p];
    assert forall q <- k :: q in l || q == p;
    assert forall q <- l :: q in k;
    assert p in k;
    assert Names(k) == Names(l) + {Clip(p.name, INTERFACE_NAME_MAXLEN)};
  }

  lemma {:induction false} FirstPlus(l: seq<Pair>, p: Pair, s: string)
    ensures First(l + [p], s) == if First(l, s).Some? then First(l, s) else if SameName(p.name, s) then Some(p.iface)
        else None
    ensures First(l, p.name).Some? && SameName(p.name, s) ==> First(l, s).Some?
  {
    FirstAppend(l, [p], s);
    if SameName(p.name, s) {
      FirstSame(l, p.name, s);
    }
  }

  // A pair whose name is listed already changes no answer.
  lemma {:induction false} ListedAgain(entries: set<Node>, l: seq<Pair>, p: Pair)
    requires Filled(entries, l) && First(l, p.name).Some?
    ensures Filled(entries, l + [p])
  {
    hide First, SameName, Decode;
    forall s
      ensures First(l + [p], s) == First(l, s)
    {
      FirstPlus(l, p, s);
    }
  }

  lemma {:induction false} ListedNew(entries: set<Node>, l: seq<Pair>, p: Pair, e: Node)
    requires Filled(entries, l) && First(l, p.name).None? && e.key == Encode(p.name) && e.value == p.iface
    ensures Filled(entries + {e}, l + [p])
  {
    DecodeEncode(p.name);
    hide First, SameName, Decode, Encode;
    forall n | n in entries + {e}
      ensures First(l + [p], Decode(n.key)) == Some(n.value)
    {
      FirstPlus(l, p, Decode(n.key));
      SameNames(p.name, p.name, p.name);
    }
    forall s: string | First(l + [p], s).Some?
      ensures exists n <- entries + {e} :: SameName(s, Decode(n.key))
    {
      FirstPlus(l, p, s);
      SameNames(p.name, s, s);
      if First(l, s).None? {
        assert SameName(s, Decode(e.key));
      } else {
        var n :| n in entries && SameName(s, Decode(n.key));
        assert n in entries + {e};
      }
    }
  }

  // What a module requires it offers, too.
  lemma {:induction false} NamedBelow(w: L.Dag, m: L.Module, d: L.Module)
    requires m in w.rank && L.Loadable(w, m) && d in L.Needs(w, m)
    ensures d in w.rank && L.Loadable(w, d) && Names(Listing(w, d)) <= Names(Listing(w, m))
  {
    hide L.Loadable, L.Deps, L.Ceiling, Listing;
    var ds := Loadables(w, m);
    var i :| 0 <= i < |ds| && ds[i] == d;
    assert ds == ds[..i] + ([d] + ds[i + 1..]);
    ListingsAppend(w, [d], ds[i + 1..]);
    ListingsAppend(w, ds[..i], [d] + ds[i + 1..]);
    assert Listings(w, [d]) == Listing(w, d) + [];
    forall p | p in Listing(w, d)
      ensures p in Listing(w, m)
    {
      ListingParts(w, m);
    }
  }

  lemma {:induction false} ListingParts(w: L.Dag, m: L.Module)
    requires m in w.rank && L.Loadable(w, m)
    ensures Listing(w, m) == Own(m.implements, L.Offers(m, m.implements)) + Listings(w, Loadables(w, m))
  {}

  lemma {:induction false} NamedHere(w: L.Dag, m: L.Module)
    requires m in w.rank && L.Loadable(w, m)
    ensures forall n <- m.implements :: Clip(n, INTERFACE_NAME_MAXLEN) in Names(Listing(w, m))
  {
    hide L.Deps, L.Ceiling, Clip;
    ListingParts(w, m);
    var own := Own(m.implements, L.Offers(m, m.implements));
    forall n | n in m.implements
      ensures Clip(n, INTERFACE_NAME_MAXLEN) in Names(Listing(w, m))
    {
      var i :| 0 <= i < |m.implements| && m.implements[i] == n;
      assert own[i] in Listing(w, m);
    }
  }

  // ---------- the limits ----------

  lemma {:induction false} TotalUniform(s: seq<Node>, z: SizeMem)
    requires forall n <- s :: n in z && z[n] == ENTRY_SIZE
    ensures Total(s, z) == ENTRY_SIZE * |s|
  {
    if s != [] {
      TotalUniform(s[1..], z);
    }
  }

  ghost predicate Uniform(z: SizeMem) {
    forall n <- z :: z[n] == ENTRY_SIZE
  }

  lemma {:induction false} UniformMemory(root: CacheRoot)
    requires root.Valid() && Uniform(Sizes(root.Entries()))
    ensures root.mem_used == ENTRY_SIZE * root.root.count
  {
    InorderNodes(root.root.tree);
    TotalUniform(Inorder(root.root.tree), Sizes(root.Entries()));
  }

  // Every entry is one of those listed.
  ghost predicate Backed(entries: set<Node>, l: seq<Pair>) {
    forall n <- entries :: Pair(Decode(n.key), n.value) in l
  }

  // The cache of a module while, or after, the pairs of l have gone into it.
  ghost predicate Holding(root: CacheRoot, l: seq<Pair>)
    reads root, root.root, root.Entries()`left, root.Entries()`parent, root.Entries()`right, root.Entries()`gender
    reads root.Entries()`entrySize
  {
    var holding :=
      && root.Valid() && root.root.cmp == NameCmp
      && root.max_entries == INTERFACE_CACHE_MAX_ENTRIES && root.max_memory == INTERFACE_CACHE_MAX_MEMORY
      && Uniform(Sizes(root.Entries()))
      && Backed(root.Entries(), l)
      && root.root.count == Least(|Names(l)|, CAPACITY)
      && (|Names(l)| <= CAPACITY ==> Filled(root.Entries(), l));
    holding
  }

  lemma BackedMore(before: set<Node>, now: set<Node>, l: seq<Pair>, p: Pair, e: Node)
    requires Backed(before, l) && now <= before + {e} && e.key == Encode(p.name) && e.value == p.iface
    ensures Backed(now, l + [p])
  {
    DecodeEncode(p.name);
  }

  lemma BackedEntry(entries: set<Node>, l: seq<Pair>, name: string, e: Node)
    requires Backed(entries, l) && e in entries && SameName(name, Decode(e.key))
    ensures exists q <- l :: SameName(q.name, name) && q.iface == e.value
  {
    SameNames(name, Decode(e.key), name);
    assert Pair(Decode(e.key), e.value) in l;
  }

  lemma HoldingValid(root: CacheRoot, l: seq<Pair>)
    requires Holding(root, l)
    ensures root.Valid()
  {}

  // A lookup, through the tree's own search.
  method Check(root: CacheRoot, name: string, ghost l: seq<Pair>) returns (check: Node?)
    requires Holding(root, l)
    modifies root, root.root, root.Entries()
    ensures Holding(root, l) && root.Entries() == old(root.Entries())
    ensures check == null <==> forall n <- root.Entries() :: Heading(NameCmp, Encode(name), n) != EQUAL
    ensures check != null ==> check in root.Entries() && Heading(NameCmp, Encode(name), check) == EQUAL
  {
    hide Total, Inorder, Whole, Ordered, Preorder, Size, Nodes, Snap, Distinct, AllLatest, Heading, Filled, Names;
    ghost var z := Sizes(root.Entries());
    check := root.Get(Encode(name));
    assert Sizes(root.Entries()) == z;
  }

  method Store(root: CacheRoot, name: string, iface: L.Interface, ghost l: seq<Pair>)
    requires Holding(root, l)
    requires forall n <- root.Entries() :: Heading(NameCmp, Encode(name), n) != EQUAL
    modifies root, root.root, root.Entries()
    ensures Holding(root, l + [Pair(name, iface)])
    ensures forall n <- root.Entries() :: n in old(root.Entries()) || fresh(n)
  {
    hide Total, Inorder, Whole, Ordered, Preorder, Size, Nodes, Snap, Distinct, AllLatest, Heading, Filled, Names,
        NameCmp, Sizes, Root, Backed;
    ghost var p, before := Pair(name, iface), root.Entries();
    NamesGrow(l, p);
    CheckMeans(before, l, name, null);
    ghost var view, sizes := Snap(before), Sizes(before);
    var entry := new Node(Encode(name), iface);
    assert Snap(before) == view && Sizes(before) == sizes && entry !in before;
    PutEntry(root, name, entry, l);
    BackedMore(before, root.Entries(), l, p, entry);
    if |Names(l + [p])| <= CAPACITY {
      ListedNew(before, l, p, entry);
    }
  }

  // A new entry goes in whole as long as there is room by the number of names.
  method PutEntry(root: CacheRoot, name: string, entry: Node, ghost l: seq<Pair>)
    requires Holding(root, l) && entry !in root.Entries() && entry.key == Encode(name)
    requires forall n <- root.Entries() :: Heading(NameCmp, Encode(name), n) != EQUAL
    modifies root, root.root, root.Entries(), entry
    ensures root.Valid() && Uniform(Sizes(root.Entries())) && root.Entries() <= old(root.Entries()) + {entry}
    ensures root.root.cmp == NameCmp
    ensures root.max_entries == INTERFACE_CACHE_MAX_ENTRIES && root.max_memory == INTERFACE_CACHE_MAX_MEMORY
    ensures |Names(l)| < CAPACITY ==> root.Entries() == old(root.Entries()) + {entry}
    ensures root.root.count == Least(old(root.root.count) + 1, CAPACITY)
  {
    hide Total, Inorder, Whole, Ordered, Preorder, Size, Nodes, Snap, Distinct, AllLatest, Heading, Filled, Names,
        NameCmp, Sizes, Root, Backed;
    UniformMemory(root);
    ghost var z := Sizes(root.Entries())[entry := ENTRY_SIZE];
    ghost var displaced, gone := root.Put(ENTRY_SIZE, entry, Encode(name));
    UniformMemory(root);
    if gone != [] {
      UniformSize(z, gone[|gone| - 1]);
    }
  }

  lemma UniformSize(z: SizeMem, n: Node)
    requires Uniform(z)
    ensures SizeIn(z, n) <= ENTRY_SIZE
  {}

  method CacheOne(root: CacheRoot, name: string, iface: L.Interface, ghost l: seq<Pair>)
    requires Holding(root, l)
    modifies root, root.root, root.Entries()
    ensures Holding(root, l + [Pair(name, iface)])
    ensures forall n <- root.Entries() :: n in old(root.Entries()) || fresh(n)
  {
    hide Filled, Names, Heading;
    var check := Check(root, name, l);
    if check == null {
      Store(root, name, iface, l);
    } else {
      HeldAgain(root, l, Pair(name, iface), check);
    }
  }

  lemma {:induction false} HeldAgain(root: CacheRoot, l: seq<Pair>, p: Pair, check: Node)
    requires Holding(root, l) && check in root.Entries() && Heading(NameCmp, Encode(p.name), check) == EQUAL
    ensures Holding(root, l + [p])
  {
    hide Names, Filled, First, Heading, NameCmp, CacheRoot.Valid, Uniform, Sizes, CacheRoot.Entries;
    NamesGrow(l, p);
    CheckMeans(root.Entries(), l, p.name, check);
    if |Names(l)| <= CAPACITY {
      ListedAgain(root.Entries(), l, p);
    }
  }

  lemma {:induction false} CheckMeans(entries: set<Node>, l: seq<Pair>, name: string, check: Node?)
    requires check == null <==> forall n <- entries :: Heading(NameCmp, Encode(name), n) != EQUAL
    requires check != null ==> check in entries && Heading(NameCmp, Encode(name), check) == EQUAL
    ensures Filled(entries, l) ==> First(l, name) == if check == null then None else Some(check.value)
  {
    if check == null {
      if Filled(entries, l) && First(l, name).Some? {
        var n :| n in entries && SameName(name, Decode(n.key));
        KeyMatches(name, n);
      }
    } else if Filled(entries, l) {
      KeyMatches(name, check);
      FirstSame(l, name, Decode(check.key));
    }
  }

  // ---------- filling and using the cache ----------

  // Puts a module's own interfaces into the cache.
  method FillOwn(root: CacheRoot, m: L.Module, ghost w: L.Dag, ghost done: seq<Pair>)
    requires |m.implements| == |m.interfaces| && L.ImplementsEnd(m) && Holding(root, done)
    modifies root, root.root, root.Entries()
    ensures Holding(root, done + Own(m.implements, m.interfaces))
    ensures forall n <- root.Entries() :: n in old(root.Entries()) || fresh(n)
  {
    hide Holding, Names, Filled;
    ghost var own := Own(m.implements, m.interfaces);
    var interfaceIndex := 0;
    L.Steps(done, own, 0);
    while m.HasImplements(interfaceIndex)
      invariant interfaceIndex <= |m.implements| && Holding(root, done + own[..interfaceIndex])
      invariant forall n <- root.Entries() :: n in old(root.Entries()) || fresh(n)
      decreases |m.implements| - interfaceIndex
    {
      CacheOne(root, m.implements[interfaceIndex], m.interfaces[interfaceIndex], done + own[..interfaceIndex]);
      L.Steps(done, own, interfaceIndex);
      interfaceIndex := interfaceIndex + 1;
    }
    L.Steps(done, own, interfaceIndex);
  }

  // Puts everything m offers into the cache, in search order.
  method FillCache(root: CacheRoot, m: L.Module, ghost w: L.Dag, ghost done: seq<Pair>)
    requires m in w.rank && Ready(w, L.Now(w.rank.Keys), m) && Holding(root, done)
    modifies root, root.root, root.Entries()
    ensures Holding(root, done + Listing(w, m))
    ensures forall n <- root.Entries() :: n in old(root.Entries()) || fresh(n)
    ensures L.Now(w.rank.Keys) == old(L.Now(w.rank.Keys))
    decreases w.rank[m]
  {
    hide Holding, Names, Filled, Ready, Listing, Listings, Loadables;
    ghost var st := L.Now(w.rank.Keys);
    ReadyParts(w, st, m, done);
    ghost var ds := Loadables(w, m);
    FillOwn(root, m, w, done);
    ghost var sofar := done + Own(m.implements, m.interfaces);
    ListingsFrom(w, sofar, ds, 0);
    var moduleIndex := 0;
    while m.HasRequires(moduleIndex)
      invariant moduleIndex <= |m.required| && m.modules == ds && Holding(root, sofar + Listings(w, ds[..moduleIndex]))
      invariant (forall n <- root.Entries() :: n in old(root.Entries()) || fresh(n)) && L.Now(w.rank.Keys) == st
      decreases |m.required| - moduleIndex
    {
      FillCache(root, m.modules[moduleIndex], w, sofar + Listings(w, ds[..moduleIndex]));
      ListingsFrom(w, sofar, ds, moduleIndex);
      moduleIndex := moduleIndex + 1;
    }
    assert ds[..moduleIndex] == ds;
  }

  lemma {:induction false} ListingsAppend(w: L.Dag, a: seq<L.Module>, b: seq<L.Module>)
    requires AllLoadable(w, a) && L.Known(w, a) && AllLoadable(w, b) && L.Known(w, b)
    ensures AllLoadable(w, a + b) && L.Known(w, a + b) && Listings(w, a + b) == Listings(w, a) + Listings(w, b)
  {
    hide L.Deps, L.Ceiling, L.Loadable, Listing;
    if a == [] {
      assert a + b == b;
    } else {
      ListingsAppend(w, a[1..], b);
      assert (a + b)[1..] == a[1..] + b;
      Assoc(Listing(w, a[0]), Listings(w, a[1..]), Listings(w, b));
    }
  }

  lemma {:induction false} ListingsFrom(w: L.Dag, l: seq<Pair>, ds: seq<L.Module>, i: nat)
    requires AllLoadable(w, ds) && L.Known(w, ds) && i <= |ds|
    ensures i == 0 ==> l + Listings(w, ds[..i]) == l
    ensures i < |ds| ==> l + Listings(w, ds[..i + 1]) == l + Listings(w, ds[..i]) + Listing(w, ds[i])
  {
    if i < |ds| {
      assert ds[..i + 1] == ds[..i] + [ds[i]];
      ListingsAppend(w, ds[..i], [ds[i]]);
      assert Listings(w, [ds[i]]) == Listing(w, ds[i]) + [];
    }
  }

  method EmptyCache() returns (root: CacheRoot)
    ensures Holding(root, []) && fresh(root) && fresh(root.root) && root.Entries() == {}
    ensures root.max_entries == 255 && root.max_memory == 255 * 16
  {
    NamesAreOrdered();
    root := new CacheRoot(NameCmp, INTERFACE_CACHE_MAX_ENTRIES, INTERFACE_CACHE_MAX_MEMORY);
    hide Inorder, Whole, Ordered, Preorder, Snap, Distinct, AllLatest;
    EmptyCount(root);
  }

  method NewCache(m: L.Module, ghost w: L.Dag) returns (root: CacheRoot)
    requires m in w.rank && Ready(w, L.Now(w.rank.Keys), m)
    ensures Holding(root, Listing(w, m)) && fresh(root) && fresh(root.root) && fresh(root.Entries())
  {
    hide Holding;
    ghost var st := L.Now(w.rank.Keys);
    root := EmptyCache();
    assert L.Now(w.rank.Keys) == st;
    FillCache(root, m, w, []);
    assert [] + Listing(w, m) == Listing(w, m);
  }

  method LookupInterface(m: L.Module?, cache: CacheRoot?, name: string, ghost l: seq<Pair>)
          returns (found: Option<L.Interface>)
    requires cache != null ==> Holding(cache, l)
    modifies if cache == null then {} else {cache}, if cache == null then {} else {cache.root},
        if cache == null then {} else cache.Entries()
    ensures cache != null ==> Holding(cache, l) && cache.Entries() == old(cache.Entries())
    ensures m == null || cache == null ==> found == None
    ensures m != null && cache != null ==> Answers(cache.Entries(), name, found)
    // Whether the names fit or not: what is found is listed under the name.
    ensures found.Some? ==> exists q <- l :: SameName(q.name, name) && q.iface == found.value
    ensures m != null && cache != null && |Names(l)| <= CAPACITY ==> found == First(l, name)
  {
    found := None;
    if m != null && cache != null {
      var entry := Check(cache, name, l);
      CheckMeans(cache.Entries(), l, name, entry);
      if entry != null {
        KeyMatches(name, entry);
        BackedEntry(cache.Entries(), l, name, entry);
        found := Some(entry.value);
      } else {
        forall n | n in cache.Entries()
          ensures !SameName(name, Decode(n.key))
        {
          KeyMatches(name, n);
        }
      }
    }
  }

  lemma {:induction false} FoundExported(w: L.Dag, m: L.Module, name: string, found: Option<L.Interface>)
    requires m in w.rank && L.Loadable(w, m)
    requires found.Some? ==> exists q <- Listing(w, m) :: SameName(q.name, name) && q.iface == found.value
    ensures found.Some? ==> Exported(w, m, name, found.value)
  {
    hide L.Loadable, Listing, Exported, SameName;
    if found.Some? {
      var q :| q in Listing(w, m) && SameName(q.name, name) && q.iface == found.value;
      ListedExported(w, m, q, name);
    }
  }

  // findInterface: with and without the cache the answer is the same, as long as the names fit.
  method FindInterface(NovaCache: bool, m: L.Module, cache: CacheRoot, name: string, ghost w: L.Dag)
          returns (found: Option<L.Interface>)
    requires m in w.rank && Ready(w, L.Now(w.rank.Keys), m) && Holding(cache, Listing(w, m))
    modifies cache, cache.root, cache.Entries()
    ensures Holding(cache, Listing(w, m))
    ensures |Names(Listing(w, m))| <= CAPACITY || !NovaCache ==> found == First(Listing(w, m), name)
    // What is found is some module's symbol for the name, even if the names do not fit; with names
    // that fit, something is found exactly if there is one.
    ensures found.Some? ==> Exported(w, m, name, found.value)
    ensures |Names(Listing(w, m))| <= CAPACITY || !NovaCache ==>
        (found.None? <==> forall v :: !Exported(w, m, name, v)) && OwnAnswers(m, name, found)
  {
    hide Names, Filled, OwnAnswers, Exported, Listing, Ready, Least, Backed, Uniform, CacheRoot.Valid;
    ReadyLoadable(w, L.Now(w.rank.Keys), m);
    FoundIffExported(w, m, name);
    OwnAnswered(w, m, name);
    if NovaCache {
      found := LookupInterface(m, cache, name, Listing(w, m));
      FoundExported(w, m, name, found);
    } else {
      assert allocated(cache.Entries());
      found := SearchInterface(m, name, w);
    }
  }

  // ---------- the cache agrees with the search exactly when the names fit ----------

  // What a lookup of s among the entries returns.
  ghost predicate Answers(entries: set<Node>, s: string, r: Option<L.Interface>) {
    match r
    case None => forall n <- entries :: !SameName(s, Decode(n.key))
    case Some(v) => exists n <- entries :: SameName(s, Decode(n.key)) && n.value == v
  }

  ghost predicate AnswersAll(entries: set<Node>, l: seq<Pair>) {
    forall s: string :: Answers(entries, s, First(l, s))
  }

  lemma {:induction false} AgreesIffFits(root: CacheRoot, l: seq<Pair>)
    requires Holding(root, l)
    ensures AnswersAll(root.Entries(), l) <==> |Names(l)| <= CAPACITY
  {
    var entries := root.Entries();
    if |Names(l)| <= CAPACITY {
      forall s
        ensures Answers(entries, s, First(l, s))
      {
        FilledAnswers(entries, l, s);
      }
    } else if AnswersAll(entries, l) {
      TooMany(root, l);
    }
  }

  lemma {:induction false} FilledAnswers(entries: set<Node>, l: seq<Pair>, s: string)
    requires Filled(entries, l)
    ensures Answers(entries, s, First(l, s))
  {
    if First(l, s).Some? {
      var n :| n in entries && SameName(s, Decode(n.key));
      FirstSame(l, s, Decode(n.key));
    } else {
      forall n | n in entries
        ensures !SameName(s, Decode(n.key))
      {
        if SameName(s, Decode(n.key)) {
          FirstSame(l, s, Decode(n.key));
        }
      }
    }
  }

  // Answering for every name takes an entry for every name.
  lemma {:induction false} TooMany(root: CacheRoot, l: seq<Pair>)
    requires Holding(root, l) && AnswersAll(root.Entries(), l)
    ensures |Names(l)| <= CAPACITY
  {
    var entries := root.Entries();
    AllHeld(entries, l);
    var held := set n <- entries :: Clip(Decode(n.key), INTERFACE_NAME_MAXLEN);
    Fewer(Names(l), held);
    ImageSize(entries, held);
    FewEntries(root, l);
  }

  lemma {:induction false} AllHeld(entries: set<Node>, l: seq<Pair>)
    requires AnswersAll(entries, l)
    ensures Names(l) <= set n <- entries :: Clip(Decode(n.key), INTERFACE_NAME_MAXLEN)
  {
    hide First, SameName, Decode, Clip;
    forall c | c in Names(l)
      ensures exists n <- entries :: Clip(Decode(n.key), INTERFACE_NAME_MAXLEN) == c
    {
      var p :| p in l && Clip(p.name, INTERFACE_NAME_MAXLEN) == c;
      ListedIffNamed(l, p.name);
      assert Answers(entries, p.name, First(l, p.name));
      var n :| n in entries && SameName(p.name, Decode(n.key));
      NamesClip(p.name, Decode(n.key));
    }
  }

  lemma NamesClip(a: string, b: string)
    ensures SameName(a, b) <==> Clip(a, 100) == Clip(b, 100)
  {
    SameIffClipped(a, b, 100);
  }

  // The memory limit is what counts: it leaves room for fewer entries than the entry limit.
  lemma {:induction false} FewEntries(root: CacheRoot, l: seq<Pair>)
    requires Holding(root, l)
    ensures |root.Entries()| <= CAPACITY
  {
    hide Total, Inorder, Whole, Ordered, Preorder, Size, Nodes, Snap, Distinct, AllLatest, Filled, Names;
    UniformMemory(root);
    CountIsSize(root);
  }

  lemma Fewer<T>(a: set<T>, b: set<T>)
    requires a <= b
    ensures |a| <= |b|
  {
    assert |b| == |a| + |b - a| by {
      assert a + (b - a) == b;
    }
  }

  lemma {:induction false} ImageSize(entries: set<Node>, held: set<string>)
    requires held == set n <- entries :: Clip(Decode(n.key), INTERFACE_NAME_MAXLEN)
    ensures |held| <= |entries|
  {
    if entries != {} {
      var n :| n in entries;
      var rest := entries - {n};
      var held' := set m <- rest :: Clip(Decode(m.key), INTERFACE_NAME_MAXLEN);
      ImageSize(rest, held');
      assert held == held' + {Clip(Decode(n.key), INTERFACE_NAME_MAXLEN)};
    }
  }

  lemma {:induction false} EmptyCount(root: CacheRoot)
    requires root.Valid() && root.Entries() == {}
    ensures root.root.count == 0
  {
    CountIsSize(root);
  }

  lemma {:induction false} CountIsSize(root: CacheRoot)
    requires root.Valid()
    ensures |root.Entries()| == root.root.count
  {
    SizeIsNodes(root.root.tree);
  }

  lemma {:induction false} SizeIsNodes(t: Tree)
    requires Distinct(t)
    ensures |Nodes(t)| == Size(t)
  {
    match t
    case Nil =>
    case Bin(l, n, r) =>
      SizeIsNodes(l);
      SizeIsNodes(r);
      assert |Nodes(l) + {n}| == |Nodes(l)| + 1;
  }
}
