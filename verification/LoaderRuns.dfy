/** NovaLoader.c: whole runs of loads, unloads and searches, and modules with more names than fit. */
module LoaderRuns {
  import opened Modules
  import opened Loader
  import IC = InterfaceCache

  // ---------- whole runs ----------

  // A load, the return of the i-th load outstanding, or a search from a module in memory.
  datatype Op = DoLoad(name: string) | DoUnload(i: nat) | DoFind(m: Module, name: string)

  datatype Answer = Answer(m: Module, name: string, found: IC.Option<Interface>)

  // The loads outstanding after an operation.
  ghost function After(w: Dag, held: seq<Module>, op: Op): (held': seq<Module>)
    ensures Known(w, held) ==> Known(w, held')
  {
    match op
    case DoLoad(name) =>
      if name in w.files && Loadable(w, w.files[name]) then
        OffersRanked(w, name);
        held + [w.files[name]]
      else held
    case DoUnload(i) => if i < |held| then held[..i] + held[i + 1..] else held
    case DoFind(_, _) => held
  }

  // What is answered: a search from a module that some load outstanding depends on.
  ghost function Asks(w: Dag, held: seq<Module>, op: Op): seq<(Module, string)>
    requires Known(w, held)
  {
    match op
    case DoFind(m, name) => if exists r <- held :: DependsOn(w, r, m) then [(m, name)] else []
    case _ => []
  }

  ghost function Outstanding(w: Dag, ops: seq<Op>): (held: seq<Module>)
    ensures Known(w, held)
  {
    if ops == [] then [] else After(w, Outstanding(w, ops[..|ops| - 1]), ops[|ops| - 1])
  }

  ghost function Asked(w: Dag, ops: seq<Op>): seq<(Module, string)> {
    if ops == [] then [] else
      var before := ops[..|ops| - 1];
      Asked(w, before) + Asks(w, Outstanding(w, before), ops[|ops| - 1])
  }

  lemma RunMore(w: Dag, ops: seq<Op>, i: nat)
    requires i <= |ops|
    ensures i == 0 ==> Outstanding(w, ops[..i]) == [] && Asked(w, ops[..i]) == []
    ensures i < |ops| ==> Outstanding(w, ops[..i + 1]) == After(w, Outstanding(w, ops[..i]), ops[i])
    ensures i < |ops| ==> Asked(w, ops[..i + 1]) == Asked(w, ops[..i]) + Asks(w, Outstanding(w, ops[..i]), ops[i])
    ensures i == |ops| ==> ops[..i] == ops
  {
    if i < |ops| {
      assert ops[..i + 1][..i] == ops[..i];
    }
  }

  ghost predicate AllRight(w: Dag, answers: seq<Answer>, asked: seq<(Module, string)>) {
    && |answers| == |asked|
    && forall i :: 0 <= i < |answers| ==> Right(w, answers[i]) && (answers[i].m, answers[i].name) == asked[i]
  }

  // What the search from a.m would have found, provided its names fit; and always the symbol that
  // some module below has under that name.
  ghost predicate Right(w: Dag, a: Answer) {
    && a.m in w.rank && Loadable(w, a.m)
    && (a.found.Some? ==> IC.Exported(w, a.m, a.name, a.found.value))
    && (|IC.Names(IC.Listing(w, a.m))| <= IC.CAPACITY ==>
          && a.found == IC.First(IC.Listing(w, a.m), a.name) && IC.OwnAnswers(a.m, a.name, a.found)
          && (a.found.None? <==> forall v :: !IC.Exported(w, a.m, a.name, v)))
  }

  // However modules are loaded, given back and searched: every search in a module in memory is
  // answered as the search without cache would, and at the end every module in memory has a cache
  // that agrees with it, exactly if its names fit.
  method Run(c: NovaLoader, ops: seq<Op>, universe: set<Module>) returns (held: seq<Module>, answers: seq<Answer>)
    requires c.Valid() && c.outstanding == [] && c.born == {} && universe == c.w.rank.Keys
    modifies c`outstanding, c`born, universe
    ensures c.Valid() && c.outstanding == held == Outstanding(c.w, ops)
    ensures AllRight(c.w, answers, Asked(c.w, ops))
    ensures forall m <- c.w.rank :: m.accessCounter > 0 ==>
              && m.cache != null && Loadable(c.w, m)
              && (IC.AnswersAll(m.cache.Entries(), IC.Listing(c.w, m)) <==>
                  |IC.Names(IC.Listing(c.w, m))| <= IC.CAPACITY)
  {
    hide NovaLoader.Valid, IC.Listing, Loadable, IC.Names, IC.AnswersAll, Acyclic, Right, After, Asks, Asked,
        Outstanding;
    held, answers := [], [];
    RunMore(c.w, ops, 0);
    for i := 0 to |ops|
      invariant c.Valid() && c.outstanding == held == Outstanding(c.w, ops[..i]) && fresh(c.born)
      invariant AllRight(c.w, answers, Asked(c.w, ops[..i]))
    {
      RunMore(c.w, ops, i);
      var answer;
      held, answer := Act(c, ops[i], held, universe);
      answers := answers + answer;
    }
    RunMore(c.w, ops, |ops|);
    AllAgree(c);
  }

  // One operation: the loads held after it, and the answer if it has one.
  method Act(c: NovaLoader, op: Op, held: seq<Module>, universe: set<Module>)
    returns (held': seq<Module>, answer: seq<Answer>)
    requires c.Valid() && c.outstanding == held && Known(c.w, held) && universe == c.w.rank.Keys
    modifies c`outstanding, c`born, universe, c.born
    ensures c.Valid() && c.outstanding == held' == After(c.w, held, op) && fresh(c.born - old(c.born))
    ensures AllRight(c.w, answer, Asks(c.w, held, op))
  {
    hide NovaLoader.Valid, Loadable, Right, DependsOn, Acyclic;
    held', answer := held, [];
    match op {
      case DoLoad(name) =>
        c.OwnFields();
        var r := c.Load(name);
        held' := if r == null then held else held + [r];
      case DoUnload(k) =>
        if k < |held| {
          c.Unload(held[k], k);
          held' := held[..k] + held[k + 1..];
        }
      case DoFind(m, name) =>
        answer := ActFind(c, m, name, universe);
    }
  }

  method ActFind(c: NovaLoader, m: Module, name: string, universe: set<Module>) returns (answer: seq<Answer>)
    requires c.Valid() && Known(c.w, c.outstanding) && universe == c.w.rank.Keys
    modifies c.born
    ensures c.Valid() && c.outstanding == old(c.outstanding) && c.born == old(c.born)
    ensures AllRight(c.w, answer, Asks(c.w, c.outstanding, DoFind(m, name)))
  {
    hide NovaLoader.Valid, Loadable, DependsOn, Acyclic, IC.Exported, IC.OwnAnswers, IC.First, IC.Listing, IC.Names,
        IC.Answers;
    c.OwnFields();
    answer := [];
    if m in universe {
      c.InUse(m);
      if m.accessCounter > 0 {
        var found := c.Find(m, name);
        answer := [Answer(m, name, found)];
      }
    } else {
      NotDependedOn(c.w, c.outstanding, m);
    }
  }

  lemma {:induction false} NotDependedOn(w: Dag, held: seq<Module>, m: Module)
    requires Known(w, held) && m !in w.rank
    ensures forall r <- held :: !DependsOn(w, r, m)
  {
    forall r | r in held
      ensures !DependsOn(w, r, m)
    {
      NotBelow(w, r, m);
    }
  }

  lemma {:induction false} NotBelow(w: Dag, r: Module, m: Module)
    requires r in w.rank && m !in w.rank
    ensures !DependsOn(w, r, m)
    decreases w.rank[r]
  {
    forall n | n in r.required && n in w.files
      ensures !DependsOn(w, w.files[n], m)
    {
      NotBelow(w, w.files[n], m);
    }
  }

  lemma {:induction false} AllAgree(c: NovaLoader)
    requires c.Valid()
    ensures forall m <- c.w.rank :: m.accessCounter > 0 ==>
              && m.cache != null && Loadable(c.w, m)
              && (IC.AnswersAll(m.cache.Entries(), IC.Listing(c.w, m)) <==>
                  |IC.Names(IC.Listing(c.w, m))| <= IC.CAPACITY)
  {
    hide NovaLoader.Valid, IC.Listing, Loadable, IC.Names, IC.AnswersAll, Acyclic;
    forall m | m in c.w.rank && m.accessCounter > 0
      ensures m.cache != null && Loadable(c.w, m)
      ensures IC.AnswersAll(m.cache.Entries(), IC.Listing(c.w, m)) <==> |IC.Names(IC.Listing(c.w, m))| <= IC.CAPACITY
    {
      c.CacheAgrees(m);
    }
  }

  // ---------- modules with more names than fit ----------

  function Letter(i: nat): string
    requires i < 65
  {
    [(65 + i) as char]
  }

  function Thirteen(k: nat): seq<string>
    requires k < 5
  {
    seq(13, i requires 0 <= i < 13 => Letter(13 * k + i))
  }

  const FILES := ["main", "a", "b", "c", "d"]

  // ms are "main" and the four modules it requires, of thirteen interfaces each.
  ghost predicate Five(w: Dag, ms: seq<Module>) {
    && |ms| == 5 && ms[0].required == ["a", "b", "c", "d"]
    && forall k :: 0 <= k < 5 ==>
         && ms[k] in w.rank && ms[k].implements == Thirteen(k) && (forall n <- ms[k].implements :: n in ms[k].symbols)
         && FILES[k] in w.files && w.files[FILES[k]] == ms[k] && (k > 0 ==> ms[k].required == [])
  }

  lemma {:induction false} FourLoadable(w: Dag, ms: seq<Module>)
    requires Five(w, ms)
    ensures Loadable(w, ms[0])
    ensures forall i :: 0 <= i < 4 ==> ms[0].required[i] == FILES[i + 1] && w.files[FILES[i + 1]] == ms[i + 1]
  {
    hide Needs, Acyclic, Loadable;
    forall k | 1 <= k < 5
      ensures Loadable(w, ms[k])
    {
      LoadableParts(w, ms[k]);
    }
    assert forall i :: 0 <= i < 4 ==> ms[0].required[i] == FILES[i + 1] && w.files[FILES[i + 1]] == ms[i + 1];
    LoadableParts(w, ms[0]);
  }

  lemma {:induction false} FiveLoadable(w: Dag, ms: seq<Module>)
    requires Five(w, ms)
    ensures Loadable(w, ms[0]) && forall k :: 1 <= k < 5 ==> ms[k] in Needs(w, ms[0])
  {
    hide Needs, Acyclic, Loadable;
    var main := ms[0];
    FourLoadable(w, ms);
    LoadableParts(w, main);
    NeedsAre(w, main);
    forall k | 1 <= k < 5
      ensures ms[k] in Needs(w, main)
    {
      assert Needs(w, main)[k - 1] == w.files[main.required[k - 1]] == ms[k];
    }
  }

  lemma {:induction false} LetterNamed(w: Dag, main: Module, d: Module, k: nat, i: nat)
    requires main in w.rank && Loadable(w, main) && (d == main || d in Needs(w, main))
    requires k < 5 && i < 13 && d.implements == Thirteen(k)
    ensures Letter(13 * k + i) in IC.Names(IC.Listing(w, main))
  {
    hide Loadable, Needs, Deps, IC.Listing, IC.Names, Acyclic;
    if d != main {
      IC.NamedBelow(w, main, d);
    }
    IC.NamedHere(w, d);
    assert d.implements[i] == Letter(13 * k + i);
    assert IC.Clip(d.implements[i], IC.INTERFACE_NAME_MAXLEN) in IC.Names(IC.Listing(w, d));
  }

  lemma {:induction false} FiveNamed(w: Dag, ms: seq<Module>)
    requires Five(w, ms)
    ensures Loadable(w, ms[0]) && |IC.Names(IC.Listing(w, ms[0]))| > IC.CAPACITY
  {
    FiveLoadable(w, ms);
    hide Loadable, Needs, Deps, IC.Listing, IC.Names, Thirteen, Letter, Acyclic;
    forall i: nat | i < 65
      ensures Letter(i) in IC.Names(IC.Listing(w, ms[0]))
    {
      LetterNamed(w, ms[0], ms[i / 13], i / 13, i % 13);
    }
    ManyLetters(IC.Names(IC.Listing(w, ms[0])), 65);
  }

  lemma {:induction false} ManyLetters(s: set<string>, n: nat)
    requires n <= 65 && forall i: nat | i < n :: Letter(i) in s
    ensures |s| >= n
  {
    if n > 0 {
      ManyLetters(s - {Letter(n - 1)}, n - 1);
    }
  }

  method ThirteenInterfaces(k: nat, required: Requires) returns (m: Module)
    requires k < 5
    ensures fresh(m) && m.implements == Thirteen(k) && m.required == required && m.Image() == UNLOADED
    ensures forall n <- m.implements :: n in m.symbols
  {
    m := new Module(Thirteen(k), required, false, map n <- Thirteen(k) :: 1);
  }

  lemma FiveFiles(ms: seq<Module>) returns (w: Dag)
    requires |ms| == 5 && ms[0].required == ["a", "b", "c", "d"] && forall k :: 1 <= k < 5 ==> ms[k].required == []
    ensures w.files == map["main" := ms[0], "a" := ms[1], "b" := ms[2], "c" := ms[3], "d" := ms[4]]
    ensures w.rank.Keys == {ms[0], ms[1], ms[2], ms[3], ms[4]}
    ensures forall k :: 0 <= k < 5 ==> FILES[k] in w.files && w.files[FILES[k]] == ms[k]
  {
    w := World(map["main" := ms[0], "a" := ms[1], "b" := ms[2], "c" := ms[3], "d" := ms[4]],
      map[ms[0] := 1, ms[1] := 0, ms[2] := 0, ms[3] := 0, ms[4] := 0], 2);
  }

  // Five modules of thirteen interfaces each: well within the limits of the loader.
  method SixtyFiveNames() returns (main: Module, files: map<string, Module>, ghost w: Dag)
    ensures w.files == files && "main" in files && files["main"] == main && main in w.rank
    ensures forall m <- w.rank :: fresh(m) && m.Image() == UNLOADED
    ensures Loadable(w, main) && |IC.Names(IC.Listing(w, main))| > IC.CAPACITY
  {
    hide Loadable, Needs, Deps, IC.Listing, IC.Names, Thirteen, Acyclic;
    main := ThirteenInterfaces(0, ["a", "b", "c", "d"]);
    var a := ThirteenInterfaces(1, []);
    var b := ThirteenInterfaces(2, []);
    var c := ThirteenInterfaces(3, []);
    var d := ThirteenInterfaces(4, []);
    files := map["main" := main, "a" := a, "b" := b, "c" := c, "d" := d];
    ghost var ms := [main, a, b, c, d];
    w := FiveFiles(ms);
    FiveNamed(w, ms);
  }

  // Loaded, the first of them has a cache that does not answer as the search does.
  method SearchAndCacheDiffer() returns (c: NovaLoader, m: Module)
    ensures c.Valid() && m in c.w.rank && m.accessCounter > 0 && m.cache != null && Loadable(c.w, m)
    ensures !IC.AnswersAll(m.cache.Entries(), IC.Listing(c.w, m))
  {
    hide NovaLoader.Valid, IC.Listing, Loadable, IC.Names, IC.AnswersAll, Counted, Acyclic;
    var files;
    ghost var w;
    m, files, w := SixtyFiveNames();
    c := new NovaLoader(files, w);
    var r := c.Load("main");
    c.OneLoaded(m);
    c.CacheAgrees(m);
  }

  // ---------- lists that fill their arrays ----------

  // Sixteen interfaces are not too many by themselves; but the loader sees the first requirement
  // right behind them, and then they are.
  method SixteenRefused() returns (c: NovaLoader, alone: Module?, requiring: Module?)
    ensures c.Valid() && "b" in c.files && c.files["b"].required == ["a"] && requiring == null
    ensures alone != null && |alone.implements| == 16 && c.files["b"].implements == alone.implements
  {
    hide NovaLoader.Valid, Counted, Acyclic, Within;
    var names: Implements := seq(16, i requires 0 <= i < 16 => Letter(i));
    var a := new Module(names, [], false, map n <- names :: 1);
    var b := new Module(names, ["a"], false, map n <- names :: 1);
    var files := map["a" := a, "b" := b];
    ghost var w := TwoFiles(a, b);
    c := new NovaLoader(files, w);
    TwoLoadable(w, a, b);
    alone := c.Load("a");
    requiring := c.Load("b");
  }

  lemma TwoFiles(a: Module, b: Module) returns (w: Dag)
    requires a.required == [] && b.required == ["a"]
    ensures w.files == map["a" := a, "b" := b] && w.rank.Keys == {a, b}
  {
    w := World(map["a" := a, "b" := b], map[b := 1, a := 0], 2);
  }

  lemma {:induction false} TwoLoadable(w: Dag, a: Module, b: Module)
    requires a in w.rank && b in w.rank && a.required == [] && b.required != []
    requires |a.implements| == |b.implements| == MODULE_IMPLEMENTS_MAX && forall n <- a.implements :: n in a.symbols
    ensures Loadable(w, a) && !Loadable(w, b)
  {
    LoadableParts(w, a);
    LoadableParts(w, b);
  }

  // Nor are thirty-two requirements, all of the same module here; but behind them the loader sees
  // the first option.
  method ThirtyTwoRefused() returns (c: NovaLoader, plain: Module?, optional: Module?)
    ensures c.Valid() && "c" in c.files && c.files["c"].options && optional == null
    ensures plain != null && |plain.required| == 32 && !plain.options && c.files["c"].required == plain.required
  {
    hide NovaLoader.Valid, Counted, Acyclic, Within;
    var names: Requires := seq(32, _ => "a");
    var a := new Module([], [], false, map[]);
    var b := new Module([], names, false, map[]);
    var o := new Module([], names, true, map[]);
    var files := map["a" := a, "b" := b, "c" := o];
    ghost var w := ThreeFiles(a, b, o);
    c := new NovaLoader(files, w);
    ThreeLoadable(w, a, b, o);
    plain := c.Load("b");
    optional := c.Load("c");
  }

  lemma ThreeFiles(a: Module, b: Module, o: Module) returns (w: Dag)
    requires a.required == [] && b.required == o.required && forall n <- b.required :: n == "a"
    ensures w.files == map["a" := a, "b" := b, "c" := o] && w.rank.Keys == {a, b, o}
  {
    w := World(map["a" := a, "b" := b, "c" := o], map[o := 1, b := 1, a := 0], 2);
  }

  lemma {:induction false} ThreeLoadable(w: Dag, a: Module, b: Module, o: Module)
    requires a in w.rank && b in w.rank && o in w.rank && "a" in w.files && w.files["a"] == a
    requires a.required == [] && b.required == o.required && forall n <- b.required :: n == "a"
    requires a.implements == b.implements == [] && !b.options && o.options && |o.required| == MODULE_REQUIRES_MAX
    ensures Loadable(w, b) && !Loadable(w, o)
  {
    LoadableParts(w, a);
    LoadableParts(w, b);
    LoadableParts(w, o);
  }
}
