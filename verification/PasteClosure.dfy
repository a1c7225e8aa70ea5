/** The paste worklist of the config catalog: which declarations a config type pulls in, and what its names mean. */
module PasteClosure {

  import opened Ordering

  type Name = string
  type File = string

  /** Where an imported name comes from: a file of the package, or another module. */
  datatype Import =
    | Relative(target: File, imported: Name, explicitExtension: bool)
    | Module(specifier: string, imported: Name)

  /** One source file: its type declarations with the names each mentions, and its imports. */
  datatype Source = Source(decls: map<Name, seq<Name>>, imports: map<Name, Import>)

  type Files = map<File, Source>

  datatype Decl = Decl(file: File, name: Name)

  /** What a type name resolves to; the last two are exceptions that end the whole run. */
  datatype Resolution =
    | Local(decl: Decl)
    | Ref(specifier: string, imported: Name)
    | Unresolved
    | Unreadable
    | EndlessRecursion

  // ----- name resolution -----

  /** One file's answer: what the name is, or the file that a package-local import hands it on to. */
  datatype Hop = Answer(resolution: Resolution) | HandedOn(target: File)

  function Ask(fs: Files, file: File, name: Name): Hop {
    if file !in fs then Answer(Unreadable)
    else if name in fs[file].decls then Answer(Local(Decl(file, name)))
    else if name !in fs[file].imports then Answer(Unresolved)
    else
      match fs[file].imports[name]
      case Module(specifier, imported) => Answer(Ref(specifier, imported))
      case Relative(target, imported, explicitExtension) =>
        if !explicitExtension || imported != name then Answer(Unresolved) else HandedOn(target)
  }

  /** `resolveTypeName`, following package-local imports; a file met twice means the recursion never returns. */
  function Resolve(fs: Files, file: File, name: Name, visited: set<File>): Resolution
    decreases fs.Keys - visited
  {
    match Ask(fs, file, name)
    case Answer(resolution) => resolution
    case HandedOn(target) =>
      if file in visited then EndlessRecursion else Resolve(fs, target, name, visited + {file})
  }

  /** The name is not declared there but imported, under the same name, from a file of the package. */
  predicate HandsOn(fs: Files, file: File, name: Name) {
    && file in fs && name !in fs[file].decls && name in fs[file].imports
    && fs[file].imports[name].Relative? && fs[file].imports[name].explicitExtension
    && fs[file].imports[name].imported == name
  }

  lemma AskHandsOn(fs: Files, file: File, name: Name)
    ensures Ask(fs, file, name).HandedOn? <==> HandsOn(fs, file, name)
    ensures HandsOn(fs, file, name) ==> Ask(fs, file, name).target == fs[file].imports[name].target
  {
  }

  /** The file reached after `n` package-local imports, while the chain lasts. */
  ghost predicate Chain(fs: Files, file: File, name: Name, n: nat, last: File)
    decreases n
  {
    if n == 0 then file == last
    else HandsOn(fs, file, name) && Chain(fs, fs[file].imports[name].target, name, n - 1, last)
  }

  /** What a file in which the chain ends makes of the name. */
  ghost predicate EndsAs(fs: Files, file: File, name: Name, r: Resolution) {
    match r
    case Local(d) => file in fs && name in fs[file].decls && d == Decl(file, name)
    case Ref(specifier, imported) =>
      && file in fs && name !in fs[file].decls && name in fs[file].imports
      && fs[file].imports[name] == Module(specifier, imported)
    case Unresolved =>
      && file in fs && name !in fs[file].decls
      && (name in fs[file].imports ==> fs[file].imports[name].Relative? && !HandsOn(fs, file, name))
    case Unreadable => file !in fs
    case EndlessRecursion => false
  }

  ghost predicate ResolvesTo(fs: Files, file: File, name: Name, r: Resolution) {
    exists n: nat, last :: Chain(fs, file, name, n, last) && EndsAs(fs, last, name, r)
  }

  lemma {:induction false} ResolveEnds(fs: Files, file: File, name: Name, visited: set<File>)
    requires Resolve(fs, file, name, visited) != EndlessRecursion
    ensures ResolvesTo(fs, file, name, Resolve(fs, file, name, visited))
    decreases fs.Keys - visited
  {
    AskHandsOn(fs, file, name);
    if HandsOn(fs, file, name) {
      var target := fs[file].imports[name].target;
      ResolveEnds(fs, target, name, visited + {file});
      var n: nat, last :|
        Chain(fs, target, name, n, last) && EndsAs(fs, last, name, Resolve(fs, target, name, visited + {file}));
      assert Chain(fs, file, name, n + 1, last);
    } else {
      assert Chain(fs, file, name, 0, file);
    }
  }

  /** A chain ends in one file only, and one way. */
  lemma {:induction false} EndsOnce(fs: Files, file: File, name: Name, n: nat, last: File, r: Resolution, m: nat,
                                    other: File, q: Resolution)
    requires Chain(fs, file, name, n, last) && EndsAs(fs, last, name, r)
    requires Chain(fs, file, name, m, other) && EndsAs(fs, other, name, q)
    ensures r == q
    decreases n
  {
    if n > 0 && m > 0 {
      EndsOnce(fs, fs[file].imports[name].target, name, n - 1, last, r, m - 1, other, q);
    }
  }

  lemma {:induction false} EndsThere(fs: Files, file: File, name: Name, n: nat, last: File, r: Resolution)
    requires Chain(fs, file, name, n, last) && EndsAs(fs, last, name, r)
    ensures !ChainLasts(fs, file, name, n + 1)
    decreases n
  {
    if n > 0 {
      var target := fs[file].imports[name].target;
      EndsThere(fs, target, name, n - 1, last, r);
      ChainTail(fs, file, name, n + 1);
    }
  }

  /** Resolution answers what the file at the end of the chain of package-local imports says, if the chain ends. */
  lemma ResolvesExactly(fs: Files, file: File, name: Name, r: Resolution)
    requires r != EndlessRecursion
    ensures Resolve(fs, file, name, {}) == r <==> ResolvesTo(fs, file, name, r)
  {
    hide Resolve, EndsAs;
    var q := Resolve(fs, file, name, {});
    if n: nat, last :| Chain(fs, file, name, n, last) && EndsAs(fs, last, name, r) {
      EndsThere(fs, file, name, n, last, r);
      EndlessExactly(fs, file, name);
      assert q != EndlessRecursion;
    }
    if q != EndlessRecursion {
      ResolveEnds(fs, file, name, {});
      if n: nat, last :| Chain(fs, file, name, n, last) && EndsAs(fs, last, name, r) {
        var m: nat, other :| Chain(fs, file, name, m, other) && EndsAs(fs, other, name, q);
        EndsOnce(fs, file, name, n, last, r, m, other, q);
      }
    }
  }

  ghost predicate ChainLasts(fs: Files, file: File, name: Name, n: nat) {
    exists last :: Chain(fs, file, name, n, last)
  }

  lemma {:induction false} ChainJoin(fs: Files, file: File, name: Name, m: nat, mid: File, n: nat, last: File)
    requires Chain(fs, file, name, m, mid) && Chain(fs, mid, name, n, last)
    ensures Chain(fs, file, name, m + n, last)
    decreases m
  {
    if m != 0 {
      ChainJoin(fs, fs[file].imports[name].target, name, m - 1, mid, n, last);
    }
  }

  /** A chain that comes back to its start goes on for ever. */
  lemma {:induction false} CycleLasts(fs: Files, file: File, name: Name, period: nat, n: nat)
    requires period > 0 && Chain(fs, file, name, period, file)
    ensures ChainLasts(fs, file, name, n)
    decreases n
  {
    if n < period {
      ChainPrefix(fs, file, name, period, file, n);
    } else {
      CycleLasts(fs, file, name, period, n - period);
      var last :| Chain(fs, file, name, n - period, last);
      ChainJoin(fs, file, name, period, file, n - period, last);
    }
  }

  lemma {:induction false} ChainPrefix(fs: Files, file: File, name: Name, m: nat, last: File, n: nat)
    requires Chain(fs, file, name, m, last) && n <= m
    ensures ChainLasts(fs, file, name, n)
    decreases n
  {
    if n == 0 {
      assert Chain(fs, file, name, 0, file);
    } else {
      ChainPrefix(fs, fs[file].imports[name].target, name, m - 1, last, n - 1);
      var mid :| Chain(fs, fs[file].imports[name].target, name, n - 1, mid);
      assert Chain(fs, file, name, n, mid);
    }
  }

  ghost predicate LeadsTo(fs: Files, file: File, name: Name, last: File) {
    exists k: nat :: k > 0 && Chain(fs, file, name, k, last)
  }

  /** Meeting a visited file closes a cycle. */
  lemma {:induction false} EndlessCycles(fs: Files, file: File, name: Name, visited: set<File>)
    returns (n: nat, meet: File, period: nat)
    requires Resolve(fs, file, name, visited) == EndlessRecursion
    requires forall v :: v in visited ==> LeadsTo(fs, v, name, file)
    ensures Chain(fs, file, name, n, meet) && period > 0 && Chain(fs, meet, name, period, meet)
    decreases fs.Keys - visited
  {
    if file in visited {
      period :| period > 0 && Chain(fs, file, name, period, file);
      n, meet := 0, file;
    } else {
      var next := fs[file].imports[name].target;
      assert Chain(fs, next, name, 0, next);
      assert Chain(fs, file, name, 1, next);
      forall v | v in visited + {file} ensures LeadsTo(fs, v, name, next) {
        if v in visited {
          var k: nat :| k > 0 && Chain(fs, v, name, k, file);
          ChainJoin(fs, v, name, k, file, 1, next);
          assert Chain(fs, v, name, k + 1, next);
        } else {
          assert Chain(fs, v, name, 1, next);
        }
      }
      var m;
      m, meet, period := EndlessCycles(fs, next, name, visited + {file});
      n := m + 1;
    }
  }

  /** A chain that ends does so within one import for each file not yet visited, and one more. */
  lemma {:induction false} EndsWhenResolved(fs: Files, file: File, name: Name, visited: set<File>)
    requires Resolve(fs, file, name, visited) != EndlessRecursion
    ensures !ChainLasts(fs, file, name, |fs.Keys - visited| + 1)
    decreases fs.Keys - visited
  {
    hide ChainLasts, Chain;
    if HandsOn(fs, file, name) {
      OneVisitedMore(fs, visited, file);
      EndsWhenResolved(fs, fs[file].imports[name].target, name, visited + {file});
      ChainTail(fs, file, name, |fs.Keys - visited| + 1);
    } else {
      NoChain(fs, file, name, |fs.Keys - visited| + 1);
    }
  }

  lemma OneVisitedMore(fs: Files, visited: set<File>, file: File)
    requires file in fs && file !in visited
    ensures |fs.Keys - visited| == |fs.Keys - (visited + {file})| + 1
  {
    assert fs.Keys - visited == (fs.Keys - (visited + {file})) + {file};
  }

  lemma ChainTail(fs: Files, file: File, name: Name, n: nat)
    requires HandsOn(fs, file, name) && n > 0
    ensures ChainLasts(fs, file, name, n) ==> ChainLasts(fs, fs[file].imports[name].target, name, n - 1)
  {
    if last :| Chain(fs, file, name, n, last) {
      assert Chain(fs, fs[file].imports[name].target, name, n - 1, last);
    }
  }

  lemma {:induction false} NoChain(fs: Files, file: File, name: Name, n: nat)
    requires n > 0 && !HandsOn(fs, file, name)
    ensures !ChainLasts(fs, file, name, n)
  {
  }

  lemma EndlessLasts(fs: Files, file: File, name: Name, n: nat)
    requires Resolve(fs, file, name, {}) == EndlessRecursion
    ensures ChainLasts(fs, file, name, n)
  {
    hide Resolve, Chain;
    var m, meet, period := EndlessCycles(fs, file, name, {});
    if n <= m {
      ChainPrefix(fs, file, name, m, meet, n);
    } else {
      CycleLasts(fs, meet, name, period, n - m);
      var last :| Chain(fs, meet, name, n - m, last);
      ChainJoin(fs, file, name, m, meet, n - m, last);
    }
  }

  /**
   * The resolver recurses for ever exactly when its chain of package-local imports never ends, which shows within
   * one import more than there are files.
   */
  lemma EndlessExactly(fs: Files, file: File, name: Name)
    ensures Resolve(fs, file, name, {}) == EndlessRecursion <==> ChainLasts(fs, file, name, |fs.Keys| + 1)
    ensures Resolve(fs, file, name, {}) == EndlessRecursion <==> forall n: nat :: ChainLasts(fs, file, name, n)
  {
    hide Resolve, Chain, ChainLasts;
    if Resolve(fs, file, name, {}) == EndlessRecursion {
      forall n: nat ensures ChainLasts(fs, file, name, n) {
        EndlessLasts(fs, file, name, n);
      }
    } else {
      EndsWhenResolved(fs, file, name, {});
      assert fs.Keys - {} == fs.Keys;
    }
  }

  /** Two files that import a name from each other: asking either for it never returns. */
  lemma TwoFileCycle(name: Name)
    ensures var a := Source(map[], map[name := Relative("b", name, true)]);
            var b := Source(map[], map[name := Relative("a", name, true)]);
            Resolve(map["a" := a, "b" := b], "a", name, {}) == EndlessRecursion
  {
    var fs := map["a" := Source(map[], map[name := Relative("b", name, true)]),
                  "b" := Source(map[], map[name := Relative("a", name, true)])];
    assert Ask(fs, "a", name) == HandedOn("b") && Ask(fs, "b", name) == HandedOn("a");
    assert Resolve(fs, "a", name, {"a", "b"}) == EndlessRecursion;
    assert {"a"} + {"b"} == {"a", "b"} && {} + {"a"} == {"a"};
    assert Resolve(fs, "b", name, {"a"}) == Resolve(fs, "a", name, {"a"} + {"b"});
    assert Resolve(fs, "a", name, {}) == Resolve(fs, "b", name, {} + {"a"});
  }

  // ----- the closure of a config type -----

  const GLOBAL_TYPES: set<Name> := {
    "Array", "ReadonlyArray", "Record", "Partial", "Required", "Readonly", "Pick", "Omit",
    "Promise", "Map", "Set", "Date", "Error", "RegExp", "Exclude", "Extract", "NonNullable",
    "ReturnType", "Parameters", "AbortSignal", "URL", "Buffer", "NodeJS", "Iterable", "AsyncIterable"}

  /** What `name` means in `file`. */
  function Means(fs: Files, file: File, name: Name): Resolution {
    Resolve(fs, file, name, {})
  }

  /** A name as it occurs somewhere: the worklist's items. */
  datatype Mention = Mention(name: Name, from: File)

  /** The non-global names a declaration mentions. */
  function Mentions(fs: Files, d: Decl): seq<Mention> {
    if d.file in fs && d.name in fs[d.file].decls then MentionsOf(fs[d.file].decls[d.name], d.file) else []
  }

  function MentionsOf(names: seq<Name>, file: File): seq<Mention> {
    if names == [] then []
    else (if names[0] in GLOBAL_TYPES then [] else [Mention(names[0], file)]) + MentionsOf(names[1..], file)
  }

  /** A declaration of the package lists the name, and it is no global type. */
  ghost predicate Lists(fs: Files, d: Decl, n: Name) {
    && d.file in fs && d.name in fs[d.file].decls && n in fs[d.file].decls[d.name]
    && n !in GLOBAL_TYPES
  }

  lemma {:induction false} MentionsOfExactly(names: seq<Name>, file: File, m: Mention)
    ensures m in MentionsOf(names, file) <==> m.from == file && m.name in names && m.name !in GLOBAL_TYPES
  {
    if names != [] {
      assert names == [names[0]] + names[1..];
      MentionsOfExactly(names[1..], file, m);
    }
  }

  lemma MentionsExactly(fs: Files, d: Decl, m: Mention)
    ensures m in Mentions(fs, d) <==> m.from == d.file && Lists(fs, d, m.name)
  {
    if d.file in fs && d.name in fs[d.file].decls {
      MentionsOfExactly(fs[d.file].decls[d.name], d.file, m);
    }
  }

  /** A mention inside the closure: the config type itself, or one made by a declaration already in it. */
  ghost predicate Inside(fs: Files, root: Mention, m: Mention, n: nat)
    decreases n
  {
    m == root || (n > 0 && exists p :: Inside(fs, root, p, n - 1) && Follows(fs, p, m))
  }

  /** `p` resolves to a declaration of the package that lists the name of `m`, in whose file that is to be read. */
  ghost predicate Follows(fs: Files, p: Mention, m: Mention) {
    && Means(fs, p.from, p.name).Local?
    && m.from == Means(fs, p.from, p.name).decl.file && Lists(fs, Means(fs, p.from, p.name).decl, m.name)
  }

  ghost predicate InClosure(fs: Files, root: Mention, m: Mention) {
    exists n: nat :: Inside(fs, root, m, n)
  }

  /** The closure can be pasted: the root is local, every mention resolves, and a bare name means one thing. */
  ghost predicate Pasteable(fs: Files, root: Mention) {
    && Means(fs, root.from, root.name).Local?
    && (forall m :: InClosure(fs, root, m) ==> Means(fs, m.from, m.name).Local? || Means(fs, m.from, m.name).Ref?)
    && (forall m, k :: InClosure(fs, root, m) && InClosure(fs, root, k) && m.name == k.name ==>
          Means(fs, m.from, m.name) == Means(fs, k.from, k.name))
  }

  lemma FollowStays(fs: Files, root: Mention, p: Mention, m: Mention)
    requires InClosure(fs, root, p) && Follows(fs, p, m)
    ensures InClosure(fs, root, m)
  {
    hide Follows;
    var n: nat :| Inside(fs, root, p, n);
    assert Inside(fs, root, m, n + 1);
  }

  /** A set of mentions that holds the root and follows every local one holds the whole closure. */
  lemma {:induction false} ClosureWithin(fs: Files, root: Mention, ms: iset<Mention>, m: Mention, n: nat)
    requires root in ms && (forall p, k :: p in ms && Follows(fs, p, k) ==> k in ms)
    requires Inside(fs, root, m, n)
    ensures m in ms
    decreases n
  {
    hide Follows;
    if m != root {
      var p :| Inside(fs, root, p, n - 1) && Follows(fs, p, m);
      ClosureWithin(fs, root, ms, p, n - 1);
    }
  }

  lemma {:induction false} LocalIsNamed(fs: Files, file: File, name: Name, visited: set<File>)
    requires Resolve(fs, file, name, visited).Local?
    ensures var d := Resolve(fs, file, name, visited).decl;
            d.name == name && d.file in fs && name in fs[d.file].decls
    decreases fs.Keys - visited
  {
    if Ask(fs, file, name).HandedOn? {
      LocalIsNamed(fs, Ask(fs, file, name).target, name, visited + {file});
    }
  }

  // ----- the worklist -----

  datatype Result = Pasted(pastes: seq<Decl>, refs: map<Name, Resolution>) | Violations | Crashed

  /** The names of the declarations pasted so far, with the declaration each stands for. */
  ghost predicate Settled(fs: Files, declared: map<Name, Decl>, refs: map<Name, Resolution>, m: Mention) {
    match Means(fs, m.from, m.name)
    case Local(d) => m.name in declared && declared[m.name] == d
    case Ref(_, _) => m.name in refs && refs[m.name] == Means(fs, m.from, m.name)
    case _ => false
  }

  /** Everything recorded came from a mention inside the closure, and every mention made so far is settled or queued. */
  ghost predicate Working(fs: Files, root: Mention, queue: seq<Mention>, pastes: seq<Decl>,
                          declared: map<Name, Decl>, refs: map<Name, Resolution>) {
    && (forall m :: m in queue ==> InClosure(fs, root, m))
    && (forall n :: n in declared ==> Came(fs, root, n, Local(declared[n])))
    && (forall n :: n in refs ==> refs[n].Ref? && Came(fs, root, n, refs[n]))
    && declared.Keys !! refs.Keys
    && Distinct(pastes)
    && (forall d :: d in pastes <==> d.name in declared && declared[d.name] == d)
    && (root in queue || Settled(fs, declared, refs, root))
    && (forall n, m :: n in declared && m in Mentions(fs, declared[n]) ==> m in queue || Settled(fs, declared, refs, m))
  }

  /** Some mention inside the closure gives `name` this meaning. */
  ghost predicate Came(fs: Files, root: Mention, name: Name, r: Resolution) {
    exists m :: InClosure(fs, root, m) && m.name == name && Means(fs, m.from, m.name) == r
  }

  /** Taking a settled mention off the queue. */
  lemma DropSettled(fs: Files, root: Mention, queue: seq<Mention>, pastes: seq<Decl>,
                    declared: map<Name, Decl>, refs: map<Name, Resolution>)
    requires queue != [] && Working(fs, root, queue, pastes, declared, refs)
    requires Settled(fs, declared, refs, queue[0])
    ensures Working(fs, root, queue[1..], pastes, declared, refs)
  {
    hide Settled, Came, InClosure, Mentions;
    assert queue == [queue[0]] + queue[1..];
  }

  lemma RecordRef(fs: Files, root: Mention, queue: seq<Mention>, pastes: seq<Decl>,
                  declared: map<Name, Decl>, refs: map<Name, Resolution>)
    requires queue != [] && Working(fs, root, queue, pastes, declared, refs)
    requires Means(fs, queue[0].from, queue[0].name).Ref? && queue[0].name !in declared
    requires queue[0].name in refs ==> refs[queue[0].name] == Means(fs, queue[0].from, queue[0].name)
    ensures Working(fs, root, queue[1..], pastes, declared,
                    refs[queue[0].name := Means(fs, queue[0].from, queue[0].name)])
  {
    hide InClosure, Mentions, Means;
    var r := Means(fs, queue[0].from, queue[0].name);
    var more := refs[queue[0].name := r];
    assert queue[0] in queue;
    assert Came(fs, root, queue[0].name, r);
    forall m | Settled(fs, declared, refs, m) ensures Settled(fs, declared, more, m) {
    }
    RefreshWorking(fs, root, queue, pastes, declared, refs, more);
    DropSettled(fs, root, queue, pastes, declared, more);
  }

  lemma RefreshWorking(fs: Files, root: Mention, queue: seq<Mention>, pastes: seq<Decl>,
                       declared: map<Name, Decl>, refs: map<Name, Resolution>, more: map<Name, Resolution>)
    requires Working(fs, root, queue, pastes, declared, refs)
    requires forall m :: Settled(fs, declared, refs, m) ==> Settled(fs, declared, more, m)
    requires declared.Keys !! more.Keys && forall n :: n in more ==> more[n].Ref? && Came(fs, root, n, more[n])
    ensures Working(fs, root, queue, pastes, declared, more)
  {
    hide Settled, Came, InClosure, Mentions;
  }

  lemma PasteOne(fs: Files, root: Mention, queue: seq<Mention>, pastes: seq<Decl>,
                 declared: map<Name, Decl>, refs: map<Name, Resolution>, d: Decl)
    requires queue != [] && Working(fs, root, queue, pastes, declared, refs)
    requires Means(fs, queue[0].from, queue[0].name) == Local(d)
    requires queue[0].name !in declared && queue[0].name !in refs
    ensures d.name == queue[0].name
    ensures Working(fs, root, queue[1..] + Mentions(fs, d), pastes + [d], declared[d.name := d], refs)
  {
    hide Mentions, Means;
    var head := queue[0];
    LocalName(fs, head, d);
    var more := declared[d.name := d];
    var rest := queue[1..] + Mentions(fs, d);
    assert queue == [head] + queue[1..];
    assert head in queue;
    MentionsInside(fs, root, head, d);
    assert Came(fs, root, d.name, Local(d));
    forall m | Settled(fs, declared, refs, m) ensures Settled(fs, more, refs, m) {
    }
    assert Settled(fs, more, refs, head);
    PasteWorking(fs, root, queue, pastes, declared, refs, d);
  }

  lemma LocalName(fs: Files, m: Mention, d: Decl)
    requires Means(fs, m.from, m.name) == Local(d)
    ensures d.name == m.name && d.file in fs && d.name in fs[d.file].decls
  {
    LocalIsNamed(fs, m.from, m.name, {});
  }

  lemma PasteWorking(fs: Files, root: Mention, queue: seq<Mention>, pastes: seq<Decl>,
                     declared: map<Name, Decl>, refs: map<Name, Resolution>, d: Decl)
    requires queue != [] && Working(fs, root, queue, pastes, declared, refs)
    requires d.name !in declared && d.name !in refs
    requires forall m :: m in Mentions(fs, d) ==> InClosure(fs, root, m)
    requires Came(fs, root, d.name, Local(d))
    requires forall m :: Settled(fs, declared, refs, m) ==> Settled(fs, declared[d.name := d], refs, m)
    requires Settled(fs, declared[d.name := d], refs, queue[0])
    ensures Working(fs, root, queue[1..] + Mentions(fs, d), pastes + [d], declared[d.name := d], refs)
  {
    hide Settled, Came, InClosure, Mentions;
    assert queue == [queue[0]] + queue[1..];
    var q, ps, ds := queue[1..] + Mentions(fs, d), pastes + [d], declared[d.name := d];
    forall n, m | n in ds && m in Mentions(fs, ds[n]) ensures m in q || Settled(fs, ds, refs, m) {
      if n != d.name {
        assert m in queue || Settled(fs, declared, refs, m);
      }
    }
  }

  /** One of the first `k` pastes lists the name, in its file. */
  ghost predicate ListedIn(fs: Files, pastes: seq<Decl>, k: nat, m: Mention) {
    exists j :: 0 <= j < k && j < |pastes| && m.from == pastes[j].file && Lists(fs, pastes[j], m.name)
  }

  /** The config type comes first, and what an earlier paste lists is why each other one was pasted or queued. */
  ghost predicate Traced(fs: Files, root: Mention, queue: seq<Mention>, pastes: seq<Decl>) {
    && (pastes == [] ==> queue == [root])
    && (pastes != [] ==> Means(fs, root.from, root.name) == Local(pastes[0]))
    && (pastes != [] ==> forall m :: m in queue ==> ListedIn(fs, pastes, |pastes|, m))
    && (forall i :: 0 < i < |pastes| ==> Prompted(fs, pastes, i))
  }

  /** An earlier paste lists a name that resolves to this one. */
  ghost predicate Prompted(fs: Files, pastes: seq<Decl>, i: nat)
    requires i < |pastes|
  {
    exists m :: ListedIn(fs, pastes, i, m) && Means(fs, m.from, m.name) == Local(pastes[i])
  }

  lemma TraceDrop(fs: Files, root: Mention, queue: seq<Mention>, pastes: seq<Decl>)
    requires Traced(fs, root, queue, pastes) && queue != [] && pastes != []
    ensures Traced(fs, root, queue[1..], pastes)
  {
    hide Means, ListedIn, Prompted;
    assert forall m :: m in queue[1..] ==> m in queue;
  }

  lemma ListedStays(fs: Files, pastes: seq<Decl>, k: nat, m: Mention, d: Decl)
    requires ListedIn(fs, pastes, k, m)
    ensures ListedIn(fs, pastes + [d], k, m) && ListedIn(fs, pastes + [d], |pastes| + 1, m)
  {
    hide Lists;
    var j :| 0 <= j < k && j < |pastes| && m.from == pastes[j].file && Lists(fs, pastes[j], m.name);
    assert (pastes + [d])[j] == pastes[j];
  }

  lemma TracePaste(fs: Files, root: Mention, queue: seq<Mention>, pastes: seq<Decl>, d: Decl)
    requires Traced(fs, root, queue, pastes) && queue != []
    requires Means(fs, queue[0].from, queue[0].name) == Local(d)
    ensures Traced(fs, root, queue[1..] + Mentions(fs, d), pastes + [d])
  {
    hide Means, ListedIn, Mentions, Lists;
    var more, q := pastes + [d], queue[1..] + Mentions(fs, d);
    assert queue[0] in queue;
    forall m | m in q ensures ListedIn(fs, more, |more|, m) {
      if m in Mentions(fs, d) {
        ListsLast(fs, pastes, d, m);
      } else {
        assert m in queue[1..] && pastes != [];
        assert m in queue;
        ListedStays(fs, pastes, |pastes|, m, d);
      }
    }
    forall i | 0 < i < |more| ensures Prompted(fs, more, i) {
      if i < |pastes| {
        assert Prompted(fs, pastes, i);
        var m :| ListedIn(fs, pastes, i, m) && Means(fs, m.from, m.name) == Local(pastes[i]);
        ListedStays(fs, pastes, i, m, d);
      } else {
        ListedStays(fs, pastes, i, queue[0], d);
      }
    }
  }

  lemma ListsLast(fs: Files, pastes: seq<Decl>, d: Decl, m: Mention)
    requires m in Mentions(fs, d)
    ensures ListedIn(fs, pastes + [d], |pastes| + 1, m)
  {
    hide Mentions, Lists;
    MentionsExactly(fs, d, m);
    assert (pastes + [d])[|pastes|] == d;
  }

  /** Every name outside the global types that a paste lists is pasted too, or is in `refs`. */
  lemma ListedIsCovered(fs: Files, root: Mention, pastes: seq<Decl>, refs: map<Name, Resolution>, d: Decl, n: Name)
    requires Pasteable(fs, root) && WholeClosure(fs, root, pastes, refs) && d in pastes && Lists(fs, d, n)
    ensures n in refs || exists p :: p in pastes && p.name == n
  {
    hide Means, Pasteable, InClosure, Lists, Came;
    var m :| InClosure(fs, root, m) && Means(fs, m.from, m.name) == Local(d);
    var k := Mention(n, d.file);
    FollowStays(fs, root, m, k);
    ClosureResolves(fs, root, k);
    var r := Means(fs, k.from, n);
    if r.Ref? {
      CameFrom(fs, root, k);
    } else {
      LocalName(fs, k, r.decl);
      assert r.decl in pastes;
    }
  }

  lemma ClosureResolves(fs: Files, root: Mention, m: Mention)
    requires Pasteable(fs, root) && InClosure(fs, root, m)
    ensures Means(fs, m.from, m.name).Local? || Means(fs, m.from, m.name).Ref?
  {
    hide Means, InClosure;
  }

  lemma CameFrom(fs: Files, root: Mention, m: Mention)
    requires InClosure(fs, root, m)
    ensures Came(fs, root, m.name, Means(fs, m.from, m.name))
  {
    hide Means, InClosure;
  }

  // ----- the run -----

  lemma InitialWorking(fs: Files, root: Mention)
    ensures Working(fs, root, [root], [], map[], map[])
  {
    assert Inside(fs, root, root, 0);
  }

  /** When the queue runs dry everything in the closure is settled. */
  lemma DryIsSettled(fs: Files, root: Mention, pastes: seq<Decl>, declared: map<Name, Decl>,
                     refs: map<Name, Resolution>, m: Mention)
    requires Working(fs, root, [], pastes, declared, refs) && InClosure(fs, root, m)
    ensures Settled(fs, declared, refs, m)
  {
    hide Mentions, Came;
    var ms := iset k: Mention | Settled(fs, declared, refs, k);
    forall p, k | p in ms && Follows(fs, p, k) ensures k in ms {
      MentionsExactly(fs, declared[p.name], k);
    }
    var n: nat :| Inside(fs, root, m, n);
    ClosureWithin(fs, root, ms, m, n);
  }

  /** What a run without violations pasted: exactly the closure, with every other name it mentions in `refs`. */
  ghost predicate WholeClosure(fs: Files, root: Mention, pastes: seq<Decl>, refs: map<Name, Resolution>) {
    && Distinct(pastes)
    && (forall d :: d in pastes <==> exists m :: InClosure(fs, root, m) && Means(fs, m.from, m.name) == Local(d))
    && (forall n, r :: n in refs && refs[n] == r <==> r.Ref? && Came(fs, root, n, r))
  }

  lemma DryIsClosure(fs: Files, root: Mention, pastes: seq<Decl>, declared: map<Name, Decl>,
                     refs: map<Name, Resolution>)
    requires Working(fs, root, [], pastes, declared, refs)
    requires Means(fs, root.from, root.name).Local?
    ensures WholeClosure(fs, root, pastes, refs) && Pasteable(fs, root)
  {
    hide Mentions, Means, InClosure, Working, Pasteable, WholeClosure, Settled;
    forall m | InClosure(fs, root, m) ensures Settled(fs, declared, refs, m) {
      DryIsSettled(fs, root, pastes, declared, refs, m);
    }
    SettledIsWhole(fs, root, pastes, declared, refs);
    SettledIsPasteable(fs, root, pastes, declared, refs);
  }

  lemma SettledIsWhole(fs: Files, root: Mention, pastes: seq<Decl>, declared: map<Name, Decl>,
                       refs: map<Name, Resolution>)
    requires Working(fs, root, [], pastes, declared, refs)
    requires forall m :: InClosure(fs, root, m) ==> Settled(fs, declared, refs, m)
    ensures WholeClosure(fs, root, pastes, refs)
  {
    hide Mentions, Means, InClosure;
    forall d ensures d in pastes <==> exists m :: InClosure(fs, root, m) && Means(fs, m.from, m.name) == Local(d) {
      if d in pastes {
        assert Came(fs, root, d.name, Local(d));
      }
      if m :| InClosure(fs, root, m) && Means(fs, m.from, m.name) == Local(d) {
        LocalName(fs, m, d);
      }
    }
  }

  lemma SettledIsPasteable(fs: Files, root: Mention, pastes: seq<Decl>, declared: map<Name, Decl>,
                           refs: map<Name, Resolution>)
    requires Working(fs, root, [], pastes, declared, refs) && Means(fs, root.from, root.name).Local?
    requires forall m :: InClosure(fs, root, m) ==> Settled(fs, declared, refs, m)
    ensures Pasteable(fs, root)
  {
    hide Mentions, Means, InClosure, Came;
  }

  /** The declarations a closure could hold. */
  ghost function AllNames(fs: Files): set<Name> {
    set f, n | f in fs && n in fs[f].decls :: n
  }

  /** A mention that resolves to nothing, or against an earlier meaning of its name, spoils the closure. */
  lemma Spoils(fs: Files, root: Mention, m: Mention, n: Name, r: Resolution)
    requires InClosure(fs, root, m)
    requires Means(fs, m.from, m.name) == Unresolved
             || (n == m.name && r != Means(fs, m.from, m.name) && Came(fs, root, n, r))
    ensures !Pasteable(fs, root)
  {
    hide Means, InClosure;
  }

  /** The config type's own name, imported somewhere in the closure, spoils it. */
  lemma RootRefSpoils(fs: Files, root: Mention, m: Mention)
    requires InClosure(fs, root, m) && m.name == root.name && Means(fs, m.from, m.name).Ref?
    ensures !Pasteable(fs, root)
  {
    hide Means, InClosure;
    RootInside(fs, root);
  }

  lemma RootInside(fs: Files, root: Mention)
    ensures InClosure(fs, root, root)
  {
    assert Inside(fs, root, root, 0);
  }

  lemma DeclaredCame(fs: Files, root: Mention, queue: seq<Mention>, pastes: seq<Decl>,
                     declared: map<Name, Decl>, refs: map<Name, Resolution>, n: Name)
    requires Working(fs, root, queue, pastes, declared, refs) && n in declared
    ensures Came(fs, root, n, Local(declared[n]))
  {
    hide Settled, Came, InClosure, Mentions;
  }

  lemma RefCame(fs: Files, root: Mention, queue: seq<Mention>, pastes: seq<Decl>,
                declared: map<Name, Decl>, refs: map<Name, Resolution>, n: Name)
    requires Working(fs, root, queue, pastes, declared, refs) && n in refs
    ensures refs[n].Ref? && Came(fs, root, n, refs[n])
  {
    hide Settled, Came, InClosure, Mentions;
  }

  lemma NotFirst(fs: Files, root: Mention, queue: seq<Mention>, pastes: seq<Decl>)
    requires Traced(fs, root, queue, pastes) && queue != [] && queue[0] != root
    ensures pastes != []
  {
  }

  lemma DeclaredIsPasted(fs: Files, root: Mention, queue: seq<Mention>, pastes: seq<Decl>,
                         declared: map<Name, Decl>, refs: map<Name, Resolution>, n: Name)
    requires Working(fs, root, queue, pastes, declared, refs) && n in declared
    ensures pastes != []
  {
    hide Settled, InClosure, Mentions;
    var m :| InClosure(fs, root, m) && m.name == n && Means(fs, m.from, m.name) == Local(declared[n]);
    LocalName(fs, m, declared[n]);
    assert declared[n] in pastes;
  }

  /** The head of the queue is imported from another module. */
  method TakeRef(fs: Files, root: Mention, queue: seq<Mention>, pastes: seq<Decl>,
                 declared: map<Name, Decl>, refs: map<Name, Resolution>, violated: bool)
    returns (refs': map<Name, Resolution>, violated': bool)
    requires queue != [] && Means(fs, queue[0].from, queue[0].name).Ref?
    requires InClosure(fs, root, queue[0])
    requires !violated ==> Working(fs, root, queue, pastes, declared, refs) && Traced(fs, root, queue, pastes)
    requires violated ==> !Pasteable(fs, root)
    ensures !violated' ==>
              Working(fs, root, queue[1..], pastes, declared, refs') && Traced(fs, root, queue[1..], pastes)
    ensures violated' ==> !Pasteable(fs, root)
    ensures violated ==> violated'
    ensures !violated' ==> queue[0] != root
  {
    hide Working, Means, InClosure, Pasteable, Came, Traced;
    var item := queue[0];
    var ref := Means(fs, item.from, item.name);
    refs', violated' := refs, violated;
    if item.name == root.name {
      RootRefSpoils(fs, root, item);
      violated' := true;
    } else if item.name in declared {
      if !violated {
        DeclaredCame(fs, root, queue, pastes, declared, refs, item.name);
        Spoils(fs, root, item, item.name, Local(declared[item.name]));
      }
      violated' := true;
    } else if item.name in refs && refs[item.name] != ref {
      if !violated {
        RefCame(fs, root, queue, pastes, declared, refs, item.name);
        Spoils(fs, root, item, item.name, refs[item.name]);
      }
      violated' := true;
    } else {
      if !violated {
        RecordRef(fs, root, queue, pastes, declared, refs);
        NotFirst(fs, root, queue, pastes);
        TraceDrop(fs, root, queue, pastes);
      }
      refs' := refs[item.name := ref];
    }
  }

  /** The head of the queue is a declaration of the package. */
  method TakeLocal(fs: Files, root: Mention, queue: seq<Mention>, pastes: seq<Decl>,
                   declared: map<Name, Decl>, refs: map<Name, Resolution>, violated: bool)
    returns (queue': seq<Mention>, pastes': seq<Decl>, declared': map<Name, Decl>, violated': bool)
    requires queue != [] && Means(fs, queue[0].from, queue[0].name).Local?
    requires forall m :: m in queue ==> InClosure(fs, root, m)
    requires !violated ==> Working(fs, root, queue, pastes, declared, refs) && Traced(fs, root, queue, pastes)
    requires violated ==> !Pasteable(fs, root)
    requires declared.Keys <= AllNames(fs)
    ensures queue[1..] <= queue' && (forall m :: m in queue' ==> InClosure(fs, root, m))
    ensures !violated' ==> Working(fs, root, queue', pastes', declared', refs) && Traced(fs, root, queue', pastes')
    ensures violated' ==> !Pasteable(fs, root)
    ensures violated ==> violated'
    ensures declared'.Keys <= AllNames(fs)
    ensures declared.Keys < declared'.Keys || (declared' == declared && queue' == queue[1..])
  {
    hide Working, Means, InClosure, Pasteable, Came, Mentions, Traced;
    var item := queue[0];
    var d := Means(fs, item.from, item.name).decl;
    queue', pastes', declared', violated' := queue[1..], pastes, declared, violated;
    if item.name in declared {
      if declared[item.name] != d {
        if !violated {
          DeclaredCame(fs, root, queue, pastes, declared, refs, item.name);
          Spoils(fs, root, item, item.name, Local(declared[item.name]));
        }
        violated' := true;
      } else if !violated {
        DropSettled(fs, root, queue, pastes, declared, refs);
        DeclaredIsPasted(fs, root, queue, pastes, declared, refs, item.name);
        TraceDrop(fs, root, queue, pastes);
      }
    } else if item.name in refs {
      if !violated {
        RefCame(fs, root, queue, pastes, declared, refs, item.name);
        Spoils(fs, root, item, item.name, refs[item.name]);
      }
      violated' := true;
    } else {
      LocalName(fs, item, d);
      if !violated {
        PasteOne(fs, root, queue, pastes, declared, refs, d);
        TracePaste(fs, root, queue, pastes, d);
      }
      MentionsInside(fs, root, item, d);
      declared', pastes' := declared[item.name := d], pastes + [d];
      queue' := queue[1..] + Mentions(fs, d);
    }
  }

  lemma MentionsInside(fs: Files, root: Mention, item: Mention, d: Decl)
    requires InClosure(fs, root, item) && Means(fs, item.from, item.name) == Local(d)
    ensures forall m :: m in Mentions(fs, d) ==> InClosure(fs, root, m)
  {
    hide InClosure, Means, Mentions;
    forall m | m in Mentions(fs, d) ensures InClosure(fs, root, m) {
      MentionsExactly(fs, d, m);
      assert Follows(fs, item, m);
      FollowStays(fs, root, item, m);
    }
  }

  lemma InitialTrace(fs: Files, root: Mention)
    ensures Traced(fs, root, [root], [])
  {
  }

  lemma DryHasPastes(fs: Files, root: Mention, pastes: seq<Decl>)
    requires Traced(fs, root, [], pastes)
    ensures pastes != []
  {
  }

  /**
   * Paste the package-local closure of the config type `name` of `entry`. The worklist always ends:
   * each declaration is pasted at most once.
   */
  method CollectPastes(fs: Files, entry: File, name: Name) returns (r: Result)
    ensures r.Pasted? <==> Pasteable(fs, Mention(name, entry))
    ensures r.Pasted? ==> WholeClosure(fs, Mention(name, entry), r.pastes, r.refs)
    ensures r.Pasted? ==> r.pastes != [] && Traced(fs, Mention(name, entry), [], r.pastes)
    ensures r.Crashed? ==> Hopeless(fs, Mention(name, entry))
  {
    hide Working, Means, InClosure, Pasteable, Came, Mentions, Settled, WholeClosure, Traced;
    var root := Mention(name, entry);
    var pastes: seq<Decl>, declared: map<Name, Decl>, refs: map<Name, Resolution> := [], map[], map[];
    var queue := [root];
    var violated := false;
    InitialWorking(fs, root);
    InitialTrace(fs, root);
    while queue != []
      invariant !violated ==> Working(fs, root, queue, pastes, declared, refs) && Traced(fs, root, queue, pastes)
      invariant forall m :: m in queue ==> InClosure(fs, root, m)
      invariant declared.Keys <= AllNames(fs)
      invariant violated ==> !Pasteable(fs, root)
      invariant root in queue || violated || Means(fs, root.from, root.name).Local?
      decreases AllNames(fs) - declared.Keys, |queue|
    {
      var item := queue[0];
      var resolved := Means(fs, item.from, item.name);
      assert queue == [item] + queue[1..];
      if resolved.Unreadable? || resolved.EndlessRecursion? {
        CrashSpoils(fs, root, item);
        return Crashed;
      } else if resolved.Unresolved? {
        Spoils(fs, root, item, item.name, resolved);
        queue, violated := queue[1..], true;
      } else if resolved.Ref? {
        refs, violated := TakeRef(fs, root, queue, pastes, declared, refs, violated);
        queue := queue[1..];
      } else {
        queue, pastes, declared, violated := TakeLocal(fs, root, queue, pastes, declared, refs, violated);
      }
    }
    if violated {
      return Violations;
    }
    DryIsClosure(fs, root, pastes, declared, refs);
    DryHasPastes(fs, root, pastes);
    r := Pasted(pastes, refs);
  }

  /** Some name in the closure sends the resolver to a missing file or round for ever. */
  ghost predicate Hopeless(fs: Files, root: Mention) {
    exists m :: InClosure(fs, root, m) && Means(fs, m.from, m.name) in {Unreadable, EndlessRecursion}
  }

  lemma CrashSpoils(fs: Files, root: Mention, m: Mention)
    requires InClosure(fs, root, m) && Means(fs, m.from, m.name) in {Unreadable, EndlessRecursion}
    ensures !Pasteable(fs, root) && Hopeless(fs, root)
  {
    hide Means, InClosure;
  }
}
