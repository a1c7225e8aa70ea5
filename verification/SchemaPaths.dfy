/** The three-valued presence check of schema key paths against declared config types. */
module SchemaPaths {

  import opened Options

  type File = string
  type Name = string
  type Id = nat

  datatype Step = Member(name: Name) | Element

  /** A type member: a plain property, which the walk compares by name, or one it passes over. */
  datatype TypeElement =
    | Property(name: Name, declared: Option<Type>)
    | Method(name: Name)
    | Accessor(name: Name, declared: Option<Type>)
    | Quoted(name: Name, declared: Option<Type>)
    | IndexSignature(value: Type)
    | CallSignature

  /** The type syntax the walk distinguishes. */
  datatype Type =
    | Literal(members: seq<TypeElement>)
    | Parenthesized(inner: Type)
    | Operator(operand: Type)
    | Intersection(parts: seq<Type>)
    | Union(branches: seq<Type>)
    | ArrayType(element: Type)
    | IndexedAccess(owner: Type, index: Option<Name>)
    | Reference(name: Name, qualified: bool, arguments: seq<Type>)
    | OtherType

  /** One heritage entry: a named base, or an expression the walk cannot follow. */
  datatype Base = NamedBase(name: Name) | OtherBase

  datatype Decl =
    | Interface(members: seq<TypeElement>, bases: seq<Base>)
    | Alias(aliased: Type)
    | Enum

  datatype Declared = Declared(file: File, decl: Decl)

  /** Every declaration by identity, and what each name means in each file; an absent name is out of reach. */
  datatype World = World(decls: map<Id, Declared>, names: map<(File, Name), Id>)

  /** A place the walk can stand: a declaration, a type inside a file, or something out of reach. */
  datatype Node = DeclNode(id: Id) | TypeNode(file: File, t: Type) | Beyond(file: File, what: Name)

  datatype Verdict = Found | Missing | Unknown

  /** The recursion guard's key: a declaration and the number of steps left. */
  datatype Key = Key(id: Id, left: nat)

  const PASSTHROUGH_WRAPPERS: set<Name> := {"Partial", "Required", "Readonly", "NonNullable"}

  // ----- one step of the walk -----

  /** What a node says about a non-empty path before any recursion. */
  datatype View =
    | Here
    | OutOfSight
    | Through(node: Node, steps: seq<Step>)
    | Deeper(node: Node, steps: seq<Step>)
    | AnyOf(nodes: seq<Node>)
    | EveryOf(nodes: seq<Node>)

  /** The first property called `name`: its declared type, if it has one. */
  function FindMember(ms: seq<TypeElement>, name: Name): Option<Option<Type>> {
    if ms == [] then None
    else if ms[0].Property? && ms[0].name == name then Some(ms[0].declared)
    else FindMember(ms[1..], name)
  }

  function Resolve(w: World, file: File, name: Name): Node {
    if (file, name) in w.names then DeclNode(w.names[(file, name)]) else Beyond(file, name)
  }

  function BaseNodes(w: World, file: File, bases: seq<Base>): seq<Node> {
    if bases == [] then []
    else [if bases[0].NamedBase? then Resolve(w, file, bases[0].name) else Beyond(file, "")]
         + BaseNodes(w, file, bases[1..])
  }

  function TypeNodes(file: File, ts: seq<Type>): seq<Node> {
    if ts == [] then [] else [TypeNode(file, ts[0])] + TypeNodes(file, ts[1..])
  }

  /** `intoMembers`, with `otherwise` for a member that is not among them. */
  function IntoMembers(file: File, ms: seq<TypeElement>, steps: seq<Step>, otherwise: View): View
    requires steps != [] && steps[0].Member?
  {
    match FindMember(ms, steps[0].name)
    case None => otherwise
    case Some(declared) =>
      if |steps| == 1 then Here
      else if declared.Some? then Through(TypeNode(file, declared.value), steps[1..])
      else OutOfSight
  }

  function ViewDecl(w: World, file: File, decl: Decl, steps: seq<Step>): View
    requires steps != []
  {
    match decl
    case Interface(ms, bases) =>
      if steps[0].Element? then OutOfSight
      else IntoMembers(file, ms, steps, AnyOf(BaseNodes(w, file, bases)))
    case Alias(t) => Through(TypeNode(file, t), steps)
    case Enum => OutOfSight
  }

  function ViewType(w: World, file: File, t: Type, steps: seq<Step>): View
    requires steps != []
  {
    match t
    case Literal(ms) =>
      if steps[0].Element? then OutOfSight else IntoMembers(file, ms, steps, AnyOf([]))
    case Parenthesized(inner) => Through(TypeNode(file, inner), steps)
    case Intersection(parts) => AnyOf(TypeNodes(file, parts))
    case Union(branches) => EveryOf(TypeNodes(file, branches))
    case ArrayType(element) =>
      if steps[0].Element? then Through(TypeNode(file, element), steps[1..]) else OutOfSight
    case Operator(operand) => Through(TypeNode(file, operand), steps)
    case IndexedAccess(owner, index) =>
      if index.Some? then Deeper(TypeNode(file, owner), [Member(index.value)] + steps) else OutOfSight
    case Reference(name, qualified, arguments) =>
      if name in PASSTHROUGH_WRAPPERS && arguments != [] then Through(TypeNode(file, arguments[0]), steps)
      else if (name == "Array" || name == "ReadonlyArray") && arguments != [] then
        if steps[0].Element? then Through(TypeNode(file, arguments[0]), steps[1..]) else OutOfSight
      else if qualified then OutOfSight
      else Through(Resolve(w, file, name), steps)
    case OtherType => OutOfSight
  }

  function ViewNode(w: World, node: Node, steps: seq<Step>): View
    requires steps != []
  {
    match node
    case DeclNode(id) => if id in w.decls then ViewDecl(w, w.decls[id].file, w.decls[id].decl, steps) else OutOfSight
    case TypeNode(file, t) => ViewType(w, file, t, steps)
    case Beyond(_, _) => OutOfSight
  }

  // ----- the walk -----

  function Combine(results: seq<Verdict>): Verdict {
    if Found in results then Found else if Unknown in results then Unknown else Missing
  }

  /** Presence on a union is definite only when every branch agrees. */
  function Agree(results: seq<Verdict>): Verdict {
    if forall r :: r in results ==> r == Found then Found
    else if forall r :: r in results ==> r == Missing then Missing
    else Unknown
  }

  datatype Outcome = Done(verdict: Verdict, seen: set<Key>) | Exhausted
  datatype Outcomes = AllDone(verdicts: seq<Verdict>, seen: set<Key>) | SomeExhausted

  function Size(t: Type): nat
    decreases t, 0
  {
    1 + match t
        case Literal(ms) => MembersSize(ms)
        case Parenthesized(inner) => Size(inner)
        case Operator(operand) => Size(operand)
        case Intersection(parts) => SizeAll(parts)
        case Union(branches) => SizeAll(branches)
        case ArrayType(element) => Size(element)
        case IndexedAccess(owner, _) => Size(owner)
        case Reference(_, _, arguments) => SizeAll(arguments)
        case OtherType => 0
  }

  function SizeAll(ts: seq<Type>): nat
    decreases ts, 1
  {
    if ts == [] then 0 else 2 + Size(ts[0]) + SizeAll(ts[1..])
  }

  function MembersSize(ms: seq<TypeElement>): nat
    decreases ms, 1
  {
    if ms == [] then 0
    else (if ms[0].Property? && ms[0].declared.Some? then Size(ms[0].declared.value) + 1 else 1) + MembersSize(ms[1..])
  }

  function Rank(node: Node): nat {
    if node.TypeNode? then 1 + Size(node.t) else 0
  }

  function RankAll(nodes: seq<Node>): nat {
    if nodes == [] then 0 else 1 + Rank(nodes[0]) + RankAll(nodes[1..])
  }

  /** Guard keys not yet used, for paths of at most `limit` steps. */
  ghost function Unseen(w: World, seen: set<Key>, limit: nat): set<Key> {
    set id, k | id in w.decls && 0 <= k <= limit && Key(id, k) !in seen :: Key(id, k)
  }

  lemma {:induction false} MemberSmaller(ms: seq<TypeElement>, name: Name)
    ensures var m := FindMember(ms, name);
            m.Some? && m.value.Some? ==> Size(m.value.value) < MembersSize(ms)
  {
    if ms == [] {
    } else {
      MemberSmaller(ms[1..], name);
    }
  }

  lemma {:induction false} NodesRank(file: File, ts: seq<Type>)
    ensures RankAll(TypeNodes(file, ts)) <= SizeAll(ts)
  {
    if ts == [] {
    } else {
      NodesRank(file, ts[1..]);
      var ns := TypeNodes(file, ts);
      assert ns == [TypeNode(file, ts[0])] + TypeNodes(file, ts[1..]);
      assert ns[1..] == TypeNodes(file, ts[1..]);
    }
  }

  /** Apart from indexed access and declarations, every step goes to a smaller piece of syntax. */
  lemma ViewDescends(w: World, node: Node, steps: seq<Step>)
    requires steps != [] && node.TypeNode?
    ensures match ViewNode(w, node, steps)
            case Through(n, s) => |s| <= |steps| && Rank(n) < Rank(node)
            case Deeper(n, s) => true
            case AnyOf(ns) => RankAll(ns) < Rank(node)
            case EveryOf(ns) => RankAll(ns) < Rank(node)
            case _ => true
  {
    match node.t
    case Literal(ms) => if steps[0].Member? { MemberSmaller(ms, steps[0].name); }
    case Intersection(parts) => NodesRank(node.file, parts);
    case Union(branches) => NodesRank(node.file, branches);
    case Reference(_, _, arguments) =>
      if arguments != [] {
        assert SizeAll(arguments) == 2 + Size(arguments[0]) + SizeAll(arguments[1..]);
      }
    case _ =>
  }

  lemma DeclShortens(w: World, node: Node, steps: seq<Step>)
    requires steps != [] && !node.TypeNode?
    ensures ViewNode(w, node, steps).Through? ==> |ViewNode(w, node, steps).steps| <= |steps|
    ensures !ViewNode(w, node, steps).Deeper?
  {
  }

  lemma Spends(w: World, seen: set<Key>, id: Id, left: nat)
    requires id in w.decls && Key(id, left) !in seen
    ensures Unseen(w, seen + {Key(id, left)}, left) < Unseen(w, seen, left)
  {
    assert Key(id, left) in Unseen(w, seen, left);
  }

  lemma UnseenShrinks(w: World, seen: set<Key>, more: set<Key>, limit: nat, less: nat)
    requires seen <= more && less <= limit
    ensures Unseen(w, more, less) <= Unseen(w, seen, limit)
  {
  }

  /** Whether the recursion guard has met this declaration with this many steps left. */
  predicate Guarded(w: World, node: Node) {
    node.DeclNode? && node.id in w.decls && !w.decls[node.id].decl.Enum?
  }

  /** `lookupPath`; `fuel` bounds only the hops through indexed access types. */
  function Lookup(w: World, node: Node, steps: seq<Step>, seen: set<Key>, fuel: nat): (r: Outcome)
    ensures r.Done? ==> seen <= r.seen
    decreases fuel, Unseen(w, seen, |steps|), Rank(node), 0
  {
    if steps == [] then Done(Found, seen)
    else if Guarded(w, node) && Key(node.id, |steps|) in seen then Done(Unknown, seen)
    else
      var guarded := if Guarded(w, node) then seen + {Key(node.id, |steps|)} else seen;
      assert Measured(w, node, steps, seen, guarded) by { Measure(w, node, steps, seen); }
      match ViewNode(w, node, steps)
      case Here => Done(Found, guarded)
      case OutOfSight => Done(Unknown, guarded)
      case Through(n, s) => Lookup(w, n, s, guarded, fuel)
      case Deeper(n, s) => if fuel == 0 then Exhausted else Lookup(w, n, s, guarded, fuel - 1)
      case AnyOf(ns) =>
        (match LookupEach(w, ns, steps, guarded, fuel)
         case AllDone(vs, after) => Done(Combine(vs), after)
         case SomeExhausted => Exhausted)
      case EveryOf(ns) =>
        (match LookupEach(w, ns, steps, guarded, fuel)
         case AllDone(vs, after) => Done(Agree(vs), after)
         case SomeExhausted => Exhausted)
  }

  /** The branches in order, each starting from the guard set the previous one left. */
  function LookupEach(w: World, nodes: seq<Node>, steps: seq<Step>, seen: set<Key>, fuel: nat): (r: Outcomes)
    ensures r.AllDone? ==> seen <= r.seen && |r.verdicts| == |nodes|
    decreases fuel, Unseen(w, seen, |steps|), RankAll(nodes), 1
  {
    if nodes == [] then AllDone([], seen)
    else
      match Lookup(w, nodes[0], steps, seen, fuel)
      case Exhausted => SomeExhausted
      case Done(v, after) =>
        assert Unseen(w, after, |steps|) <= Unseen(w, seen, |steps|) by {
          UnseenShrinks(w, seen, after, |steps|, |steps|);
        }
        match LookupEach(w, nodes[1..], steps, after, fuel)
        case AllDone(vs, last) => AllDone([v] + vs, last)
        case SomeExhausted => SomeExhausted
  }

  /** The termination argument of one step. */
  ghost predicate Measured(w: World, node: Node, steps: seq<Step>, seen: set<Key>, guarded: set<Key>)
    requires steps != []
  {
    && seen <= guarded
    && match ViewNode(w, node, steps)
       case Through(n, s) => Unseen(w, guarded, |s|) < Unseen(w, seen, |steps|)
                             || (Unseen(w, guarded, |s|) == Unseen(w, seen, |steps|) && Rank(n) < Rank(node))
       case AnyOf(ns) => Unseen(w, guarded, |steps|) < Unseen(w, seen, |steps|)
                         || (Unseen(w, guarded, |steps|) == Unseen(w, seen, |steps|) && RankAll(ns) < Rank(node))
       case EveryOf(ns) => Unseen(w, guarded, |steps|) < Unseen(w, seen, |steps|)
                           || (Unseen(w, guarded, |steps|) == Unseen(w, seen, |steps|) && RankAll(ns) < Rank(node))
       case _ => true
  }

  lemma Measure(w: World, node: Node, steps: seq<Step>, seen: set<Key>)
    requires steps != [] && !(Guarded(w, node) && Key(node.id, |steps|) in seen)
    ensures Measured(w, node, steps, seen, if Guarded(w, node) then seen + {Key(node.id, |steps|)} else seen)
  {
    hide Unseen;
    if Guarded(w, node) {
      Spends(w, seen, node.id, |steps|);
      DeclShortens(w, node, steps);
      if ViewNode(w, node, steps).Through? {
        var guarded := seen + {Key(node.id, |steps|)};
        UnseenShrinks(w, guarded, guarded, |steps|, |ViewNode(w, node, steps).steps|);
      }
    } else if node.TypeNode? {
      ViewDescends(w, node, steps);
      if ViewNode(w, node, steps).Through? {
        UnseenShrinks(w, seen, seen, |steps|, |ViewNode(w, node, steps).steps|);
      }
    }
  }

  // ----- what a path means -----

  /** One way the unseen could turn out: an answer for everything out of sight, and a branch for every union. */
  datatype Completion = Completion(answer: (Node, seq<Step>) -> bool, branch: (Node, seq<Step>) -> nat)

  /** `ms[i]` is the first property called `name`. */
  ghost predicate FirstNamed(ms: seq<TypeElement>, name: Name, i: int) {
    && 0 <= i < |ms| && ms[i].Property? && ms[i].name == name
    && forall j :: 0 <= j < i ==> !(ms[j].Property? && ms[j].name == name)
  }

  ghost predicate HasName(ms: seq<TypeElement>, name: Name) {
    exists i :: FirstNamed(ms, name, i)
  }

  /** The type at `node` has a member at path `steps`, by a derivation of at most `n` steps. */
  ghost predicate Provides(w: World, c: Completion, node: Node, steps: seq<Step>, n: nat)
    decreases n, 0
  {
    steps == [] || (n > 0 &&
      match node
      case Beyond(_, _) => c.answer(node, steps)
      case DeclNode(id) =>
        if id !in w.decls then c.answer(node, steps) else
        (match w.decls[id].decl
         case Alias(t) => Provides(w, c, TypeNode(w.decls[id].file, t), steps, n - 1)
         case Enum => c.answer(node, steps)
         case Interface(ms, bases) =>
           if steps[0].Element? then c.answer(node, steps)
           else if HasName(ms, steps[0].name) then MemberProvides(w, c, w.decls[id].file, node, ms, steps, n)
           else (exists e :: e in ms && PassedProvides(w, c, w.decls[id].file, e, steps, n))
                || exists b :: b in bases && BaseProvides(w, c, w.decls[id].file, b, steps, n))
      case TypeNode(file, t) =>
        (match t
         case Literal(ms) =>
           if steps[0].Element? then c.answer(node, steps)
           else if HasName(ms, steps[0].name) then MemberProvides(w, c, file, node, ms, steps, n)
           else exists e :: e in ms && PassedProvides(w, c, file, e, steps, n)
         case Parenthesized(inner) => Provides(w, c, TypeNode(file, inner), steps, n - 1)
         case Operator(operand) => Provides(w, c, TypeNode(file, operand), steps, n - 1)
         case Intersection(parts) => exists p :: p in parts && Provides(w, c, TypeNode(file, p), steps, n - 1)
         case Union(branches) =>
           branches == []
           || Provides(w, c, TypeNode(file, branches[c.branch(node, steps) % |branches|]), steps, n - 1)
         case ArrayType(element) =>
           if steps[0].Element? then Provides(w, c, TypeNode(file, element), steps[1..], n - 1)
           else c.answer(node, steps)
         case IndexedAccess(owner, index) =>
           if index.Some? then Provides(w, c, TypeNode(file, owner), [Member(index.value)] + steps, n - 1)
           else c.answer(node, steps)
         case Reference(name, qualified, arguments) =>
           if arguments != [] && name in {"Partial", "Required", "Readonly", "NonNullable"} then
             Provides(w, c, TypeNode(file, arguments[0]), steps, n - 1)
           else if arguments != [] && name in {"Array", "ReadonlyArray"} then
             (if steps[0].Element? then Provides(w, c, TypeNode(file, arguments[0]), steps[1..], n - 1)
              else c.answer(node, steps))
           else if qualified then c.answer(node, steps)
           else Provides(w, c, Resolve(w, file, name), steps, n - 1)
         case OtherType => c.answer(node, steps)))
  }

  /** The named member ends the path, continues it through its declared type, or hides what follows. */
  ghost predicate MemberProvides(w: World, c: Completion, file: File, node: Node, ms: seq<TypeElement>,
                                 steps: seq<Step>, n: nat)
    requires steps != [] && steps[0].Member? && HasName(ms, steps[0].name) && n > 0
    decreases n - 1, 1
  {
    var i :| FirstNamed(ms, steps[0].name, i);
    || |steps| == 1
    || (ms[i].declared.None? && c.answer(node, steps))
    || (ms[i].declared.Some? && Provides(w, c, TypeNode(file, ms[i].declared.value), steps[1..], n - 1))
  }

  ghost predicate BaseProvides(w: World, c: Completion, file: File, b: Base, steps: seq<Step>, n: nat)
    requires n > 0
    decreases n - 1, 1
  {
    Provides(w, c, if b.NamedBase? then Resolve(w, file, b.name) else Beyond(file, ""), steps, n - 1)
  }

  /** An element the walk passes over declares the name asked for. */
  predicate Answers(e: TypeElement, name: Name) {
    match e
    case Property(_, _) => false
    case Method(n) => n == name
    case Accessor(n, _) => n == name
    case Quoted(n, _) => n == name
    case IndexSignature(_) => true
    case CallSignature => false
  }

  /** Where a path goes on behind such an element; the type of a method, or one left out, is out of sight. */
  function Behind(file: File, e: TypeElement): Node {
    match e
    case Accessor(_, Some(t)) => TypeNode(file, t)
    case Quoted(_, Some(t)) => TypeNode(file, t)
    case IndexSignature(t) => TypeNode(file, t)
    case _ => TypeNode(file, OtherType)
  }

  /** A passed-over element declares the name and provides the rest of the path. */
  ghost predicate PassedProvides(w: World, c: Completion, file: File, e: TypeElement, steps: seq<Step>, n: nat)
    requires steps != [] && steps[0].Member? && n > 0
    decreases n - 1, 1
  {
    Answers(e, steps[0].name) && Provides(w, c, Behind(file, e), steps[1..], n - 1)
  }

  function PassedNodes(file: File, ms: seq<TypeElement>, name: Name): seq<Node> {
    if ms == [] then []
    else (if Answers(ms[0], name) then [Behind(file, ms[0])] else []) + PassedNodes(file, ms[1..], name)
  }

  /** What lies behind the elements the walk passes over at a node although they declare the name asked for. */
  function Passed(w: World, node: Node, steps: seq<Step>): seq<Node>
    requires steps != []
  {
    if steps[0].Element? then []
    else
      match node
      case Beyond(_, _) => []
      case DeclNode(id) =>
        if id in w.decls && w.decls[id].decl.Interface? && FindMember(w.decls[id].decl.members, steps[0].name).None?
        then PassedNodes(w.decls[id].file, w.decls[id].decl.members, steps[0].name) else []
      case TypeNode(file, t) =>
        if t.Literal? && FindMember(t.members, steps[0].name).None?
        then PassedNodes(file, t.members, steps[0].name) else []
  }

  lemma {:induction false} PassedHasNode(file: File, ms: seq<TypeElement>, name: Name, e: TypeElement)
    requires e in ms && Answers(e, name)
    ensures Behind(file, e) in PassedNodes(file, ms, name)
  {
    if e != ms[0] {
      PassedHasNode(file, ms[1..], name, e);
    }
  }

  lemma {:induction false} NodeHasPassed(file: File, ms: seq<TypeElement>, name: Name, k: Node) returns (e: TypeElement)
    requires k in PassedNodes(file, ms, name)
    ensures e in ms && Answers(e, name) && Behind(file, e) == k
  {
    if Answers(ms[0], name) && Behind(file, ms[0]) == k {
      e := ms[0];
    } else {
      e := NodeHasPassed(file, ms[1..], name, k);
    }
  }

  lemma PassedAgree(w: World, c: Completion, file: File, ms: seq<TypeElement>, steps: seq<Step>, n: nat)
    requires steps != [] && steps[0].Member? && n > 0
    ensures (exists e :: e in ms && PassedProvides(w, c, file, e, steps, n))
            <==> exists k :: k in PassedNodes(file, ms, steps[0].name) && Provides(w, c, k, steps[1..], n - 1)
  {
    hide Provides, Answers, Behind, PassedNodes;
    if e :| e in ms && PassedProvides(w, c, file, e, steps, n) {
      PassedHasNode(file, ms, steps[0].name, e);
    }
    if k :| k in PassedNodes(file, ms, steps[0].name) && Provides(w, c, k, steps[1..], n - 1) {
      var e := NodeHasPassed(file, ms, steps[0].name, k);
    }
  }

  lemma {:induction false} FindFirst(ms: seq<TypeElement>, name: Name)
    ensures FindMember(ms, name).Some? <==> HasName(ms, name)
    ensures forall i :: FirstNamed(ms, name, i) ==> FindMember(ms, name) == Some(ms[i].declared)
  {
    if ms == [] {
    } else {
      FindFirst(ms[1..], name);
      if ms[0].Property? && ms[0].name == name {
        assert FirstNamed(ms, name, 0);
        forall i | FirstNamed(ms, name, i) ensures i == 0 {
        }
      } else {
        forall i | FirstNamed(ms, name, i) ensures i > 0 && FirstNamed(ms[1..], name, i - 1) {
          FirstTail(ms, name, i - 1);
        }
        if j :| FirstNamed(ms[1..], name, j) {
          FirstTail(ms, name, j);
          assert FirstNamed(ms, name, j + 1);
        }
      }
    }
  }

  lemma FirstTail(ms: seq<TypeElement>, name: Name, i: int)
    requires i >= 0 && ms != [] && !(ms[0].Property? && ms[0].name == name)
    ensures FirstNamed(ms, name, i + 1) <==> FirstNamed(ms[1..], name, i)
  {
    var t := ms[1..];
    assert forall j :: 0 <= j < |t| ==> t[j] == ms[j + 1];
    if FirstNamed(t, name, i) {
      forall j | 0 <= j < i + 1 ensures !(ms[j].Property? && ms[j].name == name) {
        if j > 0 {
          assert t[j - 1] == ms[j];
        }
      }
    }
  }

  // ----- one step of meaning -----

  /** What a view says about the path, one step down. */
  ghost predicate ViewProvides(w: World, c: Completion, node: Node, steps: seq<Step>, n: nat)
    requires steps != [] && n > 0
  {
    match ViewNode(w, node, steps)
    case Here => true
    case OutOfSight => c.answer(node, steps)
    case Through(k, s) => Provides(w, c, k, s, n - 1)
    case Deeper(k, s) => Provides(w, c, k, s, n - 1)
    case AnyOf(ks) => (exists k :: k in Passed(w, node, steps) && Provides(w, c, k, steps[1..], n - 1))
                      || exists k :: k in ks && Provides(w, c, k, steps, n - 1)
    case EveryOf(ks) => ks == [] || Provides(w, c, ks[c.branch(node, steps) % |ks|], steps, n - 1)
  }

  lemma {:induction false} TypeNodesAt(file: File, ts: seq<Type>)
    ensures |TypeNodes(file, ts)| == |ts|
    ensures forall i :: 0 <= i < |ts| ==> TypeNodes(file, ts)[i] == TypeNode(file, ts[i])
  {
    if ts != [] {
      TypeNodesAt(file, ts[1..]);
    }
  }

  lemma {:induction false} BaseNodesAt(w: World, file: File, bs: seq<Base>)
    ensures |BaseNodes(w, file, bs)| == |bs|
    ensures forall i :: 0 <= i < |bs| ==>
              BaseNodes(w, file, bs)[i] == if bs[i].NamedBase? then Resolve(w, file, bs[i].name) else Beyond(file, "")
  {
    if bs != [] {
      BaseNodesAt(w, file, bs[1..]);
    }
  }

  lemma MembersAgree(w: World, c: Completion, file: File, node: Node, ms: seq<TypeElement>, steps: seq<Step>, n: nat,
                     otherwise: View)
    requires steps != [] && steps[0].Member? && n > 0
    ensures HasName(ms, steps[0].name) <==> FindMember(ms, steps[0].name).Some?
    ensures HasName(ms, steps[0].name) ==>
              (MemberProvides(w, c, file, node, ms, steps, n) <==>
               match IntoMembers(file, ms, steps, otherwise)
               case Here => true
               case OutOfSight => c.answer(node, steps)
               case Through(k, s) => Provides(w, c, k, s, n - 1)
               case _ => false)
  {
    hide Provides;
    FindFirst(ms, steps[0].name);
  }

  lemma BasesAgree(w: World, c: Completion, file: File, bs: seq<Base>, steps: seq<Step>, n: nat)
    requires n > 0
    ensures (exists b :: b in bs && BaseProvides(w, c, file, b, steps, n))
            <==> exists k :: k in BaseNodes(w, file, bs) && Provides(w, c, k, steps, n - 1)
  {
    hide Provides;
    BaseNodesAt(w, file, bs);
    var ks := BaseNodes(w, file, bs);
    if b :| b in bs && BaseProvides(w, c, file, b, steps, n) {
      var i :| 0 <= i < |bs| && bs[i] == b;
      assert ks[i] in ks;
    }
    if k :| k in ks && Provides(w, c, k, steps, n - 1) {
      var i :| 0 <= i < |ks| && ks[i] == k;
      assert bs[i] in bs && BaseProvides(w, c, file, bs[i], steps, n);
    }
  }

  lemma PartsAgree(w: World, c: Completion, file: File, ts: seq<Type>, steps: seq<Step>, n: nat)
    ensures (exists p :: p in ts && Provides(w, c, TypeNode(file, p), steps, n))
            <==> exists k :: k in TypeNodes(file, ts) && Provides(w, c, k, steps, n)
  {
    hide Provides;
    TypeNodesAt(file, ts);
    var ks := TypeNodes(file, ts);
    if p :| p in ts && Provides(w, c, TypeNode(file, p), steps, n) {
      var i :| 0 <= i < |ts| && ts[i] == p;
      assert ks[i] in ks;
    }
    if k :| k in ks && Provides(w, c, k, steps, n) {
      var i :| 0 <= i < |ks| && ks[i] == k;
      assert ts[i] in ts;
    }
  }

  lemma DeclMeaning(w: World, c: Completion, node: Node, steps: seq<Step>, n: nat)
    requires steps != [] && n > 0 && node.DeclNode?
    ensures Provides(w, c, node, steps, n) <==> ViewProvides(w, c, node, steps, n)
  {
    if node.id in w.decls {
      var d := w.decls[node.id];
      if d.decl.Interface? && steps[0].Member? {
        MembersAgree(w, c, d.file, node, d.decl.members, steps, n, AnyOf(BaseNodes(w, d.file, d.decl.bases)));
        PassedAgree(w, c, d.file, d.decl.members, steps, n);
        assert !HasName(d.decl.members, steps[0].name) ==>
            Passed(w, node, steps) == PassedNodes(d.file, d.decl.members, steps[0].name);
        BasesAgree(w, c, d.file, d.decl.bases, steps, n);
      }
    }
  }

  lemma TypeMeaning(w: World, c: Completion, node: Node, steps: seq<Step>, n: nat)
    requires steps != [] && n > 0 && node.TypeNode?
    ensures Provides(w, c, node, steps, n) <==> ViewProvides(w, c, node, steps, n)
  {
    match node.t
    case Literal(ms) =>
      if steps[0].Member? {
        MembersAgree(w, c, node.file, node, ms, steps, n, AnyOf([]));
        PassedAgree(w, c, node.file, ms, steps, n);
        assert !HasName(ms, steps[0].name) ==> Passed(w, node, steps) == PassedNodes(node.file, ms, steps[0].name);
      }
    case Intersection(parts) => PartsAgree(w, c, node.file, parts, steps, n - 1);
    case Union(branches) => TypeNodesAt(node.file, branches);
    case _ =>
  }

  /** The walk's view of a node agrees with what the path means there. */
  lemma StepMeaning(w: World, c: Completion, node: Node, steps: seq<Step>, n: nat)
    requires steps != [] && n > 0
    ensures Provides(w, c, node, steps, n) <==> ViewProvides(w, c, node, steps, n)
  {
    match node
    case DeclNode(_) => DeclMeaning(w, c, node, steps, n);
    case TypeNode(_, _) => TypeMeaning(w, c, node, steps, n);
    case Beyond(_, _) =>
  }

  lemma {:induction false} ProvidesMono(w: World, c: Completion, node: Node, steps: seq<Step>, n: nat, m: nat)
    requires Provides(w, c, node, steps, n) && n <= m
    ensures Provides(w, c, node, steps, m)
    decreases n
  {
    hide Provides;
    if steps != [] {
      StepPositive(w, c, node, steps, n);
      StepMeaning(w, c, node, steps, n);
      StepMeaning(w, c, node, steps, m);
      match ViewNode(w, node, steps)
      case Here =>
      case OutOfSight =>
      case Through(k, s) => ProvidesMono(w, c, k, s, n - 1, m - 1);
      case Deeper(k, s) => ProvidesMono(w, c, k, s, n - 1, m - 1);
      case AnyOf(ks) =>
        if k :| k in Passed(w, node, steps) && Provides(w, c, k, steps[1..], n - 1) {
          ProvidesMono(w, c, k, steps[1..], n - 1, m - 1);
        } else {
          var k :| k in ks && Provides(w, c, k, steps, n - 1);
          ProvidesMono(w, c, k, steps, n - 1, m - 1);
        }
      case EveryOf(ks) => if ks != [] { ProvidesMono(w, c, ks[c.branch(node, steps) % |ks|], steps, n - 1, m - 1); }
    } else {
      EmptyPath(w, c, node, m);
    }
  }

  lemma EmptyPath(w: World, c: Completion, node: Node, n: nat)
    ensures Provides(w, c, node, [], n)
  {
  }

  lemma StepPositive(w: World, c: Completion, node: Node, steps: seq<Step>, n: nat)
    requires steps != [] && Provides(w, c, node, steps, n)
    ensures n > 0
  {
  }

  // ----- the verdicts -----

  /** Some way of completing the unseen provides the path. */
  ghost predicate Possible(w: World, node: Node, steps: seq<Step>, n: nat) {
    exists c :: Provides(w, c, node, steps, n)
  }

  /** The walk passes over an element that declares the name asked for and can provide the rest of the path. */
  ghost predicate Overlooks(w: World, node: Node, steps: seq<Step>)
    requires steps != []
  {
    exists k, n: nat :: k in Passed(w, node, steps) && Possible(w, k, steps[1..], n)
  }

  /** Along some branch the walk overlooks such an element. */
  ghost predicate Blind(w: World, node: Node, steps: seq<Step>, n: nat)
    decreases n
  {
    steps != [] && n > 0 &&
    match ViewNode(w, node, steps)
    case Through(k, s) => Blind(w, k, s, n - 1)
    case Deeper(k, s) => Blind(w, k, s, n - 1)
    case AnyOf(ks) => Overlooks(w, node, steps) || exists k :: k in ks && Blind(w, k, steps, n - 1)
    case EveryOf(ks) => exists k :: k in ks && Blind(w, k, steps, n - 1)
    case _ => false
  }

  ghost predicate BlindSomewhere(w: World, node: Node, steps: seq<Step>) {
    exists n: nat :: Blind(w, node, steps, n)
  }

  /** One branch's verdict is a verdict of its own, from the guard set of its turn. */
  lemma {:induction false} EachVerdict(w: World, nodes: seq<Node>, steps: seq<Step>, seen: set<Key>, fuel: nat, i: nat)
    returns (s: set<Key>)
    requires LookupEach(w, nodes, steps, seen, fuel).AllDone? && i < |nodes|
    ensures seen <= s
    ensures var r := Lookup(w, nodes[i], steps, s, fuel);
            r.Done? && r.verdict == LookupEach(w, nodes, steps, seen, fuel).verdicts[i]
    decreases i
  {
    if i == 0 {
      s := seen;
    } else {
      s := EachVerdict(w, nodes[1..], steps, Lookup(w, nodes[0], steps, seen, fuel).seen, fuel, i - 1);
    }
  }

  lemma {:induction false} RankOne(nodes: seq<Node>, i: nat)
    requires i < |nodes|
    ensures Rank(nodes[i]) < RankAll(nodes)
  {
    if i > 0 {
      RankOne(nodes[1..], i - 1);
    }
  }

  /** The guard set after meeting `node`, as the walk's first lines leave it. */
  ghost function Entered(w: World, node: Node, steps: seq<Step>, seen: set<Key>): set<Key> {
    if Guarded(w, node) then seen + {Key(node.id, |steps|)} else seen
  }

  /** The recursive call a definite verdict rests on. */
  lemma Descends(w: World, nodes: seq<Node>, node: Node, steps: seq<Step>, seen: set<Key>, more: set<Key>, i: nat)
    requires steps != [] && Measured(w, node, steps, seen, Entered(w, node, steps, seen))
    requires ViewNode(w, node, steps) == AnyOf(nodes) || ViewNode(w, node, steps) == EveryOf(nodes)
    requires i < |nodes| && Entered(w, node, steps, seen) <= more
    ensures Unseen(w, more, |steps|) < Unseen(w, seen, |steps|)
            || (Unseen(w, more, |steps|) == Unseen(w, seen, |steps|) && Rank(nodes[i]) < Rank(node))
  {
    hide Unseen, ViewNode, Guarded;
    RankOne(nodes, i);
    UnseenShrinks(w, Entered(w, node, steps, seen), more, |steps|, |steps|);
  }

  lemma {:induction false} CommonDepth(w: World, nodes: seq<Node>, steps: seq<Step>, ns: seq<nat>) returns (n: nat)
    requires |ns| == |nodes|
    requires forall i, c :: 0 <= i < |nodes| ==> Provides(w, c, nodes[i], steps, ns[i])
    ensures forall i, c :: 0 <= i < |nodes| ==> Provides(w, c, nodes[i], steps, n)
  {
    hide Provides;
    if nodes == [] {
      n := 0;
    } else {
      var m := CommonDepth(w, nodes[1..], steps, ns[1..]);
      n := if m < ns[0] then ns[0] else m;
      forall i, c | 0 <= i < |nodes| ensures Provides(w, c, nodes[i], steps, n) {
        if i == 0 {
          ProvidesMono(w, c, nodes[0], steps, ns[0], n);
        } else {
          assert Provides(w, c, nodes[1..][i - 1], steps, m);
          ProvidesMono(w, c, nodes[i], steps, m, n);
        }
      }
    }
  }

  /** `found` holds however the unseen turns out and whichever branch each union takes. */
  lemma {:induction false} FoundHolds(w: World, node: Node, steps: seq<Step>, seen: set<Key>, fuel: nat)
    returns (n: nat)
    requires Lookup(w, node, steps, seen, fuel).Done? && Lookup(w, node, steps, seen, fuel).verdict == Found
    ensures forall c :: Provides(w, c, node, steps, n)
    decreases fuel, Unseen(w, seen, |steps|), Rank(node), 1
  {
    hide Provides, Unseen;
    if steps == [] {
      n := 0;
      forall c ensures Provides(w, c, node, steps, n) { EmptyPath(w, c, node, n); }
      return;
    }
    var guarded := Entered(w, node, steps, seen);
    Measure(w, node, steps, seen);
    var m: nat := 0;
    match ViewNode(w, node, steps) {
    case Here =>
    case OutOfSight =>
    case Through(k, s) => m := FoundHolds(w, k, s, guarded, fuel);
    case Deeper(k, s) => m := FoundHolds(w, k, s, guarded, fuel - 1);
    case AnyOf(ks) =>
      var vs := LookupEach(w, ks, steps, guarded, fuel).verdicts;
      var i :| 0 <= i < |vs| && vs[i] == Found;
      var more := EachVerdict(w, ks, steps, guarded, fuel, i);
      Descends(w, ks, node, steps, seen, more, i);
      m := FoundHolds(w, ks[i], steps, more, fuel);
      assert ks[i] in ks;
    case EveryOf(ks) =>
      m := FoundEvery(w, ks, node, steps, seen, fuel);
    }
    n := m + 1;
    forall c ensures Provides(w, c, node, steps, n) {
      StepMeaning(w, c, node, steps, n);
    }
  }

  lemma {:induction false} FoundEvery(w: World, ks: seq<Node>, node: Node, steps: seq<Step>, seen: set<Key>, fuel: nat)
    returns (m: nat)
    requires steps != [] && Measured(w, node, steps, seen, Entered(w, node, steps, seen))
    requires ViewNode(w, node, steps) == EveryOf(ks)
    requires LookupEach(w, ks, steps, Entered(w, node, steps, seen), fuel).AllDone?
    requires forall v :: v in LookupEach(w, ks, steps, Entered(w, node, steps, seen), fuel).verdicts ==> v == Found
    ensures forall i, c :: 0 <= i < |ks| ==> Provides(w, c, ks[i], steps, m)
    decreases fuel, Unseen(w, seen, |steps|), Rank(node), 0
  {
    hide Provides, Unseen, Lookup, LookupEach, ViewNode;
    var ns: seq<nat> := [];
    var guarded := Entered(w, node, steps, seen);
    var i := 0;
    while i < |ks|
      invariant i == |ns| <= |ks|
      invariant forall j, c :: 0 <= j < i ==> Provides(w, c, ks[j], steps, ns[j])
    {
      var more := EachVerdict(w, ks, steps, guarded, fuel, i);
      assert LookupEach(w, ks, steps, guarded, fuel).verdicts[i] in LookupEach(w, ks, steps, guarded, fuel).verdicts;
      Descends(w, ks, node, steps, seen, more, i);
      var n := FoundHolds(w, ks[i], steps, more, fuel);
      ns := ns + [n];
      i := i + 1;
    }
    m := CommonDepth(w, ks, steps, ns);
  }

  lemma AllMissing(vs: seq<Verdict>, i: nat)
    requires (Combine(vs) == Missing || Agree(vs) == Missing) && i < |vs|
    ensures vs[i] == Missing
  {
    assert vs[i] in vs;
  }

  lemma AgreeOnNothing(vs: seq<Verdict>)
    requires Agree(vs) == Missing
    ensures vs != []
  {
  }

  /** `missing` is contradicted only where the walk was blind. */
  lemma {:induction false} MissingHolds(w: World, node: Node, steps: seq<Step>, seen: set<Key>, fuel: nat,
                                        c: Completion, n: nat)
    requires Lookup(w, node, steps, seen, fuel).Done? && Lookup(w, node, steps, seen, fuel).verdict == Missing
    requires Provides(w, c, node, steps, n)
    ensures Blind(w, node, steps, n)
    decreases n, 0
  {
    hide Provides, Combine, Agree, Passed;
    StepPositive(w, c, node, steps, n);
    StepMeaning(w, c, node, steps, n);
    var guarded := Entered(w, node, steps, seen);
    match ViewNode(w, node, steps)
    case Here =>
    case OutOfSight =>
    case Through(k, s) => MissingHolds(w, k, s, guarded, fuel, c, n - 1);
    case Deeper(k, s) => MissingHolds(w, k, s, guarded, fuel - 1, c, n - 1);
    case AnyOf(ks) =>
      if k :| k in Passed(w, node, steps) && Provides(w, c, k, steps[1..], n - 1) {
        assert Possible(w, k, steps[1..], n - 1);
      } else {
        var k :| k in ks && Provides(w, c, k, steps, n - 1);
        var i :| 0 <= i < |ks| && ks[i] == k;
        MissingBranch(w, ks, steps, guarded, fuel, c, n - 1, i);
      }
    case EveryOf(ks) =>
      AgreeOnNothing(LookupEach(w, ks, steps, guarded, fuel).verdicts);
      var i := c.branch(node, steps) % |ks|;
      MissingBranch(w, ks, steps, guarded, fuel, c, n - 1, i);
  }

  lemma {:induction false} MissingBranch(w: World, ks: seq<Node>, steps: seq<Step>, seen: set<Key>, fuel: nat,
                                         c: Completion, n: nat, i: nat)
    requires LookupEach(w, ks, steps, seen, fuel).AllDone? && i < |ks|
    requires var vs := LookupEach(w, ks, steps, seen, fuel).verdicts; Combine(vs) == Missing || Agree(vs) == Missing
    requires Provides(w, c, ks[i], steps, n)
    ensures ks[i] in ks && Blind(w, ks[i], steps, n)
    decreases n, 1
  {
    hide Provides, Combine, Agree, LookupEach, Lookup, Blind;
    AllMissing(LookupEach(w, ks, steps, seen, fuel).verdicts, i);
    var more := EachVerdict(w, ks, steps, seen, fuel, i);
    MissingHolds(w, ks[i], steps, more, fuel, c, n);
  }

  /** Branch `i` can provide the path at depth `n`, and no branch can at a lesser one. */
  ghost predicate Nearest(w: World, ks: seq<Node>, steps: seq<Step>, i: nat, n: nat) {
    && i < |ks| && Possible(w, ks[i], steps, n)
    && forall j, m: nat :: 0 <= j < |ks| && Possible(w, ks[j], steps, m) ==> n <= m
  }

  lemma {:induction false} NearestExists(w: World, ks: seq<Node>, steps: seq<Step>, i: nat, n: nat)
    returns (j: nat, m: nat)
    requires i < |ks| && Possible(w, ks[i], steps, n)
    ensures Nearest(w, ks, steps, j, m) && m <= n
    decreases n
  {
    hide Possible;
    if Nearest(w, ks, steps, i, n) {
      j, m := i, n;
    } else {
      var k: nat, l: nat :| k < |ks| && Possible(w, ks[k], steps, l) && l < n;
      j, m := NearestExists(w, ks, steps, k, l);
    }
  }

  /** The branch of a union that provides the path soonest, if any can. */
  ghost function BestBranch(w: World, node: Node, steps: seq<Step>): nat {
    if steps != [] && ViewNode(w, node, steps).EveryOf?
       && exists i: nat, n: nat :: Nearest(w, ViewNode(w, node, steps).nodes, steps, i, n)
    then
      var i: nat, n: nat :| Nearest(w, ViewNode(w, node, steps).nodes, steps, i, n);
      i
    else 0
  }

  /** The completion in which everything out of sight is there and every union takes the best branch. */
  ghost function Optimist(w: World): Completion {
    Completion((node, steps) => true, (node, steps) => BestBranch(w, node, steps))
  }

  lemma OptimistTakes(w: World, node: Node, steps: seq<Step>, ks: seq<Node>, i: nat, n: nat) returns (j: nat, m: nat)
    requires steps != [] && ViewNode(w, node, steps) == EveryOf(ks)
    requires i < |ks| && Possible(w, ks[i], steps, n)
    ensures j < |ks| && Possible(w, ks[j], steps, m) && m <= n && Optimist(w).branch(node, steps) % |ks| == j
  {
    hide Possible, ViewNode;
    var k, l := NearestExists(w, ks, steps, i, n);
    j := BestBranch(w, node, steps);
    m :| Nearest(w, ks, steps, j, m);
    assert m <= l;
  }

  lemma OptimistAnswers(w: World, node: Node, steps: seq<Step>)
    ensures Optimist(w).answer(node, steps)
  {
  }

  /** What some completion provides, the optimist provides as soon. */
  lemma {:induction false} OptimistProvides(w: World, node: Node, steps: seq<Step>, n: nat)
    requires Possible(w, node, steps, n)
    ensures Provides(w, Optimist(w), node, steps, n)
    decreases n
  {
    hide Provides, Optimist, Passed;
    var c :| Provides(w, c, node, steps, n);
    var o := Optimist(w);
    if steps == [] {
      EmptyPath(w, o, node, n);
    } else {
      StepPositive(w, c, node, steps, n);
      StepMeaning(w, c, node, steps, n);
      StepMeaning(w, o, node, steps, n);
      OptimistAnswers(w, node, steps);
      match ViewNode(w, node, steps)
      case Here =>
      case OutOfSight =>
      case Through(k, s) => assert Possible(w, k, s, n - 1); OptimistProvides(w, k, s, n - 1);
      case Deeper(k, s) => assert Possible(w, k, s, n - 1); OptimistProvides(w, k, s, n - 1);
      case AnyOf(ks) =>
        if k :| k in Passed(w, node, steps) && Provides(w, c, k, steps[1..], n - 1) {
          assert Possible(w, k, steps[1..], n - 1);
          OptimistProvides(w, k, steps[1..], n - 1);
        } else {
          var k :| k in ks && Provides(w, c, k, steps, n - 1);
          assert Possible(w, k, steps, n - 1);
          OptimistProvides(w, k, steps, n - 1);
        }
      case EveryOf(ks) =>
        if ks != [] {
          var i := c.branch(node, steps) % |ks|;
          assert Possible(w, ks[i], steps, n - 1);
          var j, m := OptimistTakes(w, node, steps, ks, i, n - 1);
          OptimistProvides(w, ks[j], steps, m);
          ProvidesMono(w, o, ks[j], steps, m, n - 1);
        }
    }
  }

  /** Where the walk was blind, the optimist has the path. */
  lemma {:induction false} BlindContradicts(w: World, node: Node, steps: seq<Step>, n: nat) returns (m: nat)
    requires Blind(w, node, steps, n)
    ensures Provides(w, Optimist(w), node, steps, m)
    decreases n
  {
    hide Provides, Optimist, Passed, Possible;
    var o := Optimist(w);
    match ViewNode(w, node, steps) {
    case Through(k, s) => m := BlindContradicts(w, k, s, n - 1);
    case Deeper(k, s) => m := BlindContradicts(w, k, s, n - 1);
    case AnyOf(ks) =>
      if Overlooks(w, node, steps) {
        var k;
        k, m :| k in Passed(w, node, steps) && Possible(w, k, steps[1..], m);
        OptimistProvides(w, k, steps[1..], m);
      } else {
        var k :| k in ks && Blind(w, k, steps, n - 1);
        m := BlindContradicts(w, k, steps, n - 1);
      }
    case EveryOf(ks) =>
      var k :| k in ks && Blind(w, k, steps, n - 1);
      var i: nat :| i < |ks| && ks[i] == k;
      var l := BlindContradicts(w, k, steps, n - 1);
      IsPossible(w, o, k, steps, l);
      var j;
      j, m := OptimistTakes(w, node, steps, ks, i, l);
      OptimistProvides(w, ks[j], steps, m);
    }
    m := m + 1;
    StepMeaning(w, o, node, steps, m);
  }

  lemma IsPossible(w: World, c: Completion, node: Node, steps: seq<Step>, n: nat)
    requires Provides(w, c, node, steps, n)
    ensures Possible(w, node, steps, n)
  {
  }

  /** However the unseen turns out, the path is there. */
  ghost predicate AlwaysProvides(w: World, node: Node, steps: seq<Step>, n: nat) {
    forall c :: Provides(w, c, node, steps, n)
  }

  /**
   * `found` is always right, and `missing` is right exactly when the walk nowhere passed over an element
   * that declares the name asked for and can provide the rest of the path.
   */
  lemma VerdictsMean(w: World, node: Node, steps: seq<Step>, fuel: nat)
    requires Lookup(w, node, steps, {}, fuel).Done?
    ensures Lookup(w, node, steps, {}, fuel).verdict == Found ==>
              exists n: nat :: AlwaysProvides(w, node, steps, n)
    ensures Lookup(w, node, steps, {}, fuel).verdict == Missing ==>
              ((forall c, n: nat :: !Provides(w, c, node, steps, n)) <==> !BlindSomewhere(w, node, steps))
  {
    hide Provides, Lookup, Blind;
    if Lookup(w, node, steps, {}, fuel).verdict == Found {
      var n := FoundHolds(w, node, steps, {}, fuel);
      assert AlwaysProvides(w, node, steps, n);
    }
    if Lookup(w, node, steps, {}, fuel).verdict == Missing {
      if BlindSomewhere(w, node, steps) {
        var n: nat :| Blind(w, node, steps, n);
        var m := BlindContradicts(w, node, steps, n);
      } else {
        forall c, n: nat ensures !Provides(w, c, node, steps, n) {
          if Provides(w, c, node, steps, n) {
            MissingHolds(w, node, steps, {}, fuel, c, n);
          }
        }
      }
    }
  }

  // ----- when the walk makes up its mind -----

  /** A node with the steps still to go. */
  datatype Place = Place(node: Node, steps: seq<Step>)

  /** Where the walk goes on from a place. */
  ghost function Onward(w: World, at: Place): seq<Place> {
    if at.steps == [] then []
    else
      match ViewNode(w, at.node, at.steps)
      case Here => []
      case OutOfSight => []
      case Through(k, s) => [Place(k, s)]
      case Deeper(k, s) => [Place(k, s)]
      case AnyOf(ks) => seq(|ks|, i requires 0 <= i < |ks| => Place(ks[i], at.steps))
      case EveryOf(ks) => seq(|ks|, i requires 0 <= i < |ks| => Place(ks[i], at.steps))
  }

  /** `route` says at every place which way to go on. */
  ghost predicate Leads(w: World, from: Place, route: seq<nat>, to: Place)
    decreases |route|
  {
    if route == [] then from == to
    else
      var n := |route| - 1;
      exists mid :: Leads(w, from, route[..n], mid) && route[n] < |Onward(w, mid)| && to == Onward(w, mid)[route[n]]
  }

  /** Following the walk alone, the path is there. */
  ghost predicate Has(w: World, node: Node, steps: seq<Step>, n: nat)
    decreases n
  {
    steps == [] || (n > 0 &&
      match ViewNode(w, node, steps)
      case Here => true
      case OutOfSight => false
      case Through(k, s) => Has(w, k, s, n - 1)
      case Deeper(k, s) => Has(w, k, s, n - 1)
      case AnyOf(ks) => exists k :: k in ks && Has(w, k, steps, n - 1)
      case EveryOf(ks) => forall k :: k in ks ==> Has(w, k, steps, n - 1))
  }

  ghost predicate HasSomehow(w: World, node: Node, steps: seq<Step>) {
    exists n: nat :: Has(w, node, steps, n)
  }

  /** A place the walk cannot see into. */
  ghost predicate Blocked(w: World, at: Place) {
    at.steps != [] && ViewNode(w, at.node, at.steps).OutOfSight?
  }

  /** A union of which one branch has the path and another has not. */
  ghost predicate Disputed(w: World, at: Place) {
    at.steps != [] && ViewNode(w, at.node, at.steps).EveryOf?
    && exists k, l :: k in ViewNode(w, at.node, at.steps).nodes && l in ViewNode(w, at.node, at.steps).nodes
                      && HasSomehow(w, k, at.steps) && !HasSomehow(w, l, at.steps)
  }

  /** By this route the walk enters an interface or alias with so many steps left. */
  ghost predicate Enters(w: World, from: Place, route: seq<nat>, key: Key) {
    exists to :: Leads(w, from, route, to) && EntersAt(w, to, key)
  }

  predicate EntersAt(w: World, at: Place, key: Key) {
    at.steps != [] && Guarded(w, at.node) && key == Key(at.node.id, |at.steps|)
  }

  /** Nowhere along the walk is a place out of sight or a disputed union, and none is entered twice with equal steps. */
  ghost predicate Clear(w: World, from: Place) {
    && (forall route, to :: Leads(w, from, route, to) ==> !Blocked(w, to) && !Disputed(w, to))
    && (forall p, q, key :: Enters(w, from, p, key) && Enters(w, from, q, key) ==> p == q)
  }

  lemma {:induction false} HasMono(w: World, node: Node, steps: seq<Step>, n: nat, m: nat)
    requires Has(w, node, steps, n) && n <= m
    ensures Has(w, node, steps, m)
    decreases n
  {
    if steps != [] {
      match ViewNode(w, node, steps)
      case Through(k, s) => HasMono(w, k, s, n - 1, m - 1);
      case Deeper(k, s) => HasMono(w, k, s, n - 1, m - 1);
      case AnyOf(ks) =>
        var k :| k in ks && Has(w, k, steps, n - 1);
        HasMono(w, k, steps, n - 1, m - 1);
      case EveryOf(ks) =>
        forall k | k in ks ensures Has(w, k, steps, m - 1) {
          HasMono(w, k, steps, n - 1, m - 1);
        }
      case _ =>
    }
  }

  lemma {:induction false} AllHaveAt(w: World, ks: seq<Node>, steps: seq<Step>) returns (n: nat)
    requires forall k :: k in ks ==> HasSomehow(w, k, steps)
    ensures forall k :: k in ks ==> Has(w, k, steps, n)
  {
    hide Has;
    n := 0;
    if ks != [] {
      assert forall k :: k in ks[1..] ==> k in ks;
      var m := AllHaveAt(w, ks[1..], steps);
      assert ks[0] in ks && HasSomehow(w, ks[0], steps);
      var l: nat :| Has(w, ks[0], steps, l);
      n := if m < l then l else m;
      forall k | k in ks ensures Has(w, k, steps, n) {
        if k in ks[1..] {
          HasMono(w, k, steps, m, n);
        } else {
          assert k == ks[0];
          HasMono(w, k, steps, l, n);
        }
      }
    }
  }

  /** What the walk has at a place is what it has one step on. */
  lemma HasOnward(w: World, node: Node, steps: seq<Step>)
    requires steps != []
    ensures HasSomehow(w, node, steps) <==>
            match ViewNode(w, node, steps)
            case Here => true
            case OutOfSight => false
            case Through(k, s) => HasSomehow(w, k, s)
            case Deeper(k, s) => HasSomehow(w, k, s)
            case AnyOf(ks) => SomeHas(w, ks, steps)
            case EveryOf(ks) => AllHave(w, ks, steps)
  {
    hide ViewNode;
    if n: nat :| Has(w, node, steps, n) {
      HasBelow(w, node, steps, n);
    }
    match ViewNode(w, node, steps)
    case Here => assert Has(w, node, steps, 1);
    case OutOfSight =>
    case Through(k, s) => if n: nat :| Has(w, k, s, n) { assert Has(w, node, steps, n + 1); }
    case Deeper(k, s) => if n: nat :| Has(w, k, s, n) { assert Has(w, node, steps, n + 1); }
    case AnyOf(ks) =>
      if SomeHas(w, ks, steps) {
        var k :| k in ks && HasSomehow(w, k, steps);
        var n: nat :| Has(w, k, steps, n);
        assert Has(w, node, steps, n + 1);
      }
    case EveryOf(ks) =>
      if AllHave(w, ks, steps) {
        var n := AllHaveAt(w, ks, steps);
        assert Has(w, node, steps, n + 1);
      }
  }

  ghost predicate SomeHas(w: World, ks: seq<Node>, steps: seq<Step>) {
    exists k :: k in ks && HasSomehow(w, k, steps)
  }

  ghost predicate AllHave(w: World, ks: seq<Node>, steps: seq<Step>) {
    forall k :: k in ks ==> HasSomehow(w, k, steps)
  }

  lemma HasBelow(w: World, node: Node, steps: seq<Step>, n: nat)
    requires steps != [] && Has(w, node, steps, n)
    ensures match ViewNode(w, node, steps)
            case Here => true
            case OutOfSight => false
            case Through(k, s) => HasSomehow(w, k, s)
            case Deeper(k, s) => HasSomehow(w, k, s)
            case AnyOf(ks) => SomeHas(w, ks, steps)
            case EveryOf(ks) => AllHave(w, ks, steps)
  {
    hide ViewNode;
  }

  lemma LeadsOn(w: World, from: Place, route: seq<nat>, at: Place, i: nat)
    requires Leads(w, from, route, at) && i < |Onward(w, at)|
    ensures Leads(w, from, route + [i], Onward(w, at)[i])
  {
    hide Onward;
    assert (route + [i])[..|route|] == route;
  }

  /** Every key met so far was entered elsewhere than from branch `i` of the place at `route` on. */
  ghost predicate MetBefore(w: World, from: Place, route: seq<nat>, i: nat, seen: set<Key>) {
    forall key :: key in seen ==> exists q :: Enters(w, from, q, key) && Earlier(route, i, q)
  }

  predicate Earlier(route: seq<nat>, i: nat, q: seq<nat>) {
    route <= q ==> |q| == |route| || q[|route|] < i
  }

  /** Every key met since was entered from the place at `route` on. */
  ghost predicate MetWithin(w: World, from: Place, route: seq<nat>, seen: set<Key>, after: set<Key>) {
    forall key :: key in after ==> key in seen || exists q :: Enters(w, from, q, key) && route <= q
  }

  /** Every key met so far was entered elsewhere than from the place at `route` on. */
  ghost predicate MetElsewhere(w: World, from: Place, route: seq<nat>, seen: set<Key>) {
    forall key :: key in seen ==> exists q :: Enters(w, from, q, key) && !(route <= q)
  }

  lemma EnterMeets(w: World, from: Place, route: seq<nat>, node: Node, steps: seq<Step>, seen: set<Key>)
    requires Leads(w, from, route, Place(node, steps)) && steps != [] && MetElsewhere(w, from, route, seen)
    ensures MetBefore(w, from, route, 0, Entered(w, node, steps, seen))
    ensures MetWithin(w, from, route, seen, Entered(w, node, steps, seen))
  {
    hide Leads;
    if Guarded(w, node) {
      assert Enters(w, from, route, Key(node.id, |steps|));
    }
    forall key | key in Entered(w, node, steps, seen)
      ensures exists q :: Enters(w, from, q, key) && Earlier(route, 0, q)
    {
      if key in seen {
        var q :| Enters(w, from, q, key) && !(route <= q);
      } else {
        assert Earlier(route, 0, route);
      }
    }
  }

  lemma NotGuarded(w: World, from: Place, route: seq<nat>, node: Node, steps: seq<Step>, seen: set<Key>)
    requires Leads(w, from, route, Place(node, steps)) && steps != [] && MetElsewhere(w, from, route, seen)
    requires Clear(w, from)
    ensures !(Guarded(w, node) && Key(node.id, |steps|) in seen)
  {
    hide Leads, Blocked, Disputed;
    if Guarded(w, node) {
      assert Enters(w, from, route, Key(node.id, |steps|));
    }
  }

  lemma ExtendsBranch(route: seq<nat>, i: nat, q: seq<nat>)
    requires route + [i] <= q
    ensures route <= q && |q| > |route| && q[|route|] == i
  {
    var branch := route + [i];
    assert q[|route|] == branch[|route|];
    assert forall j :: 0 <= j < |route| ==> q[j] == branch[j];
  }

  lemma EarlierApart(route: seq<nat>, i: nat, q: seq<nat>)
    requires Earlier(route, i, q)
    ensures !(route + [i] <= q)
  {
    if route + [i] <= q {
      ExtendsBranch(route, i, q);
    }
  }

  lemma BranchElsewhere(w: World, from: Place, route: seq<nat>, i: nat, seen: set<Key>)
    requires MetBefore(w, from, route, i, seen)
    ensures MetElsewhere(w, from, route + [i], seen)
  {
    hide Enters;
    forall key | key in seen ensures exists q :: Enters(w, from, q, key) && !(route + [i] <= q) {
      var q :| Enters(w, from, q, key) && Earlier(route, i, q);
      EarlierApart(route, i, q);
    }
  }

  lemma NextBranch(w: World, from: Place, route: seq<nat>, i: nat, seen: set<Key>, after: set<Key>)
    requires MetBefore(w, from, route, i, seen) && MetWithin(w, from, route + [i], seen, after)
    ensures MetBefore(w, from, route, i + 1, after) && MetWithin(w, from, route, seen, after)
  {
    hide Enters;
    forall key | key in after
      ensures exists q :: Enters(w, from, q, key) && Earlier(route, i + 1, q)
      ensures key in seen || exists q :: Enters(w, from, q, key) && route <= q
    {
      if key in seen {
        var q :| Enters(w, from, q, key) && Earlier(route, i, q);
        assert Earlier(route, i + 1, q);
      } else {
        var q :| Enters(w, from, q, key) && route + [i] <= q;
        ExtendsBranch(route, i, q);
        assert Earlier(route, i + 1, q);
      }
    }
  }

  lemma WithinJoins(w: World, from: Place, route: seq<nat>, seen: set<Key>, mid: set<Key>, after: set<Key>)
    requires MetWithin(w, from, route, seen, mid) && MetWithin(w, from, route, mid, after)
    ensures MetWithin(w, from, route, seen, after)
  {
    hide Enters;
  }

  lemma OneWay(w: World, from: Place, route: seq<nat>, seen: set<Key>, guarded: set<Key>, after: set<Key>)
    requires MetBefore(w, from, route, 0, guarded) && MetWithin(w, from, route, seen, guarded)
    requires MetWithin(w, from, route + [0], guarded, after)
    ensures MetWithin(w, from, route, seen, after)
  {
    hide Enters, MetBefore, MetWithin;
    NextBranch(w, from, route, 0, guarded, after);
    WithinJoins(w, from, route, seen, guarded, after);
  }

  /** The verdict is definite and right for the walk. */
  predicate Decided(v: Verdict, has: bool) {
    v == if has then Found else Missing
  }

  lemma ClearThere(w: World, from: Place, route: seq<nat>, node: Node, steps: seq<Step>)
    requires Clear(w, from) && Leads(w, from, route, Place(node, steps)) && steps != []
    ensures !ViewNode(w, node, steps).OutOfSight? && !Disputed(w, Place(node, steps))
  {
    hide Leads, Disputed, Enters;
    assert !Blocked(w, Place(node, steps));
  }

  lemma {:induction false} Decides(w: World, from: Place, route: seq<nat>, node: Node, steps: seq<Step>,
                                   seen: set<Key>, fuel: nat)
    requires Clear(w, from) && Leads(w, from, route, Place(node, steps)) && MetElsewhere(w, from, route, seen)
    requires Lookup(w, node, steps, seen, fuel).Done?
    ensures Decided(Lookup(w, node, steps, seen, fuel).verdict, HasSomehow(w, node, steps))
    ensures MetWithin(w, from, route, seen, Lookup(w, node, steps, seen, fuel).seen)
    decreases fuel, Unseen(w, seen, |steps|), Rank(node), 1
  {
    hide Unseen, Clear, Leads, MetElsewhere, MetBefore, MetWithin, ViewNode, HasSomehow, Disputed, Guarded, Onward;
    if steps == [] {
      EmptyHas(w, from, route, node, seen);
      return;
    }
    NotGuarded(w, from, route, node, steps, seen);
    ClearThere(w, from, route, node, steps);
    EnterMeets(w, from, route, node, steps, seen);
    HasOnward(w, node, steps);
    var guarded := Entered(w, node, steps, seen);
    Measure(w, node, steps, seen);
    match ViewNode(w, node, steps) {
    case Here =>
    case Through(k, s) =>
      OnwardOne(w, from, route, node, steps, k, s);
      BranchElsewhere(w, from, route, 0, guarded);
      Decides(w, from, route + [0], k, s, guarded, fuel);
      OneWay(w, from, route, seen, guarded, Lookup(w, k, s, guarded, fuel).seen);
    case Deeper(k, s) =>
      OnwardOne(w, from, route, node, steps, k, s);
      BranchElsewhere(w, from, route, 0, guarded);
      Decides(w, from, route + [0], k, s, guarded, fuel - 1);
      OneWay(w, from, route, seen, guarded, Lookup(w, k, s, guarded, fuel - 1).seen);
    case AnyOf(ks) =>
      OnwardMany(w, node, steps, ks);
      DecidesEach(w, from, route, node, steps, ks, 0, guarded, fuel);
      assert ks[0..] == ks;
      WithinJoins(w, from, route, seen, guarded, LookupEach(w, ks, steps, guarded, fuel).seen);
      CombineDecides(w, ks, steps, LookupEach(w, ks, steps, guarded, fuel).verdicts);
    case EveryOf(ks) =>
      OnwardMany(w, node, steps, ks);
      DecidesEach(w, from, route, node, steps, ks, 0, guarded, fuel);
      assert ks[0..] == ks;
      WithinJoins(w, from, route, seen, guarded, LookupEach(w, ks, steps, guarded, fuel).seen);
      AgreeDecides(w, node, ks, steps, LookupEach(w, ks, steps, guarded, fuel).verdicts);
    }
  }

  lemma EmptyHas(w: World, from: Place, route: seq<nat>, node: Node, seen: set<Key>)
    ensures HasSomehow(w, node, []) && MetWithin(w, from, route, seen, seen)
  {
    assert Has(w, node, [], 0);
  }

  lemma OnwardOne(w: World, from: Place, route: seq<nat>, node: Node, steps: seq<Step>, k: Node, s: seq<Step>)
    requires Leads(w, from, route, Place(node, steps)) && steps != []
    requires ViewNode(w, node, steps) == Through(k, s) || ViewNode(w, node, steps) == Deeper(k, s)
    ensures Leads(w, from, route + [0], Place(k, s))
  {
    hide Leads;
    LeadsOn(w, from, route, Place(node, steps), 0);
  }

  lemma OnwardMany(w: World, node: Node, steps: seq<Step>, ks: seq<Node>)
    requires steps != [] && (ViewNode(w, node, steps) == AnyOf(ks) || ViewNode(w, node, steps) == EveryOf(ks))
    ensures |Onward(w, Place(node, steps))| == |ks|
    ensures forall i :: 0 <= i < |ks| ==> Onward(w, Place(node, steps))[i] == Place(ks[i], steps)
  {
  }

  ghost predicate AllDecided(w: World, ks: seq<Node>, steps: seq<Step>, vs: seq<Verdict>) {
    |vs| == |ks| && forall i :: 0 <= i < |ks| ==> Decided(vs[i], HasSomehow(w, ks[i], steps))
  }

  lemma CombineDecides(w: World, ks: seq<Node>, steps: seq<Step>, vs: seq<Verdict>)
    requires AllDecided(w, ks, steps, vs)
    ensures Decided(Combine(vs), SomeHas(w, ks, steps))
  {
    hide HasSomehow;
    forall v | v in vs ensures v != Unknown {
      var i :| 0 <= i < |vs| && vs[i] == v;
    }
    if Found in vs {
      var i :| 0 <= i < |vs| && vs[i] == Found;
      assert ks[i] in ks;
    }
    if k :| k in ks && HasSomehow(w, k, steps) {
      var i :| 0 <= i < |ks| && ks[i] == k;
      assert vs[i] in vs;
    }
  }

  lemma AgreeDecides(w: World, node: Node, ks: seq<Node>, steps: seq<Step>, vs: seq<Verdict>)
    requires steps != [] && ViewNode(w, node, steps) == EveryOf(ks) && !Disputed(w, Place(node, steps))
    requires AllDecided(w, ks, steps, vs)
    ensures Decided(Agree(vs), AllHave(w, ks, steps))
  {
    hide HasSomehow, ViewNode;
    if AllHave(w, ks, steps) {
      forall v | v in vs ensures v == Found {
        var i :| 0 <= i < |vs| && vs[i] == v;
        assert ks[i] in ks;
      }
    } else {
      var l :| l in ks && !HasSomehow(w, l, steps);
      var j :| 0 <= j < |ks| && ks[j] == l;
      assert vs[j] in vs;
      forall v | v in vs ensures v == Missing {
        var i :| 0 <= i < |vs| && vs[i] == v;
        assert ks[i] in ks;
      }
    }
  }

  lemma {:induction false} DecidesEach(w: World, from: Place, route: seq<nat>, node: Node, steps: seq<Step>,
                                       ks: seq<Node>, i: nat, seen: set<Key>, fuel: nat)
    requires Clear(w, from) && Leads(w, from, route, Place(node, steps)) && MetBefore(w, from, route, i, seen)
    requires |Onward(w, Place(node, steps))| == |ks| && i <= |ks|
    requires forall j :: 0 <= j < |ks| ==> Onward(w, Place(node, steps))[j] == Place(ks[j], steps)
    requires LookupEach(w, ks[i..], steps, seen, fuel).AllDone?
    ensures AllDecided(w, ks[i..], steps, LookupEach(w, ks[i..], steps, seen, fuel).verdicts)
    ensures MetWithin(w, from, route, seen, LookupEach(w, ks[i..], steps, seen, fuel).seen)
    decreases fuel, Unseen(w, seen, |steps|), RankAll(ks[i..]), 2
  {
    hide Unseen, Clear, Leads, MetElsewhere, MetBefore, MetWithin, HasSomehow, Onward, Lookup;
    var nodes := ks[i..];
    if nodes == [] {
      EmptyHas(w, from, route, node, seen);
    } else {
      assert nodes[0] == ks[i] && nodes[1..] == ks[i + 1..];
      LeadsOn(w, from, route, Place(node, steps), i);
      BranchElsewhere(w, from, route, i, seen);
      RankOne(nodes, 0);
      Decides(w, from, route + [i], ks[i], steps, seen, fuel);
      var after := Lookup(w, ks[i], steps, seen, fuel).seen;
      NextBranch(w, from, route, i, seen, after);
      UnseenShrinks(w, seen, after, |steps|, |steps|);
      DecidesEach(w, from, route, node, steps, ks, i + 1, after, fuel);
      WithinJoins(w, from, route, seen, after, LookupEach(w, nodes, steps, seen, fuel).seen);
    }
  }

  /**
   * A finished walk is undecided only if it met a place out of sight, a disputed union, or a declaration already
   * entered with as many steps left; with none of these met it finds the path exactly when the walk has it.
   */
  lemma DecidesWhenClear(w: World, node: Node, steps: seq<Step>, fuel: nat)
    requires Lookup(w, node, steps, {}, fuel).Done?
    ensures Lookup(w, node, steps, {}, fuel).verdict == Unknown ==> !Clear(w, Place(node, steps))
    ensures Clear(w, Place(node, steps)) ==>
              Lookup(w, node, steps, {}, fuel).verdict == if HasSomehow(w, node, steps) then Found else Missing
  {
    hide Lookup, HasSomehow, Clear;
    if Clear(w, Place(node, steps)) {
      assert Leads(w, Place(node, steps), [], Place(node, steps));
      assert MetElsewhere(w, Place(node, steps), [], {});
      Decides(w, Place(node, steps), [], node, steps, {}, fuel);
    }
  }

  // ----- declarations without certain types -----

  /** `p` holds of `t` and of every type inside it. */
  ghost predicate Every(t: Type, p: Type -> bool)
    decreases t, 0
  {
    p(t) &&
    match t
    case Literal(ms) => EveryMember(ms, p)
    case Parenthesized(inner) => Every(inner, p)
    case Operator(operand) => Every(operand, p)
    case Intersection(parts) => EveryOne(parts, p)
    case Union(branches) => EveryOne(branches, p)
    case ArrayType(element) => Every(element, p)
    case IndexedAccess(owner, _) => Every(owner, p)
    case Reference(_, _, arguments) => EveryOne(arguments, p)
    case OtherType => true
  }

  ghost predicate EveryOne(ts: seq<Type>, p: Type -> bool)
    decreases ts, 1
  {
    ts != [] ==> Every(ts[0], p) && EveryOne(ts[1..], p)
  }

  ghost predicate EveryMember(ms: seq<TypeElement>, p: Type -> bool)
    decreases ms, 1
  {
    ms != [] ==>
      && (ms[0].Property? && ms[0].declared.Some? ==> Every(ms[0].declared.value, p))
      && EveryMember(ms[1..], p)
  }

  ghost predicate NotIndexed(t: Type) {
    !t.IndexedAccess?
  }

  /** Every member can be matched by name. */
  ghost predicate Plain(t: Type) {
    t.Literal? ==> forall e :: e in t.members ==> e.Property?
  }

  /** `p` holds throughout every declaration; an interface counts as a literal of its own members. */
  ghost predicate EveryDecl(w: World, p: Type -> bool) {
    forall id :: id in w.decls ==>
      match w.decls[id].decl
      case Interface(ms, _) => Every(Literal(ms), p)
      case Alias(t) => Every(t, p)
      case Enum => true
  }

  ghost predicate EveryNode(w: World, node: Node, p: Type -> bool) {
    EveryDecl(w, p) && (node.TypeNode? ==> Every(node.t, p))
  }

  lemma {:induction false} FoundMemberKeeps(ms: seq<TypeElement>, name: Name, p: Type -> bool)
    requires EveryMember(ms, p)
    ensures FindMember(ms, name).Some? && FindMember(ms, name).value.Some? ==>
              Every(FindMember(ms, name).value.value, p)
  {
    if ms != [] {
      FoundMemberKeeps(ms[1..], name, p);
    }
  }

  lemma {:induction false} NodesKeep(w: World, file: File, ts: seq<Type>, p: Type -> bool)
    requires EveryOne(ts, p) && EveryDecl(w, p)
    ensures forall k :: k in TypeNodes(file, ts) ==> EveryNode(w, k, p)
  {
    hide EveryDecl;
    if ts != [] {
      NodesKeep(w, file, ts[1..], p);
    }
  }

  lemma BasesKeep(w: World, file: File, bs: seq<Base>, p: Type -> bool)
    requires EveryDecl(w, p)
    ensures forall k :: k in BaseNodes(w, file, bs) ==> EveryNode(w, k, p)
  {
    hide EveryDecl;
    BaseNodesAt(w, file, bs);
  }

  /** What holds throughout the declarations holds of every node the walk goes on to. */
  lemma ViewKeeps(w: World, node: Node, steps: seq<Step>, p: Type -> bool)
    requires steps != [] && EveryNode(w, node, p)
    ensures match ViewNode(w, node, steps)
            case Through(k, s) => EveryNode(w, k, p)
            case Deeper(k, s) => EveryNode(w, k, p) && node.TypeNode? && node.t.IndexedAccess? && p(node.t)
            case AnyOf(ks) => forall k :: k in ks ==> EveryNode(w, k, p)
            case EveryOf(ks) => forall k :: k in ks ==> EveryNode(w, k, p)
            case _ => true
  {
    match node
    case Beyond(_, _) =>
    case DeclNode(id) => if id in w.decls { DeclKeeps(w, id, steps, p); }
    case TypeNode(file, t) =>
      match t
      case Literal(ms) => if steps[0].Member? { FoundMemberKeeps(ms, steps[0].name, p); }
      case Intersection(parts) => NodesKeep(w, file, parts, p);
      case Union(branches) => NodesKeep(w, file, branches, p);
      case Reference(_, _, arguments) => assert EveryOne(arguments, p);
      case _ =>
  }

  lemma DeclKeeps(w: World, id: Id, steps: seq<Step>, p: Type -> bool)
    requires steps != [] && id in w.decls && EveryDecl(w, p)
    ensures match ViewNode(w, DeclNode(id), steps)
            case Through(k, s) => EveryNode(w, k, p)
            case AnyOf(ks) => forall k :: k in ks ==> EveryNode(w, k, p)
            case EveryOf(ks) => false
            case Deeper(_, _) => false
            case _ => true
  {
    var d := w.decls[id];
    match d.decl
    case Interface(ms, bases) =>
      if steps[0].Member? {
        FoundMemberKeeps(ms, steps[0].name, p);
        BasesKeep(w, d.file, bases, p);
      }
    case _ =>
  }

  /** Without indexed access types the walk always ends, however the declarations refer to each other. */
  lemma {:induction false} Terminates(w: World, node: Node, steps: seq<Step>, seen: set<Key>)
    requires EveryNode(w, node, NotIndexed)
    ensures Lookup(w, node, steps, seen, 0).Done?
    decreases Unseen(w, seen, |steps|), Rank(node), 0
  {
    hide Unseen, EveryDecl, Every, Combine, Agree;
    if steps != [] && !(Guarded(w, node) && Key(node.id, |steps|) in seen) {
      var guarded := Entered(w, node, steps, seen);
      Measure(w, node, steps, seen);
      ViewKeeps(w, node, steps, NotIndexed);
      match ViewNode(w, node, steps)
      case Through(k, s) => Terminates(w, k, s, guarded);
      case AnyOf(ks) => EachTerminates(w, ks, steps, guarded);
      case EveryOf(ks) => EachTerminates(w, ks, steps, guarded);
      case _ =>
    }
  }

  lemma {:induction false} EachTerminates(w: World, nodes: seq<Node>, steps: seq<Step>, seen: set<Key>)
    requires forall k :: k in nodes ==> EveryNode(w, k, NotIndexed)
    ensures LookupEach(w, nodes, steps, seen, 0).AllDone?
    decreases Unseen(w, seen, |steps|), RankAll(nodes), 1
  {
    hide Unseen, EveryDecl, Every;
    if nodes != [] {
      Terminates(w, nodes[0], steps, seen);
      var after := Lookup(w, nodes[0], steps, seen, 0).seen;
      UnseenShrinks(w, seen, after, |steps|, |steps|);
      EachTerminates(w, nodes[1..], steps, after);
    }
  }

  // ----- declarations with indexed access -----

  /** A name that means a declaration of rank below `b`, or nothing within reach. */
  ghost predicate LeadsBelow(w: World, rank: Id -> nat, file: File, name: Name, b: nat) {
    (file, name) in w.names ==> rank(w.names[(file, name)]) < b
  }

  ghost function Below(w: World, rank: Id -> nat, file: File, b: nat): Type -> bool {
    (t: Type) => t.Reference? ==> LeadsBelow(w, rank, file, t.name, b)
  }

  /** References lead to rank `r` at most, and from within the owner of an indexed access below it. */
  ghost function NotAbove(w: World, rank: Id -> nat, file: File, r: nat): Type -> bool {
    (t: Type) =>
      && Below(w, rank, file, r + 1)(t)
      && (t.IndexedAccess? && t.index.Some? ==> Every(t.owner, Below(w, rank, file, r)))
  }

  /** No cycle of references passes an indexed access: the declarations can be ranked so that none goes up. */
  ghost predicate Ranked(w: World, rank: Id -> nat) {
    forall id :: id in w.decls ==> RankedDecl(w, rank, id)
  }

  ghost predicate RankedDecl(w: World, rank: Id -> nat, id: Id)
    requires id in w.decls
  {
    var d := w.decls[id];
    match d.decl
    case Interface(ms, bases) =>
      && Every(Literal(ms), NotAbove(w, rank, d.file, rank(id)))
      && forall b :: b in bases && b.NamedBase? ==> LeadsBelow(w, rank, d.file, b.name, rank(id) + 1)
    case Alias(t) => Every(t, NotAbove(w, rank, d.file, rank(id)))
    case Enum => true
  }

  function DeclSize(d: Decl): nat {
    match d
    case Interface(ms, _) => Size(Literal(ms))
    case Alias(t) => Size(t)
    case Enum => 0
  }

  ghost predicate SizedBy(w: World, m: nat) {
    forall id :: id in w.decls ==> DeclSize(w.decls[id].decl) <= m
  }

  lemma {:induction false} SomeSize(w: World, ids: set<Id>) returns (m: nat)
    requires ids <= w.decls.Keys
    ensures forall id :: id in ids ==> DeclSize(w.decls[id].decl) <= m
    decreases ids
  {
    m := 0;
    if ids != {} {
      var id :| id in ids;
      m := SomeSize(w, ids - {id});
      m := m + DeclSize(w.decls[id].decl);
    }
  }

  /** Fuel for `b` ranks of declarations with at most `m` indexed accesses on the way through each. */
  function Need(m: nat, b: nat): nat {
    if b == 0 then 0 else m + Need(m, b - 1)
  }

  lemma {:induction false} NeedGrows(m: nat, a: nat, b: nat)
    requires a <= b
    ensures Need(m, a) <= Need(m, b)
    decreases b
  {
    if a < b {
      NeedGrows(m, a, b - 1);
    }
  }

  /** The fuel suffices at this node, which stands in a declaration of rank `r`, or `inside` the owner of an access. */
  ghost predicate Fuelled(w: World, rank: Id -> nat, m: nat, node: Node, r: nat, inside: bool, fuel: nat) {
    && (node.DeclNode? ==> rank(node.id) < Bound(r, inside) && fuel >= Need(m, Bound(r, inside)))
    && (node.TypeNode? && inside ==> Every(node.t, Below(w, rank, node.file, r)) && fuel >= Need(m, r) + Size(node.t))
    && (node.TypeNode? && !inside ==>
          Every(node.t, NotAbove(w, rank, node.file, r)) && Size(node.t) <= m && fuel >= Need(m, r + 1))
  }

  function Bound(r: nat, inside: bool): nat {
    if inside then r else r + 1
  }

  ghost predicate AllFuelled(w: World, rank: Id -> nat, m: nat, nodes: seq<Node>, r: nat, inside: bool, fuel: nat) {
    forall k :: k in nodes ==> Fuelled(w, rank, m, k, r, inside, fuel)
  }

  ghost predicate ArePieces(nodes: seq<Node>, file: File, p: Type -> bool, size: nat) {
    forall k :: k in nodes ==> k.TypeNode? && k.file == file && Every(k.t, p) && Size(k.t) < size
  }

  lemma {:induction false} PartsKeep(file: File, ts: seq<Type>, p: Type -> bool)
    requires EveryOne(ts, p)
    ensures ArePieces(TypeNodes(file, ts), file, p, SizeAll(ts) + 1)
  {
    if ts != [] {
      PartsKeep(file, ts[1..], p);
    }
  }

  /** The pieces of a type keep what holds throughout it. */
  lemma PiecesKeep(w: World, file: File, t: Type, steps: seq<Step>, p: Type -> bool)
    requires steps != [] && Every(t, p)
    ensures match ViewType(w, file, t, steps)
            case Through(k, s) =>
              || ArePieces([k], file, p, Size(t))
              || (t.Reference? && p(t) && k == Resolve(w, file, t.name))
            case Deeper(k, s) =>
              t.IndexedAccess? && t.index.Some? && p(t) && k == TypeNode(file, t.owner) && Every(t.owner, p)
            case AnyOf(ks) => ArePieces(ks, file, p, Size(t))
            case EveryOf(ks) => ArePieces(ks, file, p, Size(t))
            case _ => true
  {
    match t
    case Literal(ms) =>
      if steps[0].Member? {
        FoundMemberKeeps(ms, steps[0].name, p);
        MemberSmaller(ms, steps[0].name);
      }
    case Intersection(parts) => PartsKeep(file, parts, p);
    case Union(branches) => PartsKeep(file, branches, p);
    case Reference(_, _, arguments) =>
      if arguments != [] {
        assert EveryOne(arguments, p) && SizeAll(arguments) == 2 + Size(arguments[0]) + SizeAll(arguments[1..]);
      }
    case _ =>
  }

  lemma TypeFuelled(w: World, rank: Id -> nat, m: nat, file: File, t: Type, steps: seq<Step>, r: nat, inside: bool,
                    fuel: nat)
    requires steps != [] && Fuelled(w, rank, m, TypeNode(file, t), r, inside, fuel)
    ensures match ViewType(w, file, t, steps)
            case Through(k, s) => Fuelled(w, rank, m, k, r, inside, fuel)
            case Deeper(k, s) => fuel > 0 && Fuelled(w, rank, m, k, r, true, fuel - 1)
            case AnyOf(ks) => AllFuelled(w, rank, m, ks, r, inside, fuel)
            case EveryOf(ks) => AllFuelled(w, rank, m, ks, r, inside, fuel)
            case _ => true
  {
    hide ViewType, Every;
    var p := if inside then Below(w, rank, file, r) else NotAbove(w, rank, file, r);
    PiecesKeep(w, file, t, steps, p);
    OwnerSmaller(t);
    var v := ViewType(w, file, t, steps);
    if v.Through? {
      assert v.node in [v.node];
      if !ArePieces([v.node], file, p, Size(t)) {
        assert Below(w, rank, file, Bound(r, inside))(t);
      }
    }
  }

  lemma OwnerSmaller(t: Type)
    ensures t.IndexedAccess? ==> Size(t.owner) < Size(t)
  {
  }

  lemma DeclFuelled(w: World, rank: Id -> nat, m: nat, id: Id, r: nat, steps: seq<Step>, fuel: nat)
    requires steps != [] && id in w.decls && Ranked(w, rank) && SizedBy(w, m) && r == rank(id)
    requires fuel >= Need(m, r + 1)
    ensures var v := ViewNode(w, DeclNode(id), steps);
            && !v.Deeper? && !v.EveryOf?
            && (v.Through? ==> Fuelled(w, rank, m, v.node, r, false, fuel))
            && (v.AnyOf? ==> AllFuelled(w, rank, m, v.nodes, r, false, fuel))
  {
    hide Ranked, Every;
    var d := w.decls[id];
    assert RankedDecl(w, rank, id) by { UseRanked(w, rank, id); }
    match d.decl
    case Interface(ms, bases) =>
      if steps[0].Member? {
        var p := NotAbove(w, rank, d.file, r);
        LiteralMembers(ms, p);
        FoundMemberKeeps(ms, steps[0].name, p);
        MemberSmaller(ms, steps[0].name);
        BasesFuelled(w, rank, m, d.file, bases, r, fuel);
      }
    case _ =>
  }

  lemma UseRanked(w: World, rank: Id -> nat, id: Id)
    requires Ranked(w, rank) && id in w.decls
    ensures RankedDecl(w, rank, id)
  {
  }

  lemma LiteralMembers(ms: seq<TypeElement>, p: Type -> bool)
    requires Every(Literal(ms), p)
    ensures EveryMember(ms, p)
  {
  }

  lemma {:induction false} BasesFuelled(w: World, rank: Id -> nat, m: nat, file: File, bases: seq<Base>, r: nat,
                                        fuel: nat)
    requires forall b :: b in bases && b.NamedBase? ==> LeadsBelow(w, rank, file, b.name, r + 1)
    requires fuel >= Need(m, r + 1)
    ensures AllFuelled(w, rank, m, BaseNodes(w, file, bases), r, false, fuel)
  {
    if bases != [] {
      assert bases[0] in bases;
      BasesFuelled(w, rank, m, file, bases[1..], r, fuel);
    }
  }

  lemma {:induction false} FuelSuffices(w: World, rank: Id -> nat, m: nat, node: Node, r: nat, inside: bool,
                                        steps: seq<Step>, seen: set<Key>, fuel: nat)
    requires Ranked(w, rank) && SizedBy(w, m) && Fuelled(w, rank, m, node, r, inside, fuel)
    ensures Lookup(w, node, steps, seen, fuel).Done?
    decreases fuel, Unseen(w, seen, |steps|), Rank(node), 0
  {
    hide Unseen, Ranked, SizedBy, Combine, Agree, Fuelled, AllFuelled;
    if steps != [] && !(Guarded(w, node) && Key(node.id, |steps|) in seen) {
      var guarded := Entered(w, node, steps, seen);
      Measure(w, node, steps, seen);
      var r', inside' := NodeFuelled(w, rank, m, node, steps, r, inside, fuel);
      match ViewNode(w, node, steps)
      case Through(k, s) => FuelSuffices(w, rank, m, k, r', inside', s, guarded, fuel);
      case Deeper(k, s) => FuelSuffices(w, rank, m, k, r', inside', s, guarded, fuel - 1);
      case AnyOf(ks) => EachSuffices(w, rank, m, ks, r', inside', steps, guarded, fuel);
      case EveryOf(ks) => EachSuffices(w, rank, m, ks, r', inside', steps, guarded, fuel);
      case _ =>
    }
  }

  lemma NodeFuelled(w: World, rank: Id -> nat, m: nat, node: Node, steps: seq<Step>, r: nat, inside: bool, fuel: nat)
    returns (r': nat, inside': bool)
    requires steps != [] && Ranked(w, rank) && SizedBy(w, m) && Fuelled(w, rank, m, node, r, inside, fuel)
    ensures match ViewNode(w, node, steps)
            case Through(k, s) => Fuelled(w, rank, m, k, r', inside', fuel)
            case Deeper(k, s) => fuel > 0 && Fuelled(w, rank, m, k, r', inside', fuel - 1)
            case AnyOf(ks) => AllFuelled(w, rank, m, ks, r', inside', fuel)
            case EveryOf(ks) => AllFuelled(w, rank, m, ks, r', inside', fuel)
            case _ => true
  {
    hide Ranked, SizedBy, AllFuelled, Every;
    r', inside' := r, inside;
    match node
    case DeclNode(id) =>
      r', inside' := rank(id), false;
      if id in w.decls {
        NeedGrows(m, rank(id) + 1, Bound(r, inside));
        DeclFuelled(w, rank, m, id, r', steps, fuel);
      }
    case TypeNode(file, t) =>
      TypeFuelled(w, rank, m, file, t, steps, r, inside, fuel);
      inside' := inside || ViewType(w, file, t, steps).Deeper?;
    case Beyond(_, _) =>
  }

  lemma {:induction false} EachSuffices(w: World, rank: Id -> nat, m: nat, nodes: seq<Node>, r: nat, inside: bool,
                                        steps: seq<Step>, seen: set<Key>, fuel: nat)
    requires Ranked(w, rank) && SizedBy(w, m) && AllFuelled(w, rank, m, nodes, r, inside, fuel)
    ensures LookupEach(w, nodes, steps, seen, fuel).AllDone?
    decreases fuel, Unseen(w, seen, |steps|), RankAll(nodes), 1
  {
    hide Unseen, Ranked, SizedBy, Fuelled;
    if nodes != [] {
      FuelSuffices(w, rank, m, nodes[0], r, inside, steps, seen, fuel);
      var after := Lookup(w, nodes[0], steps, seen, fuel).seen;
      UnseenShrinks(w, seen, after, |steps|, |steps|);
      EachSuffices(w, rank, m, nodes[1..], r, inside, steps, after, fuel);
    }
  }

  /** The walk ends wherever no cycle of references passes an indexed access. */
  lemma TerminatesRanked(w: World, rank: Id -> nat, id: Id, steps: seq<Step>, seen: set<Key>)
    requires Ranked(w, rank)
    ensures exists fuel: nat :: Lookup(w, DeclNode(id), steps, seen, fuel).Done?
  {
    hide Ranked;
    var m := SomeSize(w, w.decls.Keys);
    var fuel := Need(m, rank(id) + 1);
    FuelSuffices(w, rank, m, DeclNode(id), rank(id), false, steps, seen, fuel);
  }

  /** A finished walk does not depend on the fuel it was given. */
  lemma {:induction false} FuelIrrelevant(w: World, node: Node, steps: seq<Step>, seen: set<Key>, fuel: nat, more: nat)
    requires Lookup(w, node, steps, seen, fuel).Done? && fuel <= more
    ensures Lookup(w, node, steps, seen, more) == Lookup(w, node, steps, seen, fuel)
    decreases fuel, Unseen(w, seen, |steps|), Rank(node), 0
  {
    hide Unseen, Combine, Agree;
    if steps != [] && !(Guarded(w, node) && Key(node.id, |steps|) in seen) {
      var guarded := Entered(w, node, steps, seen);
      Measure(w, node, steps, seen);
      match ViewNode(w, node, steps)
      case Through(k, s) => FuelIrrelevant(w, k, s, guarded, fuel, more);
      case Deeper(k, s) => FuelIrrelevant(w, k, s, guarded, fuel - 1, more - 1);
      case AnyOf(ks) => EachFuelIrrelevant(w, ks, steps, guarded, fuel, more);
      case EveryOf(ks) => EachFuelIrrelevant(w, ks, steps, guarded, fuel, more);
      case _ =>
    }
  }

  lemma {:induction false} EachFuelIrrelevant(w: World, nodes: seq<Node>, steps: seq<Step>, seen: set<Key>, fuel: nat,
                                              more: nat)
    requires LookupEach(w, nodes, steps, seen, fuel).AllDone? && fuel <= more
    ensures LookupEach(w, nodes, steps, seen, more) == LookupEach(w, nodes, steps, seen, fuel)
    decreases fuel, Unseen(w, seen, |steps|), RankAll(nodes), 1
  {
    hide Unseen;
    if nodes != [] {
      FuelIrrelevant(w, nodes[0], steps, seen, fuel, more);
      var after := Lookup(w, nodes[0], steps, seen, fuel).seen;
      UnseenShrinks(w, seen, after, |steps|, |steps|);
      EachFuelIrrelevant(w, nodes[1..], steps, after, fuel, more);
    }
  }

  /** With only plain properties declared anywhere, the walk is never blind. */
  lemma {:induction false} PlainIsNeverBlind(w: World, node: Node, steps: seq<Step>, n: nat)
    requires EveryNode(w, node, Plain)
    ensures !Blind(w, node, steps, n)
    decreases n
  {
    hide EveryDecl;
    if steps != [] && n > 0 {
      ViewKeeps(w, node, steps, Plain);
      PlainOverlooksNothing(w, node, steps);
      match ViewNode(w, node, steps)
      case Through(k, s) => PlainIsNeverBlind(w, k, s, n - 1);
      case Deeper(k, s) => PlainIsNeverBlind(w, k, s, n - 1);
      case AnyOf(ks) => forall k | k in ks ensures !Blind(w, k, steps, n - 1) { PlainIsNeverBlind(w, k, steps, n - 1); }
      case EveryOf(ks) =>
        forall k | k in ks ensures !Blind(w, k, steps, n - 1) { PlainIsNeverBlind(w, k, steps, n - 1); }
      case _ =>
    }
  }

  lemma PlainOverlooksNothing(w: World, node: Node, steps: seq<Step>)
    requires steps != [] && EveryNode(w, node, Plain)
    ensures Passed(w, node, steps) == []
  {
    if node.DeclNode? && node.id in w.decls && w.decls[node.id].decl.Interface? {
      assert Every(Literal(w.decls[node.id].decl.members), Plain);
      if steps[0].Member? {
        PlainPassesNothing(w.decls[node.id].file, w.decls[node.id].decl.members, steps[0].name);
      }
    } else if node.TypeNode? && node.t.Literal? && steps[0].Member? {
      PlainPassesNothing(node.file, node.t.members, steps[0].name);
    }
  }

  lemma {:induction false} PlainPassesNothing(file: File, ms: seq<TypeElement>, name: Name)
    requires forall e :: e in ms ==> e.Property?
    ensures PassedNodes(file, ms, name) == []
  {
    if ms != [] {
      assert ms[0] in ms;
      PlainPassesNothing(file, ms[1..], name);
    }
  }

  /** `Config { port } extends Base { host }`: these two names are found, and a mistyped one is reported missing. */
  lemma MistypedKey(name: Name)
    ensures var w := World(map[0 := Declared("f", Interface([Property("port", None)], [NamedBase("Base")])),
                               1 := Declared("f", Interface([Property("host", None)], []))], map[("f", "Base") := 1]);
            var r := Lookup(w, DeclNode(0), [Member(name)], {}, 0);
            r.Done? && r.verdict == if name in {"port", "host"} then Found else Missing
  {
    var port, host := [Property("port", None)], [Property("host", None)];
    var w := World(map[0 := Declared("f", Interface(port, [NamedBase("Base")])),
                       1 := Declared("f", Interface(host, []))], map[("f", "Base") := 1]);
    var steps, seen := [Member(name)], {Key(0, 1)};
    assert port[1..] == [] && host[1..] == [] && {} + {Key(0, 1)} == seen;
    assert FindMember(port, name) == if name == "port" then Some(None) else None;
    assert FindMember(host, name) == if name == "host" then Some(None) else None;
    if name != "port" {
      assert BaseNodes(w, "f", [NamedBase("Base")]) == [DeclNode(1)];
      HostOnly(w, name, seen);
      OneBranch(w, DeclNode(1), steps, seen);
    }
  }

  lemma HostOnly(w: World, name: Name, seen: set<Key>)
    requires 1 in w.decls && w.decls[1] == Declared("f", Interface([Property("host", None)], [])) && Key(1, 1) !in seen
    ensures var r := Lookup(w, DeclNode(1), [Member(name)], seen, 0);
            r.Done? && r.verdict == if name == "host" then Found else Missing
  {
    var ms, steps := [Property("host", None)], [Member(name)];
    assert ms[1..] == [];
    assert FindMember(ms, name) == if name == "host" then Some(None) else None;
    assert BaseNodes(w, "f", []) == [];
    assert ViewNode(w, DeclNode(1), steps) == if name == "host" then Here else AnyOf([]);
    assert LookupEach(w, [], steps, seen + {Key(1, 1)}, 0) == AllDone([], seen + {Key(1, 1)});
  }

  lemma OneBranch(w: World, node: Node, steps: seq<Step>, seen: set<Key>)
    requires Lookup(w, node, steps, seen, 0).Done?
    ensures var r := Lookup(w, node, steps, seen, 0);
            LookupEach(w, [node], steps, seen, 0) == AllDone([r.verdict], r.seen)
  {
    hide Lookup;
    assert [node][1..] == [];
    assert [Lookup(w, node, steps, seen, 0).verdict] + [] == [Lookup(w, node, steps, seen, 0).verdict];
  }

  // ----- where the check falls short -----

  /** An interface with one method reports every name missing, and only of the method's own is that wrong. */
  lemma MethodReportedMissing(method': Name, name: Name)
    ensures var w := World(map[0 := Declared("f", Interface([Method(method')], []))], map[]);
            && Lookup(w, DeclNode(0), [Member(name)], {}, 0).Done?
            && Lookup(w, DeclNode(0), [Member(name)], {}, 0).verdict == Missing
            && ((exists c, n: nat :: Provides(w, c, DeclNode(0), [Member(name)], n)) <==> name == method')
  {
    hide Blind;
    var ms := [Method(method')];
    var w := World(map[0 := Declared("f", Interface(ms, []))], map[]);
    assert FindMember(ms, name) == None;
    VerdictsMean(w, DeclNode(0), [Member(name)], 0);
    MethodBlindness(w, method', name);
  }

  lemma MethodBlindness(w: World, method': Name, name: Name)
    requires w == World(map[0 := Declared("f", Interface([Method(method')], []))], map[])
    ensures BlindSomewhere(w, DeclNode(0), [Member(name)]) <==> name == method'
  {
    var ms, steps := [Method(method')], [Member(name)];
    assert FindMember(ms, name) == None;
    assert ms[1..] == [] && steps[1..] == [];
    assert PassedNodes("f", ms[1..], name) == [];
    assert Passed(w, DeclNode(0), steps) == PassedNodes("f", ms, name);
    assert Passed(w, DeclNode(0), steps) == if name == method' then [TypeNode("f", OtherType)] else [];
    if name == method' {
      var k := TypeNode("f", OtherType);
      assert k in Passed(w, DeclNode(0), steps);
      EmptyPath(w, Optimist(w), k, 0);
      assert Possible(w, k, steps[1..], 0);
      assert Blind(w, DeclNode(0), steps, 1);
    }
  }

  /** `type A = A['x']` keeps lengthening the path: no fuel is enough. */
  lemma {:induction false} SelfIndexDiverges(w: World, steps: seq<Step>, seen: set<Key>, fuel: nat)
    requires w == World(map[0 := Declared("f", Alias(IndexedAccess(Reference("A", false, []), Some("x"))))],
                        map[("f", "A") := 0])
    requires steps != [] && forall k :: k in seen ==> k.left < |steps|
    ensures Lookup(w, DeclNode(0), steps, seen, fuel) == Exhausted
    decreases fuel
  {
    var a := Reference("A", false, []);
    var guarded := seen + {Key(0, |steps|)};
    var longer := [Member("x")] + steps;
    assert Lookup(w, DeclNode(0), steps, seen, fuel)
        == Lookup(w, TypeNode("f", IndexedAccess(a, Some("x"))), steps, guarded, fuel);
    if fuel > 0 {
      assert Lookup(w, TypeNode("f", a), longer, guarded, fuel - 1)
          == Lookup(w, DeclNode(0), longer, guarded, fuel - 1);
      SelfIndexDiverges(w, longer, guarded, fuel - 1);
    }
  }

  // ----- the walk with its shared guard set -----

  /** One schema-path check: the guard set every recursive call shares and extends. */
  class PathWalk {
    const world: World
    var seen: set<Key>

    constructor (w: World)
      ensures world == w && seen == {}
    {
      world, seen := w, {};
    }

    /** The recursive walk; no verdict means the fuel for indexed access ran out. */
    method Look(node: Node, steps: seq<Step>, fuel: nat) returns (v: Option<Verdict>)
      modifies this
      ensures match Lookup(world, node, steps, old(seen), fuel)
              case Done(verdict, after) => v == Some(verdict) && seen == after
              case Exhausted => v == None
      decreases fuel, Unseen(world, seen, |steps|), Rank(node), 0
    {
      hide Unseen, ViewNode, Combine, Agree;
      if steps == [] {
        return Some(Found);
      }
      if Guarded(world, node) && Key(node.id, |steps|) in seen {
        return Some(Unknown);
      }
      Measure(world, node, steps, seen);
      if Guarded(world, node) {
        seen := seen + {Key(node.id, |steps|)};
      }
      match ViewNode(world, node, steps)
      case Here => v := Some(Found);
      case OutOfSight => v := Some(Unknown);
      case Through(k, s) => v := Look(k, s, fuel);
      case Deeper(k, s) =>
        if fuel == 0 {
          v := None;
        } else {
          v := Look(k, s, fuel - 1);
        }
      case AnyOf(ks) =>
        var vs := LookEach(ks, steps, fuel);
        v := if vs.Some? then Some(Combine(vs.value)) else None;
      case EveryOf(ks) =>
        var vs := LookEach(ks, steps, fuel);
        v := if vs.Some? then Some(Agree(vs.value)) else None;
    }

    /** The branches in order, over the same guard set. */
    method LookEach(nodes: seq<Node>, steps: seq<Step>, fuel: nat) returns (vs: Option<seq<Verdict>>)
      modifies this
      ensures match LookupEach(world, nodes, steps, old(seen), fuel)
              case AllDone(verdicts, after) => vs == Some(verdicts) && seen == after
              case SomeExhausted => vs == None
      decreases fuel, Unseen(world, seen, |steps|), RankAll(nodes), 1
    {
      hide Unseen, Lookup, LookupEach, After;
      ghost var start := seen;
      assert nodes[0..] == nodes;
      AfterNone(world, nodes, steps, start, fuel);
      var found: seq<Verdict> := [];
      var i := 0;
      while i < |nodes|
        invariant i == |found| <= |nodes| && start <= seen
        invariant LookupEach(world, nodes, steps, start, fuel)
            == After(found, LookupEach(world, nodes[i..], steps, seen, fuel))
      {
        RankOne(nodes, i);
        UnseenShrinks(world, start, seen, |steps|, |steps|);
        EachStep(world, nodes, i, steps, seen, fuel, found);
        var v := Look(nodes[i], steps, fuel);
        if v == None {
          return None;
        }
        found := found + [v.value];
        i := i + 1;
      }
      assert nodes[i..] == [];
      AfterAll(world, steps, seen, fuel, found);
      vs := Some(found);
    }
  }

  /** The outcome of a list of branches whose first verdicts are already known. */
  ghost function After(found: seq<Verdict>, rest: Outcomes): Outcomes {
    match rest
    case AllDone(verdicts, seen) => AllDone(found + verdicts, seen)
    case SomeExhausted => SomeExhausted
  }

  lemma AfterNone(w: World, nodes: seq<Node>, steps: seq<Step>, seen: set<Key>, fuel: nat)
    ensures After([], LookupEach(w, nodes, steps, seen, fuel)) == LookupEach(w, nodes, steps, seen, fuel)
  {
    hide LookupEach;
    var r := LookupEach(w, nodes, steps, seen, fuel);
    assert r.AllDone? ==> [] + r.verdicts == r.verdicts;
  }

  lemma AfterAll(w: World, steps: seq<Step>, seen: set<Key>, fuel: nat, found: seq<Verdict>)
    ensures After(found, LookupEach(w, [], steps, seen, fuel)) == AllDone(found, seen)
  {
    assert found + [] == found;
  }

  lemma EachStep(w: World, nodes: seq<Node>, i: nat, steps: seq<Step>, seen: set<Key>, fuel: nat, found: seq<Verdict>)
    requires i < |nodes|
    ensures match Lookup(w, nodes[i], steps, seen, fuel)
            case Exhausted => After(found, LookupEach(w, nodes[i..], steps, seen, fuel)) == SomeExhausted
            case Done(v, after) => After(found, LookupEach(w, nodes[i..], steps, seen, fuel))
                                   == After(found + [v], LookupEach(w, nodes[i + 1..], steps, after, fuel))
  {
    hide Lookup;
    assert nodes[i..][0] == nodes[i] && nodes[i..][1..] == nodes[i + 1..];
    if Lookup(w, nodes[i], steps, seen, fuel).Done? {
      var v, after := Lookup(w, nodes[i], steps, seen, fuel).verdict, Lookup(w, nodes[i], steps, seen, fuel).seen;
      var rest := LookupEach(w, nodes[i + 1..], steps, after, fuel);
      assert rest.AllDone? ==> found + ([v] + rest.verdicts) == found + [v] + rest.verdicts;
    }
  }
}
