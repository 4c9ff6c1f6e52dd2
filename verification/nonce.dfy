/**
 Nonces of opaque origins.  A nonce draws its token only when somebody looks at it; to its
 users it behaves as if every nonce had its own identity from the start.

 Both views are state machines over the same operations.  An object is named by a value of
 any type O; in the class below it is the object itself.  Tokens come from a source that
 never repeats itself and never yields the empty token, which stands for "not drawn yet".
 */
module NonceMachine {
  type Token = nat

  const EMPTY: Token := 0

  ghost predicate FreshSource(create: nat -> Token) {
    && (forall i :: create(i) != EMPTY)
    && (forall i, j :: i != j ==> create(i) != create(j))
  }

  datatype Op<O> =
    | Construct(o: O)
    | CopyConstruct(o: O, from: O)
    | CopyAssign(o: O, from: O)
    | MoveConstruct(o: O, from: O)
    | MoveAssign(o: O, from: O)
    | ReadToken(o: O)
    | Less(o: O, other: O, leftFirst: bool)  // C++ leaves the order of the operands open
    | Equal(o: O, other: O)
    | Destroy(o: O)

  datatype Seen = Nothing | SawToken(token: Token) | Verdict(holds: bool)

  predicate Enabled<O(==)>(objects: set<O>, op: Op<O>) {
    match op
    case Construct(o) => o !in objects
    case CopyConstruct(o, from) => o !in objects && from in objects
    case CopyAssign(o, from) => o in objects && from in objects
    case MoveConstruct(o, from) => o !in objects && from in objects
    case MoveAssign(o, from) => o in objects && from in objects
    case ReadToken(o) => o in objects
    case Less(o, other, _) => o in objects && other in objects
    case Equal(o, other) => o in objects && other in objects
    case Destroy(o) => o in objects
  }

  // ---------- the nonces as they are: the token is drawn when it is needed ----------

  datatype Lazy<O> = Lazy(tokens: map<O, Token>, issued: nat)

  function Draw<O(==)>(create: nat -> Token, s: Lazy<O>, o: O): (r: Lazy<O>)
    requires o in s.tokens
    ensures r.tokens.Keys == s.tokens.Keys
  {
    if s.tokens[o] == EMPTY then Lazy(s.tokens[o := create(s.issued)], s.issued + 1) else s
  }

  function DrawBoth<O(==)>(create: nat -> Token, s: Lazy<O>, o: O, other: O, leftFirst: bool): (r: Lazy<O>)
    requires o in s.tokens && other in s.tokens
    ensures r.tokens.Keys == s.tokens.Keys
  {
    if leftFirst then Draw(create, Draw(create, s, o), other) else Draw(create, Draw(create, s, other), o)
  }

  predicate LazyEqual<O(==)>(s: Lazy<O>, o: O, other: O)
    requires o in s.tokens && other in s.tokens
  {
    s.tokens[other] == s.tokens[o] && !(s.tokens[o] == EMPTY && other != o)
  }

  function LazyStep<O(==)>(create: nat -> Token, s: Lazy<O>, op: Op<O>): Lazy<O>
    requires Enabled(s.tokens.Keys, op)
  {
    match op
    case Construct(o) => s.(tokens := s.tokens[o := EMPTY])
    case CopyConstruct(o, from) => var d := Draw(create, s, from); d.(tokens := d.tokens[o := d.tokens[from]])
    case CopyAssign(o, from) => var d := Draw(create, s, from); d.(tokens := d.tokens[o := d.tokens[from]])
    case MoveConstruct(o, from) => s.(tokens := s.tokens[o := s.tokens[from]][from := EMPTY])
    case MoveAssign(o, from) => s.(tokens := s.tokens[o := s.tokens[from]][from := EMPTY])
    case ReadToken(o) => Draw(create, s, o)
    case Less(o, other, leftFirst) => DrawBoth(create, s, o, other, leftFirst)
    case Equal(o, other) => s
    case Destroy(o) => s.(tokens := s.tokens - {o})
  }

  function LazySeen<O(==)>(create: nat -> Token, s: Lazy<O>, op: Op<O>): Seen
    requires Enabled(s.tokens.Keys, op)
  {
    match op
    case ReadToken(o) => SawToken(Draw(create, s, o).tokens[o])
    case Less(o, other, leftFirst) =>
      var d := DrawBoth(create, s, o, other, leftFirst);
      Verdict(d.tokens[o] < d.tokens[other])
    case Equal(o, other) => Verdict(LazyEqual(s, o, other))
    case _ => Nothing
  }

  // ---------- the nonces as they should be: an identity each, from the start ----------

  datatype Eager<O> = Eager(ids: map<O, nat>, next: nat)

  // Copying shares the identity; moving transfers it and leaves a new one behind.
  function EagerStep<O(==)>(s: Eager<O>, op: Op<O>): Eager<O>
    requires Enabled(s.ids.Keys, op)
  {
    match op
    case Construct(o) => Eager(s.ids[o := s.next], s.next + 1)
    case CopyConstruct(o, from) => s.(ids := s.ids[o := s.ids[from]])
    case CopyAssign(o, from) => s.(ids := s.ids[o := s.ids[from]])
    case MoveConstruct(o, from) => Eager(s.ids[o := s.ids[from]][from := s.next], s.next + 1)
    case MoveAssign(o, from) => Eager(s.ids[o := s.ids[from]][from := s.next], s.next + 1)
    case Destroy(o) => s.(ids := s.ids - {o})
    case _ => s
  }

  function TokenOf(name: map<nat, Token>, id: nat): Token {
    if id in name then name[id] else EMPTY
  }

  function EagerSeen<O(==)>(name: map<nat, Token>, s: Eager<O>, op: Op<O>): Seen
    requires Enabled(s.ids.Keys, op)
  {
    match op
    case ReadToken(o) => SawToken(TokenOf(name, s.ids[o]))
    case Less(o, other, _) => Verdict(TokenOf(name, s.ids[o]) < TokenOf(name, s.ids[other]))
    case Equal(o, other) => Verdict(s.ids[o] == s.ids[other])
    case _ => Nothing
  }

  // ---------- runs ----------

  ghost predicate Possible<O>(objects: set<O>, ops: seq<Op<O>>)
    decreases |ops|
  {
    ops != [] ==> Enabled(objects, ops[0]) && Possible(ObjectsAfter(objects, ops[0]), ops[1..])
  }

  ghost function ObjectsAfter<O>(objects: set<O>, op: Op<O>): set<O> {
    match op
    case Construct(o) => objects + {o}
    case CopyConstruct(o, _) => objects + {o}
    case MoveConstruct(o, _) => objects + {o}
    case Destroy(o) => objects - {o}
    case _ => objects
  }

  lemma LazyObjects<O>(create: nat -> Token, s: Lazy<O>, op: Op<O>)
    requires Enabled(s.tokens.Keys, op)
    ensures LazyStep(create, s, op).tokens.Keys == ObjectsAfter(s.tokens.Keys, op)
  {
  }

  lemma EagerObjects<O>(s: Eager<O>, op: Op<O>)
    requires Enabled(s.ids.Keys, op)
    ensures EagerStep(s, op).ids.Keys == ObjectsAfter(s.ids.Keys, op)
  {
  }

  ghost function LazyRun<O>(create: nat -> Token, s: Lazy<O>, ops: seq<Op<O>>): (Lazy<O>, seq<Seen>)
    requires Possible(s.tokens.Keys, ops)
    decreases |ops|
  {
    if ops == [] then (s, [])
    else
      LazyObjects(create, s, ops[0]);
      var rest := LazyRun(create, LazyStep(create, s, ops[0]), ops[1..]);
      (rest.0, [LazySeen(create, s, ops[0])] + rest.1)
  }

  ghost function EagerRun<O>(name: map<nat, Token>, s: Eager<O>, ops: seq<Op<O>>): (Eager<O>, seq<Seen>)
    requires Possible(s.ids.Keys, ops)
    decreases |ops|
  {
    if ops == [] then (s, [])
    else
      EagerObjects(s, ops[0]);
      var rest := EagerRun(name, EagerStep(s, ops[0]), ops[1..]);
      (rest.0, [EagerSeen(name, s, ops[0])] + rest.1)
  }

  ghost function NoNonces<O>(): (s: Lazy<O>)
    ensures s.tokens.Keys == {}
  {
    Lazy(map[], 0)
  }

  ghost function NoIdentities<O>(): (s: Eager<O>)
    ensures s.ids.Keys == {}
  {
    Eager(map[], 0)
  }

  // ---------- lazy nonces refine eager ones ----------

  ghost predicate Issued(create: nat -> Token, n: nat, t: Token) {
    exists k :: 0 <= k < n && create(k) == t
  }

  ghost predicate Injective(name: map<nat, Token>) {
    forall i, j :: i in name && j in name && name[i] == name[j] ==> i == j
  }

  ghost predicate Extends(name: map<nat, Token>, more: map<nat, Token>) {
    forall i :: i in name ==> i in more && more[i] == name[i]
  }

  // The identities that somebody has looked at are named by the tokens drawn for them; an
  // object without a token is the only one with its identity.
  ghost predicate Related<O>(create: nat -> Token, l: Lazy<O>, e: Eager<O>, name: map<nat, Token>) {
    && l.tokens.Keys == e.ids.Keys
    && Injective(name)
    && (forall i :: i in name ==> i < e.next && Issued(create, l.issued, name[i]))
    && (forall o :: o in e.ids ==> e.ids[o] < e.next)
    && (forall o :: o in e.ids ==> l.tokens[o] == TokenOf(name, e.ids[o]))
    && (forall o, p :: o in e.ids && p in e.ids && o != p && e.ids[o] == e.ids[p] ==> e.ids[o] in name)
  }

  lemma NotIssuedYet(create: nat -> Token, n: nat)
    requires FreshSource(create)
    ensures !Issued(create, n, create(n))
  {
  }

  lemma NamesAreTokens(create: nat -> Token, n: nat, t: Token)
    requires FreshSource(create) && Issued(create, n, t)
    ensures t != EMPTY && Issued(create, n + 1, t)
  {
  }

  lemma DrawRelated<O>(create: nat -> Token, l: Lazy<O>, e: Eager<O>, name: map<nat, Token>, o: O)
    returns (more: map<nat, Token>)
    requires FreshSource(create) && Related(create, l, e, name) && o in e.ids
    ensures Related(create, Draw(create, l, o), e, more) && Extends(name, more) && e.ids[o] in more
  {
    more := name;
    if e.ids[o] in name {
      NamesAreTokens(create, l.issued, name[e.ids[o]]);
    } else {
      var t := create(l.issued);
      NotIssuedYet(create, l.issued);
      more := name[e.ids[o] := t];
      forall i | i in more ensures Issued(create, l.issued + 1, more[i]) {
        if i in name { NamesAreTokens(create, l.issued, name[i]); }
      }
    }
  }

  lemma NewRelated<O>(create: nat -> Token, l: Lazy<O>, e: Eager<O>, name: map<nat, Token>, o: O)
    requires Related(create, l, e, name)
    ensures Related(create, l.(tokens := l.tokens[o := EMPTY]), Eager(e.ids[o := e.next], e.next + 1), name)
  {
  }

  lemma CopyRelated<O>(create: nat -> Token, l: Lazy<O>, e: Eager<O>, name: map<nat, Token>, o: O, from: O)
    requires Related(create, l, e, name) && from in e.ids && e.ids[from] in name
    ensures Related(create, l.(tokens := l.tokens[o := l.tokens[from]]), e.(ids := e.ids[o := e.ids[from]]), name)
  {
  }

  lemma MoveRelated<O>(create: nat -> Token, l: Lazy<O>, e: Eager<O>, name: map<nat, Token>, o: O, from: O)
    requires Related(create, l, e, name) && from in e.ids
    ensures Related(create, l.(tokens := l.tokens[o := l.tokens[from]][from := EMPTY]),
                    Eager(e.ids[o := e.ids[from]][from := e.next], e.next + 1), name)
  {
  }

  lemma DestroyRelated<O>(create: nat -> Token, l: Lazy<O>, e: Eager<O>, name: map<nat, Token>, o: O)
    requires Related(create, l, e, name)
    ensures Related(create, l.(tokens := l.tokens - {o}), e.(ids := e.ids - {o}), name)
  {
  }

  lemma SeenTokens<O>(create: nat -> Token, l: Lazy<O>, e: Eager<O>, name: map<nat, Token>, last: map<nat, Token>, o: O)
    requires Related(create, l, e, name) && o in e.ids && e.ids[o] in name && Extends(name, last)
    ensures l.tokens[o] == TokenOf(last, e.ids[o])
  {
  }

  // The step op keeps the relation, with more names, and shows the same on both sides.
  ghost predicate Refines<O>(create: nat -> Token, l: Lazy<O>, e: Eager<O>, name: map<nat, Token>, op: Op<O>, more: map<nat, Token>)
    requires Enabled(l.tokens.Keys, op) && Enabled(e.ids.Keys, op)
  {
    && Extends(name, more) && Related(create, LazyStep(create, l, op), EagerStep(e, op), more)
    && forall last :: Extends(more, last) ==> LazySeen(create, l, op) == EagerSeen(last, e, op)
  }

  lemma OwnStep<O>(create: nat -> Token, l: Lazy<O>, e: Eager<O>, name: map<nat, Token>, op: Op<O>)
    requires FreshSource(create) && Related(create, l, e, name) && Enabled(e.ids.Keys, op) && (op.Construct? || op.Destroy?)
    ensures l.tokens.Keys == e.ids.Keys && Refines(create, l, e, name, op, name)
  {
    assert l.tokens.Keys == e.ids.Keys;
    hide Related, Extends, TokenOf, FreshSource;
    Reflexive(name);
    if op.Construct? { NewRelated(create, l, e, name, op.o); } else { DestroyRelated(create, l, e, name, op.o); }
  }

  lemma CopyingStep<O>(create: nat -> Token, l: Lazy<O>, e: Eager<O>, name: map<nat, Token>, op: Op<O>)
    returns (more: map<nat, Token>)
    requires FreshSource(create) && Related(create, l, e, name) && Enabled(e.ids.Keys, op) && (op.CopyConstruct? || op.CopyAssign?)
    ensures l.tokens.Keys == e.ids.Keys && Refines(create, l, e, name, op, more)
  {
    assert l.tokens.Keys == e.ids.Keys;
    hide Related, Extends, Draw, TokenOf, FreshSource;
    more := CopyStep(create, l, e, name, op.o, op.from);
  }

  lemma MovingStep<O>(create: nat -> Token, l: Lazy<O>, e: Eager<O>, name: map<nat, Token>, op: Op<O>)
    requires FreshSource(create) && Related(create, l, e, name) && Enabled(e.ids.Keys, op) && (op.MoveConstruct? || op.MoveAssign?)
    ensures l.tokens.Keys == e.ids.Keys && Refines(create, l, e, name, op, name)
  {
    assert l.tokens.Keys == e.ids.Keys;
    hide Related, Extends, Draw, TokenOf, FreshSource;
    Reflexive(name);
    MoveRelated(create, l, e, name, op.o, op.from);
  }

  lemma LookingStep<O>(create: nat -> Token, l: Lazy<O>, e: Eager<O>, name: map<nat, Token>, op: Op<O>)
    returns (more: map<nat, Token>)
    requires FreshSource(create) && Related(create, l, e, name) && Enabled(e.ids.Keys, op)
    requires op.ReadToken? || op.Less? || op.Equal?
    ensures l.tokens.Keys == e.ids.Keys && Refines(create, l, e, name, op, more)
  {
    assert l.tokens.Keys == e.ids.Keys;
    hide Related, Extends, Draw, DrawBoth, TokenOf, FreshSource;
    more := name;
    Reflexive(name);
    if op.ReadToken? {
      more := ReadStep(create, l, e, name, op.o);
    } else if op.Less? {
      more := LessStep(create, l, e, name, op.o, op.other, op.leftFirst);
    } else {
      EqualRelated(create, l, e, name, op.o, op.other);
    }
  }

  lemma {:induction false} StepRelated<O>(create: nat -> Token, l: Lazy<O>, e: Eager<O>, name: map<nat, Token>, op: Op<O>)
    returns (more: map<nat, Token>)
    requires FreshSource(create) && Related(create, l, e, name) && Enabled(e.ids.Keys, op)
    ensures l.tokens.Keys == e.ids.Keys && Refines(create, l, e, name, op, more)
  {
    hide Related, FreshSource, Refines, Enabled;
    more := name;
    match op
    case Construct(_) => OwnStep(create, l, e, name, op);
    case Destroy(_) => OwnStep(create, l, e, name, op);
    case CopyConstruct(_, _) => more := CopyingStep(create, l, e, name, op);
    case CopyAssign(_, _) => more := CopyingStep(create, l, e, name, op);
    case MoveConstruct(_, _) => MovingStep(create, l, e, name, op);
    case MoveAssign(_, _) => MovingStep(create, l, e, name, op);
    case _ => more := LookingStep(create, l, e, name, op);
  }

  lemma Reflexive(name: map<nat, Token>)
    ensures Extends(name, name)
  {
  }

  lemma Transitive(name: map<nat, Token>, mid: map<nat, Token>, more: map<nat, Token>)
    requires Extends(name, mid) && Extends(mid, more)
    ensures Extends(name, more) && forall i :: i in mid ==> i in more
  {
  }

  lemma CopyStep<O>(create: nat -> Token, l: Lazy<O>, e: Eager<O>, name: map<nat, Token>, o: O, from: O)
    returns (more: map<nat, Token>)
    requires FreshSource(create) && Related(create, l, e, name) && from in e.ids
    ensures from in l.tokens && Extends(name, more)
    ensures var d := Draw(create, l, from);
      Related(create, d.(tokens := d.tokens[o := d.tokens[from]]), e.(ids := e.ids[o := e.ids[from]]), more)
  {
    assert l.tokens.Keys == e.ids.Keys;
    hide Related, Extends, Draw, FreshSource;
    more := DrawRelated(create, l, e, name, from);
    CopyRelated(create, Draw(create, l, from), e, more, o, from);
  }

  lemma ReadStep<O>(create: nat -> Token, l: Lazy<O>, e: Eager<O>, name: map<nat, Token>, o: O)
    returns (more: map<nat, Token>)
    requires FreshSource(create) && Related(create, l, e, name) && o in e.ids
    ensures l.tokens.Keys == e.ids.Keys && Extends(name, more)
    ensures var d := Draw(create, l, o);
      && Related(create, d, e, more)
      && forall last :: Extends(more, last) ==> d.tokens[o] == TokenOf(last, e.ids[o])
  {
    assert l.tokens.Keys == e.ids.Keys;
    hide Related, Extends, Draw, FreshSource, TokenOf;
    more := DrawRelated(create, l, e, name, o);
    var d := Draw(create, l, o);
    forall last | Extends(more, last) ensures d.tokens[o] == TokenOf(last, e.ids[o]) {
      SeenTokens(create, d, e, more, last, o);
    }
  }

  lemma LessStep<O>(create: nat -> Token, l: Lazy<O>, e: Eager<O>, name: map<nat, Token>, o: O, other: O, leftFirst: bool)
    returns (more: map<nat, Token>)
    requires FreshSource(create) && Related(create, l, e, name) && o in e.ids && other in e.ids
    ensures l.tokens.Keys == e.ids.Keys && Extends(name, more)
    ensures var d := DrawBoth(create, l, o, other, leftFirst);
      && Related(create, d, e, more)
      && forall last :: Extends(more, last) ==>
           d.tokens[o] == TokenOf(last, e.ids[o]) && d.tokens[other] == TokenOf(last, e.ids[other])
  {
    assert l.tokens.Keys == e.ids.Keys;
    hide Related, Extends, Draw, FreshSource, TokenOf;
    var first, second := if leftFirst then o else other, if leftFirst then other else o;
    var mid := DrawRelated(create, l, e, name, first);
    more := DrawRelated(create, Draw(create, l, first), e, mid, second);
    Transitive(name, mid, more);
    var d := DrawBoth(create, l, o, other, leftFirst);
    forall last | Extends(more, last)
      ensures d.tokens[o] == TokenOf(last, e.ids[o]) && d.tokens[other] == TokenOf(last, e.ids[other])
    {
      SeenTokens(create, d, e, more, last, o);
      SeenTokens(create, d, e, more, last, other);
    }
  }

  lemma EqualRelated<O>(create: nat -> Token, l: Lazy<O>, e: Eager<O>, name: map<nat, Token>, o: O, other: O)
    requires FreshSource(create) && Related(create, l, e, name) && o in e.ids && other in e.ids
    ensures LazyEqual(l, o, other) <==> e.ids[o] == e.ids[other]
  {
    if e.ids[o] in name { NamesAreTokens(create, l.issued, name[e.ids[o]]); }
    if e.ids[other] in name { NamesAreTokens(create, l.issued, name[e.ids[other]]); }
  }

  lemma {:induction false} RunRelated<O>(create: nat -> Token, l: Lazy<O>, e: Eager<O>, name: map<nat, Token>, ops: seq<Op<O>>)
    returns (last: map<nat, Token>)
    requires FreshSource(create) && Related(create, l, e, name) && Possible(e.ids.Keys, ops)
    ensures Extends(name, last)
    ensures LazyRun(create, l, ops).1 == EagerRun(last, e, ops).1
    ensures Related(create, LazyRun(create, l, ops).0, EagerRun(last, e, ops).0, last)
    decreases |ops|
  {
    hide Related;
    last := name;
    Reflexive(name);
    if ops != [] {
      var more := StepRelated(create, l, e, name, ops[0]);
      LazyObjects(create, l, ops[0]);
      EagerObjects(e, ops[0]);
      last := RunRelated(create, LazyStep(create, l, ops[0]), EagerStep(e, ops[0]), more, ops[1..]);
      Transitive(name, more, last);
    }
  }

  // Every run shows its users what eager nonces would show them, for some choice of distinct
  // nonempty tokens, one to an identity.
  lemma {:induction false} LazyRefinesEager<O>(create: nat -> Token, ops: seq<Op<O>>) returns (name: map<nat, Token>)
    requires FreshSource(create) && Possible<O>({}, ops)
    ensures Injective(name) && EMPTY !in name.Values
    ensures LazyRun<O>(create, NoNonces(), ops).1 == EagerRun<O>(name, NoIdentities(), ops).1
  {
    name := RunRelated<O>(create, NoNonces(), NoIdentities(), map[], ops);
    forall i | i in name ensures name[i] != EMPTY {
      NamesAreTokens(create, LazyRun<O>(create, NoNonces(), ops).0.issued, name[i]);
    }
  }

  // After every run, two objects are equal exactly when they have the same identity.
  lemma {:induction false} EqualIffSameIdentity<O>(create: nat -> Token, ops: seq<Op<O>>, o: O, other: O)
    requires FreshSource(create) && Possible<O>({}, ops)
    requires o in EagerRun<O>(map[], NoIdentities(), ops).0.ids && other in EagerRun<O>(map[], NoIdentities(), ops).0.ids
    ensures var l := LazyRun<O>(create, NoNonces(), ops).0;
      var e := EagerRun<O>(map[], NoIdentities(), ops).0;
      l.tokens.Keys == e.ids.Keys && (LazyEqual(l, o, other) <==> e.ids[o] == e.ids[other])
  {
    var name := RunRelated<O>(create, NoNonces(), NoIdentities(), map[], ops);
    NamesDoNotMatter<O>(name, map[], NoIdentities(), ops);
    EqualRelated(create, LazyRun<O>(create, NoNonces(), ops).0, EagerRun<O>(name, NoIdentities(), ops).0, name, o, other);
  }

  lemma {:induction false} NamesDoNotMatter<O>(name: map<nat, Token>, other: map<nat, Token>, e: Eager<O>, ops: seq<Op<O>>)
    requires Possible(e.ids.Keys, ops)
    ensures EagerRun(name, e, ops).0 == EagerRun(other, e, ops).0
    decreases |ops|
  {
    if ops != [] {
      EagerObjects(e, ops[0]);
      NamesDoNotMatter(name, other, EagerStep(e, ops[0]), ops[1..]);
    }
  }
}

/** The nonce object itself, and how each of its members is a step of the machine. */
module Nonces {
  import opened NonceMachine

  class TokenSource {
    const create: nat -> Token
    var issued: nat

    constructor (create: nat -> Token)
      ensures this.create == create && issued == 0
    {
      this.create := create;
      issued := 0;
    }

    method Create() returns (t: Token)
      modifies this
      ensures t == create(old(issued)) && issued == old(issued) + 1
    {
      t := create(issued);
      issued := issued + 1;
    }
  }

  // The machine state that the given objects and the source are in.
  ghost function View(world: set<Nonce>, source: TokenSource): (s: Lazy<Nonce>)
    reads world, source
    ensures s.tokens.Keys == world
  {
    Lazy(map n | n in world :: n.token, source.issued)
  }

  class Nonce {
    var token: Token

    constructor (ghost world: set<Nonce>, ghost source: TokenSource)
      ensures this !in world
      ensures View(world + {this}, source) == LazyStep(source.create, old(View(world, source)), Construct(this))
    {
      token := EMPTY;
      new;
      assert View(world + {this}, source).tokens == old(View(world, source)).tokens[this := EMPTY];
    }

    method GetToken(source: TokenSource, ghost world: set<Nonce>) returns (t: Token)
      requires this in world
      modifies this, source
      ensures token == t
      ensures View(world, source) == LazyStep(source.create, old(View(world, source)), ReadToken(this))
      ensures SawToken(t) == LazySeen(source.create, old(View(world, source)), ReadToken(this))
    {
      if token == EMPTY {
        ghost var before := View(world, source);
        token := source.Create();
        assert View(world, source).tokens == before.tokens[this := token];
      }
      t := token;
    }

    // The nonce drawn before the copy exists is the other one.
    constructor Copy(other: Nonce, source: TokenSource, ghost world: set<Nonce>)
      requires other in world
      modifies other, source
      ensures this !in world
      ensures View(world + {this}, source)
           == LazyStep(source.create, old(View(world, source)), CopyConstruct(this, other))
    {
      var t := other.GetToken(source, world);
      token := t;
      new;
      assert View(world + {this}, source).tokens
          == Draw(source.create, old(View(world, source)), other).tokens[this := token];
    }

    method Assign(other: Nonce, source: TokenSource, ghost world: set<Nonce>)
      requires this in world && other in world
      modifies this, other, source
      ensures View(world, source) == LazyStep(source.create, old(View(world, source)), CopyAssign(this, other))
    {
      var t := other.GetToken(source, world);
      ghost var drawn := View(world, source);
      token := t;
      assert View(world, source).tokens == drawn.tokens[this := token];
    }

    constructor Move(other: Nonce, ghost source: TokenSource, ghost world: set<Nonce>)
      requires other in world
      modifies other
      ensures this !in world
      ensures View(world + {this}, source)
           == LazyStep(source.create, old(View(world, source)), MoveConstruct(this, other))
    {
      token := other.token;
      new;
      other.token := EMPTY;
      assert View(world + {this}, source).tokens
          == old(View(world, source)).tokens[this := old(other.token)][other := EMPTY];
    }

    method MoveFrom(other: Nonce, ghost source: TokenSource, ghost world: set<Nonce>)
      requires this in world && other in world
      modifies this, other
      ensures View(world, source) == LazyStep(source.create, old(View(world, source)), MoveAssign(this, other))
    {
      token := other.token;
      other.token := EMPTY;
      assert View(world, source).tokens
          == old(View(world, source)).tokens[this := old(other.token)][other := EMPTY];
    }

    method IsLess(other: Nonce, leftFirst: bool, source: TokenSource, ghost world: set<Nonce>) returns (less: bool)
      requires this in world && other in world
      modifies this, other, source
      ensures View(world, source) == LazyStep(source.create, old(View(world, source)), Less(this, other, leftFirst))
      ensures Verdict(less) == LazySeen(source.create, old(View(world, source)), Less(this, other, leftFirst))
    {
      // Both calls yield references, read when both tokens are there.
      if leftFirst {
        var _ := GetToken(source, world);
        var _ := other.GetToken(source, world);
      } else {
        var _ := other.GetToken(source, world);
        var _ := GetToken(source, world);
      }
      less := token < other.token;
      assert View(world, source).tokens[this] == token && View(world, source).tokens[other] == other.token;
    }

    method Equals(other: Nonce, ghost source: TokenSource, ghost world: set<Nonce>) returns (equal: bool)
      requires this in world && other in world
      ensures Verdict(equal) == LazySeen(source.create, View(world, source), Equal(this, other))
    {
      equal := other.token == token && !(token == EMPTY && other != this);
    }
  }
}
