/**
 * One lexical environment of the resolver: a map from source names to
 * identifiers. Deriving a child environment for a function body hides every
 * variable and loop label of the enclosing scopes; deriving one for a block
 * keeps them.
 */
module Environments {
  import opened Options
  import opened Locations
  import opened Identifiers

  datatype ScopeType = Block | Function

  type Environment = map<string, Identifier>

  /** How one parent binding appears in a child scope of the given type. */
  function Carry(i: Identifier, t: ScopeType): Identifier
  {
    match i
    case Variable(l) => if t == Function then InaccessibleVariable(l) else i
    case Loop(l) => if t == Function then InaccessibleLoop(l) else i
    case _ => i
  }

  /**
   * The two-argument constructor: a new environment holding every parent
   * binding as `Carry` turns it; with no parent it starts empty.
   */
  function Derive(parent: Option<Environment>, t: ScopeType): (env: Environment)
    ensures parent.None? ==> env == map[]
    ensures parent.Some? ==> env.Keys == parent.value.Keys
  {
    match parent
    case None => map[]
    case Some(p) => map n | n in p :: Carry(p[n], t)
  }

  /** The binding of `name`, or `Unbound` when it was never installed. */
  function Resolve(env: Environment, name: string): (r: Identifier)
    ensures r.Unbound? <== name !in env
    ensures name in env ==> r == env[name]
  {
    if name in env then env[name] else Unbound
  }

  /** Binds `name` to the value location numbered `nextId`, returning the location. */
  function InstallValue(env: Environment, name: string, nextId: nat): (r: (Environment, ValueLocation))
    ensures r.1.id == nextId && r.1.name == name
    ensures Resolve(r.0, name) == Value(r.1)
    ensures forall n :: n != name ==> Resolve(r.0, n) == Resolve(env, n)
  {
    var loc := ValueLocation(nextId, name);
    (env[name := Value(loc)], loc)
  }

  /** Binds `name` to the variable location numbered `nextId`, returning the location. */
  function InstallVariable(env: Environment, name: string, nextId: nat): (r: (Environment, VariableLocation))
    ensures r.1.id == nextId && r.1.name == name
    ensures Resolve(r.0, name) == Variable(r.1)
    ensures forall n :: n != name ==> Resolve(r.0, n) == Resolve(env, n)
  {
    var loc := VariableLocation(nextId, name);
    (env[name := Variable(loc)], loc)
  }

  /**
   * Binds both `name` and the reserved `NoLabel` key to the loop label
   * numbered `nextId`, so that a bare `break` finds the innermost loop.
   */
  function InstallLoop(env: Environment, name: string, nextId: nat): (r: (Environment, LoopLabel))
    ensures r.1.id == nextId && r.1.name == name
    ensures Resolve(r.0, name) == Loop(r.1)
    ensures Resolve(r.0, NoLabel) == Loop(r.1)
    ensures forall n :: n != name && n != NoLabel ==> Resolve(r.0, n) == Resolve(env, n)
  {
    var loop := LoopLabel(nextId, name);
    (env[name := Loop(loop)][NoLabel := Loop(loop)], loop)
  }

  /** A name nobody installed resolves to `Unbound`, in an environment derived from no parent. */
  lemma ResolveUninstalled(name: string)
    ensures Resolve(Derive(None, Block), name) == Unbound
    ensures Resolve(Derive(None, Function), name) == Unbound
  {
  }

  /** A block scope sees exactly its parent's bindings. */
  lemma BlockCopiesParent(p: Environment)
    ensures Derive(Some(p), Block) == p
  {
    var c := Derive(Some(p), Block);
    forall n | n in p
      ensures c[n] == p[n]
    {
      match p[n]
      case Variable(_) =>
      case Loop(_) =>
      case _ =>
    }
  }

  /**
   * A function scope resolves every name as its parent does, except that a
   * variable becomes an inaccessible variable and a loop label an
   * inaccessible loop label, each keeping its location.
   */
  lemma FunctionScopeResolution(p: Environment, name: string)
    ensures var r := Resolve(Derive(Some(p), Function), name);
            match Resolve(p, name)
            case Variable(l) => r == InaccessibleVariable(l)
            case Loop(l) => r == InaccessibleLoop(l)
            case other => r == other
  {
  }

  /** No function scope ever resolves a name to an accessible variable or loop label. */
  lemma FunctionScopeHidesMutable(p: Environment, name: string)
    ensures !Resolve(Derive(Some(p), Function), name).Variable?
    ensures !Resolve(Derive(Some(p), Function), name).Loop?
  {
  }

  /** Value, unbound and already-inaccessible bindings pass through either kind of scope. */
  lemma ImmutableBindingsPassThrough(p: Environment, name: string, t: ScopeType)
    requires !Resolve(p, name).Variable? && !Resolve(p, name).Loop?
    ensures Resolve(Derive(Some(p), t), name) == Resolve(p, name)
  {
  }

  /** Nesting a second function scope changes nothing more. */
  lemma FunctionScopeIdempotent(p: Environment)
    ensures Derive(Some(Derive(Some(p), Function)), Function) == Derive(Some(p), Function)
  {
    var once := Derive(Some(p), Function);
    var twice := Derive(Some(once), Function);
    forall n | n in once
      ensures twice[n] == once[n]
    {
      match p[n]
      case Variable(_) =>
      case Loop(_) =>
      case _ =>
    }
  }

  /** Deriving a scope keeps every binding's location identity. */
  lemma DeriveKeepsLocations(p: Environment, t: ScopeType, name: string)
    requires name in p
    ensures LocationId(Derive(Some(p), t)[name]) == LocationId(p[name])
  {
  }

}
