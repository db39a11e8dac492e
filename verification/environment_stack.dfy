/**
 * The resolver's stack of environments, innermost first, together with the
 * counter that numbers fresh locations. The source keeps one counter per
 * location class; a single counter here gives every location a distinct
 * number, which is all the source's uniqueness relies on.
 */
module EnvironmentStacks {
  import opened Options
  import opened Locations
  import opened Identifiers
  import opened Errors
  import Env = Environments

  datatype EnvironmentStack = EnvironmentStack(envs: seq<Env.Environment>, nextId: nat)

  /** A new stack holds exactly one empty environment. */
  function New(): (s: EnvironmentStack)
    ensures |s.envs| == 1 && s.envs[0] == map[]
  {
    EnvironmentStack([map[]], 0)
  }

  /** The innermost environment; `None` plays the source's `null` from an empty deque. */
  function GetCurrent(s: EnvironmentStack): (r: Option<Env.Environment>)
    ensures r.None? <==> |s.envs| == 0
  {
    if |s.envs| == 0 then None else Some(s.envs[0])
  }

  /** Pushes an environment derived from the current one with scope type `t`. */
  function EnterScope(s: EnvironmentStack, t: Env.ScopeType): (r: EnvironmentStack)
    ensures |r.envs| == |s.envs| + 1
    ensures r.envs[1..] == s.envs
    ensures GetCurrent(r) == Some(Env.Derive(GetCurrent(s), t))
    ensures r.nextId == s.nextId
  {
    EnvironmentStack([Env.Derive(GetCurrent(s), t)] + s.envs, s.nextId)
  }

  /** Pops the innermost environment; popping an empty stack fails. */
  function ExitScope(s: EnvironmentStack): (r: Result<EnvironmentStack>)
    ensures r.Failure? <==> |s.envs| == 0
    ensures r.Failure? ==> r.error == NoSuchElement
    ensures r.Success? ==> r.value.envs == s.envs[1..] && r.value.nextId == s.nextId
  {
    if |s.envs| == 0 then Failure(NoSuchElement)
    else Success(EnvironmentStack(s.envs[1..], s.nextId))
  }

  /**
   * `getCurrent().installValue(name)`: binds a fresh value location in the
   * innermost environment. On an empty stack the current environment is
   * `null` and the call fails.
   */
  function InstallValue(s: EnvironmentStack, name: string): (r: Result<(EnvironmentStack, ValueLocation)>)
    ensures r.Failure? <==> |s.envs| == 0
    ensures r.Failure? ==> r.error == NullPointer
    ensures r.Success? ==> r.value.1 == ValueLocation(s.nextId, name)
    ensures r.Success? ==> r.value.0.nextId == s.nextId + 1
    ensures r.Success? ==> |r.value.0.envs| == |s.envs| && r.value.0.envs[1..] == s.envs[1..]
    ensures r.Success? ==> Env.Resolve(r.value.0.envs[0], name) == Value(r.value.1)
    ensures r.Success? ==> forall n :: n != name ==> Env.Resolve(r.value.0.envs[0], n) == Env.Resolve(s.envs[0], n)
  {
    if |s.envs| == 0 then Failure(NullPointer)
    else
      var (env, loc) := Env.InstallValue(s.envs[0], name, s.nextId);
      Success((EnvironmentStack([env] + s.envs[1..], s.nextId + 1), loc))
  }

  /** `getCurrent().installVariable(name)`. */
  function InstallVariable(s: EnvironmentStack, name: string): (r: Result<(EnvironmentStack, VariableLocation)>)
    ensures r.Failure? <==> |s.envs| == 0
    ensures r.Failure? ==> r.error == NullPointer
    ensures r.Success? ==> r.value.1 == VariableLocation(s.nextId, name)
    ensures r.Success? ==> r.value.0.nextId == s.nextId + 1
    ensures r.Success? ==> |r.value.0.envs| == |s.envs| && r.value.0.envs[1..] == s.envs[1..]
    ensures r.Success? ==> Env.Resolve(r.value.0.envs[0], name) == Variable(r.value.1)
    ensures r.Success? ==> forall n :: n != name ==> Env.Resolve(r.value.0.envs[0], n) == Env.Resolve(s.envs[0], n)
  {
    if |s.envs| == 0 then Failure(NullPointer)
    else
      var (env, loc) := Env.InstallVariable(s.envs[0], name, s.nextId);
      Success((EnvironmentStack([env] + s.envs[1..], s.nextId + 1), loc))
  }

  /** `getCurrent().installLoop(name)`: the label also answers to the no-label key. */
  function InstallLoop(s: EnvironmentStack, name: string): (r: Result<(EnvironmentStack, LoopLabel)>)
    ensures r.Failure? <==> |s.envs| == 0
    ensures r.Failure? ==> r.error == NullPointer
    ensures r.Success? ==> r.value.1 == LoopLabel(s.nextId, name)
    ensures r.Success? ==> r.value.0.nextId == s.nextId + 1
    ensures r.Success? ==> |r.value.0.envs| == |s.envs| && r.value.0.envs[1..] == s.envs[1..]
    ensures r.Success? ==> Env.Resolve(r.value.0.envs[0], name) == Loop(r.value.1)
    ensures r.Success? ==> Env.Resolve(r.value.0.envs[0], NoLabel) == Loop(r.value.1)
    ensures r.Success? ==> forall n :: n != name && n != NoLabel ==>
                             Env.Resolve(r.value.0.envs[0], n) == Env.Resolve(s.envs[0], n)
  {
    if |s.envs| == 0 then Failure(NullPointer)
    else
      var (env, loop) := Env.InstallLoop(s.envs[0], name, s.nextId);
      Success((EnvironmentStack([env] + s.envs[1..], s.nextId + 1), loop))
  }

  /** Every location bound anywhere on the stack was numbered before the counter. */
  ghost predicate Fresh(s: EnvironmentStack)
  {
    forall i, n :: 0 <= i < |s.envs| && n in s.envs[i] ==> DrawnBefore(s.envs[i][n], s.nextId)
  }

  lemma NewIsFresh()
    ensures Fresh(New())
  {
  }

  lemma EnterScopeKeepsFresh(s: EnvironmentStack, t: Env.ScopeType)
    requires Fresh(s)
    ensures Fresh(EnterScope(s, t))
  {
    var r := EnterScope(s, t);
    forall i, n | 0 <= i < |r.envs| && n in r.envs[i]
      ensures DrawnBefore(r.envs[i][n], r.nextId)
    {
      if i == 0 {
        Env.DeriveKeepsLocations(s.envs[0], t, n);
      } else {
        assert r.envs[i] == s.envs[i - 1];
      }
    }
  }

  lemma ExitScopeKeepsFresh(s: EnvironmentStack)
    requires Fresh(s) && |s.envs| > 0
    ensures Fresh(ExitScope(s).value)
  {
    var r := ExitScope(s).value;
    forall i, n | 0 <= i < |r.envs| && n in r.envs[i]
      ensures DrawnBefore(r.envs[i][n], r.nextId)
    {
      assert r.envs[i] == s.envs[i + 1];
    }
  }

  lemma InstallValueKeepsFresh(s: EnvironmentStack, name: string)
    requires Fresh(s) && |s.envs| > 0
    ensures Fresh(InstallValue(s, name).value.0)
  {
    var r := InstallValue(s, name).value.0;
    forall i, n | 0 <= i < |r.envs| && n in r.envs[i]
      ensures DrawnBefore(r.envs[i][n], r.nextId)
    {
      if i == 0 {
        if n != name {
          assert r.envs[0][n] == Env.Resolve(s.envs[0], n);
        }
      } else {
        assert r.envs[i] == s.envs[i];
      }
    }
  }

  lemma InstallVariableKeepsFresh(s: EnvironmentStack, name: string)
    requires Fresh(s) && |s.envs| > 0
    ensures Fresh(InstallVariable(s, name).value.0)
  {
    var r := InstallVariable(s, name).value.0;
    forall i, n | 0 <= i < |r.envs| && n in r.envs[i]
      ensures DrawnBefore(r.envs[i][n], r.nextId)
    {
      if i == 0 {
        if n != name {
          assert r.envs[0][n] == Env.Resolve(s.envs[0], n);
        }
      } else {
        assert r.envs[i] == s.envs[i];
      }
    }
  }

  lemma InstallLoopKeepsFresh(s: EnvironmentStack, name: string)
    requires Fresh(s) && |s.envs| > 0
    ensures Fresh(InstallLoop(s, name).value.0)
  {
    var r := InstallLoop(s, name).value.0;
    forall i, n | 0 <= i < |r.envs| && n in r.envs[i]
      ensures DrawnBefore(r.envs[i][n], r.nextId)
    {
      if i == 0 {
        if n != name && n != NoLabel {
          assert r.envs[0][n] == Env.Resolve(s.envs[0], n);
        }
      } else {
        assert r.envs[i] == s.envs[i];
      }
    }
  }

  /**
   * Alpha-renaming safety: the location `installValue` returns differs from
   * every location bound anywhere on the stack beforehand, even one
   * installed under the same name.
   */
  lemma InstalledValueIsNew(s: EnvironmentStack, name: string, i: nat, n: string)
    requires Fresh(s) && |s.envs| > 0
    requires i < |s.envs| && n in s.envs[i]
    ensures s.envs[i][n] != Value(InstallValue(s, name).value.1)
  {
    assert DrawnBefore(s.envs[i][n], s.nextId);
  }

  /** The same guarantee for variables. */
  lemma InstalledVariableIsNew(s: EnvironmentStack, name: string, i: nat, n: string)
    requires Fresh(s) && |s.envs| > 0
    requires i < |s.envs| && n in s.envs[i]
    ensures s.envs[i][n] != Variable(InstallVariable(s, name).value.1)
    ensures s.envs[i][n] != InaccessibleVariable(InstallVariable(s, name).value.1)
  {
    assert DrawnBefore(s.envs[i][n], s.nextId);
  }

  /** The same guarantee for loop labels, so a `break` never names an older loop. */
  lemma InstalledLoopIsNew(s: EnvironmentStack, name: string, i: nat, n: string)
    requires Fresh(s) && |s.envs| > 0
    requires i < |s.envs| && n in s.envs[i]
    ensures s.envs[i][n] != Loop(InstallLoop(s, name).value.1)
    ensures s.envs[i][n] != InaccessibleLoop(InstallLoop(s, name).value.1)
  {
    assert DrawnBefore(s.envs[i][n], s.nextId);
  }

  /** Entering and then leaving a scope restores the stack. */
  lemma EnterThenExit(s: EnvironmentStack, t: Env.ScopeType)
    ensures ExitScope(EnterScope(s, t)) == Success(s)
  {
  }

  /**
   * A name installed inside a scope is gone once the scope is left: the
   * current environment is the one from before `enterScope`.
   */
  lemma InstallInsideScopeIsLocal(s: EnvironmentStack, t: Env.ScopeType, name: string)
    ensures var inner := InstallValue(EnterScope(s, t), name).value.0;
            ExitScope(inner).Success? && GetCurrent(ExitScope(inner).value) == GetCurrent(s)
  {
    var inner := InstallValue(EnterScope(s, t), name).value.0;
    assert inner.envs[1..] == s.envs;
  }

}
