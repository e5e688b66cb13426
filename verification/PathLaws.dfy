/**
 What the registration policy's prefix test promises about the place a path names. The test compares
 components as they are written, so a path may pass it and still leave the prefix through `..`.
 */
module PathLaws {
  import opened Basics
  import opened Policies

  /** The path starts at the root. */
  predicate FromRoot(path: Path) {
    |path.components| > 0 && path.components[0] == RootDir
  }

  /** The path agrees with the prefix in each of the prefix's components. */
  predicate Agrees(path: Path, prefix: Path) {
    && |prefix.components| <= |path.components|
    && forall k :: 0 <= k < |prefix.components| ==> path.components[k] == prefix.components[k]
  }

  /** The path starts at the root and agrees with one of the listed prefixes. */
  predicate Permits(prefixes: seq<Path>, path: Path) {
    FromRoot(path) && exists i :: 0 <= i < |prefixes| && Agrees(path, prefixes[i])
  }

  lemma PrefixMeaning(path: Path, prefix: Path)
    ensures path.StartsWith(prefix) <==> Agrees(path, prefix)
  {
    if Agrees(path, prefix) {
      assert path.components[..|prefix.components|] == prefix.components;
    }
  }

  /** The policy allows exactly the paths that agree with one of its prefixes, component by component. */
  lemma AllowedMeaning(policy: RegistrationPolicy, path: Path)
    ensures policy.IpcPathIsAllowed(path) <==> Permits(policy.allowedIpcPathPrefixes, path)
  {
    var prefixes := policy.allowedIpcPathPrefixes;
    if policy.IpcPathIsAllowed(path) {
      var prefix :| prefix in prefixes && path.StartsWith(prefix);
      PrefixMeaning(path, prefix);
      var i :| 0 <= i < |prefixes| && prefixes[i] == prefix;
      assert Agrees(path, prefixes[i]);
    }
    if Permits(prefixes, path) {
      var i :| 0 <= i < |prefixes| && Agrees(path, prefixes[i]);
      PrefixMeaning(path, prefixes[i]);
      assert prefixes[i] in prefixes;
    }
  }

  /** One step of walking a path from a directory, given by its names from the root; links are not followed. */
  function Enter(at: seq<string>, component: Component): seq<string> {
    match component
    case Normal(name) => at + [name]
    case ParentDir => if at == [] then [] else at[..|at| - 1]
    case CurDir => at
    case RootDir => at
  }

  /** Where a walk along `components` from `at` ends. */
  function Walk(at: seq<string>, components: seq<Component>): seq<string> {
    if components == [] then at
    else Enter(Walk(at, components[..|components| - 1]), components[|components| - 1])
  }

  /** How many directories below its start a walk ends, if it never climbs above it. */
  function Depth(components: seq<Component>): int {
    if components == [] then 0
    else
      Depth(components[..|components| - 1]) +
      match components[|components| - 1]
      case Normal(_) => 1
      case ParentDir => -1
      case CurDir => 0
      case RootDir => 0
  }

  /** The part of a path that follows one of its prefixes. */
  function Below(path: Path, prefix: Path): seq<Component>
    requires path.StartsWith(prefix)
  {
    path.components[|prefix.components|..]
  }

  predicate ClimbsOut(components: seq<Component>) {
    exists k :: 0 <= k <= |components| && Depth(components[..k]) < 0
  }

  /** The walk along `path` is below the directory that `prefix` names from the end of `prefix` on. */
  ghost predicate StaysUnder(path: Path, prefix: Path)
    requires path.StartsWith(prefix)
  {
    forall n :: |prefix.components| <= n <= |path.components| ==>
      Walk([], prefix.components) <= Walk([], path.components[..n])
  }

  lemma {:induction false} WalkAppend(at: seq<string>, xs: seq<Component>, ys: seq<Component>)
    ensures Walk(at, xs + ys) == Walk(Walk(at, xs), ys)
  {
    if ys == [] {
      assert xs + ys == xs;
    } else {
      assert (xs + ys)[..|xs + ys| - 1] == xs + ys[..|ys| - 1];
      WalkAppend(at, xs, ys[..|ys| - 1]);
    }
  }

  /** A walk that does not climb out of its start ends below it, as deep as it says. */
  lemma {:induction false} WalkStays(at: seq<string>, components: seq<Component>)
    requires !ClimbsOut(components)
    ensures at <= Walk(at, components) && |Walk(at, components)| == |at| + Depth(components)
  {
    if components == [] {
      assert components[..0] == [];
    } else {
      var before := components[..|components| - 1];
      assert !ClimbsOut(before) by {
        forall k | 0 <= k <= |before| ensures Depth(before[..k]) >= 0 {
          assert before[..k] == components[..k];
        }
      }
      WalkStays(at, before);
      assert components[..|components|] == components;
    }
  }

  /** The first step that climbs above the start. */
  lemma {:induction false} FirstClimb(components: seq<Component>) returns (k: nat)
    requires ClimbsOut(components)
    ensures k < |components| && !ClimbsOut(components[..k]) && Depth(components[..k + 1]) < 0
  {
    var n :| 0 <= n <= |components| && Depth(components[..n]) < 0;
    var last := |components| - 1;
    if n < |components| {
      assert components[..last][..n] == components[..n];
      k := FirstClimb(components[..last]);
      assert components[..last][..k] == components[..k] && components[..last][..k + 1] == components[..k + 1];
    } else if ClimbsOut(components[..last]) {
      k := FirstClimb(components[..last]);
      assert components[..last][..k] == components[..k] && components[..last][..k + 1] == components[..k + 1];
    } else {
      k := last;
      assert components[..k + 1] == components[..n];
    }
  }

  /**
   A path that starts with a prefix stays under the directory which that prefix names exactly when
   what follows the prefix never climbs above its start; only the root cannot be left.
   */
  lemma StaysUnderIff(path: Path, prefix: Path)
    requires path.StartsWith(prefix)
    ensures StaysUnder(path, prefix) <==> Walk([], prefix.components) == [] || !ClimbsOut(Below(path, prefix))
  {
    var rest, start := Below(path, prefix), Walk([], prefix.components);
    assert path.components == prefix.components + rest;
    if start != [] && ClimbsOut(rest) {
      var k := FirstClimb(rest);
      WalkStays(start, rest[..k]);
      assert rest[..k + 1][..k] == rest[..k];
      WalkAppend([], prefix.components, rest[..k + 1]);
      assert path.components[..|prefix.components| + k + 1] == prefix.components + rest[..k + 1];
    } else if start != [] {
      forall n | |prefix.components| <= n <= |path.components| ensures start <= Walk([], path.components[..n]) {
        var k := n - |prefix.components|;
        assert path.components[..n] == prefix.components + rest[..k];
        assert !ClimbsOut(rest[..k]) by {
          forall i | 0 <= i <= k ensures Depth(rest[..k][..i]) >= 0 {
            assert rest[..k][..i] == rest[..i];
          }
        }
        WalkStays(start, rest[..k]);
        WalkAppend([], prefix.components, rest[..k]);
      }
    }
  }

  /** An allowed path that leaves its only prefix. */
  lemma AllowedPathCanLeavePrefix() returns (policy: RegistrationPolicy, path: Path, prefix: Path)
    ensures policy.ValidatePolicy().Ok? && policy.allowedIpcPathPrefixes == [prefix]
    ensures policy.IpcPathIsAllowed(path) && path.StartsWith(prefix) && !StaysUnder(path, prefix)
  {
    prefix := Path([RootDir, Normal("run")]);
    path := Path([RootDir, Normal("run"), ParentDir, Normal("etc")]);
    policy := RegistrationPolicy(prefix, "0600", [prefix], 30, 120);
    assert path.components[..2] == prefix.components;
    assert prefix in policy.allowedIpcPathPrefixes && path.StartsWith(prefix);
    var rest := Below(path, prefix);
    assert rest[..1] == [ParentDir] && [ParentDir][..0] == [];
    assert Depth(rest[..1]) == -1;
    assert prefix.components[..1] == [RootDir] && [RootDir][..0] == [];
    assert Walk([], [RootDir]) == [];
    assert Walk([], prefix.components) == ["run"];
    StaysUnderIff(path, prefix);
  }
}
