/**
 * What the stubs `Create` appends promise: they come from an order-preserving
 * subsequence of the unimplemented methods, none is override-equivalent to a
 * method the superclass leaves unimplemented, no two share a descriptor, the
 * first of several equal descriptors wins, and every stub is abstract with
 * positional parameters.
 */
module UnimplementedMethodsProperties {
  import opened Wrappers
  import opened Ast
  import opened Jdt
  import opened UnimplementedMethodsCreator
  import JavaStrings

  /**
   * The declarative reading of the loop: binding `i` gets a stub exactly when
   * the superclass does not stub it and no earlier binding that survives the
   * superclass filter has the same descriptor in this type.
   */
  predicate IsKept(env: Environment, typeBinding: TypeBinding, ms: seq<MethodBinding>, i: nat)
    requires i < |ms|
  {
    && !SkippedForSuperclass(env, typeBinding, ms[i])
    && forall j :: 0 <= j < i && !SkippedForSuperclass(env, typeBinding, ms[j]) ==>
         MethodDescriptorInType(env, ms[j], typeBinding) != MethodDescriptorInType(env, ms[i], typeBinding)
  }

  /** The indices below `n` that are kept, in increasing order. */
  function KeptIndices(env: Environment, typeBinding: TypeBinding, ms: seq<MethodBinding>, n: nat)
    : (r: seq<nat>)
    requires n <= |ms|
    ensures forall k :: 0 <= k < |r| ==> r[k] < n
    ensures forall k1, k2 :: 0 <= k1 < k2 < |r| ==> r[k1] < r[k2]
    decreases n
  {
    if n == 0 then []
    else
      KeptIndices(env, typeBinding, ms, n - 1)
        + (if IsKept(env, typeBinding, ms, n - 1) then [n - 1] else [])
  }

  lemma {:induction false} KeptIndicesMembership(
    env: Environment, typeBinding: TypeBinding, ms: seq<MethodBinding>, n: nat)
    requires n <= |ms|
    ensures forall i :: 0 <= i < |ms| ==>
      (i in KeptIndices(env, typeBinding, ms, n) <==> i < n && IsKept(env, typeBinding, ms, i))
    decreases n
  {
    if n > 0 {
      KeptIndicesMembership(env, typeBinding, ms, n - 1);
    }
  }

  /** Every binding that survives the superclass filter has a kept binding at or before it with its descriptor. */
  lemma {:induction false} KeptRepresentative(
    env: Environment, typeBinding: TypeBinding, ms: seq<MethodBinding>, n: nat, j: nat)
    requires j < n <= |ms|
    requires !SkippedForSuperclass(env, typeBinding, ms[j])
    ensures exists k ::
      && 0 <= k < |KeptIndices(env, typeBinding, ms, n)|
      && KeptIndices(env, typeBinding, ms, n)[k] <= j
      && MethodDescriptorInType(env, ms[KeptIndices(env, typeBinding, ms, n)[k]], typeBinding)
         == MethodDescriptorInType(env, ms[j], typeBinding)
    decreases j
  {
    var kept := KeptIndices(env, typeBinding, ms, n);
    KeptIndicesMembership(env, typeBinding, ms, n);
    if IsKept(env, typeBinding, ms, j) {
      assert j in kept;
      var k :| 0 <= k < |kept| && kept[k] == j;
      assert 0 <= k < |kept| && kept[k] <= j
        && MethodDescriptorInType(env, ms[kept[k]], typeBinding) == MethodDescriptorInType(env, ms[j], typeBinding);
    } else {
      var j' :| 0 <= j' < j && !SkippedForSuperclass(env, typeBinding, ms[j'])
        && MethodDescriptorInType(env, ms[j'], typeBinding) == MethodDescriptorInType(env, ms[j], typeBinding);
      KeptRepresentative(env, typeBinding, ms, n, j');
    }
  }

  /** The deduplication set `seen` holds, in order, the descriptors of the bindings at `kept`. */
  predicate SeenMirrors(
    env: Environment, typeBinding: TypeBinding, ms: seq<MethodBinding>, seen: seq<MethodDescriptor>, kept: seq<nat>)
    requires forall k :: 0 <= k < |kept| ==> kept[k] < |ms|
  {
    && |seen| == |kept|
    && forall k :: 0 <= k < |kept| ==> seen[k] == MethodDescriptorInType(env, ms[kept[k]], typeBinding)
  }

  /** The stubs `stubs` are, in order, those of the bindings at `kept`. */
  predicate StubsMirror(
    env: Environment, typeBinding: TypeBinding, ms: seq<MethodBinding>, stubs: seq<Method>, kept: seq<nat>)
    requires forall k :: 0 <= k < |kept| ==> kept[k] < |ms|
  {
    && |stubs| == |kept|
    && forall k :: 0 <= k < |kept| ==> stubs[k] == EmptyMethod(env, ms[kept[k]], typeBinding)
  }

  /**
   * When `seen` mirrors the kept indices below `n - 1`, a surviving binding at
   * `n - 1` whose descriptor is in `seen` is not kept.
   */
  lemma SeenMeansNotKept(
    env: Environment, typeBinding: TypeBinding, ms: seq<MethodBinding>, seen: seq<MethodDescriptor>, n: nat)
    requires 0 < n <= |ms|
    requires SeenMirrors(env, typeBinding, ms, seen, KeptIndices(env, typeBinding, ms, n - 1))
    requires MethodDescriptorInType(env, ms[n - 1], typeBinding) in seen
    ensures !IsKept(env, typeBinding, ms, n - 1)
  {
    var kept := KeptIndices(env, typeBinding, ms, n - 1);
    var k :| 0 <= k < |seen| && seen[k] == MethodDescriptorInType(env, ms[n - 1], typeBinding);
    KeptIndicesMembership(env, typeBinding, ms, n - 1);
    assert kept[k] in kept;
    assert !SkippedForSuperclass(env, typeBinding, ms[kept[k]]);
  }

  /**
   * When `seen` mirrors the kept indices below `n - 1`, a surviving binding at
   * `n - 1` whose descriptor is not in `seen` is kept.
   */
  lemma UnseenMeansKept(
    env: Environment, typeBinding: TypeBinding, ms: seq<MethodBinding>, seen: seq<MethodDescriptor>, n: nat)
    requires 0 < n <= |ms|
    requires !SkippedForSuperclass(env, typeBinding, ms[n - 1])
    requires SeenMirrors(env, typeBinding, ms, seen, KeptIndices(env, typeBinding, ms, n - 1))
    requires MethodDescriptorInType(env, ms[n - 1], typeBinding) !in seen
    ensures IsKept(env, typeBinding, ms, n - 1)
  {
    forall j | 0 <= j < n - 1 && !SkippedForSuperclass(env, typeBinding, ms[j])
      ensures MethodDescriptorInType(env, ms[j], typeBinding) != MethodDescriptorInType(env, ms[n - 1], typeBinding)
    {
      KeptRepresentative(env, typeBinding, ms, n - 1, j);
    }
  }

  /** After `n` iterations the loop mirrors the kept indices below `n`. */
  lemma {:induction false} AccumulateFollowsKeptIndices(
    env: Environment, typeBinding: TypeBinding, ms: seq<MethodBinding>, n: nat)
    requires n <= |ms|
    ensures var acc := Accumulate(env, typeBinding, ms, n);
      var kept := KeptIndices(env, typeBinding, ms, n);
      SeenMirrors(env, typeBinding, ms, acc.seen, kept) && StubsMirror(env, typeBinding, ms, acc.stubs, kept)
    decreases n
  {
    if n > 0 {
      AccumulateFollowsKeptIndices(env, typeBinding, ms, n - 1);
      var seen := Accumulate(env, typeBinding, ms, n - 1).seen;
      if !SkippedForSuperclass(env, typeBinding, ms[n - 1]) {
        if MethodDescriptorInType(env, ms[n - 1], typeBinding) in seen {
          SeenMeansNotKept(env, typeBinding, ms, seen, n);
        } else {
          UnseenMeansKept(env, typeBinding, ms, seen, n);
        }
      }
    }
  }

  /** The unimplemented methods of `typeBinding` that receive a stub, as indices into the resolver's list. */
  function StubIndices(env: Environment, typeBinding: TypeBinding): seq<nat> {
    var ms := env.unimplementedMethods(typeBinding);
    KeptIndices(env, typeBinding, ms, |ms|)
  }

  /**
   * The stubs are built, in order, from an increasing sequence of positions in
   * the resolver's list, and a position is among them exactly when it is kept.
   */
  lemma StubsFollowResolverOrder(env: Environment, typeBinding: TypeBinding)
    ensures var ms := env.unimplementedMethods(typeBinding);
      var stubs := Stubs(env, typeBinding);
      var indices := StubIndices(env, typeBinding);
      && |stubs| == |indices|
      && (forall k :: 0 <= k < |indices| ==> indices[k] < |ms|)
      && (forall k1, k2 :: 0 <= k1 < k2 < |indices| ==> indices[k1] < indices[k2])
      && (forall k :: 0 <= k < |stubs| ==> stubs[k] == EmptyMethod(env, ms[indices[k]], typeBinding))
      && (forall i :: 0 <= i < |ms| ==> (i in indices <==> IsKept(env, typeBinding, ms, i)))
  {
    var ms := env.unimplementedMethods(typeBinding);
    AccumulateFollowsKeptIndices(env, typeBinding, ms, |ms|);
    KeptIndicesMembership(env, typeBinding, ms, |ms|);
  }

  /** Each stub's descriptor is the one recorded for it in the deduplication set, in the same order. */
  lemma DeduplicationSetMatchesStubs(env: Environment, typeBinding: TypeBinding)
    ensures var ms := env.unimplementedMethods(typeBinding);
      var acc := Accumulate(env, typeBinding, ms, |ms|);
      && |acc.seen| == |acc.stubs|
      && forall k :: 0 <= k < |acc.stubs| ==> acc.seen[k] == acc.stubs[k].descriptor
  {
    var ms := env.unimplementedMethods(typeBinding);
    AccumulateFollowsKeptIndices(env, typeBinding, ms, |ms|);
  }

  /** No two stubs have structurally equal descriptors. */
  lemma StubsHaveDistinctDescriptors(env: Environment, typeBinding: TypeBinding)
    ensures var stubs := Stubs(env, typeBinding);
      forall k1, k2 :: 0 <= k1 < k2 < |stubs| ==> stubs[k1].descriptor != stubs[k2].descriptor
  {
    var ms := env.unimplementedMethods(typeBinding);
    var stubs := Stubs(env, typeBinding);
    var indices := StubIndices(env, typeBinding);
    StubsFollowResolverOrder(env, typeBinding);
    forall k1, k2 | 0 <= k1 < k2 < |stubs|
      ensures stubs[k1].descriptor != stubs[k2].descriptor
    {
      assert indices[k1] in indices && indices[k2] in indices;
      assert IsKept(env, typeBinding, ms, indices[k1]);
      assert IsKept(env, typeBinding, ms, indices[k2]);
      assert stubs[k1].descriptor == MethodDescriptorInType(env, ms[indices[k1]], typeBinding);
      assert stubs[k2].descriptor == MethodDescriptorInType(env, ms[indices[k2]], typeBinding);
    }
  }

  /**
   * No stub comes from a method that is override-equivalent to one the
   * superclass leaves unimplemented; every such method is left out.
   */
  lemma StubsSkipSuperclassMethods(env: Environment, typeBinding: TypeBinding)
    ensures var ms := env.unimplementedMethods(typeBinding);
      var indices := StubIndices(env, typeBinding);
      && (forall k :: 0 <= k < |indices| ==>
            !HasOverrideEquivalentMethod(env, ms[indices[k]], SuperclassUnimplemented(env, typeBinding)))
      && (forall i :: 0 <= i < |ms| && HasOverrideEquivalentMethod(env, ms[i], SuperclassUnimplemented(env, typeBinding))
            ==> i !in indices)
  {
    var ms := env.unimplementedMethods(typeBinding);
    var indices := StubIndices(env, typeBinding);
    StubsFollowResolverOrder(env, typeBinding);
    forall k | 0 <= k < |indices|
      ensures !HasOverrideEquivalentMethod(env, ms[indices[k]], SuperclassUnimplemented(env, typeBinding))
    {
      assert indices[k] in indices;
    }
  }

  /** Without a superclass the list to compare against is empty, so nothing is skipped for it. */
  lemma NoSuperclassSkipsNothing(env: Environment, typeBinding: TypeBinding, m: MethodBinding)
    requires env.superclass(typeBinding).None?
    ensures SuperclassUnimplemented(env, typeBinding) == []
    ensures !SkippedForSuperclass(env, typeBinding, m)
  {
  }

  /** Of two surviving methods with equal descriptors in this type, the later one gets no stub. */
  lemma FirstSeenWins(env: Environment, typeBinding: TypeBinding, i: nat, j: nat)
    requires i < j < |env.unimplementedMethods(typeBinding)|
    requires var ms := env.unimplementedMethods(typeBinding);
      && !SkippedForSuperclass(env, typeBinding, ms[i])
      && !SkippedForSuperclass(env, typeBinding, ms[j])
      && MethodDescriptorInType(env, ms[i], typeBinding) == MethodDescriptorInType(env, ms[j], typeBinding)
    ensures j !in StubIndices(env, typeBinding)
  {
    StubsFollowResolverOrder(env, typeBinding);
  }

  /**
   * Every method that survives the superclass filter is covered by exactly
   * one stub with its descriptor, built from it or from an earlier method.
   */
  lemma EverySurvivorStubbedOnce(env: Environment, typeBinding: TypeBinding, i: nat)
    requires i < |env.unimplementedMethods(typeBinding)|
    requires !SkippedForSuperclass(env, typeBinding, env.unimplementedMethods(typeBinding)[i])
    ensures var ms := env.unimplementedMethods(typeBinding);
      var stubs := Stubs(env, typeBinding);
      var indices := StubIndices(env, typeBinding);
      var descriptor := MethodDescriptorInType(env, ms[i], typeBinding);
      && |indices| == |stubs|
      && (exists k :: 0 <= k < |stubs| && indices[k] <= i && stubs[k].descriptor == descriptor)
      && (forall k1, k2 :: 0 <= k1 < |stubs| && 0 <= k2 < |stubs|
            && stubs[k1].descriptor == descriptor && stubs[k2].descriptor == descriptor
            ==> k1 == k2)
  {
    var ms := env.unimplementedMethods(typeBinding);
    StubsFollowResolverOrder(env, typeBinding);
    StubsHaveDistinctDescriptors(env, typeBinding);
    KeptRepresentative(env, typeBinding, ms, |ms|, i);
  }

  /** A strictly increasing sequence of naturals below `n` has at most `n` elements. */
  lemma {:induction false} IncreasingBelowIsShort(s: seq<nat>, n: nat)
    requires forall k :: 0 <= k < |s| ==> s[k] < n
    requires forall k1, k2 :: 0 <= k1 < k2 < |s| ==> s[k1] < s[k2]
    ensures |s| <= n
    decreases n
  {
    if |s| > 0 {
      var init := s[..|s| - 1];
      assert forall k :: 0 <= k < |init| ==> init[k] < s[|s| - 1];
      IncreasingBelowIsShort(init, s[|s| - 1]);
    }
  }

  /** There are never more stubs than unimplemented methods. */
  lemma StubsNoMoreThanUnimplemented(env: Environment, typeBinding: TypeBinding)
    ensures |Stubs(env, typeBinding)| <= |env.unimplementedMethods(typeBinding)|
  {
    StubsFollowResolverOrder(env, typeBinding);
    IncreasingBelowIsShort(StubIndices(env, typeBinding), |env.unimplementedMethods(typeBinding)|);
  }

  lemma {:induction false} NoneKeptIsEmpty(
    env: Environment, typeBinding: TypeBinding, ms: seq<MethodBinding>, n: nat)
    requires n <= |ms|
    requires forall i :: 0 <= i < n ==> SkippedForSuperclass(env, typeBinding, ms[i])
    ensures KeptIndices(env, typeBinding, ms, n) == []
    decreases n
  {
    if n > 0 {
      NoneKeptIsEmpty(env, typeBinding, ms, n - 1);
    }
  }

  /** When the superclass covers every unimplemented method, no stub is added. */
  lemma SuperclassCoversAll(env: Environment, typeBinding: TypeBinding)
    requires var ms := env.unimplementedMethods(typeBinding);
      forall i :: 0 <= i < |ms| ==> SkippedForSuperclass(env, typeBinding, ms[i])
    ensures Stubs(env, typeBinding) == []
  {
    var ms := env.unimplementedMethods(typeBinding);
    var indices := StubIndices(env, typeBinding);
    StubsFollowResolverOrder(env, typeBinding);
    NoneKeptIsEmpty(env, typeBinding, ms, |ms|);
  }

  /**
   * When the superclass leaves nothing unimplemented (it is the root class, or
   * there is none), and the descriptors in this type are pairwise distinct,
   * every unimplemented method gets its stub, in the resolver's order.
   */
  lemma DistinctMethodsAllStubbed(env: Environment, typeBinding: TypeBinding)
    requires SuperclassUnimplemented(env, typeBinding) == []
    requires var ms := env.unimplementedMethods(typeBinding);
      forall i, j :: 0 <= i < j < |ms| ==>
        MethodDescriptorInType(env, ms[i], typeBinding) != MethodDescriptorInType(env, ms[j], typeBinding)
    ensures var ms := env.unimplementedMethods(typeBinding);
      var stubs := Stubs(env, typeBinding);
      |stubs| == |ms| && forall i :: 0 <= i < |ms| ==> stubs[i] == EmptyMethod(env, ms[i], typeBinding)
  {
    var ms := env.unimplementedMethods(typeBinding);
    var indices := StubIndices(env, typeBinding);
    StubsFollowResolverOrder(env, typeBinding);
    forall i | 0 <= i < |ms| ensures i in indices {
      assert IsKept(env, typeBinding, ms, i);
    }
    IndicesCoveringAll(indices, |ms|);
  }

  /** An increasing sequence below `n` that contains every index below `n` is 0, 1, ..., n - 1. */
  lemma {:induction false} IndicesCoveringAll(s: seq<nat>, n: nat)
    requires forall k :: 0 <= k < |s| ==> s[k] < n
    requires forall k1, k2 :: 0 <= k1 < k2 < |s| ==> s[k1] < s[k2]
    requires forall i :: 0 <= i < n ==> i in s
    ensures |s| == n && forall k :: 0 <= k < n ==> s[k] == k
    decreases n
  {
    if n > 0 {
      assert n - 1 in s;
      var last :| 0 <= last < |s| && s[last] == n - 1;
      assert s[|s| - 1] < n;
      assert s[last] <= s[|s| - 1];
      assert last == |s| - 1;
      var init := s[..|s| - 1];
      forall i | 0 <= i < n - 1 ensures i in init {
        assert i in s;
        var k :| 0 <= k < |s| && s[k] == i;
        assert k < |s| - 1;
        assert init[k] == i;
      }
      IndicesCoveringAll(init, n - 1);
    } else {
      IncreasingBelowIsShort(s, n);
    }
  }

  /**
   * A stub is abstract, copies the method's finality, carries the descriptor
   * rewritten into this type, and has one parameter per parameter type, named
   * arg0, arg1, ... (all distinct), non-final, marked as a parameter, typed
   * with no annotations and the declaring class's default nullability.
   */
  lemma EmptyMethodShape(env: Environment, m: MethodBinding, typeBinding: TypeBinding)
    ensures var stub := EmptyMethod(env, m, typeBinding);
      var parameterTypes := env.parameterTypes(m);
      && stub.isAbstract
      && stub.isFinal == env.isFinal(m)
      && stub.descriptor == MethodDescriptorInType(env, m, typeBinding)
      && |stub.parameters| == |parameterTypes|
      && (forall k :: 0 <= k < |parameterTypes| ==>
            && stub.parameters[k].name == "arg" + JavaStrings.IntToString(k)
            && !stub.parameters[k].isFinal
            && stub.parameters[k].isParameter
            && stub.parameters[k].typeDescriptor
                 == env.typeDescriptorWithNullability(
                      parameterTypes[k], [], env.defaultNullability(env.declaringClass(m))))
      && (forall k1, k2 :: 0 <= k1 < k2 < |parameterTypes| ==>
            stub.parameters[k1].name != stub.parameters[k2].name)
  {
    var stub := EmptyMethod(env, m, typeBinding);
    forall k1, k2 | 0 <= k1 < k2 < |env.parameterTypes(m)|
      ensures stub.parameters[k1].name != stub.parameters[k2].name
    {
      JavaStrings.PrefixedIntToStringInjective("arg", k1, k2);
    }
  }

  /**
   * Two methods rewritten into the same type have equal descriptors exactly
   * when their descriptors, and their declarations, differ at most in the
   * enclosing type.
   */
  lemma DescriptorsInTypeEqual(env: Environment, m1: MethodBinding, m2: MethodBinding, typeBinding: TypeBinding)
    ensures var d1 := env.methodDescriptor(m1);
      var d2 := env.methodDescriptor(m2);
      MethodDescriptorInType(env, m1, typeBinding) == MethodDescriptorInType(env, m2, typeBinding)
      <==>
      && d1.SameSignature(d2)
      && d1.DeclarationDescriptor().SameSignature(d2.DeclarationDescriptor())
      && d1.DeclarationDescriptor().declaration == d2.DeclarationDescriptor().declaration
  {
  }
}
