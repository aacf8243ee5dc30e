/**
 * Synthesis of abstract stubs for the interface methods an abstract class
 * leaves unimplemented, so that the JavaScript class tagged with the
 * interface declares every interface method.
 */
module UnimplementedMethodsCreator {
  import opened Wrappers
  import opened Ast
  import opened Jdt
  import JavaStrings

  /** The methods the direct superclass leaves unimplemented; none when there is no superclass. */
  function SuperclassUnimplemented(env: Environment, typeBinding: TypeBinding): seq<MethodBinding> {
    match env.superclass(typeBinding)
    case None => []
    case Some(superclass) => env.unimplementedMethods(superclass)
  }

  /** A method the superclass will stub, so this type must not. */
  predicate SkippedForSuperclass(env: Environment, typeBinding: TypeBinding, m: MethodBinding) {
    HasOverrideEquivalentMethod(env, m, SuperclassUnimplemented(env, typeBinding))
  }

  /**
   * The descriptor of `m` as if declared in `typeBinding`: both the descriptor
   * and its declaration are moved into that type, and keep everything else.
   */
  function MethodDescriptorInType(env: Environment, m: MethodBinding, typeBinding: TypeBinding)
    : (r: MethodDescriptor)
    ensures r.enclosingType == env.typeDescriptor(typeBinding)
    ensures r.SameSignature(env.methodDescriptor(m))
    ensures r.declaration.Some?
    ensures r.DeclarationDescriptor().enclosingType == env.typeDescriptor(typeBinding)
    ensures r.DeclarationDescriptor().SameSignature(env.methodDescriptor(m).DeclarationDescriptor())
    ensures r.DeclarationDescriptor().declaration == env.methodDescriptor(m).DeclarationDescriptor().declaration
  {
    var enclosingClassTypeDescriptor := env.typeDescriptor(typeBinding);
    var originalMethodDescriptor := env.methodDescriptor(m);
    var newDeclarationMethodDescriptor :=
      originalMethodDescriptor.DeclarationDescriptor().(enclosingType := enclosingClassTypeDescriptor);
    originalMethodDescriptor.(
      declaration := Some(newDeclarationMethodDescriptor),
      enclosingType := enclosingClassTypeDescriptor)
  }

  /**
   * The stub's parameter at index `k`: its type comes from the binding's k-th
   * parameter type, with no annotations and the declaring class's default
   * nullability.
   */
  function Parameter(env: Environment, m: MethodBinding, k: nat): Variable
    requires k < |env.parameterTypes(m)|
  {
    Variable(
      "arg" + JavaStrings.IntToString(k),
      env.typeDescriptorWithNullability(
        env.parameterTypes(m)[k], [], env.defaultNullability(env.declaringClass(m))),
      false,
      true)
  }

  /** The abstract stub for `m` in `typeBinding`. */
  function EmptyMethod(env: Environment, m: MethodBinding, typeBinding: TypeBinding): Method {
    var parameterTypes := env.parameterTypes(m);
    Method(
      MethodDescriptorInType(env, m, typeBinding),
      seq(|parameterTypes|, k requires 0 <= k < |parameterTypes| => Parameter(env, m, k)),
      true,
      env.isFinal(m))
  }

  /** Builds the abstract stub for `m` in `typeBinding`, one parameter at a time. */
  method CreateEmptyMethod(env: Environment, m: MethodBinding, typeBinding: TypeBinding)
    returns (r: Method)
    ensures r == EmptyMethod(env, m, typeBinding)
  {
    var methodDescriptor := MethodDescriptorInType(env, m, typeBinding);
    var parameterTypes := env.parameterTypes(m);
    var parameters: seq<Variable> := [];
    var i := 0;
    while i < |parameterTypes|
      invariant 0 <= i <= |parameterTypes|
      invariant |parameters| == i
      invariant forall k :: 0 <= k < i ==> parameters[k] == Parameter(env, m, k)
    {
      var parameter := Variable(
        "arg" + JavaStrings.IntToString(i),
        env.typeDescriptorWithNullability(
          parameterTypes[i], [], env.defaultNullability(env.declaringClass(m))),
        false,
        true);
      i := i + 1;
      parameters := parameters + [parameter];
    }
    r := Method(methodDescriptor, parameters, true, env.isFinal(m));
  }

  /** What the loop of `Create` has built so far: the stubs and the deduplication set. */
  datatype Accumulator = Accumulator(stubs: seq<Method>, seen: seq<MethodDescriptor>)

  /** One iteration of the loop of `Create`, on the binding `m`. */
  function Step(env: Environment, typeBinding: TypeBinding, acc: Accumulator, m: MethodBinding)
    : Accumulator
  {
    if SkippedForSuperclass(env, typeBinding, m) then acc
    else
      var descriptor := MethodDescriptorInType(env, m, typeBinding);
      if descriptor in acc.seen then acc
      else Accumulator(acc.stubs + [EmptyMethod(env, m, typeBinding)], acc.seen + [descriptor])
  }

  /** The loop of `Create` run over the first `n` bindings of `ms`. */
  function Accumulate(env: Environment, typeBinding: TypeBinding, ms: seq<MethodBinding>, n: nat)
    : Accumulator
    requires n <= |ms|
    decreases n
  {
    if n == 0 then Accumulator([], [])
    else Step(env, typeBinding, Accumulate(env, typeBinding, ms, n - 1), ms[n - 1])
  }

  /** The stubs `Create` appends to the type. */
  function Stubs(env: Environment, typeBinding: TypeBinding): seq<Method> {
    var ms := env.unimplementedMethods(typeBinding);
    Accumulate(env, typeBinding, ms, |ms|).stubs
  }

  /**
   * Appends to `javaType` one abstract stub per interface method that
   * `typeBinding` leaves unimplemented, except those the superclass will stub
   * and those whose descriptor in this type an earlier stub already has.
   */
  method Create(env: Environment, typeBinding: TypeBinding, javaType: JavaType)
    modifies javaType
    ensures javaType.methods == old(javaType.methods) + Stubs(env, typeBinding)
  {
    var unimplementedMethods: seq<Method> := [];
    // the deduplication set, in insertion order
    var unimplementedMethodDescriptors: seq<MethodDescriptor> := [];

    var unimplementedMethodsInSuperClass: seq<MethodBinding> := [];
    if env.superclass(typeBinding).Some? {
      unimplementedMethodsInSuperClass :=
        env.unimplementedMethods(env.superclass(typeBinding).value);
    }

    var methodBindings := env.unimplementedMethods(typeBinding);
    for i := 0 to |methodBindings|
      invariant Accumulator(unimplementedMethods, unimplementedMethodDescriptors)
             == Accumulate(env, typeBinding, methodBindings, i)
      invariant javaType.methods == old(javaType.methods)
    {
      var methodBinding := methodBindings[i];
      if HasOverrideEquivalentMethod(env, methodBinding, unimplementedMethodsInSuperClass) {
        continue;
      }
      var unimplementedMethodDescriptor := MethodDescriptorInType(env, methodBinding, typeBinding);
      if unimplementedMethodDescriptor in unimplementedMethodDescriptors {
        continue;
      }
      unimplementedMethodDescriptors := unimplementedMethodDescriptors + [unimplementedMethodDescriptor];
      var stub := CreateEmptyMethod(env, methodBinding, typeBinding);
      unimplementedMethods := unimplementedMethods + [stub];
    }
    javaType.AddMethods(unimplementedMethods);
  }
}
