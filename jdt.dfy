/**
 * The parser's binding layer and the descriptor factories, seen only through
 * the calls the stub synthesis makes. Bindings are opaque identities; each
 * query is a total function of an `Environment` value, so repeated queries
 * on the same binding give the same answer.
 */
module Jdt {
  import opened Wrappers
  import opened Ast

  /** A resolved type (class or interface) of the program being compiled. */
  type TypeBinding(==)

  /** A resolved method of the program being compiled. */
  type MethodBinding(==)

  /** A resolved annotation. */
  type AnnotationBinding(==)

  datatype Environment = Environment(
    /** The direct superclass of a type; None where the binding answers null. */
    superclass: TypeBinding -> Option<TypeBinding>,
    /** The parameter types of a method, in declaration order. */
    parameterTypes: MethodBinding -> seq<TypeBinding>,
    /** The class or interface that declares a method. */
    declaringClass: MethodBinding -> TypeBinding,
    /** The interface methods a type leaves unimplemented, in the resolver's order. */
    unimplementedMethods: TypeBinding -> seq<MethodBinding>,
    /** Whether one method would override or implement the other. */
    overrideEquivalent: (MethodBinding, MethodBinding) -> bool,
    /** The descriptor of a type. */
    typeDescriptor: TypeBinding -> TypeDescriptor,
    /** The descriptor of a method, in the form its binding gives. */
    methodDescriptor: MethodBinding -> MethodDescriptor,
    /** The descriptor of a type under given annotations and a default nullability. */
    typeDescriptorWithNullability: (TypeBinding, seq<AnnotationBinding>, bool) -> TypeDescriptor,
    /** The default nullability that a type applies to unannotated references. */
    defaultNullability: TypeBinding -> bool,
    /** Whether a method is declared final. */
    isFinal: MethodBinding -> bool)

  /** Whether `m` is override-equivalent to some method of `ms`. */
  predicate HasOverrideEquivalentMethod(env: Environment, m: MethodBinding, ms: seq<MethodBinding>) {
    exists k | 0 <= k < |ms| :: env.overrideEquivalent(m, ms[k])
  }
}
