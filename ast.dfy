/**
 * The compiler's AST values that the stub synthesis builds: type and method
 * descriptors, variables, methods, and the Java type that collects methods.
 */
module Ast {
  import opened Wrappers

  /** A type as the rest of the compiler sees it; nothing here inspects its parts. */
  type TypeDescriptor(==)

  /**
   * A method descriptor. Equality is structural, as for the descriptors kept in
   * the deduplication set. `declaration` is absent when the descriptor is its
   * own declaration; otherwise it holds the descriptor as originally declared.
   */
  datatype MethodDescriptor = MethodDescriptor(
    enclosingType: TypeDescriptor,
    name: string,
    isStatic: bool,
    returnType: TypeDescriptor,
    parameterTypes: seq<TypeDescriptor>,
    declaration: Option<MethodDescriptor>)
  {
    /** The declaration this descriptor specializes, or the descriptor itself. */
    function DeclarationDescriptor(): MethodDescriptor {
      if declaration.Some? then declaration.value else this
    }

    /** Agreement on every field except the enclosing type and the declaration. */
    predicate SameSignature(other: MethodDescriptor) {
      && name == other.name
      && isStatic == other.isStatic
      && returnType == other.returnType
      && parameterTypes == other.parameterTypes
    }
  }

  /** A local variable or parameter. */
  datatype Variable = Variable(
    name: string,
    typeDescriptor: TypeDescriptor,
    isFinal: bool,
    isParameter: bool)

  /** A method declaration; the synthesized ones have an empty body, which is not modelled. */
  datatype Method = Method(
    descriptor: MethodDescriptor,
    parameters: seq<Variable>,
    isAbstract: bool,
    isFinal: bool)

  /** A Java type under translation; only its method list is modelled. */
  class JavaType {
    var methods: seq<Method>

    constructor (methods: seq<Method>)
      ensures this.methods == methods
    {
      this.methods := methods;
    }

    /** Appends `newMethods`, in order, after the methods already present. */
    method AddMethods(newMethods: seq<Method>)
      modifies this
      ensures methods == old(methods) + newMethods
    {
      methods := methods + newMethods;
    }
  }
}
