# Stub synthesis for unimplemented interface methods (J2CL frontend)

This project models `UnimplementedMethodsCreator`, the J2CL frontend step that
fills in abstract classes before they are translated to JavaScript. Java lets an
abstract class leave some interface methods unimplemented. A JavaScript class
tagged with an interface must declare every one of them. So for each class
type the step appends one abstract stub per missing method.

- `create` asks the binding layer for the methods the type leaves
  unimplemented, in order. It drops those that are override-equivalent to a
  method its *direct* superclass also leaves unimplemented, because the
  superclass gets that stub. It rewrites each remaining method's descriptor as
  if it were declared in this type. It drops a method whose rewritten
  descriptor is structurally equal to one already accepted (first seen wins).
  It builds a stub for each survivor, then appends all stubs to the type's
  method list in one call.
- `createMethodDescriptorInType` moves both the descriptor and its declaration
  descriptor into the type and keeps every other field.
- `createEmptyMethod` builds the stub. It has parameters `arg0`, `arg1`, … that
  are non-final and marked as parameters. Each parameter type carries no
  annotations and the default nullability of the method's declaring class.
  The stub is abstract and copies the method's finality.

Files:

- `wrappers.dfy`: `Option`, for Java references that may be null.
- `ast.dfy`: `TypeDescriptor` as an opaque type (only the factories create
  one, and nothing reads its parts); `MethodDescriptor` (with its nested
  declaration descriptor), `Variable`, `Method` as datatypes, so `==` is
  structural equality. `JavaType` is a class whose `methods` field
  `AddMethods` appends to.
- `jdt.dfy`: the binding layer and the descriptor factories. Bindings are
  opaque types. Every query the source makes (`getSuperclass`,
  `getParameterTypes`, `getDeclaringClass`,
  `JdtUtils.getUnimplementedMethodBindings`, the pairwise override-equivalence
  test,
  `JdtUtils.createTypeDescriptor` / `createMethodDescriptor`,
  `JdtBindingUtils.createTypeDescriptorWithNullability` /
  `getTypeDefaultNullability` / `isFinal`) is a field of an `Environment`
  value of total functions. The model is given this value as a parameter, so
  every query is deterministic and otherwise unconstrained.
- `java_strings.dfy`: the decimal text Java's `"arg" + i` produces, its
  inverse, and injectivity.
- `unimplemented_methods_creator.dfy`: the three operations. `Create` and
  `CreateEmptyMethod` are methods with loops, as in the source.
  `MethodDescriptorInType` is a function. `Accumulate` is the loop of `create`
  written as a function over a prefix of the input. `Create` is proved to
  append exactly `Stubs` = `Accumulate(…).stubs`.
- `unimplemented_methods_properties.dfy`: the declarative reading. `IsKept(i)`
  holds when method `i` is not override-equivalent to a superclass method and
  no earlier surviving method has an equal rewritten descriptor.
  `KeptIndices` lists the kept indices. The lemmas show that the loop builds
  exactly one stub per kept index, in order. All listed properties follow
  from that.

Modelling choices:

- `JdtUtils.hasOverrideEquivalentMethod(m, list)` is given a body in the model:
  `HasOverrideEquivalentMethod` holds when some element of `list` is
  `overrideEquivalent` to `m`. `overrideEquivalent` is the uninterpreted
  pairwise relation, a field of `Environment`. Under this reading an empty
  list never causes a skip.
- `MethodDescriptor.getDeclarationMethodDescriptor()` is modelled as
  `DeclarationDescriptor()`. It returns the nested declaration when there is
  one and the descriptor itself otherwise. This is a modelling assumption: the
  class's own source is not part of this model. Line 85 calls `Builder.from`
  on the result without a null check, which fits a getter that never answers
  null.
- The `LinkedHashSet` of descriptors is a `seq` in insertion order.
  `contains` is sequence membership.
- The default nullability of a type is a `bool`.

## Model

| member | source | states |
|---|---|---|
| `UnimplementedMethodsCreator.Create` | transpiler/java/com/google/j2cl/frontend/UnimplementedMethodsCreator.java:46-72 | the only change is to `javaType`: the methods already there remain as a prefix, followed in order by exactly the stubs the filter-and-dedup loop accepts |
| `Ast.JavaType.AddMethods` | transpiler/java/com/google/j2cl/frontend/UnimplementedMethodsCreator.java:71 | the new method list is the old one followed by the given methods, in order |
| `UnimplementedMethodsCreator.MethodDescriptorInType` | transpiler/java/com/google/j2cl/frontend/UnimplementedMethodsCreator.java:78-93 | the result and its declaration descriptor both have this type's descriptor as enclosing type; every other field comes from the original descriptor and the original declaration descriptor respectively |
| `UnimplementedMethodsCreator.CreateEmptyMethod` | transpiler/java/com/google/j2cl/frontend/UnimplementedMethodsCreator.java:99-121 | the parameter loop builds exactly the stub `EmptyMethod` describes: one parameter per parameter type, positional, plus the rewritten descriptor and the flags |
| `UnimplementedMethodsProperties.EmptyMethodShape` | transpiler/java/com/google/j2cl/frontend/UnimplementedMethodsCreator.java:99-120 | a stub is abstract and its final flag equals `isFinal` of the method; its descriptor is the rewritten one; parameter k is named "arg" followed by k in decimal, is non-final, is a parameter, and has the k-th parameter type with no annotations and the declaring class's default nullability; parameter names are pairwise distinct |
| `UnimplementedMethodsProperties.AccumulateFollowsKeptIndices` | transpiler/java/com/google/j2cl/frontend/UnimplementedMethodsCreator.java:57-70 | after any number of iterations the loop holds one stub per kept index so far, in index order, and the dedup set holds exactly their descriptors |
| `UnimplementedMethodsProperties.StubsFollowResolverOrder` | transpiler/java/com/google/j2cl/frontend/UnimplementedMethodsCreator.java:57-70 | the stubs are built from a strictly increasing sequence of positions in the resolver's list (an order-preserving subsequence), and a position is among them exactly when it is kept |
| `UnimplementedMethodsProperties.DeduplicationSetMatchesStubs` | transpiler/java/com/google/j2cl/frontend/UnimplementedMethodsCreator.java:63-69 | the dedup set has as many descriptors as there are stubs, and each stub's descriptor is the one checked and recorded for it |
| `UnimplementedMethodsProperties.StubsHaveDistinctDescriptors` | transpiler/java/com/google/j2cl/frontend/UnimplementedMethodsCreator.java:63-68 | no two stubs have structurally equal descriptors |
| `UnimplementedMethodsProperties.FirstSeenWins` | transpiler/java/com/google/j2cl/frontend/UnimplementedMethodsCreator.java:65-67 | of two surviving methods with equal rewritten descriptors, the later one gets no stub |
| `UnimplementedMethodsProperties.EverySurvivorStubbedOnce` | transpiler/java/com/google/j2cl/frontend/UnimplementedMethodsCreator.java:57-70 | every method not skipped for the superclass is covered by exactly one stub with its rewritten descriptor, built from it or from an earlier method |
| `UnimplementedMethodsProperties.StubsSkipSuperclassMethods` | transpiler/java/com/google/j2cl/frontend/UnimplementedMethodsCreator.java:51-62 | no stub comes from a method override-equivalent to one the direct superclass leaves unimplemented, and every such method is left out |
| `UnimplementedMethodsProperties.NoSuperclassSkipsNothing` | transpiler/java/com/google/j2cl/frontend/UnimplementedMethodsCreator.java:51-55 | with no superclass the comparison list is empty and no method is skipped for the superclass |
| `UnimplementedMethodsProperties.SuperclassCoversAll` | transpiler/java/com/google/j2cl/frontend/UnimplementedMethodsCreator.java:57-62 | when every unimplemented method is override-equivalent to one the superclass leaves unimplemented, no stub is added |
| `UnimplementedMethodsProperties.DistinctMethodsAllStubbed` | transpiler/java/com/google/j2cl/frontend/UnimplementedMethodsCreator.java:51-70 | when the superclass leaves nothing unimplemented (for example the root class) or there is none, and the rewritten descriptors are pairwise distinct, every unimplemented method gets its stub, in the resolver's order |
| `UnimplementedMethodsProperties.StubsNoMoreThanUnimplemented` | transpiler/java/com/google/j2cl/frontend/UnimplementedMethodsCreator.java:57-70 | there are never more stubs than unimplemented methods |
| `UnimplementedMethodsProperties.DescriptorsInTypeEqual` | transpiler/java/com/google/j2cl/frontend/UnimplementedMethodsCreator.java:78-93 | two methods rewritten into the same type have equal descriptors exactly when their descriptors, and their declarations, differ at most in the enclosing type |
| `JavaStrings.ParseIntToString` | transpiler/java/com/google/j2cl/frontend/UnimplementedMethodsCreator.java:106 | reading back the decimal text of a parameter index gives the index |
| `JavaStrings.PrefixedIntToStringInjective` | transpiler/java/com/google/j2cl/frontend/UnimplementedMethodsCreator.java:106 | distinct indices give distinct names "arg" + index |

## Left out

- The bodies of `JdtUtils.getUnimplementedMethodBindings`, `createTypeDescriptor` and `createMethodDescriptor`, and of `JdtBindingUtils.createTypeDescriptorWithNullability`, `getTypeDefaultNullability` and `isFinal`. They are not part of this model and are fields of `Environment`, as is the pairwise override-equivalence test.
- The real body of `JdtUtils.hasOverrideEquivalentMethod` is not part of this model. It is assumed to be "some element of the list is override-equivalent to the method", over the pairwise relation. `NoSuperclassSkipsNothing`, `SuperclassCoversAll`, `StubsSkipSuperclassMethods` and `DistinctMethodsAllStubbed` rely on that assumption.
- `MethodDescriptor.getDeclarationMethodDescriptor()` is assumed to return the descriptor itself when there is no separate declaration, since that class is not part of this model.
- JDT bindings and how they are resolved. They are opaque types.
- Whether skipping only against the direct superclass covers the whole hierarchy. That depends on the resolver's contract and on the pipeline processing ancestors first, so no lemma assumes it.
- The `MethodDescriptor` and `Method` builders beyond copying fields and overriding some. Descriptors keep four signature fields (name, static flag, return type, parameter types) in place of the full field list. `Method` keeps only the descriptor, parameters and the abstract and final flags. The empty body and other builder defaults are not modelled.
- `CreateEmptyMethod`: the counter `i` is a Java `int`. Its wrap-around is not modelled, because a Java method has at most 255 parameters.
- Java object identity and aliasing of the lists passed to `addMethods`. Lists are values here.
- jre/java/javaemul/internal/ThrowableUtils.native.js is JavaScript runtime interop on host objects and is not part of this model.
