# Lifetime-checked service registration, modelled in Dafny

This project models the registration helper of Headroomov.DependencyInjection.Extensions.

A developer marks a service interface and its implementation with `[ServiceLifetime(...)]`. The attribute declares whether the service is a Singleton, Scoped or Transient. `AddWithAttribute` then reads both declarations and checks that they agree. If they do, it adds one registration to the container's `IServiceCollection`. If a declaration is missing or the two differ, it throws and adds nothing. A second form registers a single type as its own contract.

Modules:

- `Wrappers` (wrappers.dfy): `Option` stands for a null reference. `Result` and `Outcome` stand for "returns or throws".
- `Attributes` (attributes.dfy): the `ServiceLifetime` enum, type identities, the `ServiceLifetimeAttribute` value and its `AttributeUsage`. Also the metadata table that reflection reads. `GetCustomAttribute` reads the type's own entry and walks the base-class chain only for an inherited attribute. The lemmas derive from `Inherited = false` that the lookup is exact. `Declare` attaches a declaration at definition time and enforces the usage rules: classes and interfaces only, one per type. The map holds one declaration per type, which `AllowMultiple = false` justifies.
- `Errors` (errors.dfy): `ArgumentNullException` and the two kinds of `InvalidOperationException`, each with the fields its message prints.
- `Container` (container.dfy): the container's side, modelled only by its observable effect. `ServiceCollection` is a class holding a `seq` of descriptors. `AddSingleton`, `AddScoped` and `AddTransient` each append one descriptor, or throw when the collection is null.
- `ServiceCollectionExtensions` (extensions.dfy): the three overloads as methods that change the collection in place. They are proved against the pure functions `ResolvePair` and `ResolveSelf`. The module also holds lemmas for each branch and a fold, `RunCalls`, over a composition root's sequence of calls.

Modelling choices:

- A null `Type` argument is `None`. A null collection is a null `ServiceCollection?`.
- Self-registration does not check `services` for null. The model follows the code here. The lookup runs first, so a missing declaration is reported even when the collection is null. If the type is declared, the container primitive that the switch calls rejects the null collection with `ArgumentNull(Services)`. The container library is modelled only by its effect, in `Container`, and that effect includes this null check.
- The pair form reads declarations with `inherit: false` and self-registration with the default `inherit: true`. With `inherit` set, the lookup searches the base-class chain only when the attribute's usage says `inherited`. `ServiceLifetimeUsage` says `Inherited = false`, so both forms see only the type's own declaration. `GetCustomAttribute`'s contract, and through it `LookupIgnoresInherit` and `SelfMatchesPairOnSameType`, depend on that setting. With `inherited` set to true, `GetCustomAttribute`'s contract no longer verifies.
- The generic pair overload's constraint `where TImplementation : class, TInterface` is a compile-time check. Nothing checks assignability at run time, and neither does the model.

## Model

| member | source | states |
|---|---|---|
| `Attributes.GetCustomAttribute` | Headroomov.DependencyInjection.Extensions/Attributes/ServiceLifetimeAttribute.cs:8-13 | The lookup finds a declaration exactly when the type itself declares a lifetime, with or without `inherit`, and the declaration found carries that lifetime. This follows from the usage's `Inherited = false`, because the base-class walk runs only for an inherited attribute. |
| `Attributes.Declare` | Headroomov.DependencyInjection.Extensions/Attributes/ServiceLifetimeAttribute.cs:8-18 | Attaching succeeds exactly on an undeclared class or interface. Any other kind of type fails with an invalid-target error, and an already declared type fails with a duplicate error. After success, the lookup of the type, with or without `inherit`, returns an attribute whose `Lifetime` is the constructor's argument. No other type's declaration changes, and well-formedness (declarations only on classes and interfaces) is preserved. |
| `Attributes.AncestorAttribute` | Headroomov.DependencyInjection.Extensions/Attributes/ServiceLifetimeAttribute.cs:10 | The walk that an inherited attribute would get finds only a declaration that some type really carries. When the direct base class is declared, the walk returns that base class's declaration. It ends on a cyclic base-class table. |
| `Attributes.LookupIgnoresInherit` | Headroomov.DependencyInjection.Extensions/Attributes/ServiceLifetimeAttribute.cs:10 | Passing `inherit: true` or `inherit: false` gives the same lookup result. |
| `Attributes.LookupNotInherited` | Headroomov.DependencyInjection.Extensions/Attributes/ServiceLifetimeAttribute.cs:10 | A type with no declaration of its own has none, even with `inherit` set and a base class that declares a lifetime. |
| `Attributes.LookupIsExact` | Headroomov.DependencyInjection.Extensions/Attributes/ServiceLifetimeAttribute.cs:9-10 | Adding, changing or removing another type's declaration does not change the lookup of a type. Neither does changing the base-class table. |
| `Container.AddSingleton` | Headroomov.DependencyInjection.Extensions/ServiceCollectionExtensions.cs:41 | On a non-null collection it appends exactly `Descriptor(Singleton, service, implementation)` and passes. On a null collection it throws `ArgumentNull(Services)`. |
| `Container.AddScoped` | Headroomov.DependencyInjection.Extensions/ServiceCollectionExtensions.cs:45 | The same as `AddSingleton`, with the Scoped lifetime. |
| `Container.AddTransient` | Headroomov.DependencyInjection.Extensions/ServiceCollectionExtensions.cs:49 | The same as `AddSingleton`, with the Transient lifetime. |
| `ServiceCollectionExtensions.ResolvePair` | Headroomov.DependencyInjection.Extensions/ServiceCollectionExtensions.cs:14-50 | The pair succeeds exactly when both types are non-null and declare the same lifetime. The descriptor then has the interface as contract and the implementation as concrete type, with the lifetime both declare. |
| `ServiceCollectionExtensions.ResolveSelf` | Headroomov.DependencyInjection.Extensions/ServiceCollectionExtensions.cs:72-95 | Self-registration succeeds exactly when the type declares a lifetime. It then registers the type as both contract and concrete type with that lifetime. Otherwise it fails with a missing-declaration error naming the service. |
| `ServiceCollectionExtensions.AddWithAttribute` | Headroomov.DependencyInjection.Extensions/ServiceCollectionExtensions.cs:9-55 | A null collection throws `ArgumentNull(Services)`. Otherwise, on success the collection becomes the old one plus the resolved descriptor. On every failure the collection is unchanged and the exception is the one `ResolvePair` gives. |
| `ServiceCollectionExtensions.AddWithAttributeTyped` | Headroomov.DependencyInjection.Extensions/ServiceCollectionExtensions.cs:57-68 | A null collection throws `ArgumentNull(Services)`. Otherwise it behaves like the non-generic form on the two types, and on success it returns the same collection object it was given. |
| `ServiceCollectionExtensions.AddWithAttributeSelf` | Headroomov.DependencyInjection.Extensions/ServiceCollectionExtensions.cs:70-98 | A missing declaration throws, naming the service, and leaves the collection unchanged. This holds even with a null collection. A declared type on a null collection throws `ArgumentNull(Services)`. Otherwise it appends the self-descriptor and returns the same collection object. |
| `ServiceCollectionExtensions.NullArgumentsBeforeLookup` | Headroomov.DependencyInjection.Extensions/ServiceCollectionExtensions.cs:14-18 | A null interface type or implementation type fails with the argument error naming it, the interface checked first. The result does not depend on the metadata at all, so no lookup has happened. |
| `ServiceCollectionExtensions.MissingInterfaceDeclaration` | Headroomov.DependencyInjection.Extensions/ServiceCollectionExtensions.cs:20-23 | An undeclared interface fails with a missing-declaration error naming the interface, whatever the implementation declares. |
| `ServiceCollectionExtensions.MissingImplementationDeclaration` | Headroomov.DependencyInjection.Extensions/ServiceCollectionExtensions.cs:25-28 | A declared interface with an undeclared implementation fails with a missing-declaration error naming the implementation. |
| `ServiceCollectionExtensions.MismatchReported` | Headroomov.DependencyInjection.Extensions/ServiceCollectionExtensions.cs:30-36 | Different lifetimes fail with a mismatch error. It carries both types, the interface's lifetime as the required one and the implementation's as the declared one. |
| `ServiceCollectionExtensions.MatchingLifetimesRegister` | Headroomov.DependencyInjection.Extensions/ServiceCollectionExtensions.cs:38-50 | Equal declared lifetimes L give exactly `Descriptor(L, interface, implementation)`. |
| `ServiceCollectionExtensions.SelfMatchesPairOnSameType` | Headroomov.DependencyInjection.Extensions/ServiceCollectionExtensions.cs:20-25 | The pair form on (S, S) and self-registration of S succeed together and then register the same descriptor, although they pass different `inherit` flags. When S is undeclared, the pair form names S as the interface. |
| `ServiceCollectionExtensions.RunAppendsInOrder` | Headroomov.DependencyInjection.Extensions/ServiceCollectionExtensions.cs:38-54 | In a sequence of calls, the existing registrations stay first and in order. Then comes one descriptor per successful call, in call order. Without an exception every call runs. Otherwise the sequence stops at the first throwing call and reports its exception, and earlier appends remain. |
| `ServiceCollectionExtensions.RepeatedCallsAccumulate` | Headroomov.DependencyInjection.Extensions/ServiceCollectionExtensions.cs:41-49 | No deduplication: repeating a successful call n times appends n equal descriptors, and the collection grows by exactly n. |

## Left out

- Reflection (`GetCustomAttribute`, `typeof`) is replaced by an explicit metadata table. Type identities are plain values.
- The container library (`IServiceCollection`, `AddSingleton`, `AddScoped`, `AddTransient`) is modelled only by its effect: it appends one descriptor, or throws on a null collection. Its internals are not modelled.
- The `default: throw new NotImplementedException()` branches of both switches cannot be reached. `Lifetime` is a closed three-constructor datatype, and the matches are exhaustive. An out-of-range integer cast to the enum is not modelled.
- The generic constraints `where TImplementation : class, TInterface` and `where TService : class` are compile-time checks and are not modelled.
- Exception messages are modelled by the fields they print: type names, lifetimes and the role of the undeclared type. Their exact wording is not modelled.
- The attribute's `AttributeUsage` rules are compile-time errors in the host. `Declare` checks the target kind before duplication, and that order is a choice of the model.
- Reflection's search of implemented interfaces is not modelled. Reflection never searches interfaces for inherited attributes, and this attribute is not inherited anyway.
- Concurrency is not modelled. Registration runs single-threaded at startup.
