/** The lifetime-checked registration helper: three `AddWithAttribute`
    overloads that read the lifetime declarations of the types they are
    given, check them, and register one descriptor with the declared lifetime.

    `ResolvePair` and `ResolveSelf` say what one call registers or why it throws.
    The methods perform the call on a mutable collection and are proved against
    those functions. `RunCalls` is a composition root calling the helper
    several times in a row. */
module ServiceCollectionExtensions {
  import opened Wrappers
  import opened Attributes
  import opened Errors
  import opened Container

  /** Both types declare a lifetime, and the two lifetimes are equal. */
  predicate Agree(m: Metadata, interfaceType: TypeId, implementationType: TypeId)
  {
    DeclaredLifetime(m, interfaceType).Some? && DeclaredLifetime(m, interfaceType) == DeclaredLifetime(m, implementationType)
  }

  /** What `AddWithAttribute(services, interfaceType, implementationType)` does with a non-null
      collection: the descriptor it appends, or the exception it throws. `None` stands for a null `Type`. */
  function ResolvePair(m: Metadata, interfaceType: Option<TypeId>, implementationType: Option<TypeId>): (r: Result<Descriptor, Error>)
    ensures r.Success? <==> interfaceType.Some? && implementationType.Some? && Agree(m, interfaceType.value, implementationType.value)
    // the descriptor binds the interface to the implementation with the lifetime both declare
    ensures r.Success? ==> r.value.serviceType == interfaceType.value && r.value.implementationType == implementationType.value
    ensures r.Success? ==> DeclaredLifetime(m, r.value.serviceType) == Some(r.value.lifetime)
                           && DeclaredLifetime(m, r.value.implementationType) == Some(r.value.lifetime)
  {
    if interfaceType.None? then Failure(ArgumentNull(InterfaceType))
    else if implementationType.None? then Failure(ArgumentNull(ImplementationType))
    else
      var i, t := interfaceType.value, implementationType.value;
      var interfaceAttribute := GetCustomAttribute(m, i, false);
      if interfaceAttribute.None? then Failure(MissingAttribute(ServiceInterface, i))
      else
        var implementationAttribute := GetCustomAttribute(m, t, false);
        if implementationAttribute.None? then Failure(MissingAttribute(ServiceImplementation, t))
        else if implementationAttribute.value.lifetime != interfaceAttribute.value.lifetime then
          Failure(LifetimeMismatch(i, t, interfaceAttribute.value.lifetime, implementationAttribute.value.lifetime))
        else Success(Descriptor(implementationAttribute.value.lifetime, i, t))
  }

  /** What `AddWithAttribute<TService>(services)` does before it reaches the
      container: the descriptor it asks the container to append, or the exception it throws. */
  function ResolveSelf(m: Metadata, serviceType: TypeId): (r: Result<Descriptor, Error>)
    ensures r.Success? <==> DeclaredLifetime(m, serviceType).Some?
    ensures r.Failure? ==> r.error == MissingAttribute(Service, serviceType)
    // the type is its own contract, with its own declared lifetime
    ensures r.Success? ==> r.value == Descriptor(DeclaredLifetime(m, serviceType).value, serviceType, serviceType)
  {
    var attribute := GetCustomAttribute(m, serviceType, true);
    if attribute.None? then Failure(MissingAttribute(Service, serviceType))
    else Success(Descriptor(attribute.value.lifetime, serviceType, serviceType))
  }

  /** `AddWithAttribute(services, interfaceType, implementationType)`. */
  method AddWithAttribute(m: Metadata, services: ServiceCollection?, interfaceType: Option<TypeId>, implementationType: Option<TypeId>)
    returns (outcome: Outcome<Error>)
    modifies services
    ensures services == null ==> outcome == Fail(ArgumentNull(Services))
    ensures services != null ==>
      match ResolvePair(m, interfaceType, implementationType)
      case Success(d) => outcome == Pass && services.descriptors == old(services.descriptors) + [d]
      case Failure(e) => outcome == Fail(e) && services.descriptors == old(services.descriptors)
  {
    if services == null {
      return Fail(ArgumentNull(Services));
    }
    if interfaceType.None? {
      return Fail(ArgumentNull(InterfaceType));
    }
    if implementationType.None? {
      return Fail(ArgumentNull(ImplementationType));
    }
    var i, t := interfaceType.value, implementationType.value;

    var interfaceAttribute := GetCustomAttribute(m, i, false);
    if interfaceAttribute.None? {
      return Fail(MissingAttribute(ServiceInterface, i));
    }

    var implementationAttribute := GetCustomAttribute(m, t, false);
    if implementationAttribute.None? {
      return Fail(MissingAttribute(ServiceImplementation, t));
    }

    if implementationAttribute.value.lifetime != interfaceAttribute.value.lifetime {
      return Fail(LifetimeMismatch(i, t, interfaceAttribute.value.lifetime, implementationAttribute.value.lifetime));
    }

    match implementationAttribute.value.lifetime {
      case Singleton => outcome := AddSingleton(services, i, t);
      case Scoped => outcome := AddScoped(services, i, t);
      case Transient => outcome := AddTransient(services, i, t);
    }
  }

  /** `AddWithAttribute<TInterface, TImplementation>(services)`: `typeof` never
      yields null, so only `services` is checked. It returns the collection it was given. */
  method AddWithAttributeTyped(m: Metadata, services: ServiceCollection?, interfaceType: TypeId, implementationType: TypeId)
    returns (result: Result<ServiceCollection, Error>)
    modifies services
    ensures services == null ==> result == Failure(ArgumentNull(Services))
    ensures services != null ==>
      match ResolvePair(m, Some(interfaceType), Some(implementationType))
      case Success(d) => result == Success(services) && services.descriptors == old(services.descriptors) + [d]
      case Failure(e) => result == Failure(e) && services.descriptors == old(services.descriptors)
  {
    if services == null {
      return Failure(ArgumentNull(Services));
    }
    var outcome := AddWithAttribute(m, services, Some(interfaceType), Some(implementationType));
    if outcome.Fail? {
      return Failure(outcome.error);
    }
    result := Success(services);
  }

  /** `AddWithAttribute<TService>(services)`. It does not check `services`
      itself. A missing declaration is reported first. A null collection is
      then rejected by the container primitive the switch calls. */
  method AddWithAttributeSelf(m: Metadata, services: ServiceCollection?, serviceType: TypeId)
    returns (result: Result<ServiceCollection, Error>)
    modifies services
    ensures match ResolveSelf(m, serviceType)
      case Failure(e) => result == Failure(e) && (services != null ==> services.descriptors == old(services.descriptors))
      case Success(d) =>
        if services == null then result == Failure(ArgumentNull(Services))
        else result == Success(services) && services.descriptors == old(services.descriptors) + [d]
  {
    var attribute := GetCustomAttribute(m, serviceType, true);
    if attribute.None? {
      return Failure(MissingAttribute(Service, serviceType));
    }

    var outcome: Outcome<Error>;
    match attribute.value.lifetime {
      case Singleton => outcome := AddSingleton(services, serviceType, serviceType);
      case Scoped => outcome := AddScoped(services, serviceType, serviceType);
      case Transient => outcome := AddTransient(services, serviceType, serviceType);
    }

    if outcome.Fail? {
      return Failure(outcome.error);
    }
    result := Success(services);
  }

  /** Null arguments are rejected before any declaration is read: the outcome
      does not depend on the metadata at all. */
  lemma NullArgumentsBeforeLookup(m1: Metadata, m2: Metadata, interfaceType: Option<TypeId>, implementationType: Option<TypeId>)
    requires interfaceType.None? || implementationType.None?
    ensures ResolvePair(m1, interfaceType, implementationType) == ResolvePair(m2, interfaceType, implementationType)
    ensures ResolvePair(m1, interfaceType, implementationType)
            == Failure(ArgumentNull(if interfaceType.None? then InterfaceType else ImplementationType))
  {
  }

  /** An undeclared interface is reported, whatever the implementation declares. */
  lemma MissingInterfaceDeclaration(m: Metadata, interfaceType: TypeId, implementationType: TypeId)
    requires DeclaredLifetime(m, interfaceType).None?
    ensures ResolvePair(m, Some(interfaceType), Some(implementationType)) == Failure(MissingAttribute(ServiceInterface, interfaceType))
  {
  }

  /** A declared interface with an undeclared implementation reports the implementation. */
  lemma MissingImplementationDeclaration(m: Metadata, interfaceType: TypeId, implementationType: TypeId)
    requires DeclaredLifetime(m, interfaceType).Some? && DeclaredLifetime(m, implementationType).None?
    ensures ResolvePair(m, Some(interfaceType), Some(implementationType)) == Failure(MissingAttribute(ServiceImplementation, implementationType))
  {
  }

  /** Different declared lifetimes are reported with both types, the interface's
      lifetime as the required one and the implementation's as the declared one. */
  lemma MismatchReported(m: Metadata, interfaceType: TypeId, implementationType: TypeId, required: Lifetime, declared: Lifetime)
    requires DeclaredLifetime(m, interfaceType) == Some(required)
    requires DeclaredLifetime(m, implementationType) == Some(declared)
    requires required != declared
    ensures ResolvePair(m, Some(interfaceType), Some(implementationType))
            == Failure(LifetimeMismatch(interfaceType, implementationType, required, declared))
  {
  }

  /** Equal declared lifetimes register the interface against the implementation
      with that lifetime. */
  lemma MatchingLifetimesRegister(m: Metadata, interfaceType: TypeId, implementationType: TypeId, lifetime: Lifetime)
    requires DeclaredLifetime(m, interfaceType) == Some(lifetime)
    requires DeclaredLifetime(m, implementationType) == Some(lifetime)
    ensures ResolvePair(m, Some(interfaceType), Some(implementationType)) == Success(Descriptor(lifetime, interfaceType, implementationType))
  {
  }

  /** Registering a type as its own implementation through the pair form
      registers what self-registration does. The two forms pass different
      `inherit` flags, and the difference cannot be seen. Only the role named
      in a missing-declaration error differs. */
  lemma SelfMatchesPairOnSameType(m: Metadata, serviceType: TypeId)
    ensures ResolvePair(m, Some(serviceType), Some(serviceType)).Success? <==> ResolveSelf(m, serviceType).Success?
    ensures ResolveSelf(m, serviceType).Success? ==> ResolvePair(m, Some(serviceType), Some(serviceType)) == ResolveSelf(m, serviceType)
    ensures ResolveSelf(m, serviceType).Failure? ==>
              ResolvePair(m, Some(serviceType), Some(serviceType)) == Failure(MissingAttribute(ServiceInterface, serviceType))
  {
  }

  /** One call of the helper, as a composition root writes it. */
  datatype Call =
    | AddPair(interfaceType: Option<TypeId>, implementationType: Option<TypeId>)  // AddWithAttribute(services, i, t)
    | AddTypedPair(typedInterface: TypeId, typedImplementation: TypeId)            // AddWithAttribute<I, T>(services)
    | AddSelf(serviceType: TypeId)                                                // AddWithAttribute<S>(services)

  /** What one call does with a non-null collection. */
  function Resolve(m: Metadata, c: Call): Result<Descriptor, Error>
  {
    match c
    case AddPair(i, t) => ResolvePair(m, i, t)
    case AddTypedPair(i, t) => ResolvePair(m, Some(i), Some(t))
    case AddSelf(s) => ResolveSelf(m, s)
  }

  /** The collection after a sequence of calls, and the exception that stopped it, if any.
      Exceptions are not caught. The first one ends the sequence, and the
      descriptors appended before it stay in the collection. */
  datatype Run = Run(descriptors: seq<Descriptor>, failure: Option<Error>)

  function RunCalls(m: Metadata, descriptors: seq<Descriptor>, calls: seq<Call>): Run
    decreases |calls|
  {
    if calls == [] then Run(descriptors, None)
    else match Resolve(m, calls[0])
      case Failure(e) => Run(descriptors, Some(e))
      case Success(d) => RunCalls(m, descriptors + [d], calls[1..])
  }

  /** A sequence of calls keeps the existing registrations, in order, and then
      holds one descriptor per successful call, in call order. It runs every
      call when none throws. Otherwise it stops at the first call that throws
      and reports that call's exception. */
  lemma {:induction false} RunAppendsInOrder(m: Metadata, before: seq<Descriptor>, calls: seq<Call>)
    ensures var r := RunCalls(m, before, calls);
            var n := |r.descriptors| - |before|;
            && |before| <= |r.descriptors| <= |before| + |calls|
            && r.descriptors[..|before|] == before
            && (forall k :: 0 <= k < n ==> Resolve(m, calls[k]) == Success(r.descriptors[|before| + k]))
            && (r.failure.None? ==> n == |calls|)
            && (r.failure.Some? ==> n < |calls| && Resolve(m, calls[n]) == Failure(r.failure.value))
    decreases |calls|
  {
    if calls != [] {
      match Resolve(m, calls[0])
      case Failure(e) =>
      case Success(d) =>
        var r := RunCalls(m, before + [d], calls[1..]);
        assert r == RunCalls(m, before, calls);
        RunAppendsInOrder(m, before + [d], calls[1..]);
        var n := |r.descriptors| - |before|;
        assert r.descriptors[..|before| + 1] == before + [d];
        assert r.descriptors[..|before|] == (before + [d])[..|before|];
        forall k | 0 <= k < n
          ensures Resolve(m, calls[k]) == Success(r.descriptors[|before| + k])
        {
          if k > 0 {
            assert calls[k] == calls[1..][k - 1];
            assert |before| + k == |before + [d]| + (k - 1);
          }
        }
        if r.failure.Some? {
          assert calls[n] == calls[1..][n - 1];
        }
    }
  }

  /** No deduplication: a call that succeeds once succeeds again, and
      repeating it n times appends n equal descriptors. */
  lemma {:induction false} RepeatedCallsAccumulate(m: Metadata, before: seq<Descriptor>, c: Call, n: nat)
    requires Resolve(m, c).Success?
    ensures RunCalls(m, before, seq(n, _ => c)) == Run(before + seq(n, _ => Resolve(m, c).value), None)
    ensures |RunCalls(m, before, seq(n, _ => c)).descriptors| == |before| + n
    decreases n
  {
    var d := Resolve(m, c).value;
    if n == 0 {
      assert seq(n, _ => c) == [];
      assert before + seq(n, _ => d) == before;
    } else {
      var calls := seq(n, _ => c);
      assert calls[0] == c;
      assert calls[1..] == seq(n - 1, _ => c);
      RepeatedCallsAccumulate(m, before + [d], c, n - 1);
      assert before + [d] + seq(n - 1, _ => d) == before + seq(n, _ => d);
    }
  }
}
