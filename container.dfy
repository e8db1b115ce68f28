/** The container's registration collection and its three registration
    primitives, modelled only by their observable effect: each appends one
    descriptor, or throws when the collection is null. */
module Container {
  import opened Wrappers
  import opened Attributes
  import opened Errors

  /** A registration: the contract callers ask for, the concrete type the
      container builds, and the lifetime of its instances. */
  datatype Descriptor = Descriptor(lifetime: Lifetime, serviceType: TypeId, implementationType: TypeId)

  /** The mutable list of registrations a composition root fills at startup. */
  class ServiceCollection {
    var descriptors: seq<Descriptor>

    constructor ()
      ensures descriptors == []
    {
      descriptors := [];
    }

    /** Appends a descriptor. There is no deduplication. */
    method Add(d: Descriptor)
      modifies this
      ensures descriptors == old(descriptors) + [d]
    {
      descriptors := descriptors + [d];
    }
  }

  /** Registers `implementationType` for `serviceType` with one of the three
      lifetimes. It throws on a null collection and adds nothing. */
  method AddWithLifetime(services: ServiceCollection?, lifetime: Lifetime, serviceType: TypeId, implementationType: TypeId)
    returns (outcome: Outcome<Error>)
    modifies services
    ensures services == null ==> outcome == Fail(ArgumentNull(Services))
    ensures services != null ==> outcome == Pass
    ensures services != null ==> services.descriptors == old(services.descriptors) + [Descriptor(lifetime, serviceType, implementationType)]
  {
    if services == null {
      return Fail(ArgumentNull(Services));
    }
    services.Add(Descriptor(lifetime, serviceType, implementationType));
    outcome := Pass;
  }

  /** `AddSingleton(serviceType, implementationType)`. */
  method AddSingleton(services: ServiceCollection?, serviceType: TypeId, implementationType: TypeId)
    returns (outcome: Outcome<Error>)
    modifies services
    ensures services == null ==> outcome == Fail(ArgumentNull(Services))
    ensures services != null ==> outcome == Pass
    ensures services != null ==> services.descriptors == old(services.descriptors) + [Descriptor(Singleton, serviceType, implementationType)]
  {
    outcome := AddWithLifetime(services, Singleton, serviceType, implementationType);
  }

  /** `AddScoped(serviceType, implementationType)`. */
  method AddScoped(services: ServiceCollection?, serviceType: TypeId, implementationType: TypeId)
    returns (outcome: Outcome<Error>)
    modifies services
    ensures services == null ==> outcome == Fail(ArgumentNull(Services))
    ensures services != null ==> outcome == Pass
    ensures services != null ==> services.descriptors == old(services.descriptors) + [Descriptor(Scoped, serviceType, implementationType)]
  {
    outcome := AddWithLifetime(services, Scoped, serviceType, implementationType);
  }

  /** `AddTransient(serviceType, implementationType)`. */
  method AddTransient(services: ServiceCollection?, serviceType: TypeId, implementationType: TypeId)
    returns (outcome: Outcome<Error>)
    modifies services
    ensures services == null ==> outcome == Fail(ArgumentNull(Services))
    ensures services != null ==> outcome == Pass
    ensures services != null ==> services.descriptors == old(services.descriptors) + [Descriptor(Transient, serviceType, implementationType)]
  {
    outcome := AddWithLifetime(services, Transient, serviceType, implementationType);
  }
}
