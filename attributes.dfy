/** The lifetime declaration attached to a service type, and the metadata
    lookup that reads it back.

    A type's declarations are a table from type identity to the one
    `ServiceLifetimeAttribute` the type carries, if any. The attribute says
    `AllowMultiple = false`, so a map is enough. The lookup follows reflection:
    the type's own declaration first, then, when asked to inherit and only for an
    inherited attribute, its base classes. The attribute says `Inherited = false`,
    and the lemmas here derive from that setting that the lookup is exact. */
module Attributes {
  import opened Wrappers

  /** The three lifetimes of the dependency-injection container. */
  datatype Lifetime = Singleton | Scoped | Transient

  /** The kinds of type definition an attribute can target. */
  datatype TypeKind = Class | Interface | Struct | Enum | Delegate

  /** A type identity. `fullName` tells types apart. `name` is the short name
      that error messages print. */
  datatype TypeId = TypeId(fullName: string, name: string, kind: TypeKind)

  /** A lifetime declaration. Its one property is set by the constructor
      and has no setter. A datatype value never changes after it is built. */
  datatype ServiceLifetimeAttribute = ServiceLifetimeAttribute(lifetime: Lifetime)

  /** The parts of an attribute's usage that the lookup and the attachment
      read: the kinds of type it may target, and whether a lookup with
      `inherit` set also finds it on a base class. */
  datatype AttributeUsage = AttributeUsage(validOn: set<TypeKind>, inherited: bool)

  /** The usage declared on `ServiceLifetimeAttribute`. Its third setting,
      `AllowMultiple = false`, is what lets `Metadata` hold at most one
      declaration per type. */
  const ServiceLifetimeUsage := AttributeUsage({Class, Interface}, false)

  /** The metadata the helper reads.
      `declarations` holds each type's own lifetime declaration.
      `baseTypes` holds each type's base class. With `inherit` set, reflection
      searches that chain, and never implemented interfaces, for an inherited
      attribute. */
  datatype Metadata = Metadata(declarations: map<TypeId, ServiceLifetimeAttribute>,
                               baseTypes: map<TypeId, TypeId>)

  /** Every declaration sits on a kind of type the attribute may target. */
  ghost predicate WellFormed(m: Metadata)
  {
    forall t :: t in m.declarations ==> t.kind in ServiceLifetimeUsage.validOn
  }

  /** The lifetime declared on exactly `t`, as a partial function from types to lifetimes. */
  function DeclaredLifetime(m: Metadata, t: TypeId): Option<Lifetime>
  {
    if t in m.declarations then Some(m.declarations[t].lifetime) else None
  }

  /** The first declaration found on a proper ancestor of `t`, walking the
      base-class chain. `visited` holds the types already passed, so that a
      cyclic table still ends. */
  function AncestorAttribute(m: Metadata, t: TypeId, visited: set<TypeId>): (r: Option<ServiceLifetimeAttribute>)
    ensures r.Some? ==> exists b :: b in m.declarations && m.declarations[b] == r.value
    ensures t in m.baseTypes && t !in visited && m.baseTypes[t] in m.declarations ==>
              r == Some(m.declarations[m.baseTypes[t]])
    decreases m.baseTypes.Keys - visited
  {
    if t !in m.baseTypes || t in visited then None
    else
      var b := m.baseTypes[t];
      if b in m.declarations then Some(m.declarations[b])
      else AncestorAttribute(m, b, visited + {t})
  }

  /** Reads the declaration of `t`, as reflection's `GetCustomAttribute` does.
      The type's own declaration comes first. Only when `inherit` is set and
      the attribute's usage says `inherited` does the lookup go on to the
      base-class chain. */
  function GetCustomAttribute(m: Metadata, t: TypeId, inherit: bool): (r: Option<ServiceLifetimeAttribute>)
    ensures r.Some? <==> DeclaredLifetime(m, t).Some?
    ensures r.Some? ==> DeclaredLifetime(m, t) == Some(r.value.lifetime)
  {
    if t in m.declarations then Some(m.declarations[t])
    else if inherit && ServiceLifetimeUsage.inherited then AncestorAttribute(m, t, {})
    else None
  }

  /** Why a declaration cannot be attached. In the host these are compile-time errors. */
  datatype DeclarationError =
    | InvalidTarget(target: TypeId)       // the attribute is valid only on classes and interfaces
    | DuplicateAttribute(target: TypeId)  // the attribute cannot be applied twice to one type

  /** Attaches `[ServiceLifetime(lifetime)]` to the definition of `t`. */
  function Declare(m: Metadata, t: TypeId, lifetime: Lifetime): (r: Result<Metadata, DeclarationError>)
    ensures t.kind !in ServiceLifetimeUsage.validOn ==> r == Failure(InvalidTarget(t))
    ensures t.kind in ServiceLifetimeUsage.validOn && DeclaredLifetime(m, t).Some? ==> r == Failure(DuplicateAttribute(t))
    ensures r.Success? <==> t.kind in ServiceLifetimeUsage.validOn && DeclaredLifetime(m, t).None?
    // the lifetime read back, with or without `inherit`, is the one given to the constructor
    ensures r.Success? ==> forall inherit: bool :: GetCustomAttribute(r.value, t, inherit) == Some(ServiceLifetimeAttribute(lifetime))
    ensures r.Success? ==> GetCustomAttribute(r.value, t, false).value.lifetime == lifetime
    // no other type's declaration changes, and the base-class table does not change
    ensures r.Success? ==> forall u :: u != t ==> DeclaredLifetime(r.value, u) == DeclaredLifetime(m, u)
    ensures r.Success? ==> r.value.baseTypes == m.baseTypes
    ensures r.Success? && WellFormed(m) ==> WellFormed(r.value)
  {
    if t.kind !in ServiceLifetimeUsage.validOn then Failure(InvalidTarget(t))
    else if t in m.declarations then Failure(DuplicateAttribute(t))
    else Success(m.(declarations := m.declarations[t := ServiceLifetimeAttribute(lifetime)]))
  }

  /** The `inherit` flag makes no difference to the lookup. */
  lemma LookupIgnoresInherit(m: Metadata, t: TypeId)
    ensures GetCustomAttribute(m, t, true) == GetCustomAttribute(m, t, false)
  {
  }

  /** A type without its own declaration has none, even when its base class
      declares one. */
  lemma LookupNotInherited(m: Metadata, t: TypeId, inherit: bool)
    requires DeclaredLifetime(m, t).None?
    requires t in m.baseTypes && DeclaredLifetime(m, m.baseTypes[t]).Some?
    ensures GetCustomAttribute(m, t, inherit) == None
  {
  }

  /** The lookup is exact. Changing another type's declaration, or the base-class
      table, does not change what a lookup of `t` returns. */
  lemma LookupIsExact(m: Metadata, t: TypeId, u: TypeId, a: Option<ServiceLifetimeAttribute>,
                      bases: map<TypeId, TypeId>, inherit: bool)
    requires u != t
    ensures var changed := if a.Some? then m.declarations[u := a.value] else m.declarations - {u};
            GetCustomAttribute(Metadata(changed, bases), t, inherit) == GetCustomAttribute(m, t, inherit)
  {
  }
}
