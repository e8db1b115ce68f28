/** The exceptions a registration call can throw, with the fields their messages carry. */
module Errors {
  import opened Attributes

  /** The parameter an `ArgumentNullException` names. */
  datatype ParamName = Services | InterfaceType | ImplementationType

  /** Where a missing declaration was expected: on the service interface, on
      the service implementation, or on a self-registered service. */
  datatype Role = ServiceInterface | ServiceImplementation | Service

  datatype Error =
      /** `ArgumentNullException`: a required argument is null. */
    | ArgumentNull(paramName: ParamName)
      /** `InvalidOperationException`: the type carries no `ServiceLifetimeAttribute`. */
    | MissingAttribute(role: Role, missingOn: TypeId)
      /** `InvalidOperationException`: interface and implementation declare different
          lifetimes. `required` is the interface's and `declared` the implementation's. */
    | LifetimeMismatch(interfaceType: TypeId, implementationType: TypeId, required: Lifetime, declared: Lifetime)
}
