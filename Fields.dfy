/** The decoded protocol fields (`GlobalNames`) that the MM registration loggers look up,
    and the MM PDU type values (`MmPduType`) they distinguish. A decoded PDU is a
    dictionary from field to integer value. */
module Fields {

  datatype Field =
    | MmPduType
    | LocationArea
    | Ssi
    | MmSsi
    | AuthenticationSubType
    | MmGssi
    | CckIdentifier
    | LocationUpdateAcceptType
    | RegistrationRequired
    | RejectCause
    | StatusDownlink

  type Decoded = map<Field, int>

  // MM PDU type values (4 bits) that the registrations log reacts to.
  const D_AUTHENTICATION: int := 1
  const D_LOCATION_UPDATE_ACCEPT: int := 5
  const D_LOCATION_UPDATE_REJECT: int := 7
  const D_MM_STATUS: int := 12
}
