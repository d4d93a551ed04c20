/** Time units shared by the integrator, the sampling grid and the solar-time helpers. */
module Units {

  /** Milliseconds in one hour: JavaScript timestamps are epoch milliseconds. */
  const MsPerHour: int := 3600000
}
