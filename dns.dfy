/** The DNS resolver, which the address checks consult for MX records, taken as an oracle. */
module Dns {

  /** The outcome of `resolveMx` for one domain: the number of records returned, or a failed
      lookup (the promise rejects). */
  datatype MxLookup = Records(count: nat) | Failed

  /** A domain can receive mail when its lookup succeeds with at least one record; a failed
      lookup and an empty answer count alike as none. */
  predicate HasMx(answer: MxLookup) {
    answer.Records? && answer.count > 0
  }
}
