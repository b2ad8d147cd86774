/** The keys of the signing service. */
module Keys {
  type Key = nat
}
