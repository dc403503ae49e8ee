/** The two FIPS entitlements, their fixed configuration, and the host and
    configuration facts their decisions read. */
module Entitlements {
  import opened Wrappers

  /** The two concrete entitlements sharing the common FIPS behaviour. */
  datatype Variant = Fips | FipsUpdates {

    /** The title the entitlement's messages name it by. */
    function Title(): string {
      if Fips? then "FIPS" else "FIPS Updates"
    }
  }

  /** Packages upgraded to their FIPS build, together with their `-hmac`
      companion, when already installed. Adjacent `(root, root-hmac)` pairs. */
  const ConditionalPackages: seq<string> := [
    "openssh-client",
    "openssh-client-hmac",
    "openssh-server",
    "openssh-server-hmac",
    "strongswan",
    "strongswan-hmac"
  ]

  /** Packages whose apt hold the FIPS variant releases before enabling.
      The two `libssl1.0.0` entries appear twice, as in the entitlement's hold list. */
  const FipsProPackageHolds: seq<string> := [
    "fips-initramfs",
    "libssl1.1",
    "libssl1.1-hmac",
    "libssl1.0.0",
    "libssl1.0.0-hmac",
    "libssl1.0.0",
    "libssl1.0.0-hmac",
    "linux-fips",
    "openssh-client",
    "openssh-client-hmac",
    "openssh-server",
    "openssh-server-hmac",
    "openssl",
    "strongswan",
    "strongswan-hmac"
  ]

  /** The two `features.*` configuration switches the entitlement reads;
      an unset switch is `false`. */
  datatype Features = Features(allowXenialFipsOnCloud: bool, disableFipsMetapackageOverride: bool)

  /** The cloud identity lookup's answer: a provider tag such as "azure",
      "aws" or "gce", or `None` off-cloud. */
  type CloudId = Option<string>
}
