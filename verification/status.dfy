/** The FIPS refinement of an entitlement's application status: an enabled
    entitlement on a kernel that is not a FIPS kernel still reports ENABLED,
    but with a message asking for a reboot. */
module FipsStatus {
  import opened PyText

  /** The application status values (the enumeration is defined outside the
      FIPS entitlement). */
  datatype ApplicationStatus = Enabled | Disabled | Pending

  /** A status together with its human-readable message. */
  datatype StatusReport = StatusReport(status: ApplicationStatus, message: string)

  const RebootRequired: string := "Reboot to FIPS kernel required"
  const FipsKernelSuffix: string := "-fips"

  /** Whether the running kernel is a FIPS kernel. */
  predicate IsFipsKernel(kernel: string) {
    EndsWith(kernel, FipsKernelSuffix)
  }

  /** The status FIPS reports, given the repository-level status `base` and
      the running kernel. */
  function FipsApplicationStatus(base: StatusReport, kernel: string): (r: StatusReport)
    ensures r.status == base.status
    ensures base.status != Enabled ==> r == base
    ensures IsFipsKernel(kernel) ==> r == base
    ensures base.status == Enabled && !IsFipsKernel(kernel) ==> r.message == RebootRequired
  {
    if base.status != Enabled then base
    else if IsFipsKernel(kernel) then base
    else StatusReport(Enabled, RebootRequired)
  }

  /** The reboot message is reported exactly when the base status is ENABLED
      on a non-FIPS kernel, or the base already carried that message. */
  lemma RebootReportedIff(base: StatusReport, kernel: string)
    ensures FipsApplicationStatus(base, kernel).message == RebootRequired
        <==> (base.status == Enabled && !IsFipsKernel(kernel)) || base.message == RebootRequired
  {
  }

  /** Classifying an already-classified status again changes nothing. */
  lemma FipsApplicationStatusIdempotent(base: StatusReport, kernel: string)
    ensures FipsApplicationStatus(FipsApplicationStatus(base, kernel), kernel)
         == FipsApplicationStatus(base, kernel)
  {
  }

  /** The three documented outcomes on concrete kernels. */
  lemma FipsApplicationStatusExamples(msg: string)
    ensures FipsApplicationStatus(StatusReport(Enabled, msg), "5.4.0-generic")
         == StatusReport(Enabled, RebootRequired)
    ensures FipsApplicationStatus(StatusReport(Enabled, msg), "5.4.0-fips")
         == StatusReport(Enabled, msg)
    ensures FipsApplicationStatus(StatusReport(Disabled, msg), "5.4.0-generic")
         == StatusReport(Disabled, msg)
  {
    assert "5.4.0-fips"[5..] == FipsKernelSuffix;
    assert "5.4.0-generic"[8..] != FipsKernelSuffix by {
      assert "5.4.0-generic"[8..][0] == 'n';
    }
  }
}
