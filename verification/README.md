# FIPS entitlement decision logic, modelled in Dafny

This project models the decision logic of the `fips` and `fips-updates`
entitlements of the Ubuntu Advantage client (`uaclient/entitlements/fips.py`).
Every environment lookup (release series, running kernel, cloud identity,
container detection, configuration switches, installed packages, the output
of `apt-mark showholds`) is an explicit parameter, and apt commands are
returned as data (`Apt.AptCommand`) or run through a caller-supplied runner
(`Apt.Runner`), so the whole core is a set of pure functions and two
methods (the removal command and the set-to-list conversion it uses).

Modules:

- `Entitlements` — the two variants (`Fips`, `FipsUpdates`), their titles,
  the conditional package list and the FIPS hold list.
- `Affordances` — the xenial-on-cloud block rule and the ordered affordance
  lists each variant declares.
- `FipsPackages` — the cloud metapackage substitution and package resolution
  (`groupby` of the conditional packages by their name without `-hmac`).
- `FipsStatus` — the reboot-required refinement of the application status.
- `FipsRemoval` — the removal set and the `apt-get remove` command.
- `FipsHolds` — `setup_apt_config` for FIPS: filter `showholds`, unhold,
  then the shared repository setup, with abort-on-failure.
- `PyText`, `PyIter`, `Wrappers`, `Apt` — Python `str.replace`,
  `str.splitlines`, `str.endswith`, `" ".join`, `itertools.groupby`,
  Option/Result, and apt commands as values.

## Model

| member | source | states |
|---|---|---|
| Affordances.PreventFipsOnXenialCloud | uaclient/entitlements/fips.py:48-67 | FIPS is blocked exactly when the override switch is off, the series is xenial and the cloud is azure or gce; a missing cloud never blocks |
| Affordances.CloudTitle | uaclient/entitlements/fips.py:72-73 | the block message names "an Azure" or "a GCP" for those clouds and nothing for any other or a missing cloud |
| Affordances.StaticAffordances | uaclient/entitlements/fips.py:204-222 | FIPS declares the common two affordances unchanged (container check first, xenial-cloud check second) followed by the "Cannot enable FIPS when FIPS Updates is enabled" check; FIPS Updates declares only the common two; every flag is false |
| Affordances.AffordanceTriggers | uaclient/entitlements/fips.py:75-88 | some declared predicate holds iff the host is a container, or the xenial-cloud rule blocks, or (FIPS only) FIPS Updates is enabled |
| Affordances.OverrideAllowsXenialCloud | uaclient/entitlements/fips.py:49-55 | with the override switch set, no predicate holds on a non-container host without FIPS Updates, whatever the series and cloud |
| FipsPackages.SubstituteAll | uaclient/entitlements/fips.py:120-122 | the rewritten list has the same length and differs from the input only where the input held the replaced name |
| FipsPackages.ReplaceMetapackage | uaclient/entitlements/fips.py:102-122 | length is preserved, every name other than "ubuntu-fips" stays in place, "ubuntu-fips" becomes "ubuntu-<cloud>-fips" only on bionic azure/aws with the switch unset, otherwise the list is returned unchanged |
| FipsPackages.ReplaceMetapackageChangesIff | uaclient/entitlements/fips.py:107-122 | the substitution changes the list iff it applies and the list contains "ubuntu-fips" |
| FipsPackages.ReplaceMetapackageIdempotent | uaclient/entitlements/fips.py:118-122 | after substitution "ubuntu-fips" is gone where it applies, and substituting twice equals substituting once |
| FipsPackages.ConditionalGroupsArePairs | uaclient/entitlements/fips.py:130-133 | grouping the conditional packages by name without "-hmac" yields exactly the three adjacent pairs (root, root-hmac) in declaration order |
| FipsPackages.AppendInstalledGroups | uaclient/entitlements/fips.py:135-137 | the loop leaves the accumulated list as a prefix and appends exactly the groups whose root is installed, in group order |
| FipsPackages.ResolvePackages | uaclient/entitlements/fips.py:124-139 | the resolved list starts with the substituted base list unchanged and continues with the pair of each installed root, in declaration order, without deduplication |
| FipsPackages.ResolvedSuffixIsConditional | uaclient/entitlements/fips.py:130-137 | everything appended is a conditional package, and an installed root always brings its hmac companion, installed or not |
| FipsPackages.ResolveAppendsNothingIff | uaclient/entitlements/fips.py:135-139 | nothing is appended iff none of the three roots is installed |
| FipsPackages.ResolveOpensshClientOnly | uaclient/entitlements/fips.py:124-139 | with only openssh-client among the roots installed, exactly openssh-client and openssh-client-hmac are appended |
| FipsStatus.FipsApplicationStatus | uaclient/entitlements/fips.py:141-151 | the status never changes; a non-ENABLED status or a kernel ending in "-fips" passes through unchanged; ENABLED on any other kernel reports "Reboot to FIPS kernel required" |
| FipsStatus.RebootReportedIff | uaclient/entitlements/fips.py:143-151 | the reboot message is reported iff the base is ENABLED on a non-FIPS kernel or already carried that message |
| FipsStatus.FipsApplicationStatusIdempotent | uaclient/entitlements/fips.py:141-151 | classifying an already classified status again changes nothing |
| FipsStatus.FipsApplicationStatusExamples | uaclient/entitlements/fips.py:146-151 | ENABLED on "5.4.0-generic" needs a reboot, ENABLED on "5.4.0-fips" and DISABLED pass through |
| FipsRemoval.RemovalTargets | uaclient/entitlements/fips.py:159-163 | the removal set is a subset of the installed packages and of the resolved packages, disjoint from the conditional packages, and contains every resolved, installed, non-conditional package |
| FipsRemoval.RemovalIgnoresConditionalPairs | uaclient/entitlements/fips.py:159-163 | the appended conditional pairs never reach the removal set: it is decided by the substituted base list alone |
| FipsRemoval.RemovePackagesCommand | uaclient/entitlements/fips.py:153-176 | no command when the removal set is empty; otherwise one `apt-get remove --assume-yes` with the two dpkg options, then each removal target once, run non-interactively with the title's failure message |
| FipsRemoval.ListSet | uaclient/entitlements/fips.py:173 | turning the removal set into a list lists each element exactly once |
| FipsHolds.KeepFipsHolds | uaclient/entitlements/fips.py:259-262 | the kept lines are exactly the printed lines on the hold list, in their printed order |
| FipsHolds.KeepFipsHoldsCounts | uaclient/entitlements/fips.py:259-262 | a line on the hold list is kept as many times as it was printed; any other line is dropped |
| FipsHolds.KeepFipsHoldsEmptyIff | uaclient/entitlements/fips.py:259-263 | nothing is kept iff no printed line is on the hold list |
| FipsHolds.SetupAptConfig | uaclient/entitlements/fips.py:249-268 | FIPS runs `showholds` first; every step before the last succeeded; a failing command ends the run with its error; the only other command is a non-empty `apt-mark unhold` of held packages; FIPS Updates runs only the shared setup |
| FipsHolds.BaseSetupRunsIff | uaclient/entitlements/fips.py:257-268 | the shared setup runs iff no apt command failed, and the setup succeeds iff additionally the shared setup does |
| FipsHolds.UnholdIssuedIff | uaclient/entitlements/fips.py:257-267 | after `showholds` succeeds, an unhold is issued iff some printed line is on the hold list, as the second step, releasing exactly those lines |
| FipsHolds.UnholdsForPrintedLines | uaclient/entitlements/fips.py:258-262 | when `showholds` prints one package per line, the released packages are the printed ones on the hold list, in order |
| PyText.Replace | uaclient/entitlements/fips.py:132 | `str.replace` with a non-empty pattern returns a string in which the pattern never occurs unchanged |
| PyText.StripHmac | uaclient/entitlements/fips.py:132 | the group key maps a root without an 'm' and its "-hmac" companion both to the root |
| PyText.SplitLines | uaclient/entitlements/fips.py:260 | every line `str.splitlines` yields is free of line boundaries, and a non-empty string with no boundary is a single line |
| PyText.SplitLinesTerminated | uaclient/entitlements/fips.py:260 | splitting newline-terminated output into lines gives back the lines |
| Apt.RunCommand | uaclient/entitlements/fips.py:257-267 | running an apt command succeeds exactly when the runner does, returning its output; a failure raises an error carrying the command's own failure message and the captured output |
| PyIter.GroupBy | uaclient/entitlements/fips.py:130-133 | the groups concatenate back to the input, each is a non-empty run sharing its key, and neighbouring groups have different keys |
| PyIter.GroupByUnique | uaclient/entitlements/fips.py:130-133 | any split with those properties is the one groupby produces |

## Left out

- Running apt commands and listing installed packages: subprocess I/O. The
  installed packages are a `set<string>` parameter, `showholds` output and
  command outcomes come from the `Apt.Runner` parameter, and the removal
  command is returned as a value.
- Cloud identity, platform info, container detection and configuration
  lookups: these are environment reads; they are parameters (`CloudId`,
  `series`/`kernel`, `HostFacts.isContainer`, `Features`).
- The shared repository entitlement: its package list, its application
  status and its apt setup are inputs (`base` list, `base` status report,
  `base` setup outcome); the affordance evaluator that consumes the
  affordance list is not modelled, so the third element of each entry is
  carried unchanged and given no meaning.
- The confirmation prompts (`messaging`): interactive UI.
- The text of message templates defined outside the entitlement (cloud
  block, enable failed): they appear as constructors carrying their format
  arguments (`Affordances.FipsBlockOnCloud`, `Apt.EnabledFailed`).
- Creating a FIPS Updates entitlement to read its status: modelled as the
  boolean `HostFacts.fipsUpdatesEnabled`.
- `ApplicationStatus` is defined outside the entitlement; the model uses the
  three values Enabled, Disabled and Pending.
- `remove_packages` reads the installed packages twice (directly and through
  `packages`); the model assumes both reads see the same set.
- Lists are values here. `packages` extends with `+=` the very list the
  shared entitlement returned whenever no substitution applies; whether
  that list is shared state depends on `uaclient/entitlements/repo.py`,
  which is not part of this model.
- The installed packages are given as a set; a failing installed-packages
  probe is not modelled.
- `packages` does not deduplicate, so a base list naming a conditional
  package keeps both copies; the model keeps them too.
- The reboot message is "Reboot to FIPS kernel required", exactly as the
  code writes it.
- The descriptive and repository attributes (name, origin, description,
  help URL, repo pin priority, key file, `apt_noninteractive`, incompatible
  services) are read only by the shared entitlement machinery, which is not
  modelled; only the titles, which the messages use, are kept.
- FipsRemoval.RemovePackagesCommand: leaves the order of the package
  arguments open, because the source lists a Python set, whose order is not
  determined by the program.
- FipsRemoval.RemovePackagesCommand: does not run the command; whether the
  removal fails is up to the runner.
