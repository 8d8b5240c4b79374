/** The driver provisioning decisions of the two scripts. The newer one
    compares the installed browser's version with the driver's and refuses a
    mismatch; the older one only tests whether the driver file exists. */
module Provision {
  import opened Wrappers

  datatype ExitReason = NoBrowserVersion | VersionMismatch

  /** What provisioning does to the driver cache before a session opens. */
  datatype SetupStep = MakeDirectory | Fetch(url: string) | Extract | RemoveArchive

  datatype Decision =
    | Proceed                      // a usable driver is present
    | Exit(reason: ExitReason)     // `sys.exit(1)`
    | Setup(steps: seq<SetupStep>) // fetch and unpack the driver, then proceed

  /** The archive the newer script fetches: a fixed address, whatever the
      browser version is. */
  const NewArchiveUrl: string := "https://msedgedriver.microsoft.com/140.0.3456.0/edgedriver_win64.zip"

  /** The archive the older script fetches, pinned to version 131.0.2903.51. */
  const OldArchiveUrl: string := "https://msedgedriver.azureedge.net/131.0.2903.51/edgedriver_win64.zip"

  function SetupSteps(url: string): seq<SetupStep> {
    [MakeDirectory, Fetch(url), Extract, RemoveArchive]
  }

  /** Browser version `None` when the registry query fails; driver version
      `None` when `--version` cannot be read. The driver version is only
      consulted when the driver exists. */
  function ProvisionNew(browserVersion: Option<string>, driverExists: bool, driverVersion: Option<string>): (d: Decision)
    ensures browserVersion.None? || browserVersion.value == "" ==> d == Exit(NoBrowserVersion)
    ensures browserVersion.Some? && browserVersion.value != "" && driverExists ==>
              (d == Proceed <==> driverVersion == browserVersion)
              && (d != Proceed ==> d == Exit(VersionMismatch))
    ensures browserVersion.Some? && browserVersion.value != "" && !driverExists ==>
              d == Setup(SetupSteps(NewArchiveUrl))
  {
    if browserVersion.None? || browserVersion.value == "" then Exit(NoBrowserVersion)
    else if driverExists then
      if driverVersion == browserVersion then Proceed else Exit(VersionMismatch)
    else Setup(SetupSteps(NewArchiveUrl))
  }

  /** The older script never exits here: it fetches exactly when the driver
      file is absent. */
  function ProvisionOld(driverExists: bool): (d: Decision)
    ensures !d.Exit?
    ensures d.Setup? <==> !driverExists
    ensures d.Setup? ==> d.steps == SetupSteps(OldArchiveUrl)
  {
    if !driverExists then Setup(SetupSteps(OldArchiveUrl)) else Proceed
  }
}
