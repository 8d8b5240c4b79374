/** The newer script: version-checked provisioning, then the session. */
module NewScript {
  import opened Wrappers
  import opened Provision
  import opened Folders
  import opened Harvest
  import opened Mutation
  import opened Session

  datatype RunOutcome = RunOutcome(decision: Decision, session: Option<SessionOutcome>)

  /** A session opens unless provisioning exits; when it opens it behaves as
      `SessionSpec` says. */
  method Run(browserVersion: Option<string>, driverExists: bool, driverVersion: Option<string>,
             username: string, entries: seq<Folder>, inputs: seq<Option<int>>,
             grid: string -> seq<Row>, page: ConfirmPage)
    returns (o: RunOutcome)
    ensures o.decision == ProvisionNew(browserVersion, driverExists, driverVersion)
    ensures o.session.None? <==> o.decision.Exit?
    ensures o.session.None? <==>
              browserVersion.None? || browserVersion.value == ""
              || (driverExists && driverVersion != browserVersion)
    ensures o.session.Some? ==> SessionSpec(username, entries, inputs, grid, page, o.session.value)
  {
    var decision := ProvisionNew(browserVersion, driverExists, driverVersion);
    if decision.Exit? {
      return RunOutcome(decision, None);
    }
    var session := RunSession(username, entries, inputs, grid, page);
    o := RunOutcome(decision, Some(session));
  }
}
