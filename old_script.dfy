/** The older script: existence-only provisioning, then the same session. */
module OldScript {
  import opened Wrappers
  import opened Provision
  import opened Folders
  import opened Harvest
  import opened Mutation
  import opened Session

  datatype RunOutcome = RunOutcome(decision: Decision, session: SessionOutcome)

  /** Provisioning never stops this script: the session always opens. */
  method Run(driverExists: bool, username: string, entries: seq<Folder>, inputs: seq<Option<int>>,
             grid: string -> seq<Row>, page: ConfirmPage)
    returns (o: RunOutcome)
    ensures o.decision == ProvisionOld(driverExists)
    ensures o.decision.Setup? <==> !driverExists
    ensures SessionSpec(username, entries, inputs, grid, page, o.session)
  {
    var decision := ProvisionOld(driverExists);
    var session := RunSession(username, entries, inputs, grid, page);
    o := RunOutcome(decision, session);
  }
}
