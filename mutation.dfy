/** The bulk mutation: the move to the DNC list, which is always clicked,
    followed by the confirmation dialog, which is handled only when more than
    one row was kept and whose wait timeouts are caught. */
module Mutation {

  /** How the page answers the three waits of the confirmation dialog: the
      primary button, the confirmation text box, the "Okay" button. */
  datatype ConfirmPage = ConfirmPage(primaryButton: bool, confirmInput: bool, okayButton: bool)

  /** The wait that timed out inside the dialog. */
  datatype ConfirmStep = PrimaryButton | ConfirmInput | OkayButton

  datatype Confirmation =
    | Skipped                       // at most one row kept: no dialog handling
    | Confirmed                     // "confirm" typed and "Okay" clicked
    | NotNeeded(missing: ConfirmStep) // a wait timed out and was caught

  datatype MutationLog = MutationLog(moveClicked: bool, typedConfirm: bool, confirmation: Confirmation)

  const ConfirmText: string := "confirm"

  /** The `try` block: each wait either finds its element, and the next step
      runs, or times out, which the `except` turns into "not needed". */
  function ConfirmDialog(page: ConfirmPage): (r: (bool, Confirmation))
    ensures r.1 != Skipped
    ensures r.0 <==> page.primaryButton && page.confirmInput
    ensures r.1 == Confirmed <==> page.primaryButton && page.confirmInput && page.okayButton
  {
    if !page.primaryButton then (false, NotNeeded(PrimaryButton))
    else if !page.confirmInput then (false, NotNeeded(ConfirmInput))
    else if !page.okayButton then (true, NotNeeded(OkayButton))
    else (true, Confirmed)
  }

  /** The move is clicked whatever the number of kept rows; the dialog is
      handled when more than one row was kept. */
  function Mutate(keptCount: nat, page: ConfirmPage): (log: MutationLog)
    ensures log.moveClicked
    ensures log.confirmation == Skipped <==> keptCount <= 1
    ensures log.confirmation == Confirmed
            <==> keptCount > 1 && page.primaryButton && page.confirmInput && page.okayButton
    ensures log.typedConfirm <==> keptCount > 1 && page.primaryButton && page.confirmInput
    ensures log.confirmation.NotNeeded? ==>
              match log.confirmation.missing
              case PrimaryButton => !page.primaryButton
              case ConfirmInput => page.primaryButton && !page.confirmInput
              case OkayButton => page.primaryButton && page.confirmInput && !page.okayButton
  {
    if keptCount > 1 then
      var (typed, confirmation) := ConfirmDialog(page);
      MutationLog(true, typed, confirmation)
    else MutationLog(true, false, Skipped)
  }
}
