/** One browser session, as both scripts run it after provisioning: choose a
    folder, harvest its rows, move them to the DNC list, then compose the
    mail draft. The page is given as data: the navigation entries, the rows
    each folder's table shows, and how the confirmation dialog answers. */
module Session {
  import opened Wrappers
  import opened Folders
  import opened Harvest
  import opened Mutation
  import opened Draft

  /** An exception that escapes the session: `input` failing because the
      operator's replies ran out, or a checkbox wait timing out. */
  datatype Failure = NoFolderChosen | CheckboxTimeout(row: nat)

  /** Either way, `notices` are the re-prompt messages printed while a folder
      was being chosen. */
  datatype SessionOutcome =
    | Aborted(failure: Failure, notices: seq<Notice>)
    | Finished(chosen: Folder, keptCount: nat, clicked: seq<nat>, emails: set<string>,
               mutation: MutationLog, draft: MailItem, bccOrder: seq<string>, notices: seq<Notice>)

  /** One notice per reply rejected before the first accepted one (or per
      reply, when none is accepted), each naming the bound `final_folder`. */
  ghost predicate PromptSpec(entries: seq<Folder>, inputs: seq<Option<int>>, notices: seq<Notice>)
  {
    var folders := UpToSentinel(entries);
    && |notices| == (match FirstAccepted(inputs, |folders|) case None => |inputs| case Some(j) => j)
    && forall i :: 0 <= i < |notices| ==> notices[i] == NoticeFor(inputs[i], HintBound(folders))
  }

  /** What a session does with the given inputs. */
  ghost predicate SessionSpec(username: string, entries: seq<Folder>, inputs: seq<Option<int>>,
                              grid: string -> seq<Row>, page: ConfirmPage, o: SessionOutcome)
  {
    var folders := UpToSentinel(entries);
    && PromptSpec(entries, inputs, o.notices)
    && match FirstAccepted(inputs, |folders|)
    case None => o.Aborted? && o.failure == NoFolderChosen
    case Some(j) =>
      var chosen := folders[inputs[j].value - 1];
      var kept := EvenIndexed(grid(chosen.id));
      if exists i :: 0 <= i < |kept| && !kept[i].checkboxClickable then
        && o.Aborted? && o.failure.CheckboxTimeout?
        && var k := o.failure.row;
           && k < |kept| && !kept[k].checkboxClickable
           && forall i :: 0 <= i < k ==> kept[i].checkboxClickable
      else
        && o.Finished?
        && o.chosen == chosen
        && o.keptCount == |kept|
        && |o.clicked| == |kept| && (forall i :: 0 <= i < |kept| ==> o.clicked[i] == i)
        && o.emails == Addresses(kept)
        && o.mutation == Mutate(|kept|, page)
        && Enumerates(o.bccOrder, o.emails)
        && o.draft == MailItem(Subject, FirstName(username), Text.Join(o.bccOrder, BccSeparator), username)
  }

  /** The `try` block of either script, followed by the draft. */
  method RunSession(username: string, entries: seq<Folder>, inputs: seq<Option<int>>,
                    grid: string -> seq<Row>, page: ConfirmPage)
    returns (o: SessionOutcome)
    ensures SessionSpec(username, entries, inputs, grid, page, o)
  {
    var folders, finalFolder := BuildFolders(entries);
    var choice, notices := ChooseFolder(folders, finalFolder, inputs);
    assert PromptSpec(entries, inputs, notices);
    if choice.None? {
      return Aborted(NoFolderChosen, notices);
    }
    var chosen := folders[choice.value];
    var kept := EvenIndexed(grid(chosen.id));
    var emails, clicked, timedOut := HarvestRows(kept);
    if timedOut.Some? {
      return Aborted(CheckboxTimeout(timedOut.value), notices);
    }
    var mutation := Mutate(|kept|, page);
    var draft, order := Compose(username, emails);
    o := Finished(chosen, |kept|, clicked, emails, mutation, draft, order, notices);
  }
}
