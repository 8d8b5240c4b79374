/** The folder selector: the folder list built from the page's navigation
    entries (stopping at the first entry with an empty name, which is kept)
    and the re-prompting loop that turns operator input into a folder. */
module Folders {
  import opened Wrappers

  /** One navigation entry: its displayed name and its element id. */
  datatype Folder = Folder(name: string, id: string)

  /** The entries up to and including the first one with an empty name. */
  function UpToSentinel(entries: seq<Folder>): seq<Folder> {
    if entries == [] then []
    else if entries[0].name == "" then [entries[0]]
    else [entries[0]] + UpToSentinel(entries[1..])
  }

  /** The list is a prefix of the entries, in page order. */
  lemma {:induction false} UpToSentinelPrefix(entries: seq<Folder>)
    ensures var folders := UpToSentinel(entries);
            |folders| <= |entries| && folders == entries[..|folders|]
  {
    if entries != [] && entries[0].name != "" {
      UpToSentinelPrefix(entries[1..]);
    }
  }

  /** Every entry of the list but its last has a name. */
  lemma {:induction false} UpToSentinelNamed(entries: seq<Folder>)
    ensures forall i :: 0 <= i < |UpToSentinel(entries)| - 1 ==> UpToSentinel(entries)[i].name != ""
  {
    if entries != [] && entries[0].name != "" {
      var rest := UpToSentinel(entries[1..]);
      UpToSentinelNamed(entries[1..]);
      var folders := UpToSentinel(entries);
      assert folders == [entries[0]] + rest;
      forall i | 0 < i < |folders| - 1 ensures folders[i].name != "" {
        assert folders[i] == rest[i - 1] && i - 1 < |rest| - 1;
      }
    }
  }

  /** The list ends with an empty-named entry exactly when some entry has an
      empty name. */
  lemma {:induction false} UpToSentinelEndsAtEmpty(entries: seq<Folder>)
    ensures var folders := UpToSentinel(entries);
            (exists i :: 0 <= i < |entries| && entries[i].name == "")
            <==> (|folders| > 0 && folders[|folders| - 1].name == "")
  {
    if entries != [] && entries[0].name != "" {
      var tail := entries[1..];
      UpToSentinelEndsAtEmpty(tail);
      var rest := UpToSentinel(tail);
      var folders := UpToSentinel(entries);
      assert folders == [entries[0]] + rest;
      if exists i :: 0 <= i < |entries| && entries[i].name == "" {
        var i :| 0 <= i < |entries| && entries[i].name == "";
        assert tail[i - 1].name == "";
      }
      if |folders| > 0 && folders[|folders| - 1].name == "" {
        assert |rest| > 0 && rest[|rest| - 1].name == "";
        var i :| 0 <= i < |tail| && tail[i].name == "";
        assert entries[i + 1].name == "";
      }
    }
  }

  /** When no entry has an empty name, every entry is kept. */
  lemma {:induction false} UpToSentinelAllNamed(entries: seq<Folder>)
    requires forall i :: 0 <= i < |entries| ==> entries[i].name != ""
    ensures UpToSentinel(entries) == entries
  {
    if entries != [] {
      var tail := entries[1..];
      forall i | 0 <= i < |tail| ensures tail[i].name != "" {
        assert tail[i] == entries[i + 1];
      }
      UpToSentinelAllNamed(tail);
      assert entries == [entries[0]] + tail;
    }
  }

  /** Up to the first empty name, the list is built from the named prefix. */
  lemma {:induction false} UpToSentinelAfter(entries: seq<Folder>, k: nat)
    requires k <= |entries|
    requires forall i :: 0 <= i < k ==> entries[i].name != ""
    ensures UpToSentinel(entries) == entries[..k] + UpToSentinel(entries[k..])
    decreases k
  {
    if k > 0 {
      var tail := entries[1..];
      forall i | 0 <= i < k - 1 ensures tail[i].name != "" {
        assert tail[i] == entries[i + 1];
      }
      UpToSentinelAfter(tail, k - 1);
      assert UpToSentinel(entries) == [entries[0]] + UpToSentinel(tail);
      assert tail[k - 1..] == entries[k..];
      assert entries[..k] == [entries[0]] + tail[..k - 1];
    }
  }

  /** The index the re-prompt message names as the upper bound: the index of
      the empty-named entry, or 0 when the list has none. */
  function HintBound(folders: seq<Folder>): nat {
    if folders != [] && folders[|folders| - 1].name == "" then |folders| - 1 else 0
  }

  /** The enumeration loop: appends each entry and stops after appending the
      first one whose name is empty, recording its index. */
  method BuildFolders(entries: seq<Folder>) returns (folders: seq<Folder>, finalFolder: nat)
    ensures folders == UpToSentinel(entries)
    ensures finalFolder == HintBound(folders)
  {
    folders := [];
    finalFolder := 0;
    var index := 0;
    while index < |entries|
      invariant 0 <= index <= |entries|
      invariant folders == entries[..index]
      invariant forall i :: 0 <= i < index ==> entries[i].name != ""
      invariant finalFolder == 0
    {
      var folder := entries[index];
      folders := folders + [folder];
      if folder.name == "" {
        finalFolder := index;
        UpToSentinelAfter(entries, index);
        assert entries[..index + 1] == entries[..index] + [entries[index]];
        return;
      }
      index := index + 1;
    }
    UpToSentinelAfter(entries, index);
    assert entries[index..] == [];
    assert entries[..index] == entries;
  }

  /** The 1-based number n is accepted when `0 <= n - 1 < count`. */
  predicate Accepts(input: Option<int>, count: nat) {
    input.Some? && 1 <= input.value <= count
  }

  /** What the prompt prints for a rejected reply. */
  datatype Notice = NotANumber | OutOfRange(upper: int)

  function NoticeFor(input: Option<int>, finalFolder: int): Notice {
    if input.None? then NotANumber else OutOfRange(finalFolder)
  }

  /** The position of the first reply that is accepted, if any. */
  function FirstAccepted(inputs: seq<Option<int>>, count: nat): (r: Option<nat>)
    ensures r.Some? ==> r.value < |inputs| && Accepts(inputs[r.value], count)
    ensures r.Some? ==> forall j :: 0 <= j < r.value ==> !Accepts(inputs[j], count)
    ensures r.None? ==> forall j :: 0 <= j < |inputs| ==> !Accepts(inputs[j], count)
  {
    if inputs == [] then None
    else if Accepts(inputs[0], count) then Some(0)
    else match FirstAccepted(inputs[1..], count)
      case None => None
      case Some(k) => Some(k + 1)
  }

  /** The `while True` prompt loop over the operator's replies (`None` for a
      reply `int` cannot parse). It ends on the first accepted reply with the
      0-based index it names; when the replies run out first, `input` fails
      and no folder is chosen. Each rejected reply prints one notice. */
  method ChooseFolder(folders: seq<Folder>, finalFolder: int, inputs: seq<Option<int>>)
    returns (choice: Option<nat>, notices: seq<Notice>)
    ensures FirstAccepted(inputs, |folders|).None? ==>
              choice.None? && |notices| == |inputs|
    ensures FirstAccepted(inputs, |folders|).Some? ==>
              var j := FirstAccepted(inputs, |folders|).value;
              choice.Some? && choice.value == inputs[j].value - 1 && choice.value < |folders|
              && |notices| == j
    ensures forall j :: 0 <= j < |notices| ==> notices[j] == NoticeFor(inputs[j], finalFolder)
  {
    notices := [];
    var k := 0;
    while k < |inputs|
      invariant 0 <= k <= |inputs|
      invariant forall j :: 0 <= j < k ==> !Accepts(inputs[j], |folders|)
      invariant |notices| == k
      invariant forall j :: 0 <= j < k ==> notices[j] == NoticeFor(inputs[j], finalFolder)
    {
      var reply := inputs[k];
      if reply.None? {
        notices := notices + [NotANumber];
      } else {
        var userChoice := reply.value - 1;
        if 0 <= userChoice < |folders| {
          choice := Some(userChoice);
          return;
        }
        notices := notices + [OutOfRange(finalFolder)];
      }
      k := k + 1;
    }
    choice := None;
  }

  /** The empty-named entry counts in the accepted range, so when k named
      entries come before it, the reply k + 1 is accepted and selects it. */
  lemma SentinelIsSelectable(entries: seq<Folder>, k: nat)
    requires k < |entries| && entries[k].name == ""
    requires forall i :: 0 <= i < k ==> entries[i].name != ""
    ensures |UpToSentinel(entries)| == k + 1
    ensures HintBound(UpToSentinel(entries)) == k
    ensures Accepts(Some(k + 1), |UpToSentinel(entries)|)
    ensures UpToSentinel(entries)[k] == entries[k]
  {
    UpToSentinelAfter(entries, k);
    assert entries[k..][0] == entries[k];
  }
}
