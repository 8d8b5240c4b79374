/** The row harvester: the index-parity filter over the matched table rows,
    the set of addresses taken from their `mailto:` links, and the loop that
    collects them and clicks each kept row's checkbox. */
module Harvest {
  import opened Wrappers
  import opened Text

  /** One matched table row: the `href` of each of its links (`None` when
      the link has none) and whether its checkbox becomes clickable within
      the wait. */
  datatype Row = Row(hrefs: seq<Option<string>>, checkboxClickable: bool)

  const MailtoPrefix: string := "mailto:"

  /** `href and href.startswith('mailto:')`. */
  predicate IsMailto(href: Option<string>) {
    href.Some? && href.value != "" && StartsWith(href.value, MailtoPrefix)
  }

  /** The address a mail link names: its target without the prefix. */
  function AddressOf(href: Option<string>): string
    requires IsMailto(href)
  {
    href.value[|MailtoPrefix|..]
  }

  /** The list comprehension keeping the rows whose index is even, written
      as the enumeration it is: the last row is kept when its index is even. */
  function EvenIndexed<T>(rows: seq<T>): (kept: seq<T>)
    ensures |kept| == (|rows| + 1) / 2
    ensures forall i :: 0 <= i < |kept| ==> kept[i] == rows[2 * i]
    ensures forall k :: 0 <= k < |rows| && k % 2 == 0 ==> kept[k / 2] == rows[k]
  {
    if rows == [] then []
    else
      var last := |rows| - 1;
      EvenIndexed(rows[..last]) + (if last % 2 == 0 then [rows[last]] else [])
  }

  /** The addresses of the mail links among one row's links. */
  function LinkAddresses(hrefs: seq<Option<string>>): set<string> {
    if hrefs == [] then {}
    else
      var last := hrefs[|hrefs| - 1];
      LinkAddresses(hrefs[..|hrefs| - 1]) + (if IsMailto(last) then {AddressOf(last)} else {})
  }

  /** The addresses of the mail links of all rows. */
  function Addresses(rows: seq<Row>): set<string> {
    if rows == [] then {}
    else Addresses(rows[..|rows| - 1]) + LinkAddresses(rows[|rows| - 1].hrefs)
  }

  /** The number of mail links among one row's links. */
  function LinkMailtoCount(hrefs: seq<Option<string>>): nat {
    if hrefs == [] then 0
    else LinkMailtoCount(hrefs[..|hrefs| - 1]) + (if IsMailto(hrefs[|hrefs| - 1]) then 1 else 0)
  }

  /** The number of mail links of all rows. */
  function MailtoCount(rows: seq<Row>): nat {
    if rows == [] then 0
    else MailtoCount(rows[..|rows| - 1]) + LinkMailtoCount(rows[|rows| - 1].hrefs)
  }

  /** An address is in a row's set exactly when one of its mail links names it. */
  lemma {:induction false} LinkAddressesMembership(hrefs: seq<Option<string>>, a: string)
    ensures a in LinkAddresses(hrefs)
            <==> exists j :: 0 <= j < |hrefs| && IsMailto(hrefs[j]) && a == AddressOf(hrefs[j])
    decreases |hrefs|
  {
    if hrefs != [] {
      var init := hrefs[..|hrefs| - 1];
      LinkAddressesMembership(init, a);
      if exists j :: 0 <= j < |hrefs| && IsMailto(hrefs[j]) && a == AddressOf(hrefs[j]) {
        var j :| 0 <= j < |hrefs| && IsMailto(hrefs[j]) && a == AddressOf(hrefs[j]);
        if j < |init| { assert init[j] == hrefs[j]; }
      }
      if exists j :: 0 <= j < |init| && IsMailto(init[j]) && a == AddressOf(init[j]) {
        var j :| 0 <= j < |init| && IsMailto(init[j]) && a == AddressOf(init[j]);
        assert hrefs[j] == init[j];
      }
    }
  }

  /** An address is collected exactly when some row has a mail link naming it. */
  lemma {:induction false} AddressesMembership(rows: seq<Row>, a: string)
    ensures a in Addresses(rows)
            <==> exists i, j :: 0 <= i < |rows| && 0 <= j < |rows[i].hrefs|
                   && IsMailto(rows[i].hrefs[j]) && a == AddressOf(rows[i].hrefs[j])
    decreases |rows|
  {
    if rows != [] {
      var init := rows[..|rows| - 1];
      var last := rows[|rows| - 1];
      AddressesMembership(init, a);
      LinkAddressesMembership(last.hrefs, a);
      if exists i, j :: 0 <= i < |rows| && 0 <= j < |rows[i].hrefs|
                   && IsMailto(rows[i].hrefs[j]) && a == AddressOf(rows[i].hrefs[j]) {
        var i, j :| 0 <= i < |rows| && 0 <= j < |rows[i].hrefs|
                   && IsMailto(rows[i].hrefs[j]) && a == AddressOf(rows[i].hrefs[j]);
        if i < |init| { assert init[i] == rows[i]; }
      }
      if exists i, j :: 0 <= i < |init| && 0 <= j < |init[i].hrefs|
                   && IsMailto(init[i].hrefs[j]) && a == AddressOf(init[i].hrefs[j]) {
        var i, j :| 0 <= i < |init| && 0 <= j < |init[i].hrefs|
                   && IsMailto(init[i].hrefs[j]) && a == AddressOf(init[i].hrefs[j]);
        assert rows[i] == init[i];
      }
    }
  }

  lemma {:induction false} LinkAddressesBound(hrefs: seq<Option<string>>)
    ensures |LinkAddresses(hrefs)| <= LinkMailtoCount(hrefs)
    decreases |hrefs|
  {
    if hrefs != [] {
      LinkAddressesBound(hrefs[..|hrefs| - 1]);
    }
  }

  /** Set semantics merge duplicates: there are never more addresses than
      mail links. */
  lemma {:induction false} AddressesBound(rows: seq<Row>)
    ensures |Addresses(rows)| <= MailtoCount(rows)
    decreases |rows|
  {
    if rows != [] {
      var init := rows[..|rows| - 1];
      AddressesBound(init);
      LinkAddressesBound(rows[|rows| - 1].hrefs);
      UnionBound(Addresses(init), LinkAddresses(rows[|rows| - 1].hrefs));
    }
  }

  lemma UnionBound<T>(a: set<T>, b: set<T>)
    ensures |a + b| <= |a| + |b|
  {
  }

  /** The harvest loop over the kept rows: for each row, every mail link's
      address goes into the set, then the row's checkbox is clicked. A
      checkbox that never becomes clickable raises out of the loop after that
      row's addresses were taken. */
  method HarvestRows(kept: seq<Row>) returns (emails: set<string>, clicked: seq<nat>, timedOut: Option<nat>)
    ensures timedOut.None? <==> forall i :: 0 <= i < |kept| ==> kept[i].checkboxClickable
    ensures timedOut.None? ==>
              emails == Addresses(kept)
              && |clicked| == |kept| && forall i :: 0 <= i < |kept| ==> clicked[i] == i
    ensures timedOut.Some? ==>
              var k := timedOut.value;
              && k < |kept| && !kept[k].checkboxClickable
              && (forall i :: 0 <= i < k ==> kept[i].checkboxClickable)
              && emails == Addresses(kept[..k + 1])
              && |clicked| == k && forall i :: 0 <= i < k ==> clicked[i] == i
  {
    emails := {};
    clicked := [];
    var i := 0;
    while i < |kept|
      invariant 0 <= i <= |kept|
      invariant emails == Addresses(kept[..i])
      invariant |clicked| == i && forall j :: 0 <= j < i ==> clicked[j] == j
      invariant forall j :: 0 <= j < i ==> kept[j].checkboxClickable
    {
      var row := kept[i];
      var links := row.hrefs;
      var j := 0;
      while j < |links|
        invariant 0 <= j <= |links|
        invariant emails == Addresses(kept[..i]) + LinkAddresses(links[..j])
      {
        var href := links[j];
        if href.Some? && href.value != "" && StartsWith(href.value, MailtoPrefix) {
          var email := href.value[|MailtoPrefix|..];
          emails := emails + {email};
        }
        assert links[..j + 1][..j] == links[..j];
        j := j + 1;
      }
      assert links[..j] == links;
      assert kept[..i + 1][..i] == kept[..i];
      if !row.checkboxClickable {
        timedOut := Some(i);
        return;
      }
      clicked := clicked + [i];
      i := i + 1;
    }
    assert kept[..i] == kept;
    timedOut := None;
  }
}
