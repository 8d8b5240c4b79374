/** The draft composer: the operator's first name taken from the login
    address, the blind-copy field joined from the collected addresses, and
    the primary recipient, which is the operator's own login. */
module Draft {
  import opened Text

  const Subject: string := "Getting your truck insurance quotes!"

  const BccSeparator: char := ';'

  /** The fields of the mail item. The body is a fixed template into which
      only `greetingName` is substituted. */
  datatype MailItem = MailItem(subject: string, greetingName: string, bcc: string, to: string)

  /** `username.split('@')[0].capitalize()`: the text before the first '@'
      (all of it when there is none), its first character upper-cased and
      every other one lower-cased. */
  function FirstName(username: string): (r: string)
    ensures |r| <= |username| && '@' !in r
    ensures forall i :: 0 <= i < |r| ==> SameLetter(r[i], username[i])
    ensures |r| < |username| ==> username[|r|] == '@'
    ensures |r| > 0 ==> !IsLowerAscii(r[0])
    ensures forall i :: 0 < i < |r| ==> !IsUpperAscii(r[i])
  {
    var local := Split(username, '@')[0];
    FirstPartBeforeSeparator(username, '@');
    var r := Capitalize(local);
    assert forall i :: 0 <= i < |r| ==> r[i] != '@' by {
      forall i | 0 <= i < |r| ensures r[i] != '@' {
        assert SameLetter(r[i], local[i]) && local[i] != '@';
      }
    }
    r
  }

  /** No two positions of the sequence hold the same string. */
  predicate Distinct(xs: seq<string>) {
    forall i, j :: 0 <= i < j < |xs| ==> xs[i] != xs[j]
  }

  /** `xs` lists the set, each element once, in some order. */
  ghost predicate Enumerates(xs: seq<string>, s: set<string>) {
    Distinct(xs) && (forall x :: x in xs <==> x in s)
  }

  /** `list(emails)`: the set's elements in an order the model leaves open,
      as Python's set iteration order is. */
  method Enumerate(s: set<string>) returns (xs: seq<string>)
    ensures Enumerates(xs, s) && |xs| == |s|
  {
    xs := [];
    var rest := s;
    while rest != {}
      invariant rest <= s
      invariant Distinct(xs)
      invariant forall x :: x in xs <==> x in s - rest
      invariant |xs| + |rest| == |s|
      decreases |rest|
    {
      var x :| x in rest;
      assert x !in xs;
      xs := xs + [x];
      rest := rest - {x};
    }
  }

  /** A string listed by a distinct sequence occurs in it exactly once. */
  lemma {:induction false} DistinctCountsOnce(xs: seq<string>, a: string)
    requires Distinct(xs) && a in xs
    ensures multiset(xs)[a] == 1
    decreases |xs|
  {
    assert xs == [xs[0]] + xs[1..];
    if xs[0] == a {
      assert a !in xs[1..];
    } else {
      DistinctCountsOnce(xs[1..], a);
    }
  }

  /** Splitting a non-empty blind-copy field on ';' gives back each address
      exactly once, provided no address contains ';'. */
  lemma BccListsEachAddressOnce(order: seq<string>, emails: set<string>)
    requires Enumerates(order, emails) && emails != {}
    requires forall a :: a in emails ==> BccSeparator !in a
    ensures Split(Join(order, BccSeparator), BccSeparator) == order
    ensures forall a :: a in emails ==> multiset(Split(Join(order, BccSeparator), BccSeparator))[a] == 1
    ensures forall p :: p in Split(Join(order, BccSeparator), BccSeparator) ==> p in emails
  {
    var a :| a in emails;
    assert a in order;
    SplitJoin(order, BccSeparator);
    forall b | b in emails ensures multiset(order)[b] == 1 {
      DistinctCountsOnce(order, b);
    }
  }

  /** The mail item: fixed subject, the first name in the greeting, the
      addresses joined with ';' in the blind-copy field, and the login
      address as the primary recipient. */
  method Compose(username: string, emails: set<string>) returns (d: MailItem, order: seq<string>)
    ensures Enumerates(order, emails)
    ensures d == MailItem(Subject, FirstName(username), Join(order, BccSeparator), username)
    ensures emails == {} ==> d.bcc == ""
    ensures emails != {} && (forall a :: a in emails ==> BccSeparator !in a) ==>
              Split(d.bcc, BccSeparator) == order
  {
    order := Enumerate(emails);
    if emails != {} && (forall a :: a in emails ==> BccSeparator !in a) {
      BccListsEachAddressOnce(order, emails);
    }
    d := MailItem(Subject, FirstName(username), Join(order, BccSeparator), username);
  }
}
