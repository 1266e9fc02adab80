/** Adding, editing, finding and deleting single contacts, each driven by the
    operator's lines. A step that would wait for input for ever, or dereference
    the null `Console.ReadLine` returns at end of input, yields `None`. */
module Editing {
  import opened Options
  import opened Text
  import opened Console
  import opened Contacts

  // ---------------------------------------------------------------------
  // Adding a contact

  /** The two loops of `AddNewContact`: names, then phone number and email. */
  datatype Prompt = Names | Details

  /** The loop condition of each prompt, negated: at least one name; and a
      phone number or an email, with a phone number of at most ten characters. */
  predicate PairAccepted(p: Prompt, a: string, b: string) {
    match p
    case Names => !(a == "" && b == "")
    case Details => !((a == "" && b == "") || |a| > 10)
  }

  /** The line after position `k`, or `""` when the script ends there. */
  function SecondLine(script: seq<string>, k: nat): string {
    if k + 1 < |script| then script[k + 1] else ""
  }

  /** Where the accepted pair began, given what was left unread. */
  function PairStart(script: seq<string>, rest: seq<string>): int {
    2 * ((|script| - |rest| - 1) / 2)
  }

  /** One `do { a = ReadLine(); b = ReadLine(); } while (!accepted)` loop. With
      no line left, both reads give null, which neither prompt accepts, so the
      loop would never end. A missing second line alone reads as `""`. Which
      pair is taken is stated by `AskPairNeverAccepted` and `AskPairTakesFirst`. */
  function AskPair(p: Prompt, script: seq<string>): (r: Option<Reply<(string, string)>>)
    decreases |script|
    ensures r.Some? ==> PairAccepted(p, r.value.value.0, r.value.value.1)
    ensures r.Some? ==> IsSuffix(r.value.rest, script) && |r.value.rest| < |script|
  {
    if |script| == 0 then None
    else
      var b := ReadLineOrEmpty(script[1..]);
      if PairAccepted(p, script[0], b.value) then
        Some(Reply((script[0], b.value), b.rest))
      else if |script| == 1 then None
      else AskPair(p, script[2..])
  }

  lemma ShiftPairs(script: seq<string>)
    requires |script| >= 2
    ensures forall k :: 2 <= k < |script| ==> script[k] == script[2..][k - 2]
    ensures forall k :: 2 <= k < |script| ==> SecondLine(script, k) == SecondLine(script[2..], k - 2)
  {
  }

  lemma PairStartShifts(script: seq<string>, rest: seq<string>)
    requires |script| - 2 - |rest| - 1 >= 0
    ensures PairStart(script, rest) == PairStart(script[2..], rest) + 2
  {
    var n := |script| - |rest| - 1;
    assert (n - 2) / 2 == n / 2 - 1;
  }

  /** The loop gives up only when no pair of lines, taken two by two, is accepted. */
  lemma {:induction false} AskPairNeverAccepted(p: Prompt, script: seq<string>)
    requires AskPair(p, script).None?
    decreases |script|
    ensures forall k :: 0 <= k < |script| && k % 2 == 0 ==> !PairAccepted(p, script[k], SecondLine(script, k))
  {
    if |script| >= 2 {
      AskPairNeverAccepted(p, script[2..]);
      ShiftPairs(script);
    }
  }

  /** The pair the loop returns is read from the start of a pair of lines. */
  lemma {:induction false} AskPairTakesFirst(p: Prompt, script: seq<string>)
    requires AskPair(p, script).Some?
    decreases |script|
    ensures var r := AskPair(p, script).value;
            var k := PairStart(script, r.rest);
            0 <= k < |script| && r.value == (script[k], SecondLine(script, k))
  {
    var b := ReadLineOrEmpty(script[1..]);
    if PairAccepted(p, script[0], b.value) {
      assert AskPair(p, script).value.rest == b.rest;
      assert PairStart(script, b.rest) == 0;
    } else {
      var tail := script[2..];
      var r := AskPair(p, tail).value;
      assert AskPair(p, script).value == r;
      AskPairTakesFirst(p, tail);
      PairStartShifts(script, r.rest);
      var k := PairStart(tail, r.rest);
      assert script[k + 2] == tail[k];
      assert SecondLine(script, k + 2) == SecondLine(tail, k);
    }
  }

  /** Every pair before the one the loop returns was rejected. */
  lemma {:induction false} AskPairSkipsRejected(p: Prompt, script: seq<string>)
    requires AskPair(p, script).Some?
    decreases |script|
    ensures var k := PairStart(script, AskPair(p, script).value.rest);
            forall j :: 0 <= j < k && j % 2 == 0 ==> !PairAccepted(p, script[j], SecondLine(script, j))
  {
    var b := ReadLineOrEmpty(script[1..]);
    if PairAccepted(p, script[0], b.value) {
      assert AskPair(p, script).value.rest == b.rest;
      assert PairStart(script, b.rest) == 0;
    } else {
      var tail := script[2..];
      var r := AskPair(p, tail).value;
      assert AskPair(p, script).value == r;
      AskPairSkipsRejected(p, tail);
      PairStartShifts(script, r.rest);
      assert SecondLine(script, 0) == b.value;
      RejectedPrefixShifts(p, script, PairStart(tail, r.rest));
    }
  }

  /** A rejected first pair followed by `k` rejected positions of the rest
      makes `k + 2` rejected positions of the whole script. */
  lemma RejectedPrefixShifts(p: Prompt, script: seq<string>, k: int)
    requires 2 <= |script| && k <= |script| - 2 && !PairAccepted(p, script[0], SecondLine(script, 0))
    requires forall j :: 0 <= j < k && j % 2 == 0 ==> !PairAccepted(p, script[2..][j], SecondLine(script[2..], j))
    ensures forall j :: 0 <= j < k + 2 && j % 2 == 0 ==> !PairAccepted(p, script[j], SecondLine(script, j))
  {
    var tail := script[2..];
    forall j | 0 <= j < k + 2 && j % 2 == 0
      ensures !PairAccepted(p, script[j], SecondLine(script, j))
    {
      if j >= 2 {
        assert script[j] == tail[j - 2];
        assert SecondLine(script, j) == SecondLine(tail, j - 2);
      }
    }
  }

  /** A contact `AddNewContact` can store: both of its loops accept it. */
  predicate Admissible(c: Contact) {
    PairAccepted(Names, c.firstName, c.lastName) && PairAccepted(Details, c.phoneNumber, c.email)
  }

  /** `AddNewContact`: read names and details until each is accepted, then add
      the contact only when the operator confirms with "Y". */
  function AddNewContact(cs: seq<Contact>, script: seq<string>): (r: Option<Reply<seq<Contact>>>)
    ensures r.Some? ==> IsSuffix(r.value.rest, script)
    ensures r.Some? ==>
              || r.value.value == cs
              || (&& |r.value.value| == |cs| + 1
                  && r.value.value[..|cs|] == cs
                  && Admissible(r.value.value[|cs|]))
  {
    var names :- AskPair(Names, script);
    var details :- AskPair(Details, names.rest);
    var answer :- GetToken(details.rest, ["Y", "N"]);
    SuffixTransitive(details.rest, names.rest, script);
    SuffixTransitive(answer.rest, details.rest, script);
    var c := Contact(names.value.0, names.value.1, details.value.0, details.value.1);
    Some(Reply(if answer.value == "Y" then cs + [c] else cs, answer.rest))
  }

  lemma AcceptedPairIsTaken(p: Prompt, a: string, b: string, rest: seq<string>)
    requires PairAccepted(p, a, b)
    ensures AskPair(p, [a, b] + rest) == Some(Reply((a, b), rest))
  {
    assert ([a, b] + rest)[1..] == [b] + rest;
    assert ([b] + rest)[1..] == rest;
  }

  lemma RejectedPairIsAskedAgain(p: Prompt, a: string, b: string, rest: seq<string>)
    requires !PairAccepted(p, a, b)
    ensures AskPair(p, [a, b] + rest) == AskPair(p, rest)
  {
    assert ([a, b] + rest)[1..] == [b] + rest;
    assert ([a, b] + rest)[2..] == rest;
  }

  /** The confirmation tokens are already upper case and carry no white space. */
  lemma ConfirmationIsUpper(t: string)
    requires t == "Y" || t == "N"
    ensures Trim(t) == t && ToUpper(t) == t
  {
    assert |t| == 1 && !IsWhiteSpace(t[0]);
    TrimWithoutWhiteSpace(t);
    assert ToUpper(t)[0] == Upper(t[0]) == t[0];
  }

  lemma TypingTokenSelectsIt(t: string, rest: seq<string>, tokens: seq<string>)
    requires t == "Y" || t == "N"
    requires t in tokens
    ensures GetToken([t] + rest, tokens) == Some(Reply(t, rest))
  {
    ConfirmationIsUpper(t);
    assert ([t] + rest)[1..] == rest;
  }

  /** Typing an admissible contact and confirming adds exactly that contact at
      the end; answering "N" instead leaves the list as it was. */
  lemma {:induction false} AddingTypedContact(cs: seq<Contact>, c: Contact, confirm: string, rest: seq<string>)
    requires Admissible(c)
    requires confirm == "Y" || confirm == "N"
    ensures AddNewContact(cs, [c.firstName, c.lastName, c.phoneNumber, c.email, confirm] + rest)
            == Some(Reply(if confirm == "Y" then cs + [c] else cs, rest))
  {
    var s := [c.firstName, c.lastName, c.phoneNumber, c.email, confirm] + rest;
    var afterNames := [c.phoneNumber, c.email, confirm] + rest;
    var afterDetails := [confirm] + rest;
    assert s == [c.firstName, c.lastName] + afterNames;
    assert afterNames == [c.phoneNumber, c.email] + afterDetails;
    AcceptedPairIsTaken(Names, c.firstName, c.lastName, afterNames);
    AcceptedPairIsTaken(Details, c.phoneNumber, c.email, afterDetails);
    TypingTokenSelectsIt(confirm, rest, ["Y", "N"]);
  }

  // ---------------------------------------------------------------------
  // Editing one contact

  /** The field behind each entry of the edit menu; 4 cancels. */
  function Chosen(option: int): Option<Field> {
    if option == 0 then Some(FirstName)
    else if option == 1 then Some(LastName)
    else if option == 2 then Some(PhoneNumber)
    else if option == 3 then Some(Email)
    else None
  }

  /** The menu number shown for a field. */
  function MenuNumber(f: Field): (n: int)
    ensures 0 <= n <= 3
    ensures Chosen(n) == Some(f)
  {
    match f
    case FirstName => 0
    case LastName => 1
    case PhoneNumber => 2
    case Email => 3
  }

  /** `cs` and `r` differ at position `index` at most. */
  predicate ChangedAtMost(cs: seq<Contact>, r: seq<Contact>, index: int) {
    |r| == |cs| && forall k :: 0 <= k < |cs| && k != index ==> r[k] == cs[k]
  }

  /** `r` differs from `cs` at one position at most. */
  predicate AtMostOneChanged(cs: seq<Contact>, r: seq<Contact>) {
    |r| == |cs| && forall j, k :: 0 <= j < k < |cs| && r[j] != cs[j] ==> r[k] == cs[k]
  }

  lemma ChangedAtOnePlace(cs: seq<Contact>, r: seq<Contact>, index: int)
    requires ChangedAtMost(cs, r, index)
    ensures AtMostOneChanged(cs, r)
  {
  }

  /** `cs` with the contact at `index` replaced by `c`. */
  function Replace(cs: seq<Contact>, index: nat, c: Contact): (r: seq<Contact>)
    requires index < |cs|
    ensures ChangedAtMost(cs, r, index) && r[index] == c
  {
    cs[index := c]
  }

  /** `EditContact(index)`: choose a field (or cancel), then read its new
      value; an empty value (or end of input) cancels. Only the chosen field of
      the chosen contact can change, and never to the empty string. */
  function EditContact(cs: seq<Contact>, index: nat, script: seq<string>): (r: Option<Reply<seq<Contact>>>)
    requires index < |cs|
    ensures r.Some? <==> GetOption(script, 0, 4).Some?
    ensures r.Some? ==> IsSuffix(r.value.rest, script)
    ensures r.Some? ==> ChangedAtMost(cs, r.value.value, index)
    ensures r.Some? ==>
              forall f :: Get(r.value.value[index], f) != Get(cs[index], f) ==>
                && Get(r.value.value[index], f) != ""
                && Chosen(GetOption(script, 0, 4).value.value) == Some(f)
  {
    var option :- GetOption(script, 0, 4);
    match Chosen(option.value)
    case None => Some(Reply(cs, option.rest))
    case Some(f) =>
      var line := ReadLineOrEmpty(option.rest);
      SuffixTransitive(line.rest, option.rest, script);
      var edited := if line.value == "" then cs[index] else With(cs[index], f, line.value);
      Some(Reply(Replace(cs, index, edited), line.rest))
  }

  /** Choosing a field and typing a non-empty value stores that value in that
      field; an empty value changes nothing. */
  lemma EditingFieldSetsIt(cs: seq<Contact>, index: nat, f: Field, v: string, rest: seq<string>)
    requires index < |cs|
    ensures EditContact(cs, index, [FormatInt(MenuNumber(f)), v] + rest)
            == Some(Reply(if v == "" then cs else cs[index := With(cs[index], f, v)], rest))
  {
    assert [FormatInt(MenuNumber(f)), v] + rest == [FormatInt(MenuNumber(f))] + ([v] + rest);
    TypingShownNumberSelectsIt(MenuNumber(f), [v] + rest, 0, 4);
    assert ([v] + rest)[1..] == rest;
    assert Replace(cs, index, cs[index]) == cs;
  }

  /** `EditContactByIndex`: pick a position from the whole list, then edit it.
      With an empty list no number is in range, so the prompt never ends. */
  function EditContactByIndex(cs: seq<Contact>, script: seq<string>): (r: Option<Reply<seq<Contact>>>)
    ensures r.Some? ==> |cs| > 0 && IsSuffix(r.value.rest, script)
    ensures r.Some? ==>
              && GetOption(script, 0, |cs| - 1).Some?
              && ChangedAtMost(cs, r.value.value, GetOption(script, 0, |cs| - 1).value.value)
  {
    var index :- GetOption(script, 0, |cs| - 1);
    var r := EditContact(cs, index.value, index.rest);
    ThenSuffix(r, index.rest, script);
    r
  }

  /** A reply read from `mid`, itself a suffix of `script`, left a suffix of `script`. */
  lemma ThenSuffix(r: Option<Reply<seq<Contact>>>, mid: seq<string>, script: seq<string>)
    requires IsSuffix(mid, script)
    requires r.Some? ==> IsSuffix(r.value.rest, mid)
    ensures r.Some? ==> IsSuffix(r.value.rest, script)
  {
    if r.Some? {
      SuffixTransitive(r.value.rest, mid, script);
    }
  }

  // ---------------------------------------------------------------------
  // Finding contacts by name

  /** The filter of `EditContactByField`: the lower-cased first or last name
      contains the (already lower-cased) search term. */
  predicate NameMatches(c: Contact, term: string) {
    Contains(ToLower(c.firstName), term) || Contains(ToLower(c.lastName), term)
  }

  /** The positions, from `from` on, of the contacts that match `term`, in list
      order: the `Where(...).ToList()`, each found contact located by
      `contacts.IndexOf`, which finds that very object. */
  function Search(cs: seq<Contact>, term: string, from: nat): (r: seq<nat>)
    requires from <= |cs|
    decreases |cs| - from
    ensures forall k :: k in r <==> from <= k < |cs| && NameMatches(cs[k], term)
    ensures forall i :: 0 <= i < |r| ==> from <= r[i] < |cs|
    ensures forall i, j :: 0 <= i < j < |r| ==> r[i] < r[j]
    ensures |r| <= |cs| - from
  {
    if from == |cs| then []
    else
      var tail := Search(cs, term, from + 1);
      if NameMatches(cs[from], term) then [from] + tail else tail
  }

  lemma EmptyStringOccurs(s: string)
    ensures Contains(s, "")
  {
    assert OccursAt(s, "", 0);
  }

  /** An empty search term (the operator just presses Enter) finds everyone. */
  lemma {:induction false} EmptyTermFindsEveryone(cs: seq<Contact>, from: nat)
    requires from <= |cs|
    decreases |cs| - from
    ensures |Search(cs, "", from)| == |cs| - from
    ensures forall i :: 0 <= i < |cs| - from ==> Search(cs, "", from)[i] == from + i
  {
    if from < |cs| {
      EmptyStringOccurs(ToLower(cs[from].firstName));
      EmptyTermFindsEveryone(cs, from + 1);
    }
  }

  /** `EditContactByField`: read a search term, list the matches, pick one of
      them and edit it. Reading the term at end of input dereferences null. No
      match returns to the menu at once. */
  function EditContactByField(cs: seq<Contact>, script: seq<string>): (r: Option<Reply<seq<Contact>>>)
    ensures r.Some? ==> IsSuffix(r.value.rest, script)
    ensures r.Some? ==> |script| > 0 && |r.value.value| == |cs|
    ensures r.Some? ==> AtMostOneChanged(cs, r.value.value)
    ensures r.Some? ==>
              forall k :: 0 <= k < |cs| && r.value.value[k] != cs[k] ==> NameMatches(cs[k], ToLower(script[0]))
  {
    var term :- ReadLine(script);
    var found := Search(cs, ToLower(term.value), 0);
    if |found| == 0 then Some(Reply(cs, term.rest))
    else
      var pick :- GetOption(term.rest, 0, |found| - 1);
      assert found[pick.value] in found;
      var r := EditContact(cs, found[pick.value], pick.rest);
      ThenSuffix(r, pick.rest, term.rest);
      ThenSuffix(r, term.rest, script);
      if r.Some? then
        ChangedAtOnePlace(cs, r.value.value, found[pick.value]);
        r
      else r
  }

  /** Editing by field changes nothing when no contact matches the first line,
      and otherwise at most the match picked on the lines after it. */
  lemma EditByFieldEditsPick(cs: seq<Contact>, script: seq<string>)
    ensures EditContactByField(cs, script).Some? ==>
              && |script| > 0
              && var found := Search(cs, ToLower(script[0]), 0);
              && var r := EditContactByField(cs, script).value;
              && (|found| == 0 ==> r == Reply(cs, script[1..]))
              && (|found| > 0 ==>
                    && GetOption(script[1..], 0, |found| - 1).Some?
                    && ChangedAtMost(cs, r.value, found[GetOption(script[1..], 0, |found| - 1).value.value]))
  {
    if EditContactByField(cs, script).Some? {
      assert ReadLine(script) == Some(Reply(script[0], script[1..]));
      var found := Search(cs, ToLower(script[0]), 0);
      if |found| > 0 {
        var pick := GetOption(script[1..], 0, |found| - 1);
        assert EditContactByField(cs, script) == EditContact(cs, found[pick.value.value], pick.value.rest);
      }
    }
  }

  /** `EditContact()`: search by [1] index or [2] field, or [0] cancel. At most
      one contact changes. */
  function EditMenu(cs: seq<Contact>, script: seq<string>): (r: Option<Reply<seq<Contact>>>)
    ensures r.Some? ==> IsSuffix(r.value.rest, script)
    ensures r.Some? ==> AtMostOneChanged(cs, r.value.value)
    ensures r.Some? ==> GetOption(script, 0, 2).Some?
    ensures r.Some? ==>
              var option := GetOption(script, 0, 2).value;
              && (option.value == 0 ==> r.value == Reply(cs, option.rest))
              && (option.value == 1 ==> r == EditContactByIndex(cs, option.rest))
              && (option.value == 2 ==> r == EditContactByField(cs, option.rest))
  {
    var option :- GetOption(script, 0, 2);
    var r :=
      if option.value == 0 then Some(Reply(cs, option.rest))
      else if option.value == 1 then EditContactByIndex(cs, option.rest)
      else EditContactByField(cs, option.rest);
    ThenSuffix(r, option.rest, script);
    if option.value == 1 && r.Some? then
      ChangedAtOnePlace(cs, r.value.value, GetOption(option.rest, 0, |cs| - 1).value.value);
      r
    else r
  }

  // ---------------------------------------------------------------------
  // Deleting a contact

  /** `cs` without the contact at `index`. */
  function RemoveAt(cs: seq<Contact>, index: nat): (r: seq<Contact>)
    requires index < |cs|
    ensures |r| == |cs| - 1
    ensures forall k :: 0 <= k < index ==> r[k] == cs[k]
    ensures forall k :: index <= k < |r| ==> r[k] == cs[k + 1]
  {
    cs[..index] + cs[index + 1..]
  }

  /** Removing a position takes exactly that one contact out of the list. */
  lemma RemoveAtTakesOneOut(cs: seq<Contact>, index: nat)
    requires index < |cs|
    ensures multiset(RemoveAt(cs, index)) + multiset{cs[index]} == multiset(cs)
  {
    assert cs == cs[..index] + [cs[index]] + cs[index + 1..];
  }

  /** `DeleteContact(index)`: confirm with "Y" to remove that contact. The
      program upper-cases the answer once more; `GetToken` has already done so. */
  function DeleteContact(cs: seq<Contact>, index: nat, script: seq<string>): (r: Option<Reply<seq<Contact>>>)
    requires index < |cs|
    ensures r.Some? <==> GetToken(script, ["Y", "N"]).Some?
    ensures r.Some? ==> IsSuffix(r.value.rest, script)
    ensures r.Some? ==> (|r.value.value| < |cs| <==> GetToken(script, ["Y", "N"]).value.value == "Y")
    ensures r.Some? ==> r.value.value == cs || r.value.value == RemoveAt(cs, index)
  {
    var answer :- GetToken(script, ["Y", "N"]);
    Some(Reply(if answer.value == "Y" then RemoveAt(cs, index) else cs, answer.rest))
  }

  /** `DeleteContact()`: with no contact there is nothing to ask; otherwise pick
      a position, or -1 to cancel, and confirm. The list either stays as it was
      or loses exactly the contact at the position typed, the others keeping
      their order. */
  function DeleteMenu(cs: seq<Contact>, script: seq<string>): (r: Option<Reply<seq<Contact>>>)
    ensures |cs| == 0 ==> r == Some(Reply(cs, script))
    ensures r.Some? ==> IsSuffix(r.value.rest, script)
    ensures r.Some? ==>
              || r.value.value == cs
              || (&& |r.value.value| == |cs| - 1
                  && exists i :: 0 <= i < |cs| && multiset(r.value.value) + multiset{cs[i]} == multiset(cs))
    ensures r.Some? ==> r.value.value == cs || exists i :: 0 <= i < |cs| && r.value.value == RemoveAt(cs, i)
    ensures |cs| > 0 ==>
              && (r.Some? ==> GetOption(script, -1, |cs| - 1).Some?)
              && (GetOption(script, -1, |cs| - 1).Some? ==>
                    var index := GetOption(script, -1, |cs| - 1).value;
                    && (index.value == -1 ==> r == Some(Reply(cs, index.rest)))
                    && (index.value != -1 ==>
                          && (r.Some? <==> GetToken(index.rest, ["Y", "N"]).Some?)
                          && (r.Some? ==>
                                r.value.value == if GetToken(index.rest, ["Y", "N"]).value.value == "Y"
                                                 then RemoveAt(cs, index.value) else cs)))
  {
    if |cs| == 0 then Some(Reply(cs, script))
    else
      var index :- GetOption(script, -1, |cs| - 1);
      if index.value == -1 then Some(Reply(cs, index.rest))
      else
        var r := DeleteContact(cs, index.value, index.rest);
        RemoveAtTakesOneOut(cs, index.value);
        ThenSuffix(r, index.rest, script);
        r
  }
}
