/** The merge session (`MergeDuplicatedContacts`): for every duplicate group,
    pick the merged contact's four fields, ask whether to add it, ask for each
    member whether to delete it, then apply the answers. The yes/no questions
    are read once, without re-prompting: only an answer that trims and
    lower-cases to "y" means yes. */
module Merge {
  import opened Options
  import opened Text
  import opened Console
  import opened Contacts
  import opened Duplicates
  import opened Picker
  import opened Store

  /** What the operator answered for one group: the merged contact, whether to
      add it, and for each member whether to delete it (each answer already read
      through `IsYes`). */
  datatype Decision = Decision(merged: Contact, add: bool, deletes: seq<bool>)

  /** The contact list after the session and the `changesMade` flag. */
  datatype Outcome = Outcome(contacts: seq<Contact>, changesMade: bool)

  /** `answer.Trim().ToLower() == "y"`. */
  predicate IsYes(answer: string) {
    ToLower(Trim(answer)) == "y"
  }

  /** Every group of `gs` holds positions of `cs` only. */
  predicate PositionsIn(cs: seq<Contact>, gs: seq<seq<nat>>) {
    forall p, k :: 0 <= p < |gs| && 0 <= k < |gs[p]| ==> gs[p][k] < |cs|
  }

  /** The contacts of group `g`, in group order. */
  function MembersOf(cs: seq<Contact>, g: seq<nat>): (r: seq<Contact>)
    requires forall k :: 0 <= k < |g| ==> g[k] < |cs|
    ensures |r| == |g|
    ensures forall k :: 0 <= k < |g| ==> r[k] == cs[g[k]]
  {
    seq(|g|, k requires 0 <= k < |g| => cs[g[k]])
  }

  /** `n` yes/no answers, one `Console.ReadLine()` each. */
  function ReadAnswers(script: seq<string>, n: nat): (r: Option<Reply<seq<bool>>>)
    decreases n
    ensures r.Some? <==> n <= |script|
    ensures r.Some? ==> |r.value.value| == n && r.value.rest == script[n..]
    ensures r.Some? ==> forall k :: 0 <= k < n ==> r.value.value[k] == IsYes(script[k])
  {
    if n == 0 then Some(Reply([], script))
    else
      var answer :- ReadLine(script);
      var more :- ReadAnswers(answer.rest, n - 1);
      assert answer.rest == script[1..];
      Some(Reply([IsYes(answer.value)] + more.value, more.rest))
  }

  /** `v` is what a picker over `values` may return: nothing exactly when
      every value is blank, and otherwise one of the non-blank values. */
  predicate PickedFrom(values: seq<string>, v: string) {
    && (v == "" <==> forall k :: 0 <= k < |values| ==> IsBlank(values[k]))
    && (v != "" ==> v in values && !IsBlank(v))
  }

  /** One field of the merged contact, picked among the members' values of
      field `f`: empty exactly when every member's value is blank, otherwise
      one of the non-blank values, and the only one when they all agree. */
  function PickField(members: seq<Contact>, f: Field, script: seq<string>): (r: Option<Reply<string>>)
    ensures r.Some? ==> IsSuffix(r.value.rest, script) && PickedFrom(Column(members, f), r.value.value)
    ensures r.Some? && |Candidates(Column(members, f))| == 1 ==>
              forall k :: 0 <= k < |members| && !IsBlank(Get(members[k], f)) ==> Get(members[k], f) == r.value.value
  {
    var r := AskUserToPickField(Column(members, f), script);
    if r.Some? then
      PickedFieldMeaning(Column(members, f), script);
      r
    else r
  }

  /** Every field of `c` is one the pickers may return for `members`. */
  predicate MergedFrom(members: seq<Contact>, c: Contact) {
    && PickedFrom(Column(members, FirstName), c.firstName)
    && PickedFrom(Column(members, LastName), c.lastName)
    && PickedFrom(Column(members, PhoneNumber), c.phoneNumber)
    && PickedFrom(Column(members, Email), c.email)
  }

  /** The merged contact: the four field pickers in field order. */
  function PickMerged(members: seq<Contact>, script: seq<string>): (r: Option<Reply<Contact>>)
    ensures r.Some? ==> IsSuffix(r.value.rest, script)
    ensures r.Some? ==> MergedFrom(members, r.value.value)
  {
    var first :- PickField(members, FirstName, script);
    var last :- PickField(members, LastName, first.rest);
    var phone :- PickField(members, PhoneNumber, last.rest);
    var email :- PickField(members, Email, phone.rest);
    SuffixTransitive(last.rest, first.rest, script);
    SuffixTransitive(phone.rest, last.rest, script);
    SuffixTransitive(email.rest, phone.rest, script);
    Some(Reply(Contact(first.value, last.value, phone.value, email.value), email.rest))
  }

  /** The merged contact's fields are picked in the order first name, last
      name, phone number, email, each picker reading where the one before it
      stopped. */
  lemma PickMergedInOrder(members: seq<Contact>, script: seq<string>)
    ensures PickMerged(members, script).Some? ==>
            var first := AskUserToPickField(Column(members, FirstName), script);
            && first.Some?
            && var last := AskUserToPickField(Column(members, LastName), first.value.rest);
            && last.Some?
            && var phone := AskUserToPickField(Column(members, PhoneNumber), last.value.rest);
            && phone.Some?
            && var email := AskUserToPickField(Column(members, Email), phone.value.rest);
            && email.Some?
            && PickMerged(members, script).value.value
               == Contact(first.value.value, last.value.value, phone.value.value, email.value.value)
            && PickMerged(members, script).value.rest == email.value.rest
  {
  }

  /** The interaction for one group: the merged contact, then the add question,
      then one delete question per member. */
  function ReadDecision(members: seq<Contact>, script: seq<string>): (r: Option<Reply<Decision>>)
    ensures r.Some? <==> PickMerged(members, script).Some? && 1 + |members| <= |PickMerged(members, script).value.rest|
    ensures r.Some? ==>
              var s := PickMerged(members, script).value.rest;
              && r.value.value.merged == PickMerged(members, script).value.value
              && r.value.value.add == IsYes(s[0])
              && |r.value.value.deletes| == |members|
              && (forall k :: 0 <= k < |members| ==> r.value.value.deletes[k] == IsYes(s[1 + k]))
              && r.value.rest == s[1 + |members|..]
    ensures r.Some? ==> IsSuffix(r.value.rest, script)
  {
    var merged :- PickMerged(members, script);
    var answers :- ReadAddAndDeletes(merged.rest, |members|);
    SuffixTransitive(answers.rest, merged.rest, script);
    Some(Reply(Decision(merged.value, answers.value.0, answers.value.1), answers.rest))
  }

  /** The add question, then `n` delete questions, as read after the merged contact. */
  function ReadAddAndDeletes(s: seq<string>, n: nat): (r: Option<Reply<(bool, seq<bool>)>>)
    ensures r.Some? <==> 1 + n <= |s|
    ensures r.Some? ==>
              && r.value.value.0 == IsYes(s[0])
              && |r.value.value.1| == n
              && (forall k :: 0 <= k < n ==> r.value.value.1[k] == IsYes(s[1 + k]))
              && r.value.rest == s[1 + n..]
              && IsSuffix(r.value.rest, s)
  {
    var add :- ReadLine(s);
    var deletes :- ReadAnswers(add.rest, n);
    assert add.rest == s[1..];
    assert deletes.rest == s[1 + n..];
    Some(Reply((IsYes(add.value), deletes.value), deletes.rest))
  }

  /** `toDelete`: the members answered yes, in group order. */
  function ToDelete(group: seq<nat>, answers: seq<bool>): (r: seq<nat>)
    requires |answers| == |group|
    ensures forall x :: x in r ==> exists k :: 0 <= k < |group| && group[k] == x && answers[k]
    ensures forall k :: 0 <= k < |group| && answers[k] ==> group[k] in r
    ensures Increasing(group) ==> forall k :: 0 <= k < |group| && !answers[k] ==> group[k] !in r
    ensures r == [] <==> forall k :: 0 <= k < |group| ==> !answers[k]
  {
    if |group| == 0 then []
    else
      var rest := ToDelete(group[1..], answers[1..]);
      assert forall k :: 1 <= k < |group| ==> group[k] == group[1..][k - 1] && answers[k] == answers[1..][k - 1];
      (if answers[0] then [group[0]] else []) + rest
  }

  /** Whether one group set `changesMade`: its merge was added or its delete list was not empty. */
  predicate GroupChanges(group: seq<nat>, d: Decision)
    requires |d.deletes| == |group|
  {
    d.add || |ToDelete(group, d.deletes)| > 0
  }

  /** `id` is used by no entry of `store`. */
  predicate FreshId(store: seq<Entry>, id: nat) {
    forall k :: 0 <= k < |store| ==> store[k].id != id
  }

  /** One group's effect on the list: append the merged contact (with the newEntry
      identity `mergedId`) if accepted, then remove the members marked for deletion. */
  function ApplyDecision(store: seq<Entry>, group: seq<nat>, d: Decision, mergedId: nat): (r: seq<Entry>)
    requires |d.deletes| == |group|
    ensures UniqueIds(store) && FreshId(store, mergedId) && mergedId !in group ==>
              r == Keep(store, Ids(ToDelete(group, d.deletes)))
                   + (if d.add then [Entry(mergedId, d.merged)] else [])
  {
    var added := if d.add then store + [Entry(mergedId, d.merged)] else store;
    var doomed := ToDelete(group, d.deletes);
    if UniqueIds(store) && FreshId(store, mergedId) && mergedId !in group then
      assert UniqueIds(added);
      RemoveEachIsKeep(added, doomed);
      KeepAppend(store, [Entry(mergedId, d.merged)], Ids(doomed));
      KeepNothingGone([Entry(mergedId, d.merged)], Ids(doomed));
      RemoveEach(added, doomed)
    else
      RemoveEach(added, doomed)
  }

  /** A group whose add answer and delete answers are all "no" changes nothing. */
  lemma DecliningGroupChangesNothing(store: seq<Entry>, group: seq<nat>, d: Decision, mergedId: nat)
    requires |d.deletes| == |group|
    requires UniqueIds(store) && FreshId(store, mergedId) && mergedId !in group
    requires !d.add
    requires forall k :: 0 <= k < |group| ==> !d.deletes[k]
    ensures ApplyDecision(store, group, d, mergedId) == store
    ensures !GroupChanges(group, d)
  {
    assert Ids(ToDelete(group, d.deletes)) == {};
    KeepNothingGone(store, {});
  }

  // ---------------------------------------------------------------------
  // The whole session

  /** One decision per group, each with one delete answer per member. */
  predicate Answered(gs: seq<seq<nat>>, ds: seq<Decision>) {
    |ds| == |gs| && forall p :: 0 <= p < |gs| ==> |ds[p].deletes| == |gs[p]|
  }

  /** The contacts of every group, in group order. */
  function GroupMembers(cs: seq<Contact>, gs: seq<seq<nat>>): (r: seq<seq<Contact>>)
    requires PositionsIn(cs, gs)
    ensures |r| == |gs|
    ensures forall p :: 0 <= p < |gs| ==> |r[p]| == |gs[p]|
    ensures forall p, k :: 0 <= p < |gs| && 0 <= k < |gs[p]| ==> r[p][k] == cs[gs[p][k]]
  {
    seq(|gs|, p requires 0 <= p < |gs| => MembersOf(cs, gs[p]))
  }

  /** One decision per group, each with one delete answer per member. */
  predicate Decided(groups: seq<seq<Contact>>, ds: seq<Decision>) {
    |ds| == |groups| && forall p :: 0 <= p < |groups| ==> |ds[p].deletes| == |groups[p]|
  }

  /** The decisions for all groups, read in group order. Every merged contact
      is built from its own group's values. */
  function ReadDecisions(groups: seq<seq<Contact>>, script: seq<string>): (r: Option<Reply<seq<Decision>>>)
    decreases |groups|
    ensures r.Some? ==> Decided(groups, r.value.value) && IsSuffix(r.value.rest, script)
    ensures r.Some? ==> forall p :: 0 <= p < |groups| ==> MergedFrom(groups[p], r.value.value[p].merged)
  {
    if |groups| == 0 then Some(Reply([], script))
    else
      var first :- ReadDecision(groups[0], script);
      var more :- ReadDecisions(groups[1..], first.rest);
      SuffixTransitive(more.rest, first.rest, script);
      DecisionMergedFrom(groups[0], script);
      ConsDecided(groups, first.value, more.value);
      Some(Reply([first.value] + more.value, more.rest))
  }

  /** Groups are asked about in order: the first group's questions are read
      first, and the remaining groups are asked about from where they stopped. */
  lemma ReadDecisionsStep(g: seq<Contact>, others: seq<seq<Contact>>, script: seq<string>)
    ensures ReadDecision(g, script).None? ==> ReadDecisions([g] + others, script).None?
    ensures ReadDecision(g, script).Some? ==>
              var first := ReadDecision(g, script).value;
              && (ReadDecisions([g] + others, script).Some? <==> ReadDecisions(others, first.rest).Some?)
              && (ReadDecisions([g] + others, script).Some? ==>
                    var more := ReadDecisions(others, first.rest).value;
                    ReadDecisions([g] + others, script).value == Reply([first.value] + more.value, more.rest))
  {
    assert ([g] + others)[0] == g;
    assert ([g] + others)[1..] == others;
  }

  lemma DecisionMergedFrom(members: seq<Contact>, script: seq<string>)
    requires ReadDecision(members, script).Some?
    ensures MergedFrom(members, ReadDecision(members, script).value.value.merged)
  {
  }

  lemma ConsDecided(groups: seq<seq<Contact>>, d: Decision, ds: seq<Decision>)
    requires |groups| > 0 && |d.deletes| == |groups[0]| && Decided(groups[1..], ds)
    requires MergedFrom(groups[0], d.merged)
    requires forall p :: 0 <= p < |ds| ==> MergedFrom(groups[1..][p], ds[p].merged)
    ensures Decided(groups, [d] + ds)
    ensures forall p :: 0 <= p < |groups| ==> MergedFrom(groups[p], ([d] + ds)[p].merged)
  {
    assert forall p :: 1 <= p < |groups| ==> groups[1..][p - 1] == groups[p] && ([d] + ds)[p] == ds[p - 1];
  }

  lemma TailPositions(cs: seq<Contact>, gs: seq<seq<nat>>)
    requires PositionsIn(cs, gs) && |gs| > 0
    ensures PositionsIn(cs, gs[1..])
    ensures forall k :: 0 <= k < |gs[0]| ==> gs[0][k] < |cs|
  {
    assert forall p :: 1 <= p < |gs| ==> gs[1..][p - 1] == gs[p];
  }

  /** The positions some group marked for deletion. */
  function Deleted(gs: seq<seq<nat>>, ds: seq<Decision>): set<nat>
    requires Answered(gs, ds)
    decreases |gs|
  {
    if |gs| == 0 then {}
    else
      assert Answered(gs[1..], ds[1..]) by {
        assert forall p :: 1 <= p < |gs| ==> gs[1..][p - 1] == gs[p] && ds[1..][p - 1] == ds[p];
      }
      Ids(ToDelete(gs[0], ds[0].deletes)) + Deleted(gs[1..], ds[1..])
  }

  /** The merged contacts the operator chose to add, in group order. */
  function Accepted(ds: seq<Decision>): seq<Contact> {
    if |ds| == 0 then [] else (if ds[0].add then [ds[0].merged] else []) + Accepted(ds[1..])
  }

  /** The answers for all groups applied one group after another; merged
      contacts get the identities `nextId`, `nextId + 1`, ... */
  function ApplyAll(store: seq<Entry>, gs: seq<seq<nat>>, ds: seq<Decision>, nextId: nat): seq<Entry>
    requires Answered(gs, ds)
    decreases |gs|
  {
    if |gs| == 0 then store
    else
      assert Answered(gs[1..], ds[1..]) by {
        assert forall p :: 1 <= p < |gs| ==> gs[1..][p - 1] == gs[p] && ds[1..][p - 1] == ds[p];
      }
      ApplyAll(ApplyDecision(store, gs[0], ds[0], nextId), gs[1..], ds[1..], nextId + 1)
  }

  /** `changesMade`: set by every group that added its merged contact or deleted a member. */
  function ChangesMade(gs: seq<seq<nat>>, ds: seq<Decision>): (r: bool)
    requires Answered(gs, ds)
    decreases |gs|
    ensures r <==> exists p :: 0 <= p < |gs| && GroupChanges(gs[p], ds[p])
  {
    if |gs| == 0 then false
    else
      assert Answered(gs[1..], ds[1..]) by {
        assert forall p :: 1 <= p < |gs| ==> gs[1..][p - 1] == gs[p] && ds[1..][p - 1] == ds[p];
      }
      assert forall p :: 1 <= p < |gs| ==> (GroupChanges(gs[p], ds[p]) <==> GroupChanges(gs[1..][p - 1], ds[1..][p - 1]));
      GroupChanges(gs[0], ds[0]) || ChangesMade(gs[1..], ds[1..])
  }

  /** `MergeDuplicatedContacts`: nothing is asked when there are no duplicates;
      otherwise every group is asked about and the answers applied. */
  function MergeDuplicatedContacts(cs: seq<Contact>, script: seq<string>): (r: Option<Reply<Outcome>>)
    ensures FindDuplicatedContacts(cs).None? ==> r == Some(Reply(Outcome(cs, false), script))
    ensures FindDuplicatedContacts(cs).Some? ==>
              var gs := FindDuplicatedContacts(cs).value;
              && PositionsIn(cs, gs)
              && (r.Some? <==> ReadDecisions(GroupMembers(cs, gs), script).Some?)
              && (r.Some? ==>
                    var ds := ReadDecisions(GroupMembers(cs, gs), script).value;
                    && r.value.rest == ds.rest
                    && Answered(gs, ds.value)
                    && r.value.value.contacts == Contents(Keep(Tag(cs), Deleted(gs, ds.value))) + Accepted(ds.value)
                    && (r.value.value.changesMade <==> exists p :: 0 <= p < |gs| && GroupChanges(gs[p], ds.value[p])))
  {
    match FindDuplicatedContacts(cs)
    case None => Some(Reply(Outcome(cs, false), script))
    case Some(gs) =>
      GroupsArePositions(cs, gs);
      var ds :- ReadDecisions(GroupMembers(cs, gs), script);
      DecidedAnswered(cs, gs, ds.value);
      SessionOutcome(cs, gs, ds.value);
      Some(Reply(Outcome(Contents(ApplyAll(Tag(cs), gs, ds.value, |cs|)), ChangesMade(gs, ds.value)), ds.rest))
  }

  lemma GroupsArePositions(cs: seq<Contact>, gs: seq<seq<nat>>)
    requires WellFormed(cs, gs)
    ensures PositionsIn(cs, gs)
  {
    assert forall p :: 0 <= p < |gs| ==> IsGroup(cs, gs[p]);
  }

  lemma DecidedAnswered(cs: seq<Contact>, gs: seq<seq<nat>>, ds: seq<Decision>)
    requires PositionsIn(cs, gs) && Decided(GroupMembers(cs, gs), ds)
    ensures Answered(gs, ds)
  {
  }

  /** The list after the whole session: the originals no group deleted, in
      their order, then the accepted merged contacts, in group order. */
  lemma SessionOutcome(cs: seq<Contact>, gs: seq<seq<nat>>, ds: seq<Decision>)
    requires PositionsIn(cs, gs) && Answered(gs, ds)
    ensures Contents(ApplyAll(Tag(cs), gs, ds, |cs|)) == Contents(Keep(Tag(cs), Deleted(gs, ds))) + Accepted(ds)
  {
    assert Keep(Tag(cs), {}) + [] == Tag(cs) by { KeepNothingGone(Tag(cs), {}); }
    ApplyAllOutcome(cs, {}, [], gs, ds, |cs|);
    assert {} + Deleted(gs, ds) == Deleted(gs, ds);
    assert [] + NewEntries(ds, |cs|) == NewEntries(ds, |cs|);
    ContentsAppend(Keep(Tag(cs), Deleted(gs, ds)), NewEntries(ds, |cs|));
    NewEntriesHoldAccepted(ds, |cs|);
  }

  lemma ContentsAppend(a: seq<Entry>, b: seq<Entry>)
    ensures Contents(a + b) == Contents(a) + Contents(b)
  {
  }

  /** The merged entries the groups append, with identities from `id` on. */
  function NewEntries(ds: seq<Decision>, id: nat): seq<Entry>
    decreases |ds|
  {
    if |ds| == 0 then [] else NewEntry(ds[0], id) + NewEntries(ds[1..], id + 1)
  }

  lemma {:induction false} NewEntriesHoldAccepted(ds: seq<Decision>, id: nat)
    ensures Contents(NewEntries(ds, id)) == Accepted(ds)
    decreases |ds|
  {
    if |ds| > 0 {
      NewEntriesHoldAccepted(ds[1..], id + 1);
      ContentsAppend(NewEntry(ds[0], id), NewEntries(ds[1..], id + 1));
    }
  }

  /** Applying the groups to a list made of the surviving originals followed by
      merged entries added so far gives the survivors of all deletions, then
      the earlier merged entries, then the newly accepted ones. */
  lemma {:induction false} ApplyAllOutcome(cs: seq<Contact>, gone: set<nat>, added: seq<Entry>,
                                           gs: seq<seq<nat>>, ds: seq<Decision>, nextId: nat)
    requires PositionsIn(cs, gs) && Answered(gs, ds)
    requires |cs| <= nextId
    requires UniqueIds(added)
    requires forall e :: e in added ==> |cs| <= e.id < nextId
    ensures ApplyAll(Keep(Tag(cs), gone) + added, gs, ds, nextId)
            == Keep(Tag(cs), gone + Deleted(gs, ds)) + (added + NewEntries(ds, nextId))
    decreases |gs|
  {
    if |gs| == 0 {
      assert gone + {} == gone;
      assert added + [] == added;
    } else {
      var doomed := Ids(ToDelete(gs[0], ds[0].deletes));
      var newEntry := NewEntry(ds[0], nextId);
      ReadyForRest(cs, added, gs, ds, nextId);
      ApplyAllOutcome(cs, gone + doomed, added + newEntry, gs[1..], ds[1..], nextId + 1);
      ComposeStep(cs, gone, added, gs, ds, nextId);
    }
  }

  /** The preconditions of `ApplyAllOutcome` for the groups after the first. */
  lemma ReadyForRest(cs: seq<Contact>, added: seq<Entry>, gs: seq<seq<nat>>, ds: seq<Decision>, nextId: nat)
    requires PositionsIn(cs, gs) && Answered(gs, ds) && |gs| > 0
    requires |cs| <= nextId
    requires UniqueIds(added)
    requires forall e :: e in added ==> |cs| <= e.id < nextId
    ensures PositionsIn(cs, gs[1..]) && Answered(gs[1..], ds[1..])
    ensures |cs| <= nextId + 1
    ensures UniqueIds(added + NewEntry(ds[0], nextId))
    ensures forall e :: e in added + NewEntry(ds[0], nextId) ==> |cs| <= e.id < nextId + 1
  {
    TailAnswered(cs, gs, ds);
    AddedShape(cs, added, ds[0], nextId);
  }

  /** The first group's step, the outcome for the remaining groups and the
      regrouping of deletions and entries combine into the outcome for all. */
  lemma ComposeStep(cs: seq<Contact>, gone: set<nat>, added: seq<Entry>,
                    gs: seq<seq<nat>>, ds: seq<Decision>, nextId: nat)
    requires PositionsIn(cs, gs) && Answered(gs, ds) && |gs| > 0
    requires Answered(gs[1..], ds[1..])
    requires |cs| <= nextId
    requires UniqueIds(added)
    requires forall e :: e in added ==> |cs| <= e.id < nextId
    requires ApplyAll(Keep(Tag(cs), gone + Ids(ToDelete(gs[0], ds[0].deletes))) + (added + NewEntry(ds[0], nextId)),
                      gs[1..], ds[1..], nextId + 1)
             == Keep(Tag(cs), gone + Ids(ToDelete(gs[0], ds[0].deletes)) + Deleted(gs[1..], ds[1..]))
                + ((added + NewEntry(ds[0], nextId)) + NewEntries(ds[1..], nextId + 1))
    ensures ApplyAll(Keep(Tag(cs), gone) + added, gs, ds, nextId)
            == Keep(Tag(cs), gone + Deleted(gs, ds)) + (added + NewEntries(ds, nextId))
  {
    FirstGroupApplied(cs, gone, added, gs, ds, nextId);
    Regroup(cs, gone, added, gs, ds, nextId);
  }

  lemma FirstGroupApplied(cs: seq<Contact>, gone: set<nat>, added: seq<Entry>,
                          gs: seq<seq<nat>>, ds: seq<Decision>, nextId: nat)
    requires PositionsIn(cs, gs) && Answered(gs, ds) && |gs| > 0
    requires Answered(gs[1..], ds[1..])
    requires |cs| <= nextId
    requires UniqueIds(added)
    requires forall e :: e in added ==> |cs| <= e.id < nextId
    ensures ApplyAll(Keep(Tag(cs), gone) + added, gs, ds, nextId)
            == ApplyAll(Keep(Tag(cs), gone + Ids(ToDelete(gs[0], ds[0].deletes))) + (added + NewEntry(ds[0], nextId)),
                        gs[1..], ds[1..], nextId + 1)
  {
    OneGroupStep(cs, gone, added, gs[0], ds[0], nextId);
  }

  lemma Regroup(cs: seq<Contact>, gone: set<nat>, added: seq<Entry>,
                gs: seq<seq<nat>>, ds: seq<Decision>, nextId: nat)
    requires Answered(gs, ds) && |gs| > 0
    requires Answered(gs[1..], ds[1..])
    ensures Keep(Tag(cs), gone + Ids(ToDelete(gs[0], ds[0].deletes)) + Deleted(gs[1..], ds[1..]))
              + ((added + NewEntry(ds[0], nextId)) + NewEntries(ds[1..], nextId + 1))
            == Keep(Tag(cs), gone + Deleted(gs, ds)) + (added + NewEntries(ds, nextId))
  {
    assert gone + Ids(ToDelete(gs[0], ds[0].deletes)) + Deleted(gs[1..], ds[1..]) == gone + Deleted(gs, ds);
    Associative(added, NewEntry(ds[0], nextId), NewEntries(ds[1..], nextId + 1));
  }

  lemma Associative<T>(a: seq<T>, b: seq<T>, c: seq<T>)
    ensures a + b + c == a + (b + c)
  {
  }

  lemma TailAnswered(cs: seq<Contact>, gs: seq<seq<nat>>, ds: seq<Decision>)
    requires PositionsIn(cs, gs) && Answered(gs, ds) && |gs| > 0
    ensures PositionsIn(cs, gs[1..]) && Answered(gs[1..], ds[1..])
  {
    assert forall p :: 1 <= p < |gs| ==> gs[1..][p - 1] == gs[p] && ds[1..][p - 1] == ds[p];
  }

  /** The entry a group appends: its merged contact if accepted. */
  function NewEntry(d: Decision, id: nat): (r: seq<Entry>)
    ensures Contents(r) == if d.add then [d.merged] else []
  {
    if d.add then [Entry(id, d.merged)] else []
  }

  /** Appending a group's entry keeps the merged entries' identities distinct and in range. */
  lemma AddedShape(cs: seq<Contact>, added: seq<Entry>, d: Decision, nextId: nat)
    requires UniqueIds(added)
    requires |cs| <= nextId
    requires forall e :: e in added ==> |cs| <= e.id < nextId
    ensures UniqueIds(added + NewEntry(d, nextId))
    ensures forall e :: e in added + NewEntry(d, nextId) ==> |cs| <= e.id < nextId + 1
  {
  }

  /** One group applied to a list of that shape keeps the shape, with the
      group's deletions added to `gone` and its merged contact appended. */
  lemma OneGroupStep(cs: seq<Contact>, gone: set<nat>, added: seq<Entry>, g: seq<nat>, d: Decision, nextId: nat)
    requires |d.deletes| == |g| && forall k :: 0 <= k < |g| ==> g[k] < |cs|
    requires |cs| <= nextId
    requires UniqueIds(added)
    requires forall e :: e in added ==> |cs| <= e.id < nextId
    ensures ApplyDecision(Keep(Tag(cs), gone) + added, g, d, nextId)
            == Keep(Tag(cs), gone + Ids(ToDelete(g, d.deletes))) + (added + NewEntry(d, nextId))
  {
    var doomed := Ids(ToDelete(g, d.deletes));
    StoreShape(cs, gone, added, nextId);
    assert nextId !in g;
    DeletedAreOriginals(cs, g, d);
    KeepShape(cs, gone, added, doomed);
  }

  /** A group deletes original contacts only. */
  lemma DeletedAreOriginals(cs: seq<Contact>, g: seq<nat>, d: Decision)
    requires |d.deletes| == |g| && forall k :: 0 <= k < |g| ==> g[k] < |cs|
    ensures forall x :: x in Ids(ToDelete(g, d.deletes)) ==> x < |cs|
  {
    forall x | x in Ids(ToDelete(g, d.deletes)) ensures x < |cs| {
      var k :| 0 <= k < |g| && g[k] == x && d.deletes[k];
    }
  }

  /** Deleting originals from the list leaves the merged entries alone. */
  lemma KeepShape(cs: seq<Contact>, gone: set<nat>, added: seq<Entry>, doomed: set<nat>)
    requires forall x :: x in doomed ==> x < |cs|
    requires forall e :: e in added ==> |cs| <= e.id
    ensures Keep(Keep(Tag(cs), gone) + added, doomed) == Keep(Tag(cs), gone + doomed) + added
  {
    KeepAppend(Keep(Tag(cs), gone), added, doomed);
    KeepTwice(Tag(cs), gone, doomed);
    KeepNothingGone(added, doomed);
  }


  /** The list being merged keeps distinct identities and `nextId` is unused. */
  lemma StoreShape(cs: seq<Contact>, gone: set<nat>, added: seq<Entry>, nextId: nat)
    requires |cs| <= nextId
    requires UniqueIds(added)
    requires forall e :: e in added ==> |cs| <= e.id < nextId
    ensures UniqueIds(Keep(Tag(cs), gone) + added)
    ensures FreshId(Keep(Tag(cs), gone) + added, nextId)
  {
    var kept := Keep(Tag(cs), gone);
    KeepUnique(Tag(cs), gone);
    assert forall k :: 0 <= k < |kept| ==> kept[k].id < |cs| by {
      forall k | 0 <= k < |kept| ensures kept[k].id < |cs| {
        assert kept[k] in Tag(cs);
      }
    }
  }

  /** A session in which every answer is "no" leaves the list as it was and
      reports no change. */
  lemma DecliningEverythingChangesNothing(cs: seq<Contact>, gs: seq<seq<nat>>, ds: seq<Decision>)
    requires PositionsIn(cs, gs) && Answered(gs, ds)
    requires forall p :: 0 <= p < |gs| ==> !ds[p].add && forall k :: 0 <= k < |gs[p]| ==> !ds[p].deletes[k]
    ensures Contents(ApplyAll(Tag(cs), gs, ds, |cs|)) == cs
    ensures !ChangesMade(gs, ds)
  {
    NothingDeleted(gs, ds);
    NothingAccepted(ds);
    SessionOutcome(cs, gs, ds);
    KeepNothingGone(Tag(cs), {});
    assert Contents(Tag(cs)) == cs;
  }

  lemma {:induction false} NothingDeleted(gs: seq<seq<nat>>, ds: seq<Decision>)
    requires Answered(gs, ds)
    requires forall p :: 0 <= p < |gs| ==> !ds[p].add && forall k :: 0 <= k < |gs[p]| ==> !ds[p].deletes[k]
    ensures Deleted(gs, ds) == {}
    ensures forall p :: 0 <= p < |gs| ==> !GroupChanges(gs[p], ds[p])
    decreases |gs|
  {
    if |gs| > 0 {
      assert forall p :: 1 <= p < |gs| ==> gs[1..][p - 1] == gs[p] && ds[1..][p - 1] == ds[p];
      NothingDeleted(gs[1..], ds[1..]);
      assert Ids(ToDelete(gs[0], ds[0].deletes)) == {};
    }
  }

  lemma {:induction false} NothingAccepted(ds: seq<Decision>)
    requires forall p :: 0 <= p < |ds| ==> !ds[p].add
    ensures Accepted(ds) == []
    decreases |ds|
  {
    if |ds| > 0 {
      assert forall p :: 1 <= p < |ds| ==> ds[1..][p - 1] == ds[p];
      NothingAccepted(ds[1..]);
    }
  }
}
