/** Duplicate detection (`FindDuplicatedContacts`): one forward pass over the
    contact list that groups each not-yet-claimed contact (the anchor) with
    every later unclaimed contact it matches. Groups are sequences of
    positions in the list. */
module Duplicates {
  import opened Options
  import opened Text
  import opened Contacts

  // ---------------------------------------------------------------------
  // The match predicate. Only the anchor's fields are checked for blankness.

  predicate SameName(anchor: Contact, other: Contact) {
    && !IsBlank(anchor.firstName)
    && !IsBlank(anchor.lastName)
    && EqualsIgnoreCase(anchor.firstName, other.firstName)
    && EqualsIgnoreCase(anchor.lastName, other.lastName)
  }

  predicate SamePhone(anchor: Contact, other: Contact) {
    !IsBlank(anchor.phoneNumber) && anchor.phoneNumber == other.phoneNumber
  }

  predicate SameEmail(anchor: Contact, other: Contact) {
    !IsBlank(anchor.email) && EqualsIgnoreCase(anchor.email, other.email)
  }

  /** `other` is a duplicate of `anchor`: same name, same phone or same e-mail. */
  predicate IsDuplicate(anchor: Contact, other: Contact) {
    SameName(anchor, other) || SamePhone(anchor, other) || SameEmail(anchor, other)
  }

  /** Although blankness is only checked on the anchor, the match is symmetric:
      an equal (or case-insensitively equal) field cannot be blank on one side
      only. */
  lemma IsDuplicateSymmetric(a: Contact, b: Contact)
    ensures IsDuplicate(a, b) <==> IsDuplicate(b, a)
  {
    if SameName(a, b) {
      EqualsIgnoreCaseKeepsNonBlank(a.firstName, b.firstName);
      EqualsIgnoreCaseKeepsNonBlank(a.lastName, b.lastName);
      assert SameName(b, a);
    }
    if SameName(b, a) {
      EqualsIgnoreCaseKeepsNonBlank(b.firstName, a.firstName);
      EqualsIgnoreCaseKeepsNonBlank(b.lastName, a.lastName);
      assert SameName(a, b);
    }
    if SameEmail(a, b) {
      EqualsIgnoreCaseKeepsNonBlank(a.email, b.email);
      assert SameEmail(b, a);
    }
    if SameEmail(b, a) {
      EqualsIgnoreCaseKeepsNonBlank(b.email, a.email);
      assert SameEmail(a, b);
    }
  }

  // ---------------------------------------------------------------------
  // Groups.

  predicate Increasing(g: seq<nat>) {
    forall a, b :: 0 <= a < b < |g| ==> g[a] < g[b]
  }

  function Members(g: seq<nat>): set<nat> {
    set x | x in g
  }

  /** A duplicate group of `cs`: at least two ascending positions, each after
      the first (the anchor) holding a duplicate of the anchor. */
  ghost predicate IsGroup(cs: seq<Contact>, g: seq<nat>) {
    && |g| >= 2
    && Increasing(g)
    && (forall k :: 0 <= k < |g| ==> g[k] < |cs|)
    && forall k :: 1 <= k < |g| ==> IsDuplicate(cs[g[0]], cs[g[k]])
  }

  ghost predicate AllGroups(cs: seq<Contact>, gs: seq<seq<nat>>) {
    forall p :: 0 <= p < |gs| ==> IsGroup(cs, gs[p])
  }

  /** No position is in two groups. */
  ghost predicate Disjoint(gs: seq<seq<nat>>) {
    forall p, q, a, b :: 0 <= p < q < |gs| && 0 <= a < |gs[p]| && 0 <= b < |gs[q]| ==> gs[p][a] != gs[q][b]
  }

  ghost predicate AnchorsAscending(gs: seq<seq<nat>>) {
    forall p, q :: 0 <= p < q < |gs| && |gs[p]| > 0 && |gs[q]| > 0 ==> gs[p][0] < gs[q][0]
  }

  ghost predicate WellFormed(cs: seq<Contact>, gs: seq<seq<nat>>) {
    AllGroups(cs, gs) && Disjoint(gs) && AnchorsAscending(gs)
  }

  /** Every member of every group is at least `from` and outside `claimed`. */
  ghost predicate Within(gs: seq<seq<nat>>, from: nat, claimed: set<nat>) {
    forall p, k :: 0 <= p < |gs| && 0 <= k < |gs[p]| ==> from <= gs[p][k] && gs[p][k] !in claimed
  }

  /** Position `x` belongs to no group of `gs`. */
  ghost predicate InNoGroup(gs: seq<seq<nat>>, x: nat) {
    forall q, k :: 0 <= q < |gs| && 0 <= k < |gs[q]| ==> gs[q][k] != x
  }

  /** Each group took every later position that duplicates its anchor and that
      neither `claimed` nor an earlier group had taken. */
  ghost predicate TakesEveryFreeDuplicate(cs: seq<Contact>, gs: seq<seq<nat>>, claimed: set<nat>) {
    forall p, j ::
      && 0 <= p < |gs| && |gs[p]| > 0 && gs[p][0] < j < |cs|
      && j !in claimed
      && InNoGroup(gs[..p], j)
      && IsDuplicate(cs[gs[p][0]], cs[j])
      ==> j in gs[p]
  }

  /** A group anchored before position `x` holds `j`. */
  ghost predicate TakenBefore(gs: seq<seq<nat>>, j: nat, x: nat) {
    exists q :: 0 <= q < |gs| && |gs[q]| > 0 && gs[q][0] < x && j in gs[q]
  }

  /** A position from `from` on that is in no group (and not in `claimed`) had
      each later duplicate of its own already taken, by `claimed` or by a
      group anchored before it. */
  ghost predicate LeftOutOnlyWhenTaken(cs: seq<Contact>, gs: seq<seq<nat>>, from: nat, claimed: set<nat>) {
    forall x, j ::
      && from <= x < j < |cs|
      && x !in claimed
      && InNoGroup(gs, x)
      && IsDuplicate(cs[x], cs[j])
      ==> j in claimed || TakenBefore(gs, j, x)
  }

  /** No contact of `cs` is a duplicate of an earlier one. */
  ghost predicate NoDuplicates(cs: seq<Contact>) {
    forall x, j :: 0 <= x < j < |cs| ==> !IsDuplicate(cs[x], cs[j])
  }

  // ---------------------------------------------------------------------
  // The scan.

  /** The inner loop: positions `from` onwards that are unclaimed and duplicate
      the contact at `anchor`, in ascending order. */
  function Matches(cs: seq<Contact>, anchor: nat, from: nat, claimed: set<nat>): (r: seq<nat>)
    requires anchor < |cs|
    decreases |cs| - from
    ensures Increasing(r)
    ensures forall k :: 0 <= k < |r| ==> from <= r[k] < |cs| && r[k] !in claimed
    ensures forall k :: 0 <= k < |r| ==> IsDuplicate(cs[anchor], cs[r[k]])
    ensures forall j :: from <= j < |cs| && j !in claimed && IsDuplicate(cs[anchor], cs[j]) ==> j in r
  {
    if from >= |cs| then []
    else if from !in claimed && IsDuplicate(cs[anchor], cs[from]) then
      [from] + Matches(cs, anchor, from + 1, claimed)
    else
      Matches(cs, anchor, from + 1, claimed)
  }

  /** The group the outer loop builds for anchor `i`. */
  function Candidate(cs: seq<Contact>, i: nat, claimed: set<nat>): seq<nat>
    requires i < |cs|
  {
    [i] + Matches(cs, i, i + 1, claimed)
  }

  /** The outer loop from position `i` on, with `claimed` the positions already
      grouped. A candidate is kept only when it has more than one member. */
  function GroupsFrom(cs: seq<Contact>, i: nat, claimed: set<nat>): seq<seq<nat>>
    decreases |cs| - i
  {
    if i >= |cs| then []
    else if i in claimed then GroupsFrom(cs, i + 1, claimed)
    else
      var group := Candidate(cs, i, claimed);
      if |group| > 1 then [group] + GroupsFrom(cs, i + 1, claimed + Members(group))
      else GroupsFrom(cs, i + 1, claimed)
  }

  /** `FindDuplicatedContacts`: the groups of one pass over `cs`, or `None`
      (the program's `null`) when there are none. */
  function FindDuplicatedContacts(cs: seq<Contact>): (r: Option<seq<seq<nat>>>)
    ensures r.None? <==> NoDuplicates(cs)
    ensures r.Some? ==> |r.value| > 0 && WellFormed(cs, r.value)
    ensures r.Some? ==> TakesEveryFreeDuplicate(cs, r.value, {})
    ensures r.Some? ==> LeftOutOnlyWhenTaken(cs, r.value, 0, {})
  {
    var gs := GroupsFrom(cs, 0, {});
    GroupsFromWellFormed(cs, 0, {});
    GroupsFromTakeFreeDuplicates(cs, 0, {});
    GroupsFromLeaveOutOnlyTaken(cs, 0, {});
    if |gs| > 0 then
      assert IsGroup(cs, gs[0]);
      assert IsDuplicate(cs[gs[0][0]], cs[gs[0][1]]);
      Some(gs)
    else
      assert forall x :: InNoGroup(gs, x);
      None
  }

  // ---------------------------------------------------------------------
  // Proofs about the scan.

  lemma CandidateFacts(cs: seq<Contact>, i: nat, claimed: set<nat>)
    requires i < |cs|
    ensures var g := Candidate(cs, i, claimed);
            && g[0] == i
            && (forall k :: 0 <= k < |g| ==> i <= g[k] && (k == 0 || g[k] !in claimed))
            && (|g| > 1 ==> IsGroup(cs, g))
  {
    var m := Matches(cs, i, i + 1, claimed);
    var g := Candidate(cs, i, claimed);
    assert g == [i] + m;
    forall k | 1 <= k < |g|
      ensures g[k] == m[k - 1] && i < g[k] < |cs| && g[k] !in claimed
      ensures IsDuplicate(cs[i], cs[g[k]])
    {
    }
    forall a, b | 0 <= a < b < |g|
      ensures g[a] < g[b]
    {
      if a > 0 {
        assert m[a - 1] < m[b - 1];
      }
    }
  }

  /** The positions of `[g] + tail` stay at or after `i` and outside `claimed`. */
  lemma ConsWithin(g: seq<nat>, tail: seq<seq<nat>>, i: nat, claimed: set<nat>)
    requires forall k :: 0 <= k < |g| ==> i <= g[k] && g[k] !in claimed
    requires Within(tail, i + 1, claimed + Members(g))
    ensures Within([g] + tail, i, claimed)
  {
    var gs := [g] + tail;
    forall p, k | 0 <= p < |gs| && 0 <= k < |gs[p]|
      ensures i <= gs[p][k] && gs[p][k] !in claimed
    {
      if p > 0 {
        assert gs[p] == tail[p - 1];
      }
    }
  }

  lemma ConsAllGroups(cs: seq<Contact>, g: seq<nat>, tail: seq<seq<nat>>)
    requires IsGroup(cs, g) && AllGroups(cs, tail)
    ensures AllGroups(cs, [g] + tail)
  {
    var gs := [g] + tail;
    forall p | 0 <= p < |gs|
      ensures IsGroup(cs, gs[p])
    {
      if p > 0 {
        assert gs[p] == tail[p - 1];
      }
    }
  }

  lemma ConsDisjoint(g: seq<nat>, tail: seq<seq<nat>>, i: nat, claimed: set<nat>)
    requires Disjoint(tail) && Within(tail, i + 1, claimed + Members(g))
    ensures Disjoint([g] + tail)
  {
    var gs := [g] + tail;
    forall p, q, a, b | 0 <= p < q < |gs| && 0 <= a < |gs[p]| && 0 <= b < |gs[q]|
      ensures gs[p][a] != gs[q][b]
    {
      assert gs[q] == tail[q - 1];
      if p == 0 {
        assert gs[p][a] in Members(g);
      } else {
        assert gs[p] == tail[p - 1];
      }
    }
  }

  lemma ConsAnchors(g: seq<nat>, tail: seq<seq<nat>>, i: nat, claimed: set<nat>)
    requires |g| > 0 && g[0] == i
    requires AnchorsAscending(tail) && Within(tail, i + 1, claimed)
    ensures AnchorsAscending([g] + tail)
  {
    var gs := [g] + tail;
    forall p, q | 0 <= p < q < |gs| && |gs[p]| > 0 && |gs[q]| > 0
      ensures gs[p][0] < gs[q][0]
    {
      assert gs[q] == tail[q - 1];
      if p > 0 {
        assert gs[p] == tail[p - 1];
      }
    }
  }

  /** Prepending the group of anchor `i` to the groups built after it keeps
      every well-formedness property. */
  lemma ConsWellFormed(cs: seq<Contact>, g: seq<nat>, tail: seq<seq<nat>>, i: nat, claimed: set<nat>)
    requires IsGroup(cs, g) && g[0] == i
    requires forall k :: 0 <= k < |g| ==> i <= g[k] && g[k] !in claimed
    requires WellFormed(cs, tail) && Within(tail, i + 1, claimed + Members(g))
    ensures WellFormed(cs, [g] + tail) && Within([g] + tail, i, claimed)
  {
    ConsWithin(g, tail, i, claimed);
    ConsAllGroups(cs, g, tail);
    ConsDisjoint(g, tail, i, claimed);
    WithinShrink(tail, i + 1, claimed, Members(g));
    ConsAnchors(g, tail, i, claimed);
  }

  lemma WithinShrink(gs: seq<seq<nat>>, from: nat, claimed: set<nat>, more: set<nat>)
    requires Within(gs, from, claimed + more)
    ensures Within(gs, from, claimed)
  {
  }

  lemma WithinWeaken(gs: seq<seq<nat>>, i: nat, claimed: set<nat>)
    requires Within(gs, i + 1, claimed)
    ensures Within(gs, i, claimed)
  {
  }

  lemma {:induction false} GroupsFromWellFormed(cs: seq<Contact>, i: nat, claimed: set<nat>)
    decreases |cs| - i
    ensures WellFormed(cs, GroupsFrom(cs, i, claimed))
    ensures Within(GroupsFrom(cs, i, claimed), i, claimed)
  {
    if i >= |cs| {
    } else if i in claimed {
      GroupsFromWellFormed(cs, i + 1, claimed);
      WithinWeaken(GroupsFrom(cs, i + 1, claimed), i, claimed);
    } else {
      var g := Candidate(cs, i, claimed);
      CandidateFacts(cs, i, claimed);
      if |g| > 1 {
        GroupsFromWellFormed(cs, i + 1, claimed + Members(g));
        ConsWellFormed(cs, g, GroupsFrom(cs, i + 1, claimed + Members(g)), i, claimed);
      } else {
        GroupsFromWellFormed(cs, i + 1, claimed);
        WithinWeaken(GroupsFrom(cs, i + 1, claimed), i, claimed);
      }
    }
  }

  /** Prepending the group of anchor `i` keeps "every free duplicate was taken". */
  lemma ConsTakes(cs: seq<Contact>, tail: seq<seq<nat>>, i: nat, claimed: set<nat>)
    requires i < |cs| && i !in claimed
    requires |Candidate(cs, i, claimed)| > 1
    requires TakesEveryFreeDuplicate(cs, tail, claimed + Members(Candidate(cs, i, claimed)))
    ensures TakesEveryFreeDuplicate(cs, [Candidate(cs, i, claimed)] + tail, claimed)
  {
    var g := Candidate(cs, i, claimed);
    CandidateFacts(cs, i, claimed);
    var gs := [g] + tail;
    forall p, j |
      && 0 <= p < |gs| && |gs[p]| > 0 && gs[p][0] < j < |cs|
      && j !in claimed
      && InNoGroup(gs[..p], j)
      && IsDuplicate(cs[gs[p][0]], cs[j])
      ensures j in gs[p]
    {
      if p == 0 {
        assert j in Matches(cs, i, i + 1, claimed);
      } else {
        assert gs[p] == tail[p - 1];
        forall k | 0 <= k < |g|
          ensures g[k] != j
        {
          assert gs[..p][0][k] == g[k];
        }
        assert j !in Members(g);
        var before := tail[..p - 1];
        forall q, k | 0 <= q < |before| && 0 <= k < |before[q]|
          ensures before[q][k] != j
        {
          assert before[q] == gs[..p][q + 1];
        }
        assert InNoGroup(before, j);
      }
    }
  }

  lemma {:induction false} GroupsFromTakeFreeDuplicates(cs: seq<Contact>, i: nat, claimed: set<nat>)
    decreases |cs| - i
    ensures TakesEveryFreeDuplicate(cs, GroupsFrom(cs, i, claimed), claimed)
  {
    if i >= |cs| {
    } else if i in claimed {
      GroupsFromTakeFreeDuplicates(cs, i + 1, claimed);
    } else {
      var g := Candidate(cs, i, claimed);
      if |g| > 1 {
        GroupsFromTakeFreeDuplicates(cs, i + 1, claimed + Members(g));
        ConsTakes(cs, GroupsFrom(cs, i + 1, claimed + Members(g)), i, claimed);
      } else {
        GroupsFromTakeFreeDuplicates(cs, i + 1, claimed);
      }
    }
  }

  /** Prepending the group of anchor `i` keeps "left out only when taken". */
  lemma ConsLeftOut(cs: seq<Contact>, tail: seq<seq<nat>>, i: nat, claimed: set<nat>)
    requires i < |cs| && i !in claimed
    requires |Candidate(cs, i, claimed)| > 1
    requires LeftOutOnlyWhenTaken(cs, tail, i + 1, claimed + Members(Candidate(cs, i, claimed)))
    ensures LeftOutOnlyWhenTaken(cs, [Candidate(cs, i, claimed)] + tail, i, claimed)
  {
    var g := Candidate(cs, i, claimed);
    CandidateFacts(cs, i, claimed);
    var gs := [g] + tail;
    forall x, j |
      && i <= x < j < |cs|
      && x !in claimed
      && InNoGroup(gs, x)
      && IsDuplicate(cs[x], cs[j])
      ensures j in claimed || TakenBefore(gs, j, x)
    {
      assert gs[0][0] == i;
      assert x != i;
      forall k | 0 <= k < |g|
        ensures g[k] != x
      {
        assert gs[0][k] == g[k];
      }
      forall q, k | 0 <= q < |tail| && 0 <= k < |tail[q]|
        ensures tail[q][k] != x
      {
        assert tail[q] == gs[q + 1];
      }
      assert InNoGroup(tail, x);
      if j in claimed {
      } else if j in Members(g) {
        assert gs[0] == g;
        assert TakenBefore(gs, j, x);
      } else {
        var q :| 0 <= q < |tail| && |tail[q]| > 0 && tail[q][0] < x && j in tail[q];
        assert gs[q + 1] == tail[q];
        assert TakenBefore(gs, j, x);
      }
    }
  }

  /** The anchor `i` finds no free duplicate, so each of its later duplicates is claimed. */
  lemma LoneAnchorLeftOut(cs: seq<Contact>, gs: seq<seq<nat>>, i: nat, claimed: set<nat>)
    requires i < |cs| && i !in claimed
    requires |Candidate(cs, i, claimed)| <= 1
    requires LeftOutOnlyWhenTaken(cs, gs, i + 1, claimed)
    ensures LeftOutOnlyWhenTaken(cs, gs, i, claimed)
  {
    assert Matches(cs, i, i + 1, claimed) == [];
  }

  lemma ClaimedAnchorLeftOut(cs: seq<Contact>, gs: seq<seq<nat>>, i: nat, claimed: set<nat>)
    requires i in claimed
    requires LeftOutOnlyWhenTaken(cs, gs, i + 1, claimed)
    ensures LeftOutOnlyWhenTaken(cs, gs, i, claimed)
  {
  }

  lemma {:induction false} GroupsFromLeaveOutOnlyTaken(cs: seq<Contact>, i: nat, claimed: set<nat>)
    decreases |cs| - i
    ensures LeftOutOnlyWhenTaken(cs, GroupsFrom(cs, i, claimed), i, claimed)
  {
    if i >= |cs| {
    } else if i in claimed {
      GroupsFromLeaveOutOnlyTaken(cs, i + 1, claimed);
      ClaimedAnchorLeftOut(cs, GroupsFrom(cs, i + 1, claimed), i, claimed);
    } else {
      var g := Candidate(cs, i, claimed);
      if |g| > 1 {
        GroupsFromLeaveOutOnlyTaken(cs, i + 1, claimed + Members(g));
        ConsLeftOut(cs, GroupsFrom(cs, i + 1, claimed + Members(g)), i, claimed);
      } else {
        GroupsFromLeaveOutOnlyTaken(cs, i + 1, claimed);
        LoneAnchorLeftOut(cs, GroupsFrom(cs, i + 1, claimed), i, claimed);
      }
    }
  }

  // ---------------------------------------------------------------------
  // Consequences.

  /** A contact that duplicates no other contact ends up in no group. Only one
      direction of the match is assumed: symmetry supplies the other. */
  lemma LonelyContactInNoGroup(cs: seq<Contact>, x: nat)
    requires x < |cs|
    requires forall j :: 0 <= j < |cs| && j != x ==> !IsDuplicate(cs[x], cs[j])
    ensures FindDuplicatedContacts(cs).Some? ==> InNoGroup(FindDuplicatedContacts(cs).value, x)
  {
    var r := FindDuplicatedContacts(cs);
    if r.Some? {
      var gs := r.value;
      forall q, k | 0 <= q < |gs| && 0 <= k < |gs[q]|
        ensures gs[q][k] != x
      {
        var g := gs[q];
        assert IsGroup(cs, g);
        if k == 0 {
          assert IsDuplicate(cs[g[0]], cs[g[1]]) && g[0] != g[1];
        } else {
          IsDuplicateSymmetric(cs[g[0]], cs[g[k]]);
          assert IsDuplicate(cs[g[k]], cs[g[0]]) && g[0] != g[k];
        }
      }
    }
  }

  /** The match is not transitive and the pass is greedy: here the third
      contact shares an e-mail with the second, yet ends up in no group because
      the second was already taken by the first (same phone), while the first
      and third do not match at all. */
  lemma ChainedDuplicateCanBeLeftOut()
    ensures var cs := [Contact("", "", "111", ""),
                       Contact("", "", "111", "b@x"),
                       Contact("", "", "333", "b@x")];
            && IsDuplicate(cs[2], cs[1])
            && FindDuplicatedContacts(cs) == Some([[0, 1]])
  {
    var cs := [Contact("", "", "111", ""),
               Contact("", "", "111", "b@x"),
               Contact("", "", "333", "b@x")];
    assert !IsWhiteSpace("111"[0]) && !IsWhiteSpace("b@x"[0]);
    assert SameEmail(cs[2], cs[1]);
    assert Candidate(cs, 0, {}) == [0, 1] by {
      assert SamePhone(cs[0], cs[1]);
      assert !IsDuplicate(cs[0], cs[2]) by {
        assert "111"[0] != "333"[0];
      }
      assert Matches(cs, 0, 3, {}) == [];
      assert Matches(cs, 0, 2, {}) == [];
    }
    assert GroupsFrom(cs, 1, {0, 1}) == [] by {
      assert Matches(cs, 2, 3, {0, 1}) == [];
      assert GroupsFrom(cs, 2, {0, 1}) == [];
    }
    assert GroupsFrom(cs, 0, {}) == [[0, 1]] by {
      assert {} + Members([0, 1]) == {0, 1};
    }
  }
}
