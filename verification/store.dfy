/** The contact list as the merge step sees it: entries with an identity, since
    `contacts.Remove(c)` removes that very object, not any equal record. */
module Store {
  import opened Contacts

  datatype Entry = Entry(id: nat, contact: Contact)

  predicate UniqueIds(s: seq<Entry>) {
    forall a, b :: 0 <= a < b < |s| ==> s[a].id != s[b].id
  }

  /** The list at the start of a session: each contact identified by its position. */
  function Tag(cs: seq<Contact>): (s: seq<Entry>)
    ensures |s| == |cs|
    ensures forall k :: 0 <= k < |cs| ==> s[k] == Entry(k, cs[k])
  {
    seq(|cs|, k requires 0 <= k < |cs| => Entry(k, cs[k]))
  }

  /** The contacts an entry list holds, in order. */
  function Contents(s: seq<Entry>): (cs: seq<Contact>)
    ensures |cs| == |s|
    ensures forall k :: 0 <= k < |s| ==> cs[k] == s[k].contact
  {
    seq(|s|, k requires 0 <= k < |s| => s[k].contact)
  }

  /** The entries of `s` whose identity is not in `gone`, in their order. */
  function Keep(s: seq<Entry>, gone: set<nat>): (r: seq<Entry>)
    ensures forall e :: e in r <==> e in s && e.id !in gone
    ensures |r| <= |s|
  {
    if |s| == 0 then []
    else (if s[0].id in gone then [] else [s[0]]) + Keep(s[1..], gone)
  }

  /** `List.Remove(c)`: drops the first entry with identity `id`, if there is one. */
  function RemoveFirst(s: seq<Entry>, id: nat): (r: seq<Entry>)
    ensures (exists k :: 0 <= k < |s| && s[k].id == id) ==> |r| == |s| - 1
    ensures (forall k :: 0 <= k < |s| ==> s[k].id != id) ==> r == s
  {
    if |s| == 0 then []
    else if s[0].id == id then s[1..]
    else
      assert forall k :: 1 <= k < |s| ==> s[k] == s[1..][k - 1];
      [s[0]] + RemoveFirst(s[1..], id)
  }

  /** `foreach (var c in toDelete) contacts.Remove(c)`. */
  function RemoveEach(s: seq<Entry>, ids: seq<nat>): seq<Entry>
    decreases |ids|
  {
    if |ids| == 0 then s else RemoveEach(RemoveFirst(s, ids[0]), ids[1..])
  }

  function Ids(ids: seq<nat>): set<nat> {
    set x | x in ids
  }

  // ---------------------------------------------------------------------

  lemma {:induction false} KeepAppend(a: seq<Entry>, b: seq<Entry>, gone: set<nat>)
    ensures Keep(a + b, gone) == Keep(a, gone) + Keep(b, gone)
    decreases |a|
  {
    if |a| == 0 {
      assert a + b == b;
    } else {
      assert (a + b)[1..] == a[1..] + b;
      KeepAppend(a[1..], b, gone);
    }
  }

  lemma {:induction false} KeepNothingGone(s: seq<Entry>, gone: set<nat>)
    requires forall k :: 0 <= k < |s| ==> s[k].id !in gone
    ensures Keep(s, gone) == s
    decreases |s|
  {
    if |s| > 0 {
      KeepNothingGone(s[1..], gone);
    }
  }

  lemma {:induction false} KeepTwice(s: seq<Entry>, a: set<nat>, b: set<nat>)
    ensures Keep(Keep(s, a), b) == Keep(s, a + b)
    decreases |s|
  {
    if |s| > 0 {
      KeepTwice(s[1..], a, b);
      if s[0].id in a {
        assert Keep(s, a) == Keep(s[1..], a);
      } else {
        var k := Keep(s, a);
        assert k == [s[0]] + Keep(s[1..], a);
        assert k[1..] == Keep(s[1..], a);
        assert Keep(k, b) == (if s[0].id in b then [] else [s[0]]) + Keep(k[1..], b);
      }
    }
  }

  /** Keeping a sub-list of a list with distinct identities keeps them distinct. */
  lemma {:induction false} KeepUnique(s: seq<Entry>, gone: set<nat>)
    requires UniqueIds(s)
    ensures UniqueIds(Keep(s, gone))
    decreases |s|
  {
    if |s| > 0 {
      KeepUnique(s[1..], gone);
      var tail := Keep(s[1..], gone);
      forall e | e in tail
        ensures e.id != s[0].id
      {
        var k :| 0 <= k < |s[1..]| && s[1..][k] == e;
        assert s[k + 1] == e;
      }
    }
  }

  /** With distinct identities, `List.Remove` is a filter on that identity. */
  lemma {:induction false} RemoveFirstIsKeep(s: seq<Entry>, id: nat)
    requires UniqueIds(s)
    ensures RemoveFirst(s, id) == Keep(s, {id})
    decreases |s|
  {
    if |s| > 0 {
      if s[0].id == id {
        KeepNothingGone(s[1..], {id});
      } else {
        RemoveFirstIsKeep(s[1..], id);
      }
    }
  }

  /** Removing the listed entries one by one leaves exactly the entries whose
      identity is not listed, in their original order. */
  lemma {:induction false} RemoveEachIsKeep(s: seq<Entry>, ids: seq<nat>)
    requires UniqueIds(s)
    ensures RemoveEach(s, ids) == Keep(s, Ids(ids))
    decreases |ids|
  {
    if |ids| == 0 {
      assert Ids(ids) == {};
      KeepNothingGone(s, {});
    } else {
      RemoveFirstIsKeep(s, ids[0]);
      KeepUnique(s, {ids[0]});
      RemoveEachIsKeep(Keep(s, {ids[0]}), ids[1..]);
      KeepTwice(s, {ids[0]}, Ids(ids[1..]));
      assert {ids[0]} + Ids(ids[1..]) == Ids(ids);
    }
  }
}
