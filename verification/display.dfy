/** The contact listing (`ShowAllContacts`): the sort it applies to the stored
    list, how each field is shown in its column, how the list is cut into pages
    of ten, and how the operator moves between pages. */
module Display {
  import opened Options
  import opened Text
  import opened Console
  import opened Contacts

  // ---------------------------------------------------------------------
  // Column formatting

  /** `s` cut to its first `keep` characters plus "..." when longer than `width`. */
  function Abbreviate(s: string, width: nat, keep: nat): (r: string)
    requires keep + 3 == width
    ensures |r| <= width || r == s
    ensures |s| <= width ==> r == s
    ensures |s| > width ==> |r| == width && r[..keep] == s[..keep] && r[keep..] == "..."
  {
    if |s| > width then s[..keep] + "..." else s
  }

  /** Abbreviating twice changes nothing more: the short form already fits. */
  lemma AbbreviateIdempotent(s: string, width: nat, keep: nat)
    requires keep + 3 == width
    ensures Abbreviate(Abbreviate(s, width, keep), width, keep) == Abbreviate(s, width, keep)
  {
  }

  /** A first or last name in the listing: a placeholder when blank, otherwise
      at most 18 characters. */
  function ShownName(s: string, placeholder: string): (r: string)
    ensures IsBlank(s) ==> r == placeholder
    ensures !IsBlank(s) ==> |r| <= 18
    ensures !IsBlank(s) && |s| <= 18 ==> r == s
    ensures !IsBlank(s) && |s| > 18 ==> |r| == 18 && r[..15] == s[..15] && r[15..] == "..."
  {
    if IsBlank(s) then placeholder else Abbreviate(s, 18, 15)
  }

  /** An email in the listing: a placeholder when blank, otherwise at most 22
      characters. */
  function ShownEmail(s: string): (r: string)
    ensures IsBlank(s) ==> r == "(no email)"
    ensures !IsBlank(s) ==> |r| <= 22
    ensures !IsBlank(s) && |s| <= 22 ==> r == s
    ensures !IsBlank(s) && |s| > 22 ==> |r| == 22 && r[..19] == s[..19] && r[19..] == "..."
  {
    if IsBlank(s) then "(no email)" else Abbreviate(s, 22, 19)
  }

  /** A phone number in the listing: a ten-character number is grouped as
      XXX-XXX-XXXX; any other non-blank value is shown as typed. */
  function ShownPhone(s: string): (r: string)
    ensures IsBlank(s) ==> r == "(no phone)"
    ensures !IsBlank(s) && |s| != 10 ==> r == s
    ensures !IsBlank(s) && |s| == 10 ==> |r| == 12 && r[3] == '-' && r[7] == '-'
  {
    if IsBlank(s) then "(no phone)"
    else if |s| == 10 then s[..3] + "-" + s[3..6] + "-" + s[6..]
    else s
  }

  /** Taking the two dashes out of a grouped phone number gives the number back. */
  lemma GroupedPhoneRoundTrip(s: string)
    requires !IsBlank(s) && |s| == 10
    ensures var r := ShownPhone(s); r[..3] + r[4..7] + r[8..] == s
  {
    var r := ShownPhone(s);
    assert r[..3] == s[..3];
    assert r[4..7] == s[3..6];
    assert r[8..] == s[6..];
    assert s == s[..3] + s[3..6] + s[6..];
  }

  // ---------------------------------------------------------------------
  // Pages

  const ItemsPerPage: nat := 10

  /** `Math.Max(1, (int)Math.Ceiling(count / (double)itemsPerPage))`. */
  function PageCount(n: nat): (pc: nat)
    ensures pc >= 1
    ensures n == 0 ==> pc == 1
    ensures n > 0 ==> (pc - 1) * ItemsPerPage < n <= pc * ItemsPerPage
  {
    if n == 0 then 1 else (n + ItemsPerPage - 1) / ItemsPerPage
  }

  /** A page number that can be on screen. */
  predicate ValidPage(n: nat, page: int) {
    1 <= page <= PageCount(n)
  }

  /** The first position shown on `page` (`offset`). */
  function PageStart(page: int): int {
    (page - 1) * ItemsPerPage
  }

  /** One past the last position shown on `page` (`limit`). */
  function PageEnd(n: nat, page: int): int {
    if PageStart(page) + ItemsPerPage < n then PageStart(page) + ItemsPerPage else n
  }

  /** A valid page shows between one and ten contacts of a non-empty list, so
      the loop that pads the screen to ten rows never runs a negative count. */
  lemma PageShape(n: nat, page: int)
    requires ValidPage(n, page)
    ensures 0 <= PageStart(page) <= PageEnd(n, page) <= n
    ensures PageEnd(n, page) - PageStart(page) <= ItemsPerPage
    ensures n > 0 ==> PageStart(page) < PageEnd(n, page)
  {
    var pc := PageCount(n);
    assert (page - 1) * ItemsPerPage <= (pc - 1) * ItemsPerPage;
  }

  /** The page holding position `i`. */
  function PageOf(i: nat): int {
    i / ItemsPerPage + 1
  }

  /** Every contact is shown on exactly one valid page: the one `PageOf` names. */
  lemma EveryContactOnOnePage(n: nat, i: nat, page: int)
    requires i < n
    ensures ValidPage(n, PageOf(i))
    ensures PageStart(PageOf(i)) <= i < PageEnd(n, PageOf(i))
    ensures ValidPage(n, page) && PageStart(page) <= i < PageEnd(n, page) ==> page == PageOf(i)
  {
    var q := i / ItemsPerPage;
    assert q * ItemsPerPage <= i < (q + 1) * ItemsPerPage;
    if ValidPage(n, page) && PageStart(page) <= i < PageEnd(n, page) {
      assert (page - 1) * ItemsPerPage <= i < (page - 1) * ItemsPerPage + ItemsPerPage;
    }
  }

  // ---------------------------------------------------------------------
  // Navigation

  /** Where the (trimmed) navigation line leads from `page`: "+" and "-" step
      within the pages, a number from 0 to the page count jumps there, and
      anything else is 0, which leaves the listing. */
  function Navigate(page: int, pc: int, nav: string): (r: int)
    requires 1 <= page <= pc
    ensures 0 <= r <= pc
    ensures r == 0 <==>
              && nav != "+" && nav != "-"
              && !(ParseInt32(nav).Some? && 1 <= ParseInt32(nav).value <= pc)
    ensures nav == "+" ==> r == page + 1 || (r == page == pc)
    ensures nav == "-" ==> r == page - 1 || (r == page == 1)
    ensures nav != "+" && nav != "-" && ParseInt32(nav).Some? && 0 <= ParseInt32(nav).value <= pc ==>
              r == ParseInt32(nav).value
  {
    if nav == "+" then (if page + 1 < pc then page + 1 else pc)
    else if nav == "-" then (if page - 1 > 1 then page - 1 else 1)
    else
      var p := ParseInt32(nav);
      if p.Some? && 0 <= p.value <= pc then p.value else 0
  }

  /** Typing the number of a page shows that page. */
  lemma TypingPageNumberShowsIt(page: int, pc: int, target: int)
    requires 1 <= page <= pc && 1 <= target <= pc && pc <= MaxInt32
    ensures Navigate(page, pc, FormatInt(target)) == target
  {
    ParseFormatRoundTrip(target);
    assert FormatInt(target)[0] != '+' && FormatInt(target)[0] != '-' by {
      assert IsDigit(FormatInt(target)[0]);
    }
  }

  /** The pages shown, from `page` on, until the operator leaves the listing.
      Each shown page reads one line; `ReadLine().Trim()` dereferences null
      at end of input. */
  function ShowPages(n: nat, page: int, script: seq<string>): (r: Option<Reply<seq<int>>>)
    requires ValidPage(n, page)
    decreases |script|
    ensures r.Some? ==> IsSuffix(r.value.rest, script)
    ensures r.Some? ==> |r.value.value| == |script| - |r.value.rest|
    ensures r.Some? ==> |r.value.value| > 0 && r.value.value[0] == page
    ensures r.Some? ==> forall k :: 0 <= k < |r.value.value| ==> ValidPage(n, r.value.value[k])
    ensures r.Some? ==> FollowsLines(n, r.value.value, script)
  {
    var line :- ReadLine(script);
    var next := Navigate(page, PageCount(n), Trim(line.value));
    if next == 0 then Some(Reply([page], line.rest))
    else
      var more :- ShowPages(n, next, line.rest);
      SuffixTransitive(more.rest, line.rest, script);
      FollowsOneMoreLine(n, page, more.value, script);
      Some(Reply([page] + more.value, more.rest))
  }

  /** `pages` is the walk the navigation lines of `script` take: the first
      page is valid, the trimmed line read on it leads either out of the
      listing, when it is the last page, or to the next page of the walk,
      which reads the following line. */
  predicate FollowsLines(n: nat, pages: seq<int>, script: seq<string>)
    decreases |pages|
  {
    && 0 < |pages| <= |script|
    && ValidPage(n, pages[0])
    && var next := Navigate(pages[0], PageCount(n), Trim(script[0]));
       if |pages| == 1 then next == 0
       else pages[1] == next && FollowsLines(n, pages[1..], script[1..])
  }

  lemma FollowsOneMoreLine(n: nat, page: int, pages: seq<int>, script: seq<string>)
    requires ValidPage(n, page) && |script| > 0
    requires FollowsLines(n, pages, script[1..])
    requires pages[0] == Navigate(page, PageCount(n), Trim(script[0]))
    ensures FollowsLines(n, [page] + pages, script)
  {
    assert ([page] + pages)[1..] == pages;
  }

  /** The walk, page by page: the `k`-th page shown is valid, the line read on
      it is the `k`-th line of the script, and once trimmed it leads to the
      next page shown or, on the last page, out of the listing. */
  lemma {:induction false} FollowsLinesMeaning(n: nat, pages: seq<int>, script: seq<string>, k: nat)
    requires k < |pages|
    ensures FollowsLines(n, pages, script) ==>
              && k < |script| && ValidPage(n, pages[k])
              && (k < |pages| - 1 ==> pages[k + 1] == Navigate(pages[k], PageCount(n), Trim(script[k])))
              && (k == |pages| - 1 ==> Navigate(pages[k], PageCount(n), Trim(script[k])) == 0)
    decreases k
  {
    if k > 0 && FollowsLines(n, pages, script) {
      FollowsLinesMeaning(n, pages[1..], script[1..], k - 1);
      assert pages[1..][k - 1] == pages[k] && script[1..][k - 1] == script[k];
      if k < |pages| - 1 {
        assert pages[1..][k] == pages[k + 1];
      }
    }
  }

  /** "0" goes back to the menu from any page. */
  lemma ZeroLeavesListing(n: nat, page: int, rest: seq<string>)
    requires ValidPage(n, page)
    ensures ShowPages(n, page, ["0"] + rest) == Some(Reply([page], rest))
  {
    assert FormatInt(0) == "0";
    ParseFormatRoundTrip(0);
    TrimWithoutWhiteSpace("0");
    assert (["0"] + rest)[1..] == rest;
  }

  // ---------------------------------------------------------------------
  // Sorting

  /** The field sort option 1 to 4 orders by. */
  function SortField(option: int): (f: Field)
    requires 1 <= option <= 4
    ensures option == 1 <==> f == FirstName
    ensures option == 2 <==> f == LastName
    ensures option == 3 <==> f == PhoneNumber
    ensures option == 4 <==> f == Email
  {
    if option == 1 then FirstName
    else if option == 2 then LastName
    else if option == 3 then PhoneNumber
    else Email
  }

  /** `before(a, b)`: key `a` may be listed before key `b`. The string
      comparison `OrderBy` uses is a parameter; it only has to be total. */
  ghost predicate Total(before: (string, string) -> bool) {
    forall a, b :: before(a, b) || before(b, a)
  }

  /** Each contact's key may come before the next one's. */
  ghost predicate SortedBy(cs: seq<Contact>, f: Field, before: (string, string) -> bool) {
    forall i, j :: 0 <= i < j < |cs| && j == i + 1 ==> before(Get(cs[i], f), Get(cs[j], f))
  }

  /** `c` placed in front of the first contact whose key it may precede. */
  function InsertBy(c: Contact, sorted: seq<Contact>, f: Field, before: (string, string) -> bool): (r: seq<Contact>)
    decreases |sorted|
    ensures multiset(r) == multiset(sorted) + multiset{c}
    ensures |r| == |sorted| + 1
    ensures r[0] == c || (|sorted| > 0 && r[0] == sorted[0])
    ensures Total(before) && SortedBy(sorted, f, before) ==> SortedBy(r, f, before)
  {
    if |sorted| == 0 then [c]
    else if before(Get(c, f), Get(sorted[0], f)) then
      InsertInFront(c, sorted, f, before);
      [c] + sorted
    else
      var rest := InsertBy(c, sorted[1..], f, before);
      InsertBehind(c, sorted, rest, f, before);
      ConsMultiset(sorted, rest, c);
      [sorted[0]] + rest
  }

  lemma ConsMultiset(sorted: seq<Contact>, rest: seq<Contact>, c: Contact)
    requires |sorted| > 0 && multiset(rest) == multiset(sorted[1..]) + multiset{c}
    ensures multiset([sorted[0]] + rest) == multiset(sorted) + multiset{c}
  {
    assert sorted == [sorted[0]] + sorted[1..];
  }

  lemma InsertInFront(c: Contact, sorted: seq<Contact>, f: Field, before: (string, string) -> bool)
    requires |sorted| > 0 && before(Get(c, f), Get(sorted[0], f))
    ensures SortedBy(sorted, f, before) ==> SortedBy([c] + sorted, f, before)
  {
    var r := [c] + sorted;
    if SortedBy(sorted, f, before) {
      forall i, j | 0 <= i < j < |r| && j == i + 1
        ensures before(Get(r[i], f), Get(r[j], f))
      {
        if i > 0 {
          assert r[i] == sorted[i - 1] && r[j] == sorted[j - 1];
        }
      }
    }
  }

  lemma InsertBehind(c: Contact, sorted: seq<Contact>, rest: seq<Contact>, f: Field, before: (string, string) -> bool)
    requires |sorted| > 0 && !before(Get(c, f), Get(sorted[0], f))
    requires |rest| > 0 && (rest[0] == c || (|sorted| > 1 && rest[0] == sorted[1]))
    ensures Total(before) && SortedBy(sorted, f, before) && SortedBy(rest, f, before) ==>
              SortedBy([sorted[0]] + rest, f, before)
  {
    if !(Total(before) && SortedBy(sorted, f, before) && SortedBy(rest, f, before)) {
      return;
    }
    var r := [sorted[0]] + rest;
    assert before(Get(sorted[0], f), Get(rest[0], f)) by {
      if rest[0] == c {
        assert before(Get(c, f), Get(sorted[0], f)) || before(Get(sorted[0], f), Get(c, f));
      } else {
        assert 0 <= 0 < 1 < |sorted| && 1 == 0 + 1;
      }
    }
    forall i, j | 0 <= i < j < |r| && j == i + 1
      ensures before(Get(r[i], f), Get(r[j], f))
    {
      if i > 0 {
        assert r[i] == rest[i - 1] && r[j] == rest[j - 1];
      }
    }
  }

  /** `OrderBy(e => e.f)`: insertion of each contact, from the last one
      forwards, into the already sorted rest. The result holds the same
      contacts, and under a total comparison each key may precede the next. */
  function SortBy(cs: seq<Contact>, f: Field, before: (string, string) -> bool): (r: seq<Contact>)
    decreases |cs|
    ensures multiset(r) == multiset(cs)
    ensures |r| == |cs|
    ensures Total(before) ==> SortedBy(r, f, before)
  {
    if |cs| == 0 then []
    else
      assert cs == [cs[0]] + cs[1..];
      InsertBy(cs[0], SortBy(cs[1..], f, before), f, before)
  }

  /** What the listing leaves behind: the contact list, now in the chosen
      order, and the pages shown. */
  datatype Listing = Listing(contacts: seq<Contact>, pages: seq<int>)

  /** `ShowAllContacts`: choose a sort key (1 to 4), which reorders the stored
      list for good, then browse the sorted list from page 1. */
  function ShowAllContacts(cs: seq<Contact>, before: (string, string) -> bool, script: seq<string>): (r: Option<Reply<Listing>>)
    ensures r.Some? ==> IsSuffix(r.value.rest, script)
    ensures r.Some? ==> GetOption(script, 1, 4).Some?
    ensures r.Some? ==>
              var option := GetOption(script, 1, 4).value;
              var sorted := r.value.value.contacts;
              && multiset(sorted) == multiset(cs)
              && sorted == SortBy(cs, SortField(option.value), before)
              && (Total(before) ==> SortedBy(sorted, SortField(option.value), before))
              && |r.value.value.pages| > 0 && r.value.value.pages[0] == 1
              && FollowsLines(|cs|, r.value.value.pages, option.rest)
  {
    var option :- GetOption(script, 1, 4);
    var sorted := SortBy(cs, SortField(option.value), before);
    var pages :- ShowPages(|sorted|, 1, option.rest);
    SuffixTransitive(pages.rest, option.rest, script);
    Some(Reply(Listing(sorted, pages.value), pages.rest))
  }
}
