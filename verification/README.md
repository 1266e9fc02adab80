# ContactBook in Dafny

A model of the rules inside ContactBook, a C# console program that keeps a
list of contacts. Each contact is four strings: first name, last name, phone
number and email. The model covers these parts of the program:

- **Duplicate grouping** (`FindDuplicatedContacts`). One forward pass gathers, for each contact not yet
  claimed, every later unclaimed contact that shares the name (case-insensitively), the phone number or the
  email (case-insensitively).
- **The field picker** (`AskUserToPickField`).
- **The merge session** (`MergeDuplicatedContacts`). It picks fields, asks whether to add the merged contact
  and whether to delete each member, then applies the answers.
- **The contact-book file.** This is the four-line record format that `LoadEntriesFromFile` reads and
  `SaveContact` writes, together with the way `StreamReader` splits lines and `StreamWriter` ends them.
- **Single-contact operations.** Adding (`AddNewContact`), editing (`EditContact` and its two ways of
  finding a contact) and deleting (`DeleteContact`).
- **The paged listing** (`ShowAllContacts`): the sort it applies to the stored list, column formatting, page
  arithmetic and navigation.
- **Both `GetOption` validators.**

The operator is modelled as a script: the sequence of lines `Console.ReadLine` would return. Every
interactive operation takes the script and returns `Option<Reply<T>>`. A `Reply` holds the result and the
lines left unread. The result is `None` in two cases:

- the program would dereference the null `ReadLine` returns at end of input;
- the program would keep prompting for ever.

Editing by index on an empty list falls under the second case. No number is in `[0, -1]`, so the prompt
never ends.

Where the program tolerates a null line, the model reads it as `""`. Examples are a missing second line of
a name pair, or a new field value during an edit.

Modules:

- `Options`: `Option` and `Reply`.
- `Text`: white space, `Trim`, case folding, `Contains`, Int32 parsing and formatting.
- `Console`: line reading and the re-prompting validators.
- `Contacts`: the contact record.
- `Duplicates`: the grouping pass.
- `Picker`: the field picker.
- `Store`: entries with identities, for `List.Remove`.
- `Merge`: the merge session.
- `Storage`: the file format.
- `Editing`: add, edit and delete.
- `Display`: the listing and its sort.

## Model

| member | source | states |
|---|---|---|
| Text.Trim | Program.cs:752 | The trimmed line starts and ends with a non-white-space character, and it is empty exactly when the line is blank |
| Text.TrimDropsOnlyOuterWhiteSpace | Program.cs:752 | `Trim` returns a slice of the line with only white space before and after it |
| Text.ParseInt32 | Program.cs:754 | A successful `int.TryParse` means an optional sign followed by ASCII digits, with a value inside the Int32 range (trailing NUL characters, which .NET also accepts, are not modelled; see below) |
| Text.ParseFormatRoundTrip | Program.cs:754 | Parsing the decimal rendering of any Int32 gives that number back |
| Text.ParseSignedDigits | Program.cs:754 | Every run of digits, with or without "+" or "-" and with leading zeros allowed, parses to its signed decimal value exactly when that value fits in an Int32, and fails otherwise |
| Text.EqualsIgnoreCaseKeepsNonBlank | Program.cs:671-680 | A string equal, ignoring case, to a non-blank string is not blank either |
| Console.FirstAnswer | Program.cs:754-759 | The re-prompting loop answers with the value of a line it accepted, and leaves the lines after that line unread |
| Console.NumberIn | Program.cs:752-754 | A line that the numeric prompt accepts yields a number in `[min, max]` |
| Console.GetOption | Program.cs:749-761 | The numeric prompt returns a number in `[min, max]` and consumes at least one line |
| Console.GetOptionNeverAccepts | Program.cs:754-759 | The numeric prompt fails only when no line of the script is acceptable |
| Console.GetOptionTakesFirst | Program.cs:754-760 | Every line before the one the numeric prompt consumed was rejected |
| Console.GetOptionAcceptsLine | Program.cs:752-760 | An acceptable first line is answered at once, with the number it holds |
| Console.GetOptionSkipsLine | Program.cs:754-759 | A rejected first line is skipped, and the prompt starts again on the next line |
| Console.TypingShownNumberSelectsIt | Program.cs:749-761 | Typing the decimal form of an in-range number selects that number and consumes one line |
| Console.TokenIn | Program.cs:770-772 | A line the textual prompt accepts yields one of the valid tokens |
| Console.GetToken | Program.cs:764-780 | The textual prompt returns one of the valid tokens and consumes at least one line |
| Console.GetTokenNeverAccepts | Program.cs:767-777 | The textual prompt fails only when no line is acceptable |
| Console.GetTokenTakesFirst | Program.cs:767-779 | Every line before the one the textual prompt consumed was rejected |
| Console.GetTokenAcceptsLine | Program.cs:770-779 | An acceptable first line is answered at once, with its upper-cased token |
| Console.GetTokenSkipsLine | Program.cs:767-777 | A rejected first line is skipped, and the prompt starts again on the next line |
| Contacts.With | Program.cs:392-443 | Setting one field leaves the other three unchanged |
| Contacts.Column | Program.cs:582-585 | `group.Select(e => e.f)` lists field `f` of every member, in member order |
| Duplicates.IsDuplicateSymmetric | Program.cs:671-682 | The match is symmetric, even though blankness is checked only on the anchor |
| Duplicates.Matches | Program.cs:664-687 | The inner loop collects, in ascending order, exactly the later unclaimed positions that match the anchor |
| Duplicates.CandidateFacts | Program.cs:660-687 | A candidate group starts with its anchor; its members are not before the anchor and not claimed; with two or more members it is a duplicate group |
| Duplicates.FindDuplicatedContacts | Program.cs:651-700 | The result is null exactly when no contact duplicates an earlier one. Otherwise there are groups, and they are well formed: each has two or more ascending positions, every member matches the anchor, groups are disjoint, and anchors ascend. Every free duplicate is taken, and a contact is left out only when its duplicates were already taken |
| Duplicates.GroupsFromWellFormed | Program.cs:656-697 | The outer loop yields well-formed groups whose positions are at or after the loop start and are unclaimed |
| Duplicates.GroupsFromTakeFreeDuplicates | Program.cs:656-697 | Each group holds every later duplicate of its anchor that no earlier group or claim had taken |
| Duplicates.GroupsFromLeaveOutOnlyTaken | Program.cs:656-697 | A contact left out of all groups has each of its later duplicates taken by an earlier group or by a claim |
| Duplicates.LonelyContactInNoGroup | Program.cs:661-696 | A contact that matches no other contact is in no group |
| Duplicates.ChainedDuplicateCanBeLeftOut | Program.cs:656-697 | A contact can match another contact and still be in no group, because the pass is greedy and the match is not transitive |
| Picker.Candidates | Program.cs:706 | The candidates are exactly the non-blank values, with no repeats, in order of first occurrence |
| Picker.AskUserToPickField | Program.cs:703-722 | With no candidate the result is "" and with one it is that candidate, neither consuming input; otherwise the result is the candidate whose index the numeric prompt returns, and it fails only when that prompt fails |
| Picker.PickedFieldMeaning | Program.cs:706-721 | The pick is "" exactly when every value is blank. Otherwise it is one of the non-blank values, and it is the only one when all non-blank values agree |
| Picker.EnteringShownIndexPicksIt | Program.cs:714-721 | Entering the number printed beside a candidate picks that candidate |
| Store.RemoveFirstIsKeep | Program.cs:634 | With distinct identities, `List.Remove` drops exactly the entry with that identity and keeps the rest in order |
| Store.RemoveEachIsKeep | Program.cs:632-637 | Removing the marked entries one by one leaves exactly the unmarked entries, in order |
| Merge.ReadAnswers | Program.cs:619-629 | One line is read per member, with no re-prompt, and only a line that trims and lower-cases to "y" means yes |
| Merge.PickField | Program.cs:582-585 | The picked value is "" exactly when every member's value of that field is blank. Otherwise it is one of the non-blank values, and it is the only one when all non-blank values agree |
| Merge.PickMerged | Program.cs:582-594 | Every field of the merged contact is "" exactly when all members leave that field blank, and otherwise one of the members' non-blank values of that field |
| Merge.PickMergedInOrder | Program.cs:582-594 | The merged contact's four fields are what the picker returns for first name, last name, phone number and email, in that order, each prompt reading where the one before it stopped |
| Merge.ReadDecision | Program.cs:582-629 | For one group: the merged contact, then one add answer, then one delete answer per member, read in that order |
| Merge.ReadAddAndDeletes | Program.cs:600-627 | After the merged contact, the first line is the add answer and the next one line per member are the delete answers; the questions succeed exactly when that many lines remain |
| Merge.ToDelete | Program.cs:614-629 | The delete list holds exactly the members answered yes, and it is empty exactly when none was |
| Merge.ApplyDecision | Program.cs:599-637 | One group's step keeps the list minus exactly the members marked for deletion, then appends the merged contact exactly when it was accepted |
| Merge.DecliningGroupChangesNothing | Program.cs:600-637 | A group whose answers are all "no" leaves the list unchanged and does not set `changesMade` |
| Merge.ReadDecisions | Program.cs:570-641 | The session asks about every group in order, and each merged contact is built from its own group |
| Merge.ReadDecisionsStep | Program.cs:570-641 | The first group's questions are read first, from the start of the input; the remaining groups are asked about from where they stopped, and the session fails when any group's questions run out of input |
| Merge.ChangesMade | Program.cs:566-643 | `changesMade` is true exactly when some group added its merged contact or deleted a member |
| Merge.MergeDuplicatedContacts | Program.cs:549-648 | With no duplicates, nothing is read and nothing changes. Otherwise the new list is the originals no group deleted, in order, followed by the accepted merged contacts, in group order, and `changesMade` is reported as above |
| Merge.SessionOutcome | Program.cs:570-641 | Applying all groups gives the surviving originals followed by the accepted merged contacts |
| Merge.ApplyAllOutcome | Program.cs:570-641 | The invariant of the group loop: surviving originals, then the merged contacts added so far |
| Merge.DecliningEverythingChangesNothing | Program.cs:600-645 | A session in which every answer is "no" leaves the list as it was and reports no change |
| Storage.ParseRecords | Program.cs:131-154 | Every parsed record has four non-empty fields, and there is at most one record per four lines |
| Storage.LoadEntries | Program.cs:130-154 | Loading keeps the existing list as a prefix and appends only complete records |
| Storage.SaveLines | Program.cs:531-537 | Saving writes four lines per contact, in list and field order |
| Storage.SaveThenParse | Program.cs:131-153 | Parsing saved lines gives back exactly the complete contacts, in order |
| Storage.TruncatedBlockDropped | Program.cs:133-153 | Up to three lines after the last full block never become a contact: their fourth line reads as null, so the record is skipped |
| Storage.LoadSaveRoundTrip | Program.cs:130-154 | Loading saved lines appends exactly the complete contacts after the existing ones |
| Storage.CompleteListSurvives | Program.cs:139-153 | A list of complete contacts survives saving and loading unchanged |
| Storage.SplitLines | Program.cs:133-136 | No line that `ReadLine` returns contains a line break |
| Storage.JoinThenSplit | Program.cs:533-536 | Lines written with "\n" or "\r\n" endings are read back as the same lines, provided none of them contains a line break |
| Storage.FileRoundTrip | Program.cs:529-537 | Saving to file text and loading it back appends exactly the complete contacts, provided no field contains a line break |
| Editing.AskPair | Program.cs:261-291 | A pair that the prompt returns satisfies the loop's exit condition, and at least one line is consumed |
| Editing.AskPairNeverAccepted | Program.cs:261-273 | The pair prompt fails only when no pair of lines, taken two at a time, is accepted |
| Editing.AskPairTakesFirst | Program.cs:261-273 | The returned pair is the pair of lines that starts where the accepted reading began |
| Editing.AskPairSkipsRejected | Program.cs:276-291 | Every pair before the returned one was rejected |
| Editing.AcceptedPairIsTaken | Program.cs:268-273 | An accepted pair ends the loop at once |
| Editing.RejectedPairIsAskedAgain | Program.cs:286-291 | A rejected pair makes the loop ask again on the next two lines |
| Editing.AddNewContact | Program.cs:253-312 | The list is unchanged, or it gains one contact at the end that satisfies both validation loops |
| Editing.AddingTypedContact | Program.cs:261-304 | Typing a valid contact and then "Y" appends exactly that contact; typing "N" leaves the list unchanged |
| Editing.MenuNumber | Program.cs:388-389 | Each field has a menu number in 0..3 that selects it |
| Editing.EditContact | Program.cs:378-449 | Only the chosen contact can change, and only in the field chosen from the menu, and never to "" |
| Editing.EditingFieldSetsIt | Program.cs:392-404 | Choosing a field and typing a non-empty value stores that value in that field; an empty value changes nothing |
| Editing.EditContactByIndex | Program.cs:337-350 | Only the contact at the chosen index can change; an empty list never returns |
| Editing.Search | Program.cs:357 | The search finds exactly the contacts whose lower-cased first or last name contains the term, in list order and without repeats |
| Editing.EmptyTermFindsEveryone | Program.cs:356-357 | An empty search term finds every contact |
| Editing.EditContactByField | Program.cs:353-374 | At most one contact changes, and only a contact that matches the search term |
| Editing.EditByFieldEditsPick | Program.cs:356-372 | With no match, nothing changes and only the term's line is read. Otherwise the match list is offered as options 0..n-1 on the following lines, and only the contact picked there may change |
| Editing.EditMenu | Program.cs:315-334 | Editing changes at most one contact and keeps the list length. The option read first is 0, 1 or 2: 0 returns the list unchanged with the rest of the input, 1 edits by index and 2 edits by field, each on the lines after the option |
| Editing.RemoveAt | Program.cs:500 | `RemoveAt` shifts the later contacts down by one and keeps the earlier ones |
| Editing.RemoveAtTakesOneOut | Program.cs:500 | Removing a position takes exactly that one contact out of the list's multiset |
| Editing.DeleteContact | Program.cs:491-510 | The list shrinks exactly when the confirmation is "Y", and then loses exactly the chosen contact |
| Editing.DeleteMenu | Program.cs:452-500 | An empty list reads nothing. Otherwise the position prompt is read first: -1 leaves the list as it was; any other position removes the contact there, the others keeping their order, exactly when the confirmation is "Y" |
| Display.Abbreviate | Program.cs:212 | Text longer than the column becomes its first characters plus "...", exactly as wide as the column |
| Display.AbbreviateIdempotent | Program.cs:211-225 | Abbreviating an abbreviated value changes nothing |
| Display.ShownName | Program.cs:211-215 | A blank name shows a placeholder; any other name shows in at most 18 characters, abbreviated only when longer |
| Display.ShownEmail | Program.cs:223-225 | A blank email shows "(no email)"; any other email shows in at most 22 characters, abbreviated only when longer |
| Display.ShownPhone | Program.cs:217-221 | A ten-character phone number shows as 12 characters, with dashes at positions 3 and 7; any other non-blank number shows as typed |
| Display.GroupedPhoneRoundTrip | Program.cs:219-220 | Removing the two dashes from a grouped phone number gives the number back |
| Display.PageCount | Program.cs:194 | There is at least one page; an empty list has one; otherwise the pages are just enough for the contacts |
| Display.PageShape | Program.cs:203-234 | For a non-empty list, a valid page shows between 1 and 10 positions that lie inside the list, so the padding loop never runs a negative count |
| Display.EveryContactOnOnePage | Program.cs:203-206 | Every contact is shown on exactly one valid page |
| Display.Navigate | Program.cs:240-247 | "+" and "-" move one page within bounds; any line `int.TryParse` reads as a number from 0 to the page count moves to that page, 0 leaving the listing; anything else leaves the listing too |
| Display.TypingPageNumberShowsIt | Program.cs:244-245 | Typing a page's number shows that page |
| Display.ShowPages | Program.cs:196-249 | Each page shown reads one line, the listing starts on the current page, and the pages shown are the walk the lines take: each next page is where the trimmed line read on the page before leads, and the last line read leads out |
| Display.FollowsLinesMeaning | Program.cs:196-249 | On that walk, the k-th page shown is valid and reads the k-th line, which leads to the next page shown, or out of the listing on the last page |
| Display.ZeroLeavesListing | Program.cs:244-249 | "0" leaves the listing from any page |
| Display.SortField | Program.cs:177-191 | Sort options 1 to 4 order by first name, last name, phone number and email |
| Display.InsertBy | Program.cs:180-189 | Placing one contact into a sorted list adds exactly that contact and keeps the list sorted |
| Display.SortBy | Program.cs:180-189 | `OrderBy` returns the same contacts, and each contact's key may precede the next one's under any total comparison |
| Display.ShowAllContacts | Program.cs:171-250 | The listing asks for a sort key, replaces the stored list by that list sorted on the chosen field, then starts on page 1 and walks the sorted list's pages as the lines after the sort prompt direct |

## Left out

- Screen output, `Console.Clear`, `ReadKey`, `PressEnterToContinue`, `WelcomeScreen` and `Thread.Sleep`. They affect only what is displayed. The pause before returning to the menu reads no line.
- `MainMenu` and `Exit`. They only dispatch to the operations, and `Exit` re-enters the menu recursively.
- File-system calls, meaning `File.Exists`, opening the reader and writer, and the exception handlers. Only the line-level parsing and writing is modelled, as text in and text out. The cancel on an empty file name is left out.
- The string comparison `OrderBy` uses, which is culture-sensitive in .NET. It is a parameter of the model, required only to be total. The sort does reorder the stored list for good, so later positions, duplicate anchors and the saved line order all follow the sorted order. `ShowAllContacts` returns that list.
- Display.SortBy: the contract states that the result holds the same contacts in key order, but not that `OrderBy` is stable. The insertion keeps contacts with equal keys in their earlier order, but no lemma proves it.
- The row layout of the listing, meaning `PadLeft`, `PadRight` and the aligned columns. Only each column's content is modelled.
- Case folding and white space. `ToLower`, `ToUpper` and `OrdinalIgnoreCase` are modelled as ASCII case folding. `IsNullOrWhiteSpace` uses an explicit list of white-space characters.
- String lengths count characters, not UTF-16 code units.
- `int.TryParse` is modelled on the already trimmed line: an optional sign, then ASCII digits, within the Int32 range. Its culture-dependent signs and digit forms are left out.
- Text.ParseInt32: .NET's `int.TryParse` also accepts trailing NUL characters ('\0'), and `Trim` does not remove them, so the program reads "5\0" as 5. The model rejects such a line and re-prompts instead, which only matters for input that contains NUL characters.
- `Math.Ceiling` on a double is modelled as integer ceiling division.
- The `Contact` class is not part of this model. It is taken to be four mutable string fields. A null field, which only a line read at end of input could produce, is modelled as "".
- Mutation through shared references. `EditContact(int)` changes the contact object inside the list, so the model returns the list with that one contact replaced.
- `contacts.IndexOf(found)` in `EditContactByField` finds that very object. The model keeps the position of each search hit instead.
- Editing.DeleteContact: `option.ToUpper()` at the comparison is not applied again. `GetToken` already returns the upper-cased token, so doing it twice would change nothing.
- Console.GetOption: its contract states the range and the input it consumes. Which line it answers with is stated by `GetOptionNeverAccepts`, `GetOptionTakesFirst`, `GetOptionAcceptsLine` and `GetOptionSkipsLine`.
- Console.GetToken: its contract states only that the result is a valid token. Which line it answers with is stated by the four `GetToken…` lemmas.
- Editing.AskPair: its contract states only that the returned pair is accepted. Which pair is returned is stated by `AskPairNeverAccepted`, `AskPairTakesFirst` and `AskPairSkipsRejected`.
- Merge.DecliningEverythingChangesNothing: stated on the apply step, `ApplyAll` and `ChangesMade`, for any answers that are all "no". Tying it to a concrete script would mean unfolding every picker prompt.
- Merge.MergeDuplicatedContacts: all answers are read before any group is applied. The reads never depend on the list, so the outcome is the same whenever the script holds every answer.
