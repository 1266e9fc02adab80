/** The contact-book file: four lines per contact (first name, last name,
    phone number, email), read back four lines at a time. */
module Storage {
  import opened Contacts

  /** All four fields are non-empty: the only records loading keeps. */
  predicate Complete(c: Contact) {
    c.firstName != "" && c.lastName != "" && c.phoneNumber != "" && c.email != ""
  }

  /** `sr.ReadLine()` for the `k`-th line: past the end of the stream it gives
      null, which the emptiness test treats like "". */
  function LineAt(lines: seq<string>, k: nat): string {
    if k < |lines| then lines[k] else ""
  }

  /** The read loop of `LoadEntriesFromFile`: while the stream is not at its
      end, read four lines and keep them as a contact unless one is missing or empty. */
  function ParseRecords(lines: seq<string>): (r: seq<Contact>)
    decreases |lines|
    ensures forall k :: 0 <= k < |r| ==> Complete(r[k])
    ensures |r| <= (|lines| + 3) / 4
  {
    if |lines| == 0 then []
    else
      var c := Contact(LineAt(lines, 0), LineAt(lines, 1), LineAt(lines, 2), LineAt(lines, 3));
      var rest := if |lines| <= 4 then [] else lines[4..];
      (if Complete(c) then [c] else []) + ParseRecords(rest)
  }

  /** `LoadEntriesFromFile`: the parsed contacts are appended to the list already held. */
  function LoadEntries(existing: seq<Contact>, lines: seq<string>): (r: seq<Contact>)
    ensures |existing| <= |r| && r[..|existing|] == existing
    ensures forall k :: |existing| <= k < |r| ==> Complete(r[k])
  {
    existing + ParseRecords(lines)
  }

  /** The write loop of `SaveContact`: four lines per contact, in list order. */
  function SaveLines(cs: seq<Contact>): (r: seq<string>)
    decreases |cs|
    ensures |r| == 4 * |cs|
    ensures forall i :: 0 <= i < |cs| ==>
              && r[4 * i] == cs[i].firstName && r[4 * i + 1] == cs[i].lastName
              && r[4 * i + 2] == cs[i].phoneNumber && r[4 * i + 3] == cs[i].email
  {
    if |cs| == 0 then []
    else
      var rest := SaveLines(cs[1..]);
      var r := [cs[0].firstName, cs[0].lastName, cs[0].phoneNumber, cs[0].email] + rest;
      assert forall i :: 1 <= i < |cs| ==> cs[i] == cs[1..][i - 1] && r[4 * i] == rest[4 * (i - 1)];
      r
  }

  /** The contacts of `cs` with all four fields non-empty, in order. */
  function CompleteOnly(cs: seq<Contact>): (r: seq<Contact>)
    decreases |cs|
  {
    if |cs| == 0 then [] else (if Complete(cs[0]) then [cs[0]] else []) + CompleteOnly(cs[1..])
  }

  /** Loading what was saved appends exactly the complete contacts, in order;
      a contact with an empty field is lost. */
  lemma {:induction false} SaveThenParse(cs: seq<Contact>)
    ensures ParseRecords(SaveLines(cs)) == CompleteOnly(cs)
    decreases |cs|
  {
    if |cs| > 0 {
      var lines := SaveLines(cs);
      assert lines[4..] == SaveLines(cs[1..]);
      assert LineAt(lines, 0) == cs[0].firstName && LineAt(lines, 1) == cs[0].lastName;
      assert LineAt(lines, 2) == cs[0].phoneNumber && LineAt(lines, 3) == cs[0].email;
      SaveThenParse(cs[1..]);
      if |lines| <= 4 {
        assert |cs[1..]| == 0;
      }
    }
  }

  /** A last block of fewer than four lines leaves at least its fourth line
      missing, so it never becomes a contact. */
  lemma {:induction false} TruncatedBlockDropped(cs: seq<Contact>, tail: seq<string>)
    requires |tail| < 4
    ensures ParseRecords(SaveLines(cs) + tail) == CompleteOnly(cs)
    decreases |cs|
  {
    var lines := SaveLines(cs) + tail;
    if |cs| == 0 {
      assert lines == tail;
      assert LineAt(tail, 3) == "";
    } else {
      assert lines[4..] == SaveLines(cs[1..]) + tail;
      assert LineAt(lines, 0) == cs[0].firstName && LineAt(lines, 1) == cs[0].lastName;
      assert LineAt(lines, 2) == cs[0].phoneNumber && LineAt(lines, 3) == cs[0].email;
      TruncatedBlockDropped(cs[1..], tail);
      if |lines| <= 4 {
        assert |cs[1..]| == 0 && tail == [];
      }
    }
  }

  lemma LoadSaveRoundTrip(existing: seq<Contact>, cs: seq<Contact>)
    ensures LoadEntries(existing, SaveLines(cs)) == existing + CompleteOnly(cs)
  {
    SaveThenParse(cs);
  }

  /** A list of complete contacts survives saving and loading unchanged. */
  lemma {:induction false} CompleteListSurvives(cs: seq<Contact>)
    requires forall k :: 0 <= k < |cs| ==> Complete(cs[k])
    ensures LoadEntries([], SaveLines(cs)) == cs
  {
    SaveThenParse(cs);
    CompleteOnlyKeepsComplete(cs);
  }

  lemma {:induction false} CompleteOnlyKeepsComplete(cs: seq<Contact>)
    requires forall k :: 0 <= k < |cs| ==> Complete(cs[k])
    ensures CompleteOnly(cs) == cs
    decreases |cs|
  {
    if |cs| > 0 {
      assert forall k :: 0 <= k < |cs[1..]| ==> cs[1..][k] == cs[k + 1];
      CompleteOnlyKeepsComplete(cs[1..]);
    }
  }

  // ---------------------------------------------------------------------
  // Line splitting and joining, as `StreamReader.ReadLine` and
  // `StreamWriter.WriteLine` do it

  predicate IsLineBreak(c: char) {
    c == '\n' || c == '\r'
  }

  /** Position of the first line break in `text`, or `|text|` when there is none. */
  function LineEnd(text: string): (i: nat)
    ensures i <= |text|
    ensures forall k :: 0 <= k < i ==> !IsLineBreak(text[k])
    ensures i < |text| ==> IsLineBreak(text[i])
  {
    if |text| == 0 || IsLineBreak(text[0]) then 0 else 1 + LineEnd(text[1..])
  }

  /** The lines `ReadLine` returns until the end of the stream: a line ends at
      "\n", "\r" or "\r\n", and text after the last break forms a last line. */
  function SplitLines(text: string): (r: seq<string>)
    decreases |text|
    ensures forall k :: 0 <= k < |r| ==> forall j :: 0 <= j < |r[k]| ==> !IsLineBreak(r[k][j])
  {
    if |text| == 0 then []
    else
      var i := LineEnd(text);
      var next := if i == |text| then i
                  else if text[i] == '\r' && i + 1 < |text| && text[i + 1] == '\n' then i + 2
                  else i + 1;
      var rest := SplitLines(text[next..]);
      assert forall k :: 1 <= k < |rest| + 1 ==> ([text[..i]] + rest)[k] == rest[k - 1];
      [text[..i]] + rest
  }

  /** `WriteLine` for each line, with the writer's newline `nl`. */
  function JoinLines(lines: seq<string>, nl: string): (text: string)
    decreases |lines|
  {
    if |lines| == 0 then [] else lines[0] + nl + JoinLines(lines[1..], nl)
  }

  /** The newline strings `StreamWriter` uses. */
  predicate IsNewLine(nl: string) {
    nl == "\n" || nl == "\r\n"
  }

  predicate NoLineBreak(s: string) {
    forall j :: 0 <= j < |s| ==> !IsLineBreak(s[j])
  }

  lemma LineEndAfterLine(line: string, nl: string, tail: string)
    requires NoLineBreak(line) && IsNewLine(nl)
    ensures LineEnd(line + nl + tail) == |line|
  {
    var text := line + nl + tail;
    assert forall k :: 0 <= k < |line| ==> text[k] == line[k];
    assert IsLineBreak(text[|line|]);
  }

  /** One written line is read back as that line, and reading resumes right after its newline. */
  lemma SplitAfterLine(line: string, nl: string, tail: string)
    requires NoLineBreak(line) && IsNewLine(nl)
    ensures SplitLines(line + nl + tail) == [line] + SplitLines(tail)
  {
    var text := line + nl + tail;
    LineEndAfterLine(line, nl, tail);
    var i := |line|;
    assert text[..i] == line;
    if nl == "\r\n" {
      assert text[i] == '\r' && text[i + 1] == '\n';
      assert text[i + 2..] == tail;
    } else {
      assert text[i] == '\n';
      assert text[i + 1..] == tail;
    }
  }

  /** Reading back written lines gives the same lines, as long as none of them
      holds a line break. */
  lemma {:induction false} JoinThenSplit(lines: seq<string>, nl: string)
    requires IsNewLine(nl)
    requires forall k :: 0 <= k < |lines| ==> NoLineBreak(lines[k])
    ensures SplitLines(JoinLines(lines, nl)) == lines
    decreases |lines|
  {
    if |lines| > 0 {
      JoinStep(lines, nl);
      TailNoLineBreak(lines);
      JoinThenSplit(lines[1..], nl);
      assert [lines[0]] + lines[1..] == lines;
    }
  }

  /** The first written line is read back first, then the rest. */
  lemma JoinStep(lines: seq<string>, nl: string)
    requires IsNewLine(nl) && |lines| > 0 && NoLineBreak(lines[0])
    ensures SplitLines(JoinLines(lines, nl)) == [lines[0]] + SplitLines(JoinLines(lines[1..], nl))
  {
    SplitAfterLine(lines[0], nl, JoinLines(lines[1..], nl));
  }

  lemma TailNoLineBreak(lines: seq<string>)
    requires |lines| > 0 && forall k :: 0 <= k < |lines| ==> NoLineBreak(lines[k])
    ensures forall k :: 0 <= k < |lines[1..]| ==> NoLineBreak(lines[1..][k])
  {
    assert forall k :: 0 <= k < |lines[1..]| ==> lines[1..][k] == lines[k + 1];
  }

  /** No field of any contact holds a line break. */
  predicate SingleLineFields(cs: seq<Contact>) {
    forall k :: 0 <= k < |cs| ==>
      NoLineBreak(cs[k].firstName) && NoLineBreak(cs[k].lastName)
      && NoLineBreak(cs[k].phoneNumber) && NoLineBreak(cs[k].email)
  }

  /** The file text `SaveContact` writes. */
  function SaveFile(cs: seq<Contact>, nl: string): string {
    JoinLines(SaveLines(cs), nl)
  }

  /** `LoadEntriesFromFile` on the file text. */
  function LoadFile(existing: seq<Contact>, text: string): seq<Contact> {
    LoadEntries(existing, SplitLines(text))
  }

  /** Saving to a file and loading it back appends exactly the complete
      contacts, in order, when no field holds a line break. */
  lemma FileRoundTrip(existing: seq<Contact>, cs: seq<Contact>, nl: string)
    requires IsNewLine(nl) && SingleLineFields(cs)
    ensures LoadFile(existing, SaveFile(cs, nl)) == existing + CompleteOnly(cs)
  {
    var lines := SaveLines(cs);
    forall k | 0 <= k < |lines| ensures NoLineBreak(lines[k]) {
      var i, j := k / 4, k % 4;
      assert k == 4 * i + j && 0 <= i < |cs|;
      if j == 0 {
        assert lines[k] == cs[i].firstName;
      } else if j == 1 {
        assert lines[k] == cs[i].lastName;
      } else if j == 2 {
        assert lines[k] == cs[i].phoneNumber;
      } else {
        assert lines[k] == cs[i].email;
      }
    }
    JoinThenSplit(lines, nl);
    LoadSaveRoundTrip(existing, cs);
  }
}
