/** The operator, modelled as a script: the lines `Console.ReadLine` would
    return, in order. Reading past the end yields null in .NET; where the
    program dereferences that null or keeps prompting for ever, the model
    returns `None`. */
module Console {
  import opened Options
  import opened Text

  /** `Console.ReadLine()` whose result is used at once (`.Trim()`): `None` at end of input. */
  function ReadLine(script: seq<string>): (r: Option<Reply<string>>)
    ensures r.Some? <==> |script| > 0
    ensures r.Some? ==> r.value.value == script[0] && r.value.rest == script[1..]
  {
    if |script| == 0 then None else Some(Reply(script[0], script[1..]))
  }

  /** `Console.ReadLine()` whose null result is tolerated: `""` at end of input. */
  function ReadLineOrEmpty(script: seq<string>): (r: Reply<string>)
    ensures |script| > 0 ==> r == Reply(script[0], script[1..])
    ensures |script| == 0 ==> r == Reply("", [])
  {
    if |script| == 0 then Reply("", []) else Reply(script[0], script[1..])
  }

  // ---------------------------------------------------------------------
  // The re-prompting loop shared by both `GetOption` overloads

  /** Read lines until `read` answers one of them; that answer and the lines
      after it. With the script exhausted the loop would never end. */
  function FirstAnswer<T>(script: seq<string>, read: string -> Option<T>): (r: Option<Reply<T>>)
    decreases |script|
    ensures r.Some? ==> IsSuffix(r.value.rest, script) && |r.value.rest| < |script|
    ensures r.Some? ==> read(script[|script| - |r.value.rest| - 1]) == Some(r.value.value)
  {
    if |script| == 0 then None
    else
      match read(script[0])
      case Some(v) => Some(Reply(v, script[1..]))
      case None =>
        var tail := script[1..];
        var r := FirstAnswer(tail, read);
        if r.Some? then
          var k := |tail| - |r.value.rest| - 1;
          assert script[k + 1] == tail[k];
          SuffixTransitive(r.value.rest, tail, script);
          r
        else r
  }

  /** The loop gives up only when no line of the script is answered. */
  lemma {:induction false} FirstAnswerNone<T>(script: seq<string>, read: string -> Option<T>)
    requires FirstAnswer(script, read).None?
    decreases |script|
    ensures forall k :: 0 <= k < |script| ==> read(script[k]).None?
  {
    if |script| > 0 {
      FirstAnswerNone(script[1..], read);
      assert forall k :: 1 <= k < |script| ==> script[k] == script[1..][k - 1];
    }
  }

  /** Every line before the one the loop answers with went unanswered. */
  lemma {:induction false} FirstAnswerIsFirst<T>(script: seq<string>, read: string -> Option<T>)
    requires FirstAnswer(script, read).Some?
    decreases |script|
    ensures var k := |script| - |FirstAnswer(script, read).value.rest| - 1;
            forall j :: 0 <= j < k ==> read(script[j]).None?
  {
    if read(script[0]).None? {
      var tail := script[1..];
      assert FirstAnswer(script, read) == FirstAnswer(tail, read);
      FirstAnswerIsFirst(tail, read);
      assert forall j :: 1 <= j < |script| ==> script[j] == tail[j - 1];
    }
  }

  // ---------------------------------------------------------------------
  // `GetOption(prompt, min, max)`

  /** What the numeric `GetOption` makes of one line: the Int32 it parses to
      after trimming, when that lies in `[min, max]`. */
  function NumberIn(line: string, min: int, max: int): (r: Option<int>)
    ensures r.Some? ==> min <= r.value <= max
  {
    var v := ParseInt32(Trim(line));
    if v.Some? && min <= v.value <= max then v else None
  }

  /** A line the numeric `GetOption` accepts. */
  predicate AcceptsNumber(line: string, min: int, max: int) {
    NumberIn(line, min, max).Some?
  }

  /** The numeric `GetOption`: re-prompts until a line parses as an Int32 in
      `[min, max]` and returns that number. `GetOptionNeverAccepts` and
      `GetOptionTakesFirst` state that it answers exactly when some line is
      acceptable, and then with the first such line. */
  function GetOption(script: seq<string>, min: int, max: int): (r: Option<Reply<int>>)
    ensures r.Some? ==> min <= r.value.value <= max
    ensures r.Some? ==> IsSuffix(r.value.rest, script) && |r.value.rest| < |script|
  {
    var r := FirstAnswer(script, line => NumberIn(line, min, max));
    if r.Some? then
      var k := |script| - |r.value.rest| - 1;
      assert NumberIn(script[k], min, max) == Some(r.value.value);
      assert min <= r.value.value <= max;
      r
    else r
  }

  /** The numeric prompt gives up only when no line is acceptable. */
  lemma GetOptionNeverAccepts(script: seq<string>, min: int, max: int)
    requires GetOption(script, min, max).None?
    ensures forall k :: 0 <= k < |script| ==> !AcceptsNumber(script[k], min, max)
  {
    FirstAnswerNone(script, line => NumberIn(line, min, max));
  }

  /** Every line before the one consumed was rejected. */
  lemma GetOptionTakesFirst(script: seq<string>, min: int, max: int)
    requires GetOption(script, min, max).Some?
    ensures var k := |script| - |GetOption(script, min, max).value.rest| - 1;
            forall j :: 0 <= j < k ==> !AcceptsNumber(script[j], min, max)
  {
    FirstAnswerIsFirst(script, line => NumberIn(line, min, max));
  }

  /** An acceptable first line is answered at once, with its number. */
  lemma GetOptionAcceptsLine(line: string, rest: seq<string>, min: int, max: int)
    requires NumberIn(line, min, max).Some?
    ensures GetOption([line] + rest, min, max) == Some(Reply(NumberIn(line, min, max).value, rest))
  {
    assert ([line] + rest)[1..] == rest;
  }

  /** A rejected first line is skipped: the prompt starts over on the next one. */
  lemma GetOptionSkipsLine(line: string, rest: seq<string>, min: int, max: int)
    requires NumberIn(line, min, max).None?
    ensures GetOption([line] + rest, min, max) == GetOption(rest, min, max)
  {
    assert ([line] + rest)[1..] == rest;
  }

  // ---------------------------------------------------------------------
  // `GetOption(prompt, params string[] validOptions)`

  /** What the textual `GetOption` makes of one line: its trimmed, upper-cased
      form, when that is one of `tokens`. */
  function TokenIn(line: string, tokens: seq<string>): (r: Option<string>)
    ensures r.Some? ==> r.value in tokens
  {
    var t := ToUpper(Trim(line));
    if t in tokens then Some(t) else None
  }

  /** A line the textual `GetOption` accepts. */
  predicate AcceptsToken(line: string, tokens: seq<string>) {
    TokenIn(line, tokens).Some?
  }

  /** The textual `GetOption`: re-prompts until the trimmed, upper-cased line is
      one of `tokens` and returns that upper-cased form. */
  function GetToken(script: seq<string>, tokens: seq<string>): (r: Option<Reply<string>>)
    ensures r.Some? ==> r.value.value in tokens
    ensures r.Some? ==> IsSuffix(r.value.rest, script) && |r.value.rest| < |script|
  {
    var r := FirstAnswer(script, line => TokenIn(line, tokens));
    if r.Some? then
      var k := |script| - |r.value.rest| - 1;
      assert TokenIn(script[k], tokens) == Some(r.value.value);
      assert r.value.value in tokens;
      r
    else r
  }

  /** The textual prompt gives up only when no line is acceptable. */
  lemma GetTokenNeverAccepts(script: seq<string>, tokens: seq<string>)
    requires GetToken(script, tokens).None?
    ensures forall k :: 0 <= k < |script| ==> !AcceptsToken(script[k], tokens)
  {
    FirstAnswerNone(script, line => TokenIn(line, tokens));
  }

  /** Every line before the one consumed was rejected. */
  lemma GetTokenTakesFirst(script: seq<string>, tokens: seq<string>)
    requires GetToken(script, tokens).Some?
    ensures var k := |script| - |GetToken(script, tokens).value.rest| - 1;
            forall j :: 0 <= j < k ==> !AcceptsToken(script[j], tokens)
  {
    FirstAnswerIsFirst(script, line => TokenIn(line, tokens));
  }

  /** An acceptable first line is answered at once, with its token. */
  lemma GetTokenAcceptsLine(line: string, rest: seq<string>, tokens: seq<string>)
    requires TokenIn(line, tokens).Some?
    ensures GetToken([line] + rest, tokens) == Some(Reply(TokenIn(line, tokens).value, rest))
  {
    assert ([line] + rest)[1..] == rest;
  }

  /** A rejected first line is skipped: the prompt starts over on the next one. */
  lemma GetTokenSkipsLine(line: string, rest: seq<string>, tokens: seq<string>)
    requires TokenIn(line, tokens).None?
    ensures GetToken([line] + rest, tokens) == GetToken(rest, tokens)
  {
    assert ([line] + rest)[1..] == rest;
  }

  lemma TrimWithoutWhiteSpace(s: string)
    requires forall i :: 0 <= i < |s| ==> !IsWhiteSpace(s[i])
    ensures Trim(s) == s
  {
  }

  /** Typing the number shown next to an option selects that option at once. */
  lemma TypingShownNumberSelectsIt(n: int, rest: seq<string>, min: int, max: int)
    requires min <= n <= max
    requires MinInt32 <= n <= MaxInt32
    ensures GetOption([FormatInt(n)] + rest, min, max) == Some(Reply(n, rest))
  {
    var s := FormatInt(n);
    assert forall i :: 0 <= i < |s| ==> IsDigit(s[i]) || s[i] == '-';
    TrimWithoutWhiteSpace(s);
    ParseFormatRoundTrip(n);
    assert ([s] + rest)[1..] == rest;
  }
}
