/** Failure-compatible optional values, and the reply of an interactive read. */
module Options {

  /** `None` stands for a computation the program never completes normally:
      an exception or an input loop that cannot end. */
  datatype Option<+T> = None | Some(value: T) {

    predicate IsFailure() {
      None?
    }

    function PropagateFailure<U>(): Option<U>
      requires None?
    {
      None
    }

    function Extract(): T
      requires Some?
    {
      value
    }
  }

  /** The value an interactive step produced and the input lines it left unread. */
  datatype Reply<+T> = Reply(value: T, rest: seq<string>)

  /** `rest` is what remains of `script` after some lines were read from its front. */
  predicate IsSuffix(rest: seq<string>, script: seq<string>) {
    |rest| <= |script| && rest == script[|script| - |rest|..]
  }

  lemma SuffixTransitive(a: seq<string>, b: seq<string>, c: seq<string>)
    requires IsSuffix(a, b) && IsSuffix(b, c)
    ensures IsSuffix(a, c)
  {
    assert c[|c| - |b|..][|b| - |a|..] == c[|c| - |a|..];
  }
}
