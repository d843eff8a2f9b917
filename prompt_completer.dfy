/**
  The prompt's own completer of `src/prompt/completer.rs`: a list of
  completions, stored as the prompt's character strings, queried with the
  prompt's buffer by the same first-prefix-match rule as `Basic`.  The
  character-string type lives in `src/prompt/char_string.rs`, which is not part
  of this model.  Converting a `&str` into it is taken to collect
  `str::chars()`, and its `is_empty`, `len`, `starts_with` and `[n..]` are
  taken to act on its chars as the same operations on a `[char]` slice do.
*/
module PromptCompleter {
  import opened Wrappers
  import opened Utf8
  import opened Slices
  import Completion

  datatype Completer = Completer(completions: seq<string>)

  /** `impl From<&[&str]> for Completer`: one completion per string, same order. */
  function From(strs: seq<Str>): (c: Completer)
    ensures |c.completions| == |strs|
    ensures forall i :: 0 <= i < |strs| ==> Encode(c.completions[i]) == strs[i]
  {
    Completer(seq(|strs|, i requires 0 <= i < |strs| => Chars(strs[i])))
  }

  /**
    `Completer::complete_for`: nothing for an empty buffer; otherwise the tail,
    after the buffer, of the first completion that starts with the buffer, or
    nothing when no completion does.
  */
  function CompleteFor(c: Completer, buffer: string): (r: Option<string>)
    ensures buffer == [] ==> r == None
    ensures r.Some? ==> exists i :: IsFirstPrefixed(c.completions, buffer, i) && c.completions[i] == buffer + r.value
    ensures r.None? <==> buffer == [] || forall j :: 0 <= j < |c.completions| ==> !StartsWith(c.completions[j], buffer)
  {
    if |buffer| == 0 then
      None
    else
      match FindIndex(c.completions, (completion: string) => StartsWith(completion, buffer))
      case None => None
      case Some(i) =>
        assert c.completions[i] == buffer + c.completions[i][|buffer|..];
        Some(c.completions[i][|buffer|..])
  }

  /** The tail is that of the first match, whichever that is. */
  lemma CompleteForFirstMatch(c: Completer, buffer: string, i: int)
    requires buffer != [] && IsFirstPrefixed(c.completions, buffer, i)
    ensures CompleteFor(c, buffer) == Some(c.completions[i][|buffer|..])
  {
  }

  /** The tail is as long as the chosen completion minus the buffer, so never longer than it. */
  lemma CompleteForLength(c: Completer, buffer: string, i: int)
    requires buffer != [] && IsFirstPrefixed(c.completions, buffer, i)
    ensures |CompleteFor(c, buffer).value| == |c.completions[i]| - |buffer| <= |c.completions[i]|
  {
    CompleteForFirstMatch(c, buffer, i);
  }

  /**
    The prompt's completer and the public `Basic` completer, built from the
    same strings, complete every buffer alike.
  */
  lemma AgreesWithBasic(strs: seq<Str>, buffer: string)
    ensures CompleteFor(From(strs), buffer) == Completion.CompleteFor(Completion.New(strs), buffer)
  {
  }
}
