/**
  The public completion providers of `src/completion.rs`: `Basic`, a fixed
  list of options that serves both as a `Completer` (append the remainder of
  the first option that extends the buffer) and as a `Suggester` (offer every
  option, whatever the buffer holds).  The `Context` a prompt passes in is
  consulted only through its buffer, so each query takes the buffer itself.
*/
module Completion {
  import opened Wrappers
  import opened Utf8
  import opened Slices

  /** `Basic`: the options, each as the scalar values of one `&str`, in the order given. */
  datatype Basic = Basic(options: seq<string>)

  /** `Basic::new`: decodes each option with `str::chars()`, keeping count and order. */
  function New(options: seq<Str>): (b: Basic)
    ensures |b.options| == |options|
    ensures forall i :: 0 <= i < |options| ==> Encode(b.options[i]) == options[i]
  {
    Basic(seq(|options|, i requires 0 <= i < |options| => Chars(options[i])))
  }

  /** Building from encoded strings stores exactly those strings, in order. */
  lemma NewOfEncoded(strings: seq<string>, options: seq<Str>)
    requires |options| == |strings|
    requires forall i :: 0 <= i < |strings| ==> options[i] == Encode(strings[i])
    ensures New(options).options == strings
  {
  }

  /**
    `Completer::complete_for` for `Basic`: nothing for an empty buffer;
    otherwise the remainder, after the buffer, of the first option that starts
    with the buffer, or nothing when no option does.
  */
  function CompleteFor(b: Basic, buffer: string): (r: Option<string>)
    ensures buffer == [] ==> r == None
    ensures r.Some? ==> exists i :: IsFirstPrefixed(b.options, buffer, i) && b.options[i] == buffer + r.value
    ensures r.None? <==> buffer == [] || forall j :: 0 <= j < |b.options| ==> !StartsWith(b.options[j], buffer)
  {
    if |buffer| == 0 then
      None
    else
      match FindIndex(b.options, (option: string) => StartsWith(option, buffer))
      case None => None
      case Some(i) =>
        assert b.options[i] == buffer + b.options[i][|buffer|..];
        Some(b.options[i][|buffer|..])
  }

  /**
    The reference side of `CompleteFor`: whenever `i` is the first option that
    starts with a non-empty buffer, the completion is that option's tail.
  */
  lemma CompleteForFirstMatch(b: Basic, buffer: string, i: int)
    requires buffer != [] && IsFirstPrefixed(b.options, buffer, i)
    ensures CompleteFor(b, buffer) == Some(b.options[i][|buffer|..])
  {
  }

  /** The remainder is as long as the chosen option minus the buffer, so never longer than it. */
  lemma CompleteForLength(b: Basic, buffer: string, i: int)
    requires buffer != [] && IsFirstPrefixed(b.options, buffer, i)
    ensures |CompleteFor(b, buffer).value| == |b.options[i]| - |buffer| <= |b.options[i]|
  {
    CompleteForFirstMatch(b, buffer, i);
  }

  /**
    At the level of the `&str` options given to `new`: a completion, encoded
    after the encoded buffer, spells exactly the bytes of one of those options.
  */
  lemma CompleteForBytes(options: seq<Str>, buffer: string)
    requires CompleteFor(New(options), buffer).Some?
    ensures exists i :: 0 <= i < |options| && options[i] == Encode(buffer) + Encode(CompleteFor(New(options), buffer).value)
  {
    var b := New(options);
    var r := CompleteFor(b, buffer).value;
    var i :| IsFirstPrefixed(b.options, buffer, i) && b.options[i] == buffer + r;
    EncodeAppend(buffer, r);
    assert options[i] == Encode(b.options[i]);
  }

  /** `Suggester::suggest_for` for `Basic`: every option, as stored. */
  function SuggestFor(b: Basic, buffer: string): (r: seq<string>)
    ensures |r| == |b.options| && forall i :: 0 <= i < |r| ==> r[i] == b.options[i]
  {
    b.options
  }

  /**
    The suggestions do not depend on the buffer and are the options given to
    `new`, one for one and in the same order.
  */
  lemma SuggestForIsEveryOption(options: seq<Str>, buffer: string, other: string)
    ensures SuggestFor(New(options), buffer) == SuggestFor(New(options), other)
    ensures |SuggestFor(New(options), buffer)| == |options|
    ensures forall i :: 0 <= i < |options| ==> Encode(SuggestFor(New(options), buffer)[i]) == options[i]
  {
  }

  /** `new` on two encoded strings stores those two strings. */
  lemma NewOfTwo(first: string, second: string)
    ensures New([Encode(first), Encode(second)]).options == [first, second]
  {
    NewOfEncoded([first, second], [Encode(first), Encode(second)]);
  }

  // The unit tests of `src/completion.rs`, as lemmas about the model.  Each
  // builds the `Basic` with `New` from the encodings of the listed options, as
  // the tests build it with `Basic::new`.

  lemma ShouldNotCompleteIfContextIsDifferent(programmer: string, developer: string)
    requires programmer == "some programmer was here" && developer == "some developer was there"
    ensures CompleteFor(New([Encode(programmer), Encode(developer)]), "a") == None
  {
    NewOfTwo(programmer, developer);
    assert programmer[0] == 's' && developer[0] == 's';
  }

  lemma CompleteTheFirstMatch()
    ensures CompleteFor(New([Encode("zz"), Encode("b3"), Encode("b2")]), "b") == Some("3")
  {
    var options := ["zz", "b3", "b2"];
    NewOfEncoded(options, [Encode("zz"), Encode("b3"), Encode("b2")]);
    assert IsFirstPrefixed(options, "b", 1) by {
      assert options[0][0] == 'z';
      assert options[1][..1] == "b";
    }
    CompleteForFirstMatch(Basic(options), "b", 1);
  }

  /** An option equal to the buffer matches too; here it is shadowed by an earlier, longer one. */
  lemma OnlyCompleteTheRemainder()
    ensures CompleteFor(New([Encode("abcd"), Encode("abc")]), "abc") == Some("d")
  {
    NewOfEncoded(["abcd", "abc"], [Encode("abcd"), Encode("abc")]);
  }

  /** An option equal to the buffer is a match whose remainder is empty. */
  lemma EqualOptionCompletesWithNothing()
    ensures CompleteFor(New([Encode("abc"), Encode("abcd")]), "abc") == Some("")
  {
    NewOfEncoded(["abc", "abcd"], [Encode("abc"), Encode("abcd")]);
  }

  lemma AlwaysSuggest()
    ensures var b := New([Encode("a"), Encode("b"), Encode("c")]);
            SuggestFor(b, "") == ["a", "b", "c"] && SuggestFor(b, "a") == ["a", "b", "c"]
            && SuggestFor(b, "z") == ["a", "b", "c"]
  {
    NewOfEncoded(["a", "b", "c"], [Encode("a"), Encode("b"), Encode("c")]);
  }
}
