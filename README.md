# rucline completion rules, modelled in Dafny

rucline is a line-reading prompt for terminals. While a line is edited, the
prompt asks two plug-in capabilities what to show:

- a **completer** returns text to render after the cursor and to append on a
  `Complete` action;
- a **suggester** returns whole lines that may replace the buffer and that the
  user cycles through.

This project models the rules that decide that text:

- `Basic` in `src/completion.rs`, the public completer and suggester over a
  fixed list of options;
- the prompt's internal `Completer` in `src/prompt/completer.rs`.

Both are pure functions of the options and the buffer. The model states them
as Dafny functions and proves what they return.

Modules:

- `Wrappers`: the `Option` type.
- `Utf8`: Rust's `&str` as well-formed UTF-8 bytes (`Str`, after section 4 of
  RFC 3629). `Chars` models `str::chars()`. `Encode` is its inverse. Both
  directions of the round trip are proved.
- `Slices`: `<[T]>::starts_with` (`StartsWith`) and `Iterator::find`
  (`FindIndex`, which gives the index of the element `find` yields).
- `Completion`: `Basic`, `New`, `CompleteFor`, `SuggestFor` and their lemmas.
  The unit tests of `src/completion.rs` are restated as lemmas.
- `PromptCompleter`: the internal `Completer`, `From`, `CompleteFor`, and a
  lemma that it agrees with `Basic` when both are built from the same strings.

A `Context` is used only through `buffer()`, so every query takes the buffer
(`seq<char>`, Unicode scalar values) directly. A returned `&[char]` slice or
`CharStringView` is modelled as the subsequence value it denotes.

An option equal to the buffer is a match and completes with the empty
remainder. Such an option is not skipped; `find` with `starts_with` accepts
it. It is passed over only when an earlier option matches first.

## Model

| member | source | states |
|---|---|---|
| Utf8.Chars | src/completion.rs:165 | `str::chars()`: the scalar values of a `&str`; encoding them again gives back exactly the original bytes |
| Utf8.Encode | src/completion.rs:165 | the UTF-8 encoding of a string; it decodes back to the string, so it is a well-formed `&str` |
| Utf8.DecodeEncodes | src/completion.rs:165 | well-formed bytes are the encoding of what they decode to, so decoding loses nothing |
| Utf8.CharsOfEncode | src/completion.rs:165 | decoding the encoding of any string gives that string |
| Utf8.EncodeAppend | src/completion.rs:165 | the encoding of a concatenation is the concatenation of the encodings |
| Utf8.EncodeChar | src/completion.rs:165 | the one-to-four-byte form of a scalar value |
| Utf8.DecodeChar | src/completion.rs:165 | decodes the scalar value at the head of the bytes and consumes one to four of them; None when the head is not well-formed |
| Utf8.Decode | src/completion.rs:165 | decodes a whole byte sequence; a decoded string has at most one scalar value per byte and at least one per four bytes |
| Utf8.EncodeCharDecodes | src/completion.rs:165 | each scalar value's one-to-four-byte form decodes back to that value, whatever follows it |
| Utf8.DecodeCharEncodes | src/completion.rs:165 | a decoded lead sequence is exactly the encoding of the value it decodes to |
| Slices.FindIndex | src/completion.rs:181 | `find`: the index it yields satisfies the predicate and no earlier index does; None means no element satisfies it |
| Slices.StartsWith | src/completion.rs:181 | `starts_with`: holds exactly when the needle is no longer than the slice and agrees with it at every position of the needle |
| Slices.StartsWithIffConcat | src/completion.rs:181 | `starts_with(buffer)` holds exactly when the option is the buffer followed by some tail |
| Slices.FirstPrefixedUnique | src/completion.rs:181 | at most one index is the first option that starts with the buffer |
| Completion.New | src/completion.rs:161-168 | `Basic::new` stores one option per input string, in the same order, each the decoding of its string (re-encoding gives the string back) |
| Completion.NewOfEncoded | src/completion.rs:161-168 | `new` on the encodings of some strings stores exactly those strings, in order |
| Completion.CompleteFor | src/completion.rs:174-184 | empty buffer gives None; a result r comes from the first option that starts with the buffer, and that option equals buffer + r; the result is None exactly when the buffer is empty or no option starts with it |
| Completion.CompleteForFirstMatch | src/completion.rs:179-182 | for a non-empty buffer, if option i is the first one starting with it, the result is option i's tail after the buffer |
| Completion.CompleteForLength | src/completion.rs:182 | when option i is the first one starting with a non-empty buffer, the remainder is as long as option i minus the buffer, so never longer than option i |
| Completion.CompleteForBytes | src/completion.rs:161-182 | on the `&str` options passed to `new`: the encoded buffer followed by the encoded remainder is exactly one of those options |
| Completion.SuggestFor | src/completion.rs:187-191 | `suggest_for`: every stored option, same count, same order |
| Completion.SuggestForIsEveryOption | src/completion.rs:188-190 | `suggest_for` ignores the buffer and returns every option given to `new`, same count, same order, each re-encoding to its input string |
| Completion.NewOfTwo | src/completion.rs:161-168 | `new` on the encodings of two strings stores those two strings |
| Completion.ShouldNotCompleteIfContextIsDifferent | src/completion.rs:205-208 | built with `new` from options "some programmer was here" and "some developer was there", buffer "a" completes to None |
| Completion.CompleteTheFirstMatch | src/completion.rs:211-215 | built with `new` from ["zz","b3","b2"], buffer "b" completes to "3", from the first match |
| Completion.OnlyCompleteTheRemainder | src/completion.rs:218-222 | built with `new` from ["abcd","abc"], buffer "abc" completes to "d": the earlier option wins over the equal one |
| Completion.EqualOptionCompletesWithNothing | src/completion.rs:181-182 | built with `new` from ["abc","abcd"], buffer "abc" completes to the empty remainder: an option equal to the buffer is a match |
| Completion.AlwaysSuggest | src/completion.rs:225-232 | built with `new` from ["a","b","c"], the options are suggested unchanged for buffers "", "a" and "z" |
| PromptCompleter.From | src/prompt/completer.rs:21-30 | one completion per input string, same order, each the decoding of its string |
| PromptCompleter.CompleteFor | src/prompt/completer.rs:9-18 | empty buffer gives None; a result r is the tail of the first completion starting with the buffer, which equals buffer + r; None exactly when the buffer is empty or nothing starts with it |
| PromptCompleter.CompleteForFirstMatch | src/prompt/completer.rs:13-16 | the result is the tail of the first matching completion, whichever index that is |
| PromptCompleter.CompleteForLength | src/prompt/completer.rs:16 | when completion i is the first one starting with a non-empty buffer, the tail is as long as completion i minus the buffer, so never longer than completion i |
| PromptCompleter.AgreesWithBasic | src/prompt/completer.rs:9-30 | built from the same strings, the prompt's completer and `Basic` give the same completion for every buffer |

## Left out

- `src/prompt/mod.rs`: `read_line` is a blocking terminal event loop, and the
  builder setters and `Default` only store boxed capabilities.
- The editing state the prompt drives lives in `context.rs`, `buffer.rs` and
  `navigation.rs`. These files are not part of this model. This covers
  cursor movement, deletion, suggestion cycling and the accept/cancel
  lifecycle.
- `src/prompt/char_string.rs` is not part of this model. Converting a `&str`
  into the prompt's character string is taken to collect `str::chars()`.
  Its `is_empty`, `len`, `starts_with` and `[n..]`, used at
  src/prompt/completer.rs:10,15,16, are taken to act on its chars as the same
  operations on a `[char]` slice do.
- `src/lib.rs` holds only module declarations, re-exports and documentation.
- The `Completer` and `Suggester` traits and dynamic dispatch through
  `Box<dyn ...>` are not modelled. Each capability is a plain function of the
  buffer.
- Borrowing and lifetimes of the returned slices are not modelled. A slice is
  its value.
- The commented-out implementations in `src/completion.rs` are not modelled.
- The commented-out empty-buffer test is not restated. The guard it would
  test is part of the contract of `Completion.CompleteFor`.
