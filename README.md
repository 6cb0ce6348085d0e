# format_no_std: a bounded, allocation-free writer

This project models the `format_no_std` crate (src/lib.rs) in Dafny and
proves its properties. The crate formats text into a fixed-size byte buffer
that the caller owns. It never allocates.

- `WriteTo` wraps the caller's buffer `buf` and a counter `len`. `len` counts
  the bytes *requested* up to and including the first write that overflowed,
  bytes that did not fit included. Writes refused after an overflow are not
  counted.
- `write_str` is the only mutator. If the writer has already overflowed
  (`len > buf.len()`), it returns `Err` and changes nothing. Otherwise it
  copies the part of the fragment that fits to `buf[len..]`, then advances
  `len` by the whole fragment length, even past the capacity. It returns
  `Err` when anything was cut off.
- `len`, `is_empty` and `as_str` return no value once `len` exceeds the
  capacity. `as_str` checks the written prefix with `from_utf8`.
- `show` runs the formatting engine `core::fmt::write` on a fresh writer,
  then returns the text with `as_str`, or `fmt::Error`.

Layout:

- `wrappers.dfy`: `Option`, and `Result` with the unit error `fmt::Error`.
- `utf8.dfy`: bytes, UTF-8 well-formedness as defined in section 4 of
  RFC 3629, the type `Str` of a `&str`'s bytes, `from_utf8`, the
  concatenation of fragments, and the fact that ASCII bytes are well-formed.
- `write_to_model.dfy` (module `WriteToModel`): the writer on values. It
  holds the specification functions (`New`, `WriteStr`, `Len`, `IsEmpty`,
  `AsStr`, the engine `WriteAll`/`FmtWrite`, `Show`) and the lemmas about
  them.
- `write_to.dfy` (module `FormatNoStd`): the class `WriteTo`. It has an
  `array<byte>` field and a `len` field. Its methods fill the array in place.
  Its ghost field `Fragments` holds the fragments accepted so far, and its
  object invariant is `WriteToModel.Accepted`. Every operation is proved
  against the value model. The module also holds the engine driver
  `FmtWrite` and `Show`.
- `scenarios.dfy`: the crate's unit tests, as lemmas and as a client of the
  class.

Modelling choices:

- A fragment is a `Str`, meaning a byte sequence that is well-formed UTF-8,
  since a `&str` always is. Lengths are byte lengths.
- `core::fmt::write` is external. A formatting job is modelled as a `Job`:
  the fragments the engine emits, in order, and a flag saying whether the
  engine fails after emitting them. The engine stops at the first `Err`,
  which is the `?` propagation. A failure in the middle of rendering is the
  same as a job whose fragments end where the failure happened.
- `len` is a `nat`, and that is exact. The `usize` addition
  `self.len += raw_s.len()` (src/lib.rs:75) cannot overflow. The guard at
  src/lib.rs:66 gives `len <= buf.len()`, and a slice or `&str` holds at most
  `isize::MAX` bytes. So the sum is at most `usize::MAX - 1`.
- An overflowed writer returns `Err` before touching `len`
  (src/lib.rs:66-68).
- Lengths are byte lengths: the greeting "Test String foo: 42" is 19 bytes
  (src/lib.rs:115).

## Model

| member | source | states |
|---|---|---|
| `Utf8.FromUtf8` | src/lib.rs:38 | definition, no contract: `from_utf8(..).ok()` gives the bytes as text when they are well-formed UTF-8 and no value otherwise |
| `Utf8.ValidConcat` | src/lib.rs:36-42 | concatenating two well-formed UTF-8 byte strings gives a well-formed one, so the `from_utf8` check in `as_str` cannot fail on text built from `&str` fragments |
| `WriteToModel.New` | src/lib.rs:31-33 | definition, no contract: the given buffer with `len == 0` |
| `WriteToModel.Len` | src/lib.rs:45-51 | definition, no contract: `Some(len)` while `len` is at most the capacity, no value otherwise |
| `WriteToModel.IsEmpty` | src/lib.rs:53-60 | definition, no contract: `Some(len == 0)` while `len` is at most the capacity, no value otherwise |
| `WriteToModel.AsStr` | src/lib.rs:36-42 | definition, no contract: `from_utf8` of `buf[..len]` while `len` is at most the capacity, no value otherwise |
| `WriteToModel.CopyInto` | src/lib.rs:70-74 | the copy leaves every byte before `off` and after `off + |s|` unchanged, puts `s[i - off]` at every position `i` of the fragment that fits, and keeps the buffer length |
| `WriteToModel.WriteStr` | src/lib.rs:65-82 | an overflowed writer returns `Err` and stays the same. Otherwise the fitting prefix of `s` is copied at `len`, `len` grows by all of `|s|`, and the result is `Ok` exactly when `len + |s|` is at most the capacity. The buffer length never changes, and bytes below the old `len` are never touched |
| `WriteToModel.NewAccepted` | src/lib.rs:31-60 | a new writer keeps the buffer as given, has accepted nothing, and reports `len() == Some(0)`, `is_empty() == Some(true)` and `as_str() == Some("")` |
| `WriteToModel.CopiedPrefix` | src/lib.rs:70-75 | copying `s` right after a prefix equal to `text` leaves `text + s` at the front, up to the capacity |
| `WriteToModel.WriteStrKeepsAccepted` | src/lib.rs:66-81 | every write keeps the invariant: `len` is the total length of the accepted fragments, and the buffer holds as much of their concatenation as fits. The fragment is accepted exactly when the writer had not overflowed |
| `WriteToModel.QueriesOfAccepted` | src/lib.rs:36-60 | if the accepted text fits, `len`, `is_empty` and `as_str` give its length, whether it is empty, and the text itself; otherwise all three give no value |
| `WriteToModel.OverflowSticky` | src/lib.rs:66-68 | once overflowed, any sequence of further writes leaves the writer unchanged, so all three queries keep giving no value |
| `WriteToModel.RunGrows` | src/lib.rs:66-75 | over any sequence of writes, `len` never decreases, the buffer length is unchanged, and bytes below the starting `len` are never touched |
| `WriteToModel.RunSpec` | src/lib.rs:70-81 | from a writer that has not overflowed, a sequence of writes copies as much of the concatenated fragments as fits to `buf[len..]`. The writer ends overflowed exactly when the concatenation does not fit; otherwise `len` has grown by its length |
| `WriteToModel.WriteAll` | src/lib.rs:88 | definition, no contract: the engine's writes in order, stopping with `Err` at the first fragment whose `write_str` returns `Err` |
| `WriteToModel.WriteAllStep` | src/lib.rs:88 | after the first `i` fragments, a refused fragment ends the engine's writes with `Err` and the writer as that write left it; an accepted one moves on to the rest |
| `WriteToModel.WriteAllSpec` | src/lib.rs:88 | the engine's early stop at the first `Err` leaves the writer as writing every fragment would. All writes succeed exactly when there are none or when their concatenation fits after `len` |
| `WriteToModel.FmtWrite` | src/lib.rs:88 | definition, no contract: `fmt::write` is `Err` when a write was refused or the engine itself failed, `Ok` otherwise |
| `WriteToModel.FmtWriteFresh` | src/lib.rs:87-88 | on a fresh writer, `fmt::write` succeeds exactly when the engine does and the rendered text fits. Afterwards the queries give the text, its length and its emptiness, or no value once it did not fit |
| `WriteToModel.Show` | src/lib.rs:86-90 | definition, no contract: a fresh writer, `fmt::write`, then `as_str().ok_or(fmt::Error)`; the buffer as the writes left it |
| `WriteToModel.ShowSpec` | src/lib.rs:86-90 | `show` returns `Ok(text)` exactly when the engine succeeds and the text fits, and `text` is then the concatenation of all fragments and the buffer's own prefix. In every case the buffer holds as much of the text as fits and is otherwise unchanged |
| `FormatNoStd.WriteTo.constructor` | src/lib.rs:31-33 | the writer wraps the given buffer unchanged, with `len == 0` and no accepted fragments |
| `FormatNoStd.WriteTo.Len` | src/lib.rs:45-51 | no value once the accepted text exceeds the capacity, otherwise its length |
| `FormatNoStd.WriteTo.IsEmpty` | src/lib.rs:53-60 | no value once the accepted text exceeds the capacity, otherwise whether it is empty |
| `FormatNoStd.WriteTo.AsStr` | src/lib.rs:36-42 | no value once the accepted text exceeds the capacity, otherwise exactly the accepted text, read from the buffer |
| `FormatNoStd.WriteTo.WriteStr` | src/lib.rs:65-82 | the in-place write matches `WriteToModel.WriteStr`. An overflowed writer is left as it was. Otherwise the bytes below the old `len` and past the fragment are unchanged, the fragment's fitting prefix is at `buf[len..]`, `len` grows by `|s|`, and the invariant holds with `s` appended to the accepted fragments |
| `FormatNoStd.FmtWrite` | src/lib.rs:88 | driving the writer with a job's fragments, stopping at the first `Err`, matches `WriteToModel.FmtWrite` and keeps the writer's invariant. On success, all of the job's fragments have been accepted |
| `FormatNoStd.Show` | src/lib.rs:86-90 | `show` succeeds exactly when the engine succeeds and the text fits. The returned text is then the concatenation of the fragments and the buffer's prefix |
| `Scenarios.ShowGreeting` | src/lib.rs:92-98 | the greeting's four fragments (19 bytes) formatted into 64 bytes give `Ok` of exactly their concatenation |
| `Scenarios.ShowTooLong` | src/lib.rs:100-106 | a 15-byte text into 8 bytes gives `Err` |
| `Scenarios.Greeting` | src/lib.rs:92-98 | the engine's fragments "Test String ", "foo", ": " and "42", as their ASCII bytes, formatted into 64 bytes give `Ok` of exactly the bytes of "Test String foo: 42" |
| `Scenarios.TooLong` | src/lib.rs:100-106 | the bytes of "Too long string" formatted into 8 bytes give `Err` |
| `Scenarios.LenGreeting` | src/lib.rs:108-117 | after the greeting, `len() == Some(19)` and `is_empty() == Some(false)` |
| `Scenarios.LenEmpty` | src/lib.rs:119-128 | after writing the empty string, `len() == Some(0)` and `is_empty() == Some(true)` |
| `Scenarios.LenTooLong` | src/lib.rs:130-140 | a 16-byte text into 8 bytes gives `Err`, and then `len()` and `is_empty()` give no value |
| `Scenarios.ClientLen` | src/lib.rs:108-140 | the class, driven by callers that rely only on its contracts, gives `Ok`, `len() == Some(19)` and `is_empty() == Some(false)` for the greeting in 64 bytes. For the 16-byte text in 8 bytes it gives `Err`, and both queries give no value |

## Left out

- `fmt::Arguments`, `format_args!` and the internals of `core::fmt::write`
  belong to the Rust core library. A formatting job is reduced to its
  fragments and an engine-failure flag. Template parsing and the
  `Display` impls are not modelled.
- Turning non-ASCII characters into their UTF-8 bytes is left out.
  Fragments are given directly as well-formed byte strings. The test texts
  are all ASCII, so `Scenarios.Greeting` and `Scenarios.TooLong` take their
  literal bytes, one byte per character. The other scenario lemmas take any
  fragments of the tests' byte lengths.
- Lifetimes and the exclusive `&'a mut` borrow are not modelled. The class
  holds a reference to the caller's array, and Dafny's `modifies` and
  `reads` framing accounts for aliasing in place of the borrow.
- `FormatNoStd.WriteTo.AsStr`: in the crate, `as_str` consumes the writer.
  The model makes it a read-only function and does not capture the
  consumption.
