/** The unit tests at the end of src/lib.rs, as lemmas about the model and
    as client code of the class. The writer's behaviour depends only on the
    byte lengths of the fragments, so each test's text is stood for by any
    well-formed fragments of its lengths: the engine's rendering of
    `format_args!("Test String {}: {}", "foo", 42)` is the four fragments
    "Test String " (12 bytes), "foo" (3), ": " (2) and "42" (2), 19 bytes in
    all; "Too long string" is 15 bytes and "Tooo long string" 16. The
    buffers are any buffers of the tests' sizes. `Greeting` and `TooLong`
    then take the tests' literal texts, which are ASCII: one byte per
    character. */
module Scenarios {

  import opened Wrappers
  import opened Utf8
  import M = WriteToModel
  import opened FormatNoStd

  /** A job that renders `frags` and whose engine does not fail. */
  function Rendering(frags: seq<Str>): M.Job {
    M.Job(frags, false)
  }

  lemma ConcatOne(a: Str)
    ensures Concat([a]) == a
  {
    assert [a][1..] == [];
  }

  lemma ConcatCons(s: Str, frags: seq<Str>)
    ensures Concat([s] + frags) == s + Concat(frags)
  {
    assert ([s] + frags)[1..] == frags;
  }

  lemma ConcatFour(a: Str, b: Str, c: Str, d: Str)
    ensures Concat([a, b, c, d]) == a + b + c + d
  {
    ConcatOne(d);
    ConcatCons(c, [d]);
    ConcatCons(b, [c, d]);
    ConcatCons(a, [b, c, d]);
    AppendFour(a, b, c, d);
  }

  lemma AppendFour(a: Bytes, b: Bytes, c: Bytes, d: Bytes)
    ensures a + (b + (c + d)) == a + b + c + d
  {
  }

  /** `test`: the greeting is rendered into a 64-byte buffer and `show`
      returns exactly its text. */
  lemma ShowGreeting(buf: Bytes, a: Str, b: Str, c: Str, d: Str)
    requires |buf| == 64
    requires |a| == 12 && |b| == 3 && |c| == 2 && |d| == 2
    ensures M.Show(buf, Rendering([a, b, c, d])).1 == Ok(a + b + c + d)
  {
    ConcatFour(a, b, c, d);
    M.ShowSpec(buf, Rendering([a, b, c, d]));
  }

  /** `test_to_long`: "Too long string" does not fit in 8 bytes. */
  lemma ShowTooLong(buf: Bytes, s: Str)
    requires |buf| == 8 && |s| == 15
    ensures M.Show(buf, Rendering([s])).1 == Err
  {
    ConcatOne(s);
    M.ShowSpec(buf, Rendering([s]));
  }

  /** `test_len`: after the greeting, 19 bytes and not empty. */
  lemma LenGreeting(buf: Bytes, a: Str, b: Str, c: Str, d: Str)
    requires |buf| == 64
    requires |a| == 12 && |b| == 3 && |c| == 2 && |d| == 2
    ensures var (w, r) := M.FmtWrite(M.New(buf), Rendering([a, b, c, d]));
      r == Ok(()) && M.Len(w) == Some(19) && M.IsEmpty(w) == Some(false)
  {
    ConcatFour(a, b, c, d);
    M.FmtWriteFresh(buf, Rendering([a, b, c, d]));
  }

  /** `test_len_empty`: writing the empty string leaves zero bytes. */
  lemma LenEmpty(buf: Bytes)
    requires |buf| == 64
    ensures var (w, r) := M.FmtWrite(M.New(buf), Rendering([[]]));
      r == Ok(()) && M.Len(w) == Some(0) && M.IsEmpty(w) == Some(true)
  {
    ConcatOne([]);
    M.FmtWriteFresh(buf, Rendering([[]]));
  }

  /** `test_len_to_long`: "Tooo long string" into 8 bytes fails and both
      queries report no value. */
  lemma LenTooLong(buf: Bytes, s: Str)
    requires |buf| == 8 && |s| == 16
    ensures var (w, r) := M.FmtWrite(M.New(buf), Rendering([s]));
      r == Err && M.Len(w) == None && M.IsEmpty(w) == None
  {
    ConcatOne(s);
    M.FmtWriteFresh(buf, Rendering([s]));
  }

  /** Every character of `s` is below U+0080. */
  predicate IsAsciiText(s: string) {
    forall i :: 0 <= i < |s| ==> s[i] < 128 as char
  }

  /** The bytes of an ASCII string, one per character, as a `&str`. */
  function AsciiStr(s: string): (r: Str)
    requires IsAsciiText(s)
    ensures |r| == |s| && forall i :: 0 <= i < |s| ==> r[i] as int == s[i] as int
  {
    var b := seq(|s|, i requires 0 <= i < |s| => s[i] as int as byte);
    AsciiValid(b);
    b
  }

  /** The bytes of two ASCII strings one after the other are the bytes of
      the joined string. */
  lemma AsciiStrAppend(s: string, t: string)
    requires IsAsciiText(s) && IsAsciiText(t)
    ensures IsAsciiText(s + t) && AsciiStr(s) + AsciiStr(t) == AsciiStr(s + t)
  {
    assert forall i :: 0 <= i < |s + t| ==> (s + t)[i] == if i < |s| then s[i] else t[i - |s|];
    var l, r := AsciiStr(s) + AsciiStr(t), AsciiStr(s + t);
    forall i | 0 <= i < |l|
      ensures l[i] == r[i]
    {
      if i < |s| {
        assert l[i] as int == s[i] as int == (s + t)[i] as int;
      } else {
        assert l[i] as int == t[i - |s|] as int == (s + t)[i] as int;
      }
    }
  }

  lemma GreetingAscii()
    ensures IsAsciiText("Test String ") && IsAsciiText("foo") && IsAsciiText(": ") && IsAsciiText("42")
    ensures IsAsciiText("Test String foo: 42") && IsAsciiText("Too long string")
  {
  }

  /** The fragments the engine emits for
      `format_args!("Test String {}: {}", "foo", 42)`. */
  function GreetingFragments(): seq<Str> {
    GreetingAscii();
    [AsciiStr("Test String "), AsciiStr("foo"), AsciiStr(": "), AsciiStr("42")]
  }

  /** The text the test expects. */
  function GreetingText(): Str {
    GreetingAscii();
    AsciiStr("Test String foo: 42")
  }

  lemma GreetingJoin()
    ensures "Test String " + "foo" == "Test String foo"
    ensures "Test String foo" + ": " == "Test String foo: "
    ensures "Test String foo: " + "42" == "Test String foo: 42"
  {
  }

  /** `test` with the literal text: `show` into 64 bytes returns exactly the
      bytes of "Test String foo: 42". */
  lemma Greeting(buf: Bytes)
    requires |buf| == 64
    ensures M.Show(buf, Rendering(GreetingFragments())).1 == Ok(GreetingText())
  {
    GreetingAscii();
    var frags := GreetingFragments();
    ShowGreeting(buf, frags[0], frags[1], frags[2], frags[3]);
    assert [frags[0], frags[1], frags[2], frags[3]] == frags;
    GreetingJoin();
    AsciiStrAppend("Test String ", "foo");
    AsciiStrAppend("Test String foo", ": ");
    AsciiStrAppend("Test String foo: ", "42");
  }

  /** The text of `test_to_long`. */
  function TooLongText(): Str {
    GreetingAscii();
    AsciiStr("Too long string")
  }

  /** `test_to_long` with the literal text: "Too long string" does not fit
      in 8 bytes. */
  lemma TooLong(buf: Bytes)
    requires |buf| == 8
    ensures M.Show(buf, Rendering([TooLongText()])).1 == Err
  {
    ShowTooLong(buf, TooLongText());
  }

  /** `test_len` and `test_len_to_long` on the class itself: the results of
      the two formatting calls and both queries after each. */
  method ClientLen(a: Str, b: Str, c: Str, d: Str, s: Str)
    returns (fitsResult: Result<()>, fitsLen: Option<nat>, fitsEmpty: Option<bool>,
             longResult: Result<()>, longLen: Option<nat>, longEmpty: Option<bool>)
    requires |a| == 12 && |b| == 3 && |c| == 2 && |d| == 2 && |s| == 16
    ensures fitsResult == Ok(()) && fitsLen == Some(19) && fitsEmpty == Some(false)
    ensures longResult == Err && longLen == None && longEmpty == None
  {
    var big := new byte[64];
    var w := new WriteTo(big);
    LenGreeting(big[..], a, b, c, d);
    fitsResult := FmtWrite(w, Rendering([a, b, c, d]));
    fitsLen := w.Len();
    fitsEmpty := w.IsEmpty();

    var small := new byte[8];
    var v := new WriteTo(small);
    LenTooLong(small[..], s);
    longResult := FmtWrite(v, Rendering([s]));
    longLen := v.Len();
    longEmpty := v.IsEmpty();
  }
}
