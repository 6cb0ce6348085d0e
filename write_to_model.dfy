/** The state machine of `WriteTo` in src/lib.rs, on values.

    A writer is the caller's buffer together with the count `len` of bytes
    it has been asked to write, up to and including the first write that
    overflowed; writes refused after that are not counted. `len` may run
    past the capacity: that is how the writer remembers an overflow.

    This module is the specification the imperative class
    `FormatNoStd.WriteTo` is proved against; the properties of the crate
    are stated and proved here. */
module WriteToModel {

  import opened Wrappers
  import opened Utf8

  datatype Writer = Writer(buf: Bytes, len: nat)

  /** `core::cmp::min`. */
  function Min(a: int, b: int): int {
    if a < b then a else b
  }

  /** `WriteTo::new`: a fresh writer over `buf`. */
  function New(buf: Bytes): Writer {
    Writer(buf, 0)
  }

  /** More bytes were requested than the buffer holds. */
  predicate Overflowed(w: Writer) {
    w.len > |w.buf|
  }

  /** `WriteTo::len`. */
  function Len(w: Writer): Option<nat> {
    if w.len <= |w.buf| then Some(w.len) else None
  }

  /** `WriteTo::is_empty`. */
  function IsEmpty(w: Writer): Option<bool> {
    if w.len <= |w.buf| then Some(w.len == 0) else None
  }

  /** `WriteTo::as_str`: the written prefix as text, validated by `from_utf8`. */
  function AsStr(w: Writer): Option<Str> {
    if w.len <= |w.buf| then FromUtf8(w.buf[..w.len]) else None
  }

  /** `after` is `before` with `s` laid over it from offset `off` on, as far
      as it fits; every other byte is the same. */
  ghost predicate Copied(after: Bytes, before: Bytes, off: nat, s: Bytes) {
    && |after| == |before|
    && forall i :: 0 <= i < |before| ==>
         after[i] == if off <= i < off + |s| then s[i - off] else before[i]
  }

  /** `rem[..num].copy_from_slice(&raw_s[..num])` with `rem = &mut buf[off..]`
      and `num = min(|s|, |rem|)`. */
  function CopyInto(b: Bytes, off: nat, s: Bytes): (r: Bytes)
    requires off <= |b|
    ensures Copied(r, b, off, s)
  {
    var num := Min(|s|, |b| - off);
    b[..off] + s[..num] + b[off + num..]
  }

  /** `<WriteTo as fmt::Write>::write_str`: the writer afterwards and the result. */
  function WriteStr(w: Writer, s: Str): (out: (Writer, Result<()>))
    ensures |out.0.buf| == |w.buf|
    ensures forall i :: 0 <= i < Min(w.len, |w.buf|) ==> out.0.buf[i] == w.buf[i]
    ensures Overflowed(w) ==> out == (w, Err)
    ensures !Overflowed(w) ==>
      && Copied(out.0.buf, w.buf, w.len, s)
      && out.0.len == w.len + |s|
      && (out.1.Ok? <==> w.len + |s| <= |w.buf|)
  {
    if w.len > |w.buf| then
      (w, Err)
    else
      var num := Min(|s|, |w.buf| - w.len);
      (Writer(CopyInto(w.buf, w.len, s), w.len + |s|), if num < |s| then Err else Ok(()))
  }

  /** The object invariant: `frags` are the fragments the writer accepted
      (every write issued while it was not overflowed); `len` is their total
      length and the buffer holds as much of their concatenation as fits. */
  ghost predicate Accepted(w: Writer, frags: seq<Str>) {
    var text := Concat(frags);
    && w.len == |text|
    && w.buf[..Min(w.len, |w.buf|)] == text[..Min(w.len, |w.buf|)]
  }

  lemma NewAccepted(buf: Bytes)
    ensures Accepted(New(buf), [])
    ensures New(buf).buf == buf
    ensures Len(New(buf)) == Some(0) && IsEmpty(New(buf)) == Some(true)
    ensures AsStr(New(buf)) == Some([])
  {
    assert New(buf).buf[..0] == [];
  }

  /** Laying `s` over a buffer whose first `|text|` bytes are `text`
      leaves `text + s` in front, as far as it fits. */
  lemma CopiedPrefix(after: Bytes, before: Bytes, text: Bytes, s: Bytes)
    requires |text| <= |before| && before[..|text|] == text
    requires Copied(after, before, |text|, s)
    ensures var m := Min(|text| + |s|, |after|);
      after[..m] == (text + s)[..m]
  {
    var m := Min(|text| + |s|, |after|);
    forall i | 0 <= i < m
      ensures after[i] == (text + s)[i]
    {
      if i < |text| {
        assert before[i] == text[i];
      }
    }
  }

  /** Each write keeps the invariant, adding the fragment to the accepted ones
      unless the writer had already overflowed. */
  lemma WriteStrKeepsAccepted(w: Writer, frags: seq<Str>, s: Str)
    requires Accepted(w, frags)
    ensures Accepted(WriteStr(w, s).0, if Overflowed(w) then frags else frags + [s])
  {
    if !Overflowed(w) {
      ConcatAppend(frags, s);
      CopiedPrefix(WriteStr(w, s).0.buf, w.buf, Concat(frags), s);
    }
  }

  /** What the queries report about a writer whose accepted fragments are `frags`:
      no value once the accepted text does not fit, otherwise its length, its
      emptiness and the text itself (the `from_utf8` check never fails, since
      every fragment was a well-formed `&str`). */
  lemma QueriesOfAccepted(w: Writer, frags: seq<Str>)
    requires Accepted(w, frags)
    ensures var text := Concat(frags);
      && Len(w) == (if |text| <= |w.buf| then Some(|text|) else None)
      && IsEmpty(w) == (if |text| <= |w.buf| then Some(|text| == 0) else None)
      && AsStr(w) == (if |text| <= |w.buf| then Some(text) else None)
  {
    if w.len <= |w.buf| {
      assert w.buf[..w.len] == Concat(frags);
    }
  }

  /** The writer after `frags` were written one by one, whatever each write
      returned (an engine that keeps writing after an error). */
  function Run(w: Writer, frags: seq<Str>): Writer
    decreases |frags|
  {
    if frags == [] then w else Run(WriteStr(w, frags[0]).0, frags[1..])
  }

  /** Overflow is sticky: no later write changes an overflowed writer, so
      every query keeps reporting no value. */
  lemma {:induction false} OverflowSticky(w: Writer, frags: seq<Str>)
    requires Overflowed(w)
    ensures Run(w, frags) == w
    ensures Len(Run(w, frags)) == None && IsEmpty(Run(w, frags)) == None && AsStr(Run(w, frags)) == None
    decreases |frags|
  {
    if frags != [] {
      OverflowSticky(w, frags[1..]);
    }
  }

  /** The count of requested bytes never decreases and the buffer keeps its length. */
  lemma {:induction false} RunGrows(w: Writer, frags: seq<Str>)
    ensures Run(w, frags).len >= w.len
    ensures |Run(w, frags).buf| == |w.buf|
    ensures forall i :: 0 <= i < Min(w.len, |w.buf|) ==> Run(w, frags).buf[i] == w.buf[i]
    decreases |frags|
  {
    if frags != [] {
      RunGrows(WriteStr(w, frags[0]).0, frags[1..]);
    }
  }

  lemma CopyIntoAppend(b: Bytes, off: nat, a: Bytes, c: Bytes)
    requires off + |a| <= |b|
    ensures CopyInto(CopyInto(b, off, a), off + |a|, c) == CopyInto(b, off, a + c)
  {
    var lhs := CopyInto(CopyInto(b, off, a), off + |a|, c);
    var rhs := CopyInto(b, off, a + c);
    assert |lhs| == |rhs|;
    forall i | 0 <= i < |b|
      ensures lhs[i] == rhs[i]
    {
      if off <= i < off + |a| {
        assert (a + c)[i - off] == a[i - off];
      } else if off + |a| <= i < off + |a| + |c| {
        assert (a + c)[i - off] == c[i - off - |a|];
      }
    }
  }

  lemma CopyIntoPastEnd(b: Bytes, off: nat, a: Bytes, c: Bytes)
    requires off <= |b| < off + |a|
    ensures CopyInto(b, off, a) == CopyInto(b, off, a + c)
  {
    var lhs := CopyInto(b, off, a);
    var rhs := CopyInto(b, off, a + c);
    forall i | 0 <= i < |b|
      ensures lhs[i] == rhs[i]
    {
      if off <= i {
        assert (a + c)[i - off] == a[i - off];
      }
    }
  }

  /** Writing `frags` into a writer that has not overflowed lays their
      concatenation over the buffer from `len` on; the writer ends up
      overflowed exactly when that concatenation does not fit, and otherwise
      `len` has grown by its length. */
  lemma {:induction false} RunSpec(w: Writer, frags: seq<Str>)
    requires !Overflowed(w)
    ensures var text := Concat(frags);
      && Run(w, frags).buf == CopyInto(w.buf, w.len, text)
      && (Overflowed(Run(w, frags)) <==> w.len + |text| > |w.buf|)
      && (!Overflowed(Run(w, frags)) ==> Run(w, frags).len == w.len + |text|)
    decreases |frags|
  {
    if frags == [] {
      assert CopyInto(w.buf, w.len, []) == w.buf;
    } else {
      var s, rest := frags[0], frags[1..];
      var w1 := WriteStr(w, s).0;
      assert w1 == Writer(CopyInto(w.buf, w.len, s), w.len + |s|);
      assert Run(w, frags) == Run(w1, rest);
      assert Concat(frags) == s + Concat(rest);
      if Overflowed(w1) {
        OverflowSticky(w1, rest);
        CopyIntoPastEnd(w.buf, w.len, s, Concat(rest));
        assert Run(w, frags).buf == CopyInto(w.buf, w.len, s + Concat(rest));
      } else {
        RunSpec(w1, rest);
        CopyIntoAppend(w.buf, w.len, s, Concat(rest));
        assert Run(w, frags).buf == CopyInto(w1.buf, w1.len, Concat(rest));
      }
    }
  }

  /** The writes `core::fmt::write` issues for one formatting job: in order,
      stopping at the first `Err` (the `?` in the engine). */
  function WriteAll(w: Writer, frags: seq<Str>): (Writer, Result<()>)
    decreases |frags|
  {
    if frags == [] then (w, Ok(()))
    else
      var (w1, r) := WriteStr(w, frags[0]);
      if r.Err? then (w1, Err) else WriteAll(w1, frags[1..])
  }

  /** One step of the engine from `w`, the writer reached after the first
      `i` fragments: a refused fragment ends the job with `Err`; an accepted
      one moves on to the next fragment. */
  lemma WriteAllStep(w0: Writer, frags: seq<Str>, i: nat, w: Writer, w1: Writer, r: Result<()>)
    requires i < |frags| && WriteAll(w0, frags) == WriteAll(w, frags[i..])
    requires (w1, r) == WriteStr(w, frags[i])
    ensures r.Err? ==> WriteAll(w0, frags) == (w1, Err)
    ensures r.Ok? ==> WriteAll(w0, frags) == WriteAll(w1, frags[i + 1..])
  {
    assert frags[i..][0] == frags[i];
    assert frags[i..][1..] == frags[i + 1..];
  }

  /** The first `i + 1` fragments are the first `i` and then fragment `i`. */
  lemma TakeNext(frags: seq<Str>, i: nat)
    requires i < |frags|
    ensures frags[..i + 1] == frags[..i] + [frags[i]]
  {
  }

  /** The engine has written every fragment from `w0` and reached `w`. */
  lemma WriteAllDone(w0: Writer, frags: seq<Str>, w: Writer)
    requires WriteAll(w0, frags) == WriteAll(w, frags[|frags|..])
    ensures WriteAll(w0, frags) == (w, Ok(()))
  {
    assert frags[|frags|..] == [];
  }

  /** Stopping at the first error leaves the writer exactly as writing every
      fragment would; all writes succeed exactly when there are none or when
      their concatenation fits after `len`. */
  lemma {:induction false} WriteAllSpec(w: Writer, frags: seq<Str>)
    ensures WriteAll(w, frags).0 == Run(w, frags)
    ensures WriteAll(w, frags).1.Ok? <==> frags == [] || w.len + |Concat(frags)| <= |w.buf|
    decreases |frags|
  {
    if frags != [] {
      var (w1, r) := WriteStr(w, frags[0]);
      if r.Err? {
        OverflowSticky(w1, frags[1..]);
      } else {
        WriteAllSpec(w1, frags[1..]);
      }
    }
  }

  /** A formatting job as the engine sees it: the fragments it renders, in
      order, and whether rendering fails after them (a `Display` impl that
      returns `Err`, for instance). Template parsing is not modelled. */
  datatype Job = Job(fragments: seq<Str>, engineError: bool)

  /** `core::fmt::write(&mut w, arg)`. */
  function FmtWrite(w: Writer, job: Job): (Writer, Result<()>) {
    var (w', r) := WriteAll(w, job.fragments);
    (w', if r.Ok? && !job.engineError then Ok(()) else Err)
  }

  /** On a fresh writer: the job succeeds exactly when the engine does and the
      rendered text fits; the queries afterwards report the text, or no value
      once it did not fit; the buffer holds as much of the text as fits. */
  lemma FmtWriteFresh(buf: Bytes, job: Job)
    ensures var text := Concat(job.fragments);
      var (w', r) := FmtWrite(New(buf), job);
      && w'.buf == CopyInto(buf, 0, text)
      && (r.Ok? <==> !job.engineError && |text| <= |buf|)
      && Len(w') == (if |text| <= |buf| then Some(|text|) else None)
      && IsEmpty(w') == (if |text| <= |buf| then Some(|text| == 0) else None)
      && AsStr(w') == (if |text| <= |buf| then Some(text) else None)
  {
    var text := Concat(job.fragments);
    var w' := FmtWrite(New(buf), job).0;
    WriteAllSpec(New(buf), job.fragments);
    RunSpec(New(buf), job.fragments);
    if |text| <= |buf| {
      forall i | 0 <= i < |text|
        ensures w'.buf[i] == text[i]
      {
      }
      assert w'.buf[..w'.len] == text;
    }
  }

  /** `show(buf, arg)`: the buffer afterwards and the result. */
  function Show(buf: Bytes, job: Job): (Bytes, Result<Str>) {
    var (w, r) := FmtWrite(New(buf), job);
    if r.Err? then (w.buf, Err)
    else (w.buf, match AsStr(w) case Some(text) => Ok(text) case None => Err)
  }

  /** `show` succeeds exactly when the engine succeeds and the rendered text
      fits in the buffer; the text returned is then the concatenation of all
      fragments and is the buffer's own prefix. In every case the buffer holds
      as much of the rendered text as fits and is otherwise unchanged. */
  lemma ShowSpec(buf: Bytes, job: Job)
    ensures var text := Concat(job.fragments);
      var (after, r) := Show(buf, job);
      && after == CopyInto(buf, 0, text)
      && (r.Ok? <==> !job.engineError && |text| <= |buf|)
      && (r.Ok? ==> r.value == text && after[..|text|] == text)
  {
    FmtWriteFresh(buf, job);
    var text := Concat(job.fragments);
    var after := Show(buf, job).0;
    if |text| <= |buf| {
      forall i | 0 <= i < |text|
        ensures after[i] == text[i]
      {
      }
      assert after[..|text|] == text;
    }
  }
}
