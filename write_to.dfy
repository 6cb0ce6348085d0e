/** `WriteTo` and `show` from src/lib.rs as imperative code: the writer
    holds the caller's buffer as an array that it fills in place and a
    counter it advances. Each operation is proved against the value-level
    model in `WriteToModel`. */
module FormatNoStd {

  import opened Wrappers
  import opened Utf8
  import M = WriteToModel

  class WriteTo {
    /** The caller's buffer, borrowed for the writer's whole life. */
    const buf: array<byte>
    /** The number of bytes requested up to and including the first write
        that overflowed, bytes that did not fit included; writes refused
        after an overflow are not counted. */
    var len: nat
    /** The fragments accepted so far: every write issued before an overflow. */
    ghost var Fragments: seq<Str>

    /** The state as a value of the model. */
    ghost function Model(): M.Writer
      reads this, buf
    {
      M.Writer(buf[..], len)
    }

    ghost predicate Valid()
      reads this, buf
    {
      M.Accepted(Model(), Fragments)
    }

    /** `WriteTo::new`: wraps `buf` without touching it. */
    constructor (buf: array<byte>)
      ensures this.buf == buf && Valid()
      ensures Model() == M.New(buf[..]) && Fragments == []
    {
      this.buf := buf;
      len := 0;
      Fragments := [];
      new;
      M.NewAccepted(buf[..]);
    }

    /** `WriteTo::len`: the length of the accepted text, or no value once it
        did not fit in the buffer. */
    function Len(): (r: Option<nat>)
      reads this, buf
      requires Valid()
      ensures r == M.Len(Model())
      ensures r == if |Concat(Fragments)| <= buf.Length then Some(|Concat(Fragments)|) else None
    {
      M.QueriesOfAccepted(Model(), Fragments);
      if len <= buf.Length then Some(len) else None
    }

    /** `WriteTo::is_empty`: whether the accepted text is empty, or no value
        once it did not fit in the buffer. */
    function IsEmpty(): (r: Option<bool>)
      reads this, buf
      requires Valid()
      ensures r == M.IsEmpty(Model())
      ensures r == if |Concat(Fragments)| <= buf.Length then Some(Concat(Fragments) == []) else None
    {
      M.QueriesOfAccepted(Model(), Fragments);
      if len <= buf.Length then Some(len == 0) else None
    }

    /** `WriteTo::as_str`: the accepted text, read in place from the buffer
        and checked by `from_utf8`, or no value once it did not fit. */
    function AsStr(): (r: Option<Str>)
      reads this, buf
      requires Valid()
      ensures r == M.AsStr(Model())
      ensures r == if |Concat(Fragments)| <= buf.Length then Some(Concat(Fragments)) else None
    {
      M.QueriesOfAccepted(Model(), Fragments);
      if len <= buf.Length then FromUtf8(buf[..len]) else None
    }

    /** `<WriteTo as fmt::Write>::write_str`. An overflowed writer refuses the
        fragment and changes nothing. Otherwise the part of `s` that fits is
        copied to `buf[len..]`, `len` grows by all of `|s|`, and the result is
        `Err` exactly when something was cut off. */
    method WriteStr(s: Str) returns (r: Result<()>)
      requires Valid()
      modifies this, buf
      ensures Valid()
      ensures (Model(), r) == M.WriteStr(old(Model()), s)
      ensures Fragments == if old(len) > buf.Length then old(Fragments) else old(Fragments) + [s]
      ensures old(len) > buf.Length ==> r == Err && len == old(len) && buf[..] == old(buf[..])
      ensures old(len) <= buf.Length ==>
        && len == old(len) + |s|
        && (r.Ok? <==> old(len) + |s| <= buf.Length)
        && (forall i :: 0 <= i < old(len) ==> buf[i] == old(buf[i]))
        && (forall i :: old(len) <= i < M.Min(old(len) + |s|, buf.Length) ==> buf[i] == s[i - old(len)])
        && (forall i :: old(len) + |s| <= i < buf.Length ==> buf[i] == old(buf[i]))
    {
      ghost var before := Model();
      if len > buf.Length {
        M.WriteStrKeepsAccepted(before, Fragments, s);
        return Err;
      }
      var num := M.Min(|s|, buf.Length - len);
      forall i | 0 <= i < num {
        buf[len + i] := s[i];
      }
      assert buf[..] == M.CopyInto(before.buf, before.len, s);
      M.WriteStrKeepsAccepted(before, Fragments, s);
      len := len + |s|;
      Fragments := Fragments + [s];
      r := if num < |s| then Err else Ok(());
    }
  }

  /** `core::fmt::write(&mut w, arg)` as seen by the writer: the job's
      fragments are written in order until one returns `Err`; then the
      engine's own failure, if any, is reported. */
  method FmtWrite(w: WriteTo, job: M.Job) returns (r: Result<()>)
    requires w.Valid()
    modifies w, w.buf
    ensures w.Valid()
    ensures (w.Model(), r) == M.FmtWrite(old(w.Model()), job)
    ensures r.Ok? ==> w.Fragments == old(w.Fragments) + job.fragments
  {
    ghost var start, accepted := w.Model(), w.Fragments;
    var i := 0;
    while i < |job.fragments|
      invariant 0 <= i <= |job.fragments|
      invariant w.Valid()
      invariant M.WriteAll(start, job.fragments) == M.WriteAll(w.Model(), job.fragments[i..])
      invariant w.Fragments == accepted + job.fragments[..i]
    {
      ghost var before := w.Model();
      var res := w.WriteStr(job.fragments[i]);
      M.WriteAllStep(start, job.fragments, i, before, w.Model(), res);
      if res.Err? {
        return Err;
      }
      M.TakeNext(job.fragments, i);
      i := i + 1;
    }
    M.WriteAllDone(start, job.fragments, w.Model());
    assert job.fragments[..i] == job.fragments;
    r := if job.engineError then Err else Ok(());
  }

  /** `show(buf, arg)`: formats `job` into `buf` and returns the text, which
      lives in the buffer's own prefix; `Err` when the engine failed or the
      text did not fit. */
  method Show(buf: array<byte>, job: M.Job) returns (r: Result<Str>)
    modifies buf
    ensures (buf[..], r) == M.Show(old(buf[..]), job)
    ensures r.Ok? <==> !job.engineError && |Concat(job.fragments)| <= buf.Length
    ensures r.Ok? ==> r.value == Concat(job.fragments) && buf[..|r.value|] == r.value
    ensures buf[..] == M.CopyInto(old(buf[..]), 0, Concat(job.fragments))
  {
    M.ShowSpec(buf[..], job);
    var w := new WriteTo(buf);
    var res := FmtWrite(w, job);
    if res.Err? {
      return Err;
    }
    var text := w.AsStr();
    r := if text.Some? then Ok(text.value) else Err;
  }
}
