/** The byte pump of the TCP proxy (`copy` of proxy/tcp.go). Reads may be chunked in any way and
    may carry data together with an error; hooks may rewrite, drop or refuse a chunk; writes may
    stop short. Whatever happens, what arrives is a beginning of what was sent. */
module TcpRelay {
  import opened Bytes

  const BUFFER := 32768

  datatype ReadError = Fine | Eof | Broken
  datatype ReadResult = ReadResult(data: Str, err: ReadError)
  datatype WriteResult = WriteResult(written: nat, failed: bool)

  /** What a hook makes of the k-th chunk it sees: replacement bytes, or an error. */
  type Hook = (nat, Str) -> Option<Str>

  datatype Outcome = Done | HookFailed | WriteFailed | ReadFailed

  /** The reading side: a script of results, then a connection that stays broken. */
  class Source {
    const script: seq<ReadResult>
    var pos: nat

    ghost predicate Valid()
      reads this
    {
      pos <= |script| && forall i :: 0 <= i < |script| ==> |script[i].data| <= BUFFER
    }

    constructor (script: seq<ReadResult>)
      requires forall i :: 0 <= i < |script| ==> |script[i].data| <= BUFFER
      ensures Valid() && this.script == script && pos == 0
    {
      this.script, pos := script, 0;
    }

    method Read(buf: array<Byte>) returns (n: nat, err: ReadError)
      requires Valid() && buf.Length == BUFFER
      modifies this, buf
      ensures Valid() && n <= buf.Length
      ensures if old(pos) == |script| then pos == old(pos) && n == 0 && err == Broken
              else pos == old(pos) + 1 && script[old(pos)] == ReadResult(buf[..n], err)
    {
      if pos == |script| {
        return 0, Broken;
      }
      var r := script[pos];
      n, err := |r.data|, r.err;
      for i := 0 to n
        invariant buf[..i] == r.data[..i] && pos == old(pos)
      {
        buf[i] := r.data[i];
      }
      assert r.data[..n] == r.data;
      pos := pos + 1;
    }
  }

  /** The writing side. Each write takes all of its chunk or reports an error. */
  class Sink {
    var received: Str
    var writes: nat
    var failures: nat        // writes that reported an error
    const answer: (nat, Str) -> WriteResult

    ghost predicate Valid() {
      forall k, s :: answer(k, s).written <= |s| && (answer(k, s).written < |s| ==> answer(k, s).failed)
    }

    constructor (answer: (nat, Str) -> WriteResult)
      ensures this.answer == answer && received == [] && failures == 0
    {
      this.answer, received, writes, failures := answer, [], 0, 0;
    }

    method Write(chunk: Str) returns (written: nat, failed: bool)
      requires Valid()
      modifies this
      ensures written <= |chunk| && (written < |chunk| ==> failed)
      ensures received == old(received) + chunk[..written]
      ensures failures == old(failures) + if failed then 1 else 0
    {
      var r := answer(writes, chunk);
      writes := writes + 1;
      failures := failures + if r.failed then 1 else 0;
      received := received + chunk[..r.written];
      return r.written, r.failed;
    }
  }

  // ---------- what should arrive ----------

  function Calls(rs: seq<ReadResult>): nat {
    if rs == [] then 0 else Calls(rs[..|rs| - 1]) + if rs[|rs| - 1].data != [] then 1 else 0
  }

  /** The bytes one read result turns into; None when the hook refuses them. */
  function Emitted(hook: Option<Hook>, k: nat, data: Str): Option<Str> {
    if data == [] || hook.None? then Some(data) else hook.value(k, data)
  }

  /** Everything a series of read results turns into. */
  function Offered(rs: seq<ReadResult>, hook: Option<Hook>): Str {
    if rs == [] then []
    else
      var init := rs[..|rs| - 1];
      var out := Emitted(hook, Calls(init), rs[|rs| - 1].data);
      Offered(init, hook) + Payload(out)
  }

  /** What one more read result of a script adds. */
  lemma OfferedNext(script: seq<ReadResult>, from: nat, p: nat, hook: Option<Hook>)
    requires from <= p < |script|
    ensures var k, data := Calls(script[from..p]), script[p].data;
      && Offered(script[from..p + 1], hook) ==
           Offered(script[from..p], hook) + Payload(Emitted(hook, k, data))
      && Calls(script[from..p + 1]) == (k + if data != [] then 1 else 0)
      && (Refused(script[from..p + 1], hook) <==> Emitted(hook, k, data).None?)
  {
    var rs := script[from..p + 1];
    assert rs[..|rs| - 1] == script[from..p] && rs[|rs| - 1] == script[p];
  }

  function Payload(out: Option<Str>): Str {
    if out.Some? then out.value else []
  }

  function StreamOf(rs: seq<ReadResult>): Str {
    if rs == [] then [] else StreamOf(rs[..|rs| - 1]) + rs[|rs| - 1].data
  }

  /** With a hook, the last read adds what the hook makes of its chunk: nothing if there is no chunk, if the
      hook returns no bytes, or if it refuses. */
  lemma HookDecides(rs: seq<ReadResult>, hook: Hook)
    requires rs != []
    ensures var init, data := rs[..|rs| - 1], rs[|rs| - 1].data;
      var before, made := Offered(init, Some(hook)), hook(Calls(init), data);
      && (data == [] ==> Offered(rs, Some(hook)) == before)
      && (data != [] && made.None? ==> Offered(rs, Some(hook)) == before)
      && (data != [] && made == Some([]) ==> Offered(rs, Some(hook)) == before)
      && (data != [] && made.Some? ==> Offered(rs, Some(hook)) == before + made.value)
  {
  }

  function Chunks(rs: seq<ReadResult>): seq<Str> {
    if rs == [] then []
    else Chunks(rs[..|rs| - 1]) + if rs[|rs| - 1].data != [] then [rs[|rs| - 1].data] else []
  }

  /** The hook's calls are numbered by the chunks read before. */
  lemma {:induction false} CallsAreChunks(rs: seq<ReadResult>)
    ensures Calls(rs) == |Chunks(rs)|
  {
    if rs != [] {
      CallsAreChunks(rs[..|rs| - 1]);
    }
  }

  /** A hook that drops every chunk delivers nothing, one that passes every chunk on delivers the stream. */
  lemma {:induction false} ConstantHooks(rs: seq<ReadResult>)
    ensures Offered(rs, Some((k, s) => Some([]))) == []
    ensures Offered(rs, Some((k, s) => Some(s))) == StreamOf(rs)
  {
    if rs != [] {
      ConstantHooks(rs[..|rs| - 1]);
    }
  }

  /** Without a hook the bytes offered are the bytes read. */
  lemma {:induction false} NoHookIsTransparent(rs: seq<ReadResult>)
    ensures Offered(rs, None) == StreamOf(rs)
  {
    if rs != [] {
      NoHookIsTransparent(rs[..|rs| - 1]);
    }
  }

  lemma {:induction false} StreamOfJoin(a: seq<ReadResult>, b: seq<ReadResult>)
    ensures StreamOf(a + b) == StreamOf(a) + StreamOf(b)
    decreases |b|
  {
    if b == [] {
      assert a + b == a;
    } else {
      StreamOfJoin(a, b[..|b| - 1]);
      assert (a + b)[..|a + b| - 1] == a + b[..|b| - 1];
    }
  }

  /** How a stream is cut into reads does not matter, only its bytes do: delivering a beginning of
      what was read delivers a beginning of the whole script. */
  lemma ReadPrefixIsStreamPrefix(script: seq<ReadResult>, n: nat, delivered: Str)
    requires n <= |script| && delivered <= StreamOf(script[..n])
    ensures delivered <= StreamOf(script)
  {
    assert script == script[..n] + script[n..];
    StreamOfJoin(script[..n], script[n..]);
  }

  // ---------- copy ----------

  /** The last of the reads carried a chunk that the hook answered with an error. */
  predicate Refused(rs: seq<ReadResult>, hook: Option<Hook>) {
    rs != [] && Emitted(hook, Calls(rs[..|rs| - 1]), rs[|rs| - 1].data).None?
  }

  /** Why copying stops after these reads: an error of a write or of the hook goes before
      whatever the last read reported. */
  function Ending(rs: seq<ReadResult>, hook: Option<Hook>, writeFailed: bool): Outcome {
    if writeFailed then WriteFailed
    else if Refused(rs, hook) then HookFailed
    else if rs != [] && rs[|rs| - 1].err == Eof then Done
    else ReadFailed
  }

  /** copy: total bytes delivered are a beginning of the bytes offered, complete unless the hook
      or a write failed; bytes that arrive together with a read error are still delivered. */
  method Copy(src: Source, dst: Sink, hook: Option<Hook>) returns (total: nat, outcome: Outcome)
    requires src.Valid() && dst.Valid()
    modifies src, dst
    ensures src.Valid() && old(src.pos) <= src.pos
    ensures var offered := Offered(src.script[old(src.pos)..src.pos], hook);
      && total <= |offered| && (outcome != WriteFailed ==> total == |offered|)
      && dst.received == old(dst.received) + offered[..total]
    ensures outcome == Ending(src.script[old(src.pos)..src.pos], hook, dst.failures > old(dst.failures))
    ensures outcome == ReadFailed ==>
      src.pos == |src.script| || (src.pos > old(src.pos) && src.script[src.pos - 1].err == Broken)
    ensures var rs := src.script[old(src.pos)..src.pos]; forall i :: 0 <= i < |rs| - 1 ==> rs[i].err == Fine
  {
    var buf := new Byte[BUFFER];
    total := 0;
    ghost var start, before := src.pos, dst.received;
    ghost var offered: Str := [];
    var k := 0;
    while true
      invariant src.Valid() && dst.Valid() && fresh(buf) && start <= src.pos
      invariant Underway(src.script[start..src.pos], hook, k, offered)
      invariant dst.received == before + offered && total == |offered| && dst.failures == old(dst.failures)
      decreases |src.script| - src.pos
    {
      var n, more, readErr, stop;
      n, more, readErr, stop, offered := Pump(src, dst, hook, buf, k, start, before, offered);
      total := total + more;
      if stop.Some? {
        return total, stop.value;
      }
      if n > 0 {
        k := k + 1;
      }
      if readErr != Fine {
        return total, if readErr == Eof then Done else ReadFailed;
      }
    }
  }

  /** Where copying stands between two turns. */
  ghost predicate Underway(rs: seq<ReadResult>, hook: Option<Hook>, k: nat, offered: Str) {
    && k == Calls(rs) && offered == Offered(rs, hook) && !Refused(rs, hook)
    && forall i :: 0 <= i < |rs| ==> rs[i].err == Fine
  }

  /** The four endings, told apart: a write error before anything else, then the hook's error on the last
      chunk, then a clean end of the stream, then a read error. */
  lemma EndingIs(rs: seq<ReadResult>, hook: Option<Hook>, writeFailed: bool)
    ensures var last := if rs == [] then ReadResult([], Broken) else rs[|rs| - 1];
      var refused := rs != [] && last.data != [] && hook.Some? &&
        hook.value(Calls(rs[..|rs| - 1]), last.data).None?;
      && (Ending(rs, hook, writeFailed) == WriteFailed <==> writeFailed)
      && (Ending(rs, hook, writeFailed) == HookFailed <==> !writeFailed && refused)
      && (Ending(rs, hook, writeFailed) == Done <==> !writeFailed && !refused && last.err == Eof)
      && (Ending(rs, hook, writeFailed) == ReadFailed <==> !writeFailed && !refused && last.err != Eof)
  {
  }

  lemma ReadsGrow(script: seq<ReadResult>, from: nat, p: nat)
    requires from <= p < |script|
    ensures script[from..p + 1] == script[from..p] + [script[p]]
  {
  }

  /** One turn, with all that was offered before it. */
  method Pump(src: Source, dst: Sink, hook: Option<Hook>, buf: array<Byte>, k: nat, ghost start: nat,
              ghost received: Str, ghost offered: Str)
    returns (n: nat, more: nat, readErr: ReadError, stop: Option<Outcome>, ghost offered': Str)
    requires src.Valid() && dst.Valid() && buf.Length == BUFFER && start <= src.pos
    requires Underway(src.script[start..src.pos], hook, k, offered) && dst.received == received + offered
    modifies src, dst, buf
    ensures src.Valid()
    ensures if old(src.pos) == |src.script| then src.pos == old(src.pos) && readErr == Broken && n == 0 && stop == None
            else src.pos == old(src.pos) + 1 && src.script[old(src.pos)].err == readErr
    ensures stop == None && readErr == Fine ==>
      Underway(src.script[start..src.pos], hook, k + if n > 0 then 1 else 0, offered')
    ensures offered' == Offered(src.script[start..src.pos], hook) && |offered| + more <= |offered'|
    ensures dst.received == received + offered'[..|offered| + more]
    ensures stop == None || stop == Some(HookFailed) ==>
      |offered| + more == |offered'| && dst.received == received + offered'
    ensures stop == None || stop == Some(HookFailed) || stop == Some(WriteFailed)
    ensures dst.failures > old(dst.failures) <==> stop == Some(WriteFailed)
    ensures stop != Some(WriteFailed) ==> dst.failures == old(dst.failures)
    ensures var rs := src.script[start..src.pos];
      && (stop.Some? ==> Ending(rs, hook, stop == Some(WriteFailed)) == stop.value)
      && (forall i :: 0 <= i < |rs| - 1 ==> rs[i].err == Fine)
      && (stop.None? && readErr != Fine ==> Ending(rs, hook, false) == if readErr == Eof then Done else ReadFailed)
  {
    ghost var bytes;
    n, more, readErr, stop, bytes := Turn(src, dst, hook, buf, k, start);
    offered' := offered + bytes;
    TakeAcross(received, offered, bytes, more);
    if src.pos > old(src.pos) {
      ReadsGrow(src.script, start, old(src.pos));
    }
  }

  /** One turn of the loop: a read, the hook, a write. */
  method Turn(src: Source, dst: Sink, hook: Option<Hook>, buf: array<Byte>, k: nat, ghost start: nat)
    returns (n: nat, more: nat, readErr: ReadError, stop: Option<Outcome>, ghost bytes: Str)
    requires src.Valid() && dst.Valid() && buf.Length == BUFFER
    requires start <= src.pos && k == Calls(src.script[start..src.pos])
    modifies src, dst, buf
    ensures src.Valid()
    ensures if old(src.pos) == |src.script| then src.pos == old(src.pos) && readErr == Broken && n == 0
            else src.pos == old(src.pos) + 1 && src.script[old(src.pos)].err == readErr
    ensures Offered(src.script[start..src.pos], hook) == Offered(src.script[start..old(src.pos)], hook) + bytes
    ensures Calls(src.script[start..src.pos]) == k + if n > 0 then 1 else 0
    ensures more <= |bytes| && dst.received == old(dst.received) + bytes[..more]
    ensures stop == None || stop == Some(HookFailed) ==> more == |bytes|
    ensures stop == None || stop == Some(HookFailed) || stop == Some(WriteFailed)
    ensures dst.failures > old(dst.failures) <==> stop == Some(WriteFailed)
    ensures dst.failures >= old(dst.failures)
    ensures src.pos > old(src.pos) ==> (Refused(src.script[start..src.pos], hook) <==> stop == Some(HookFailed))
    ensures src.pos == old(src.pos) ==> stop == None
  {
    var read;
    read, readErr, bytes := Fetch(src, hook, buf, k, start);
    n := |read|;
    more, stop := Forward(dst, hook, k, read);
  }

  /** The reading half of a turn, and what the script says it should turn into. */
  method Fetch(src: Source, hook: Option<Hook>, buf: array<Byte>, ghost k: nat, ghost start: nat)
    returns (read: Str, readErr: ReadError, ghost bytes: Str)
    requires src.Valid() && buf.Length == BUFFER
    requires start <= src.pos && k == Calls(src.script[start..src.pos])
    modifies src, buf
    ensures src.Valid()
    ensures if old(src.pos) == |src.script| then src.pos == old(src.pos) && readErr == Broken && read == []
            else src.pos == old(src.pos) + 1 && src.script[old(src.pos)] == ReadResult(read, readErr)
    ensures bytes == Payload(Emitted(hook, k, read))
    ensures Offered(src.script[start..src.pos], hook) == Offered(src.script[start..old(src.pos)], hook) + bytes
    ensures Calls(src.script[start..src.pos]) == k + if read != [] then 1 else 0
    ensures src.pos > old(src.pos) ==> (Refused(src.script[start..src.pos], hook) <==> Emitted(hook, k, read).None?)
  {
    if src.pos < |src.script| {
      OfferedNext(src.script, start, src.pos, hook);
    }
    var n;
    n, readErr := src.Read(buf);
    read := buf[..n];
    bytes := Payload(Emitted(hook, k, read));
  }

  lemma TakeAcross(pre: Str, a: Str, b: Str, n: nat)
    requires n <= |b|
    ensures (pre + a) + b[..n] == pre + (a + b)[..|a| + n]
    ensures n == |b| ==> (a + b)[..|a| + n] == a + b
  {
  }

  /** The forwarding half of a turn: the hook first, then one write of what it left. */
  method Forward(dst: Sink, hook: Option<Hook>, k: nat, read: Str) returns (more: nat, stop: Option<Outcome>)
    requires dst.Valid()
    modifies dst
    ensures var out := Emitted(hook, k, read);
      && (out.None? <==> stop == Some(HookFailed))
      && (stop == None || stop == Some(HookFailed) || stop == Some(WriteFailed))
      && dst.failures == old(dst.failures) + (if stop == Some(WriteFailed) then 1 else 0)
      && var bytes := Payload(out);
      && more <= |bytes| && dst.received == old(dst.received) + bytes[..more]
      && (stop == None ==> more == |bytes|)
    ensures read == [] ==> stop == None
  {
    var chunk := read;
    more := 0;
    if |chunk| > 0 {
      if hook.Some? {
        var out := hook.value(k, chunk);
        if out.None? {
          return 0, Some(HookFailed);
        }
        chunk := out.value;
      }
      if |chunk| > 0 {
        var failed;
        more, failed := dst.Write(chunk);
        if failed {
          return more, Some(WriteFailed);
        }
      }
    }
    return more, None;
  }
}
