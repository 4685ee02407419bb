/**
 The kernel behind a descriptor: a byte stream, and a finite script of what goes wrong or short
 before reads and writes behave. Once the script has run out every call is served in full.
 */
module KernelModule {
  import opened Bytes

  const EINTR := 4

  type pos = k: nat | 0 < k witness 1
  type HardErrno = e: int | e != EINTR witness 5

  /**
   Serve at most k bytes; fail with EINTR; fail with another errno; or, for a write, return 0 and
   leave errno be.
   */
  datatype Event = Serve(k: pos) | Interrupt | HardError(e: HardErrno) | Nothing

  function HardErrors(script: seq<Event>): nat {
    if script == [] then 0 else (if script[0].HardError? then 1 else 0) + HardErrors(script[1..])
  }

  function ZeroWrites(script: seq<Event>): nat {
    if script == [] then 0 else (if script[0].Nothing? then 1 else 0) + ZeroWrites(script[1..])
  }

  predicate FailedWith(ev: Event, errno: int) {
    (ev.Interrupt? && errno == EINTR) || (ev.HardError? && errno == ev.e)
  }

  /** Bytes that the first i events let through. */
  function Served(script: seq<Event>, i: nat): nat
    requires i <= |script|
  {
    if i == 0 then 0 else Served(script, i - 1) + if script[i - 1].Serve? then script[i - 1].k else 0
  }

  /** Bytes that the first i events offer to a reader that asks for n. */
  function Offered(script: seq<Event>, i: nat, n: nat): nat
    requires i <= |script|
  {
    if i == 0 then 0
    else
      Offered(script, i - 1, n)
      + match script[i - 1]
        case Serve(k) => k
        case Nothing => n
        case _ => 0
  }

  ghost predicate Interrupted(script: seq<Event>, i: nat)
    requires i <= |script|
  {
    exists j :: 0 <= j < i && script[j].Interrupt?
  }

  /**
   Event i ends a run of writes that started with this errno: it is a hard error; or it is a write
   that returns 0, and errno is not EINTR, neither from the start nor from an interrupt since.
   */
  ghost predicate Fatal(script: seq<Event>, errno: int, i: nat)
    requires i < |script|
  {
    script[i].HardError? || (script[i].Nothing? && errno != EINTR && !Interrupted(script, i))
  }

  class Kernel {
    var stream: seq<byte>
    var script: seq<Event>
    var errno: int
    ghost var eofs: nat          // reads so far that found the end of the stream

    constructor (stream: seq<byte>, script: seq<Event>)
      ensures this.stream == stream && this.script == script && errno == 0
    {
      this.stream, this.script, this.errno := stream, script, 0;
      eofs := 0;
    }

    /** read(2). At the end of the stream it returns 0, however often it is asked. */
    method Read(buf: array<byte>, start: nat, n: nat) returns (r: int)
      requires start + n <= buf.Length
      modifies this, buf
      ensures -1 <= r <= n
      ensures r == -1 ==> stream == old(stream) && old(script) != [] && FailedWith(old(script)[0], errno)
      ensures r >= 0 ==> errno == old(errno)
      ensures old(script) == [] ==> r == Min(n, |old(stream)|)
      ensures old(script) != [] ==>
        match old(script)[0]
        case Serve(k) => r == Min(k, Min(n, |old(stream)|))
        case Nothing => r == Min(n, |old(stream)|)
        case _ => r == -1
      ensures buf[..start + Max(r, 0)] + stream == old(buf[..start] + stream)
      ensures r == 0 && 0 < n ==> old(stream) == []
      ensures eofs == old(eofs) + if r == 0 && 0 < n then 1 else 0
      ensures script == if old(script) == [] then [] else old(script)[1..]
      ensures HardErrors(script) == HardErrors(old(script)) - if r == -1 && errno != EINTR then 1 else 0
      ensures ZeroWrites(script) <= ZeroWrites(old(script))
      ensures forall i :: start + Max(r, 0) <= i < buf.Length ==> buf[i] == old(buf[i])
    {
      var ev := if script == [] then Nothing else script[0];
      script := if script == [] then [] else script[1..];
      match ev {
        case Interrupt =>
          errno := EINTR;
          return -1;
        case HardError(e) =>
          errno := e;
          return -1;
        case Serve(k) =>
          r := Min(k, Min(n, |stream|));
        case Nothing =>
          r := Min(n, |stream|);
      }
      eofs := eofs + if r == 0 && 0 < n then 1 else 0;
      Transfer(buf, start, r);
    }

    /** The next n bytes of the stream, moved to buf. */
    method Transfer(buf: array<byte>, start: nat, n: nat)
      requires start + n <= buf.Length && n <= |stream|
      modifies `stream, buf
      ensures buf[..start + n] + stream == old(buf[..start] + stream)
      ensures forall i :: start + n <= i < buf.Length ==> buf[i] == old(buf[i])
    {
      ghost var before, s := buf[..start], stream;
      forall i | 0 <= i < n {
        buf[start + i] := stream[i];
      }
      assert buf[..start + n] == before + s[..n];
      AppendAssociates(before, s[..n], s[n..]);
      assert s == s[..n] + s[n..];
      stream := stream[n..];
    }

    /** write(2), to the far end of the same stream. */
    method Write(buf: array<byte>, start: nat, n: nat) returns (r: int)
      requires start + n <= buf.Length
      modifies `stream, `script, `errno
      ensures -1 <= r <= n
      ensures r == -1 ==> stream == old(stream) && old(script) != [] && FailedWith(old(script)[0], errno)
      ensures r >= 0 ==> stream == old(stream) + buf[start..start + r] && errno == old(errno)
      ensures old(script) == [] ==> r == n
      ensures old(script) != [] ==>
        match old(script)[0]
        case Serve(k) => r == Min(k, n)
        case Nothing => r == 0
        case _ => r == -1
      ensures script == if old(script) == [] then [] else old(script)[1..]
      ensures HardErrors(script) == HardErrors(old(script)) - if r == -1 && errno != EINTR then 1 else 0
      ensures ZeroWrites(script) <= ZeroWrites(old(script)) - if r == 0 && 0 < n then 1 else 0
    {
      if script == [] {
        stream := stream + buf[start..start + n];
        return n;
      }
      var ev := script[0];
      script := script[1..];
      match ev {
        case Interrupt =>
          errno := EINTR;
          return -1;
        case HardError(e) =>
          errno := e;
          return -1;
        case Nothing =>
          r := 0;
        case Serve(k) =>
          r := Min(n, k);
          stream := stream + buf[start..start + r];
      }
    }
  }
}
