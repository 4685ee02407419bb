/**
 The Rio package of proj3_web_crawler/cs537.c, lines 267-414: unbuffered and buffered readers and
 the unbuffered writer, over a kernel that serves any short counts and interrupts it likes.
 */
module RioModule {
  import opened Bytes
  import opened CInts
  import opened RioSpec
  import opened KernelModule

  const RIO_BUFSIZE := 8192
  // no object in memory is larger than PTRDIFF_MAX
  const SIZE_LIMIT := 0x7fff_ffff_ffff_ffff

  // ---------- Unbuffered ----------

  /** rio_readn. m counts the bytes that did arrive, also when the call fails, and c the events met. */
  method ReadN(fd: Kernel, usrbuf: array<byte>, n: nat) returns (r: int, ghost m: nat, ghost c: nat)
    requires n <= usrbuf.Length <= SIZE_LIMIT
    modifies fd, usrbuf
    ensures m <= n && old(fd.stream) == usrbuf[..m] + fd.stream
    ensures (r == -1 && m < n && fd.errno != EINTR) || r == m == Min(n, |old(fd.stream)|)
    ensures fd.eofs == old(fd.eofs) + if 0 <= r < n then 1 else 0
    ensures c <= |old(fd.script)| && fd.script == old(fd.script)[c..]
    ensures m == Min(Min(n, |old(fd.stream)|), Offered(old(fd.script), c, n)) || c == |old(fd.script)|
    ensures 0 < c ==> Min(|old(fd.stream)|, Offered(old(fd.script), c - 1, n)) < n
    ensures forall i :: m <= i < usrbuf.Length ==> usrbuf[i] == old(usrbuf[i])
    ensures HardErrors(fd.script) == HardErrors(old(fd.script)) - if r == -1 then 1 else 0
  {
    ghost var script, avail := fd.script, |fd.stream|;
    var nleft := n;
    var bufp := 0;
    m, c := 0, 0;
    while nleft > 0
      invariant 0 <= nleft <= n && bufp == m == n - nleft
      invariant old(fd.stream) == usrbuf[..m] + fd.stream
      invariant forall i :: m <= i < usrbuf.Length ==> usrbuf[i] == old(usrbuf[i])
      invariant fd.eofs == old(fd.eofs)
      invariant HardErrors(fd.script) == HardErrors(old(fd.script))
      invariant Reading(script, n, avail, m, c, fd.script)
      decreases |fd.script|, nleft
    {
      ghost var rest := fd.script;
      var nread := fd.Read(usrbuf, bufp, nleft);
      ReadMeets(script, n, avail, m, c, rest, nread);
      c := if rest == [] then c else c + 1;
      if nread < 0 {
        if fd.errno == EINTR {
          nread := 0;
        } else {
          return -1, m, c;
        }
      } else if nread == 0 {
        break;
      }
      nleft := nleft - nread;
      bufp := bufp + nread;
      m := m + nread;
    }
    r := n - nleft;
  }

  /** A run of reads of n bytes, of which `avail` are there, has met c events and got m bytes; then comes rest. */
  ghost predicate Reading(script: seq<Event>, n: nat, avail: nat, m: nat, c: nat, rest: seq<Event>) {
    && c <= |script| && rest == script[c..] && m <= n && m <= avail
    && (m == Min(Min(n, avail), Offered(script, c, n)) || (c == |script| && m == Min(n, avail)))
    && (0 < c ==> Min(avail, Offered(script, c - 1, n)) < n)
  }

  /** One more read, which returned r. */
  lemma ReadMeets(script: seq<Event>, n: nat, avail: nat, m: nat, c: nat, rest: seq<Event>, r: int)
    requires m < n && Reading(script, n, avail, m, c, rest)
    requires rest == [] ==> r == Min(n - m, avail - m)
    requires rest != [] ==>
      match rest[0]
      case Serve(k) => r == Min(k, Min(n - m, avail - m))
      case Nothing => r == Min(n - m, avail - m)
      case _ => r == -1
    ensures if rest == [] then Reading(script, n, avail, m + Max(r, 0), c, [])
      else Reading(script, n, avail, m + Max(r, 0), c + 1, rest[1..])
  {
    if rest != [] {
      assert rest[0] == script[c] && script[c..][1..] == script[c + 1..];
    }
  }

  /**
   rio_writen. It fails exactly on a hard error, and on a write that returns 0 unless errno is
   EINTR then, be it left over from before the call. c counts the events it met.
   */
  method WriteN(fd: Kernel, usrbuf: array<byte>, n: nat) returns (r: int, ghost m: nat, ghost c: nat)
    requires n <= usrbuf.Length <= SIZE_LIMIT
    modifies fd
    ensures m <= n && fd.stream == old(fd.stream) + usrbuf[..m]
    ensures (r == -1 && m < n && fd.errno != EINTR) || r == m == n
    ensures c <= |old(fd.script)| && fd.script == old(fd.script)[c..]
    ensures var script := old(fd.script);
      r == -1 <==>
        0 < c
        && (script[c - 1].HardError?
            || (script[c - 1].Nothing? && old(fd.errno) != EINTR
                && forall j :: 0 <= j < c - 1 ==> !script[j].Interrupt?))
    ensures var script := old(fd.script);
      forall i :: 0 <= i < c - 1 ==>
        !script[i].HardError?
        && (script[i].Nothing? ==> old(fd.errno) == EINTR || exists j :: 0 <= j < i && script[j].Interrupt?)
    ensures if r == -1 then m == Served(old(fd.script), c)
      else n <= Served(old(fd.script), c) || c == |old(fd.script)|
    ensures 0 < c ==> Served(old(fd.script), c - 1) < n
    ensures var script := old(fd.script);
      fd.errno
      == if 0 < c && script[c - 1].HardError? then script[c - 1].e
         else if exists j :: 0 <= j < c && script[j].Interrupt? then EINTR else old(fd.errno)
    ensures r == n ==> HardErrors(fd.script) == HardErrors(old(fd.script))
    ensures r == -1 && HardErrors(fd.script) == HardErrors(old(fd.script)) ==>
              ZeroWrites(fd.script) < ZeroWrites(old(fd.script))
    ensures r == -1 ==> HardErrors(old(fd.script)) - 1 <= HardErrors(fd.script) <= HardErrors(old(fd.script))
    ensures ZeroWrites(fd.script) <= ZeroWrites(old(fd.script))
  {
    ghost var before, script, errno := fd.stream, fd.script, fd.errno;
    var nleft := n;
    var bufp := 0;
    m, c := 0, 0;
    while nleft > 0
      invariant 0 <= nleft <= n && bufp == m == n - nleft
      invariant fd.stream == before + usrbuf[..m]
      invariant HardErrors(fd.script) == HardErrors(old(fd.script))
      invariant ZeroWrites(fd.script) <= ZeroWrites(old(fd.script))
      invariant Writing(script, errno, n, m, c, fd.script, fd.errno)
      decreases |fd.script|, nleft
    {
      var nwritten;
      nwritten, c := WriteSome(fd, usrbuf, bufp, nleft, before, script, errno, n, c);
      if nwritten <= 0 {
        if fd.errno == EINTR {
          nwritten := 0;
        } else {
          RunMeans(script, errno, n, m, c, fd.script, fd.errno, true);
          return -1, m, c;
        }
      }
      nleft := nleft - nwritten;
      bufp := bufp + nwritten;
      m := m + nwritten;
    }
    r := n;
    RunMeans(script, errno, n, m, c, fd.script, fd.errno, false);
  }

  /** What a run of writes that is over has met. */
  lemma RunMeans(script: seq<Event>, errno: int, n: nat, m: nat, c: nat, rest: seq<Event>, now: int, failed: bool)
    requires if failed then WriteFailed(script, errno, n, m, c, rest, now)
      else m == n && Writing(script, errno, n, m, c, rest, now)
    ensures c <= |script| && rest == script[c..]
    ensures failed <==>
        0 < c
        && (script[c - 1].HardError?
            || (script[c - 1].Nothing? && errno != EINTR && forall j :: 0 <= j < c - 1 ==> !script[j].Interrupt?))
    ensures forall i :: 0 <= i < c - 1 ==>
        !script[i].HardError?
        && (script[i].Nothing? ==> errno == EINTR || exists j :: 0 <= j < i && script[j].Interrupt?)
    ensures if failed then m == Served(script, c) else n <= Served(script, c) || c == |script|
    ensures 0 < c ==> Served(script, c - 1) < n
    ensures now
      == if 0 < c && script[c - 1].HardError? then script[c - 1].e
         else if exists j :: 0 <= j < c && script[j].Interrupt? then EINTR else errno
  {
    assert 0 < c ==> (Fatal(script, errno, c - 1) <==> failed);
    forall i | 0 <= i < c - 1
      ensures !script[i].HardError?
      ensures script[i].Nothing? ==> errno == EINTR || exists j :: 0 <= j < i && script[j].Interrupt?
    {
      assert !Fatal(script, errno, i);
      assert Interrupted(script, i) ==> exists j :: 0 <= j < i && script[j].Interrupt?;
    }
  }

  /** One write(2) of such a run, of nleft of n bytes. */
  method WriteSome(fd: Kernel, usrbuf: array<byte>, bufp: nat, nleft: nat,
                   ghost before: seq<byte>, ghost script: seq<Event>, ghost errno: int, ghost n: nat, ghost c: nat)
    returns (w: int, ghost c': nat)
    requires 0 < nleft && bufp + nleft == n <= usrbuf.Length
    requires fd.stream == before + usrbuf[..bufp] && Writing(script, errno, n, bufp, c, fd.script, fd.errno)
    modifies fd
    ensures -1 <= w <= nleft && fd.stream == before + usrbuf[..bufp + Max(w, 0)]
    ensures if w <= 0 && fd.errno != EINTR then WriteFailed(script, errno, n, bufp, c', fd.script, fd.errno)
      else Writing(script, errno, n, bufp + Max(w, 0), c', fd.script, fd.errno)
    ensures w <= 0 ==> |fd.script| < |old(fd.script)|
    ensures |fd.script| <= |old(fd.script)|
    ensures HardErrors(fd.script) == HardErrors(old(fd.script)) - if w == -1 && fd.errno != EINTR then 1 else 0
    ensures ZeroWrites(fd.script) <= ZeroWrites(old(fd.script)) - if w == 0 then 1 else 0
  {
    ghost var rest, now := fd.script, fd.errno;
    w := fd.Write(usrbuf, bufp, nleft);
    WriteMeets(script, errno, n, bufp, c, rest, now, w, fd.script, fd.errno);
    c' := if rest == [] then c else c + 1;
  }

  /** A run of writes has met c events, none of them fatal, and written m of n bytes; then comes rest. */
  ghost predicate Writing(script: seq<Event>, errno: int, n: nat, m: nat, c: nat, rest: seq<Event>, now: int) {
    && c <= |script| && rest == script[c..] && m <= n
    && (forall i :: 0 <= i < c ==> !Fatal(script, errno, i))
    && (m < n ==> m == Served(script, c))
    && (m == n ==> n <= Served(script, c) || c == |script|)
    && (0 < c ==> Served(script, c - 1) < n)
    && now == if Interrupted(script, c) then EINTR else errno
  }

  /** The last of the c events it has met ends the run, when m bytes have been written. */
  ghost predicate WriteFailed(script: seq<Event>, errno: int, n: nat, m: nat, c: nat, rest: seq<Event>, now: int) {
    && 0 < c <= |script| && rest == script[c..] && Fatal(script, errno, c - 1) && m == Served(script, c) < n
    && (forall i :: 0 <= i < c - 1 ==> !Fatal(script, errno, i))
    && now == if script[c - 1].HardError? then script[c - 1].e else if Interrupted(script, c) then EINTR else errno
  }

  /** One more write, which returned w: it ends the run exactly when its event is fatal. */
  lemma WriteMeets(script: seq<Event>, errno: int, n: nat, m: nat, c: nat, rest: seq<Event>, now: int,
                   w: int, rest': seq<Event>, now': int)
    requires m < n && Writing(script, errno, n, m, c, rest, now)
    requires rest' == if rest == [] then [] else rest[1..]
    requires rest == [] ==> w == n - m && now' == now
    requires rest != [] ==>
      match rest[0]
      case Serve(k) => w == Min(k, n - m) && now' == now
      case Nothing => w == 0 && now' == now
      case Interrupt => w == -1 && now' == EINTR
      case HardError(e) => w == -1 && now' == e
    ensures if w <= 0 && now' != EINTR
      then rest != [] && WriteFailed(script, errno, n, m, c + 1, rest', now')
      else Writing(script, errno, n, m + Max(w, 0), if rest == [] then c else c + 1, rest', now')
  {
    if rest != [] {
      assert rest[0] == script[c] && script[c..][1..] == script[c + 1..];
      assert Interrupted(script, c + 1) <==> Interrupted(script, c) || script[c].Interrupt?;
    }
  }

  method MemCpy(to: array<byte>, start: nat, from: array<byte>, first: nat, n: nat)
    requires to != from && start + n <= to.Length && first + n <= from.Length
    modifies to
    ensures to[start..start + n] == from[first..first + n]
    ensures to[..start] == old(to[..start])
    ensures forall i :: start + n <= i < to.Length ==> to[i] == old(to[i])
  {
    forall i | 0 <= i < n {
      to[start + i] := from[first + i];
    }
  }

  method StoreChar(to: array<byte>, at: nat, c: byte)
    requires at < to.Length
    modifies to
    ensures to[..at + 1] == old(to[..at]) + [c]
    ensures forall i :: at < i < to.Length ==> to[i] == old(to[i])
  {
    to[at] := c;
  }

  // ---------- Buffered ----------

  /** What the first read that is not interrupted returns, if it asks for a full buffer and there are `avail` bytes. */
  function Refilled(script: seq<Event>, avail: nat): int {
    if script == [] then Min(RIO_BUFSIZE, avail)
    else
      match script[0]
      case Interrupt => Refilled(script[1..], avail)
      case HardError(_) => -1
      case Serve(k) => Min(k, Min(RIO_BUFSIZE, avail))
      case Nothing => Min(RIO_BUFSIZE, avail)
  }

  /** What is left of the script after that read. */
  function AfterRefill(script: seq<Event>): seq<Event> {
    if script == [] then [] else if script[0].Interrupt? then AfterRefill(script[1..]) else script[1..]
  }

  class Rio {
    const fd: Kernel              // rio_fd
    const buffer: array<byte>     // rio_buf
    var count: int                // rio_cnt
    var next: int                 // index of rio_bufptr in the buffer

    ghost predicate Valid()
      reads this
    {
      && buffer.Length == RIO_BUFSIZE
      && -1 <= count <= RIO_BUFSIZE
      && (0 < count ==> 0 <= next && next + count <= RIO_BUFSIZE)
    }

    /** The bytes taken from the kernel but not yet delivered, then those still in the kernel. */
    ghost function Unread(): seq<byte>
      requires Valid()
      reads this, fd, buffer
    {
      (if 0 < count then buffer[next..next + count] else []) + fd.stream
    }

    /** rio_readinitb */
    constructor (fd: Kernel)
      ensures Valid() && this.fd == fd && Unread() == fd.stream && fresh(buffer) && count == 0
    {
      this.fd := fd;
      buffer := new byte[RIO_BUFSIZE];
      count := 0;
      next := 0;
    }

    /**
     rio_read. Delivers min(n, count) bytes, count being the one after a refill, which happens only
     when the buffer is empty. Never fails with EINTR, and gives 0 only at the end of the stream.
     */
    method ReadBuffered(usrbuf: array<byte>, start: nat, n: nat) returns (r: int)
      requires Valid() && 0 < n && start + n <= usrbuf.Length <= SIZE_LIMIT && usrbuf != buffer
      modifies this, fd, buffer, usrbuf
      ensures Valid()
      ensures -1 <= r <= n
      ensures r == -1 ==> fd.errno != EINTR && Unread() == old(Unread())
      ensures r == 0 ==> old(Unread()) == [] && Unread() == []
      ensures fd.eofs == old(fd.eofs) + if r == 0 then 1 else 0
      ensures usrbuf[..start + Max(r, 0)] + Unread() == old(usrbuf[..start] + Unread())
      ensures forall i :: start + Max(r, 0) <= i < usrbuf.Length ==> usrbuf[i] == old(usrbuf[i])
      ensures 0 < r ==> r == Min(n, r + count) && 0 <= count
      ensures 0 < old(count) ==> r + count == old(count) && fd.script == old(fd.script)
      ensures HardErrors(fd.script) == HardErrors(old(fd.script)) - if r == -1 then 1 else 0
    {
      r := Refill();
      if r > 0 {
        ghost var taken := usrbuf[..start];
        r := Deliver(usrbuf, start, n);
        AppendAssociates(taken, usrbuf[start..start + r], Unread());
        PrefixSplits(usrbuf[..], start, start + r);
      }
    }

    /** Lines 327-338. */
    method Refill() returns (r: int)
      requires Valid()
      modifies this, fd, buffer
      ensures Valid() && Unread() == old(Unread())
      ensures r == -1 || r == 0 || r == 1 == Min(1, count)
      ensures r == -1 ==> fd.errno != EINTR
      ensures r == 0 ==> Unread() == []
      ensures fd.eofs == old(fd.eofs) + if r == 0 then 1 else 0
      ensures 0 < old(count) ==> r == 1 && count == old(count) && fd.script == old(fd.script)
      ensures old(count) <= 0 ==>
                count == Refilled(old(fd.script), |old(fd.stream)|) && fd.script == AfterRefill(old(fd.script))
      ensures r == if count < 0 then -1 else Min(1, count)
      ensures HardErrors(fd.script) == HardErrors(old(fd.script)) - if r == -1 then 1 else 0
    {
      while count <= 0
        invariant Valid() && Unread() == old(Unread()) && fd.eofs == old(fd.eofs)
        invariant 0 < old(count) ==> count == old(count) && fd.script == old(fd.script)
        invariant old(count) <= 0 ==> count <= 0 ==>
          Refilled(fd.script, |fd.stream|) == Refilled(old(fd.script), |old(fd.stream)|)
          && AfterRefill(fd.script) == AfterRefill(old(fd.script))
        invariant old(count) <= 0 && 0 < count ==>
          count == Refilled(old(fd.script), |old(fd.stream)|) && fd.script == AfterRefill(old(fd.script))
        invariant HardErrors(fd.script) == HardErrors(old(fd.script))
        decreases |fd.script|, count <= 0
      {
        count := fd.Read(buffer, 0, RIO_BUFSIZE);
        if count < 0 {
          if fd.errno != EINTR {
            return -1;
          }
        } else if count == 0 {
          return 0;
        } else {
          next := 0;
          assert buffer[0..count] == buffer[..count];
        }
      }
      return 1;
    }

    /** Lines 341-343: the int cnt holds min(n, count), whatever size_t n is. */
    method Narrow(n: nat) returns (cnt: int)
      requires Valid() && 0 < count
      ensures cnt == Min(n, count)
    {
      cnt := ToInt(n);
      if count < n {
        cnt := count;
      }
    }

    /** Lines 341-347. */
    method Deliver(usrbuf: array<byte>, start: nat, n: nat) returns (r: int)
      requires Valid() && 0 < count && 0 < n && start + n <= usrbuf.Length <= SIZE_LIMIT && usrbuf != buffer
      modifies this, usrbuf
      ensures Valid() && r == Min(n, old(count)) && count == old(count) - r
      ensures old(Unread()) == usrbuf[start..start + r] + Unread()
      ensures usrbuf[..start] == old(usrbuf[..start])
      ensures forall i :: start + r <= i < usrbuf.Length ==> usrbuf[i] == old(usrbuf[i])
    {
      var cnt := Narrow(n);
      SliceSplits(buffer[..], next, next + cnt, next + count);
      MemCpy(usrbuf, start, buffer, next, cnt);
      next := next + cnt;
      count := count - cnt;
      ghost var piece, rest := usrbuf[start..start + cnt], buffer[next..next + count];
      AppendAssociates(piece, rest, fd.stream);
      assert 0 == count ==> rest == [];
      r := cnt;
    }

    /** rio_readnb. m counts the bytes stored, also when the call fails; a failure is never EINTR. */
    method ReadNB(usrbuf: array<byte>, n: nat) returns (r: int, ghost m: nat)
      requires Valid() && n <= usrbuf.Length <= SIZE_LIMIT && usrbuf != buffer
      modifies this, fd, buffer, usrbuf
      ensures Valid()
      ensures m <= n && old(Unread()) == usrbuf[..m] + Unread()
      ensures (r == -1 && m < n && fd.errno != EINTR) || r == m == Min(n, |old(Unread())|)
      ensures fd.eofs == old(fd.eofs) + if 0 <= r < n then 1 else 0
      ensures forall i :: m <= i < usrbuf.Length ==> usrbuf[i] == old(usrbuf[i])
      ensures HardErrors(fd.script) == HardErrors(old(fd.script)) - if r == -1 then 1 else 0
    {
      ghost var all := Unread();
      var nleft := n;
      var bufp := 0;
      m := 0;
      assert usrbuf[..0] + all == all;
      while nleft > 0
        invariant Valid() && 0 <= nleft <= n && bufp == m == n - nleft
        invariant usrbuf[..m] + Unread() == all && fd.eofs == old(fd.eofs)
        invariant forall i :: m <= i < usrbuf.Length ==> usrbuf[i] == old(usrbuf[i])
        invariant HardErrors(fd.script) == HardErrors(old(fd.script))
      {
        var nread := ReadBuffered(usrbuf, bufp, nleft);
        if nread < 0 {
          if fd.errno == EINTR {
            assert false;  // ReadBuffered has retried already
            nread := 0;
          } else {
            return -1, m;
          }
        } else if nread == 0 {
          break;
        }
        nleft := nleft - nread;
        bufp := bufp + nread;
        m := bufp;
      }
      r := n - nleft;
    }

    /**
     rio_readlineb. Stores one piece and its terminator; at the end of the stream it stores nothing at all.
     maxlen is at most INT_MAX, beyond which the int counter overflows.
     */
    method ReadLineB(usrbuf: array<byte>, maxlen: nat) returns (r: int, ghost m: nat)
      requires Valid() && maxlen <= INT_MAX && maxlen <= usrbuf.Length <= SIZE_LIMIT && 0 < usrbuf.Length
      requires usrbuf != buffer
      modifies this, fd, buffer, usrbuf
      ensures Valid()
      ensures m < usrbuf.Length && old(Unread()) == usrbuf[..m] + Unread()
      ensures (r == -1 && fd.errno != EINTR)
        || (r == LineReturn(old(Unread()), maxlen) && m == |Piece(old(Unread()), maxlen)|)
      ensures m <= |Piece(old(Unread()), maxlen)|
      ensures 0 < r ==> usrbuf[m] == 0
      ensures forall i :: m < i < usrbuf.Length ==> usrbuf[i] == old(usrbuf[i])
      ensures r <= 0 ==> usrbuf[m] == old(usrbuf[m])
      ensures r == -1 ==> m + 1 < maxlen && NEWLINE !in usrbuf[..m]
      ensures fd.eofs == old(fd.eofs) + if 0 <= r && m + 1 < maxlen && NEWLINE !in usrbuf[..m] then 1 else 0
      ensures HardErrors(fd.script) == HardErrors(old(fd.script)) - if r == -1 then 1 else 0
    {
      var rc, n, bufp := FillLine(usrbuf, maxlen);
      m := bufp;
      if rc <= 0 {
        return rc, m;
      }
      ghost var stored := usrbuf[..bufp];
      usrbuf[bufp] := 0;
      assert usrbuf[..bufp] == stored;
      r := n;
    }

    /**
     The loop of lines 398-410: -1 on a hard error, 0 at the end of the stream, else 1 with the
     count n and bufp bytes stored.
     */
    method FillLine(usrbuf: array<byte>, maxlen: nat) returns (rc: int, n: int, bufp: nat)
      requires Valid() && maxlen <= INT_MAX && maxlen <= usrbuf.Length <= SIZE_LIMIT && 0 < usrbuf.Length
      requires usrbuf != buffer
      modifies this, fd, buffer, usrbuf
      ensures Valid() && bufp < usrbuf.Length
      ensures old(Unread()) == usrbuf[..bufp] + Unread()
      ensures rc == -1 ==> fd.errno != EINTR && bufp <= |Piece(old(Unread()), maxlen)|
      ensures rc == 1 ==> bufp == |Piece(old(Unread()), maxlen)| && n == LineReturn(old(Unread()), maxlen) > 0
      ensures rc == 0 ==> bufp == |Piece(old(Unread()), maxlen)| && LineReturn(old(Unread()), maxlen) == 0
      ensures rc == -1 || rc == 0 || rc == 1
      ensures rc == -1 ==> bufp + 1 < maxlen && NEWLINE !in usrbuf[..bufp]
      ensures fd.eofs == old(fd.eofs) + if 0 <= rc && bufp + 1 < maxlen && NEWLINE !in usrbuf[..bufp] then 1 else 0
      ensures forall i :: bufp <= i < usrbuf.Length ==> usrbuf[i] == old(usrbuf[i])
      ensures HardErrors(fd.script) == HardErrors(old(fd.script)) - if rc == -1 then 1 else 0
    {
      ghost var all := Unread();
      bufp, n := 0, 1;
      while n < maxlen
        invariant Valid() && 1 <= n && (n <= maxlen || n == 1) && bufp == n - 1
        invariant all == usrbuf[..bufp] + Unread() && NEWLINE !in usrbuf[..bufp] && fd.eofs == old(fd.eofs)
        invariant forall i :: bufp <= i < usrbuf.Length ==> usrbuf[i] == old(usrbuf[i])
        invariant HardErrors(fd.script) == HardErrors(old(fd.script))
      {
        ghost var taken := usrbuf[..bufp];
        var got, c := ReadChar();
        assert usrbuf[..bufp] == taken;
        if got == 1 {
          AppendAssociates(taken, [c], Unread());
          StoreChar(usrbuf, bufp, c);
          bufp := bufp + 1;
          if c == NEWLINE {
            LineEnds(taken, Unread(), maxlen);
            break;
          }
        } else if got == 0 {
          if n == 1 {
            return 0, n, bufp;
          } else {
            LineCut(taken, Unread(), maxlen);
            break;
          }
        } else {
          LineLenAtLeast(taken, Unread(), maxlen - 1);
          return -1, n, bufp;
        }
        n := n + 1;
      }
      if n >= maxlen && NEWLINE !in usrbuf[..bufp] {
        LineCut(usrbuf[..bufp], Unread(), maxlen);
      }
      rc := 1;
    }

    /** rio_read for the single byte c. */
    method ReadChar() returns (rc: int, c: byte)
      requires Valid()
      modifies this, fd, buffer
      ensures Valid() && -1 <= rc <= 1
      ensures rc == -1 ==> fd.errno != EINTR && Unread() == old(Unread())
      ensures rc == 0 ==> old(Unread()) == [] && Unread() == []
      ensures fd.eofs == old(fd.eofs) + if rc == 0 then 1 else 0
      ensures rc == 1 ==> old(Unread()) == [c] + Unread()
      ensures HardErrors(fd.script) == HardErrors(old(fd.script)) - if rc == -1 then 1 else 0
    {
      var cell := new byte[1];
      rc := ReadBuffered(cell, 0, 1);
      c := cell[0];
      assert cell[..1] == [c] && cell[..0] == [];
    }
  }
}
