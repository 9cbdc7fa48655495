/** The message framing of hardware/qemud.h: a length in four hexadecimal digits, then the payload. */
module Qemud {
  import opened Hex
  import opened Options

  // ---- The frame format, on values ----

  /** What a complete send puts on the stream; an empty message puts nothing there. */
  function Frame(m: seq<byte>): seq<byte> {
    if m == [] then [] else Header(|m|) + m
  }

  function Frames(ms: seq<seq<byte>>): seq<byte> {
    if ms == [] then [] else Frame(ms[0]) + Frames(ms[1..])
  }

  /** One receive into a buffer of `size` bytes from a stream that is all there: the message, or an
      error; and what is left to be read. */
  datatype Received = Message(m: seq<byte>, rest: seq<byte>) | Error(rest: seq<byte>)

  function Unframe(s: seq<byte>, size: int): Received {
    if |s| < 4 then Error([])
    else match Scan(s[..4])
         case None => Error(s[4..])
         case Some(n) =>
           if n > size then Error(s[4..])
           else if |s| - 4 < n then Error([])
           else Message(s[4..4 + n], s[4 + n..])
  }

  /** Receiving until an error, which is also how the end of the stream shows. */
  function Unframes(s: seq<byte>, size: int): (seq<seq<byte>>, seq<byte>)
    decreases |s|
  {
    match Unframe(s, size)
    case Error(rest) => ([], s)
    case Message(m, rest) => var (ms, left) := Unframes(rest, size); ([m] + ms, left)
  }

  function NonEmpty(ms: seq<seq<byte>>): seq<seq<byte>> {
    if ms == [] then [] else (if ms[0] == [] then [] else [ms[0]]) + NonEmpty(ms[1..])
  }

  lemma SplitFrame(m: seq<byte>, rest: seq<byte>)
    requires m != []
    ensures var s := Frame(m) + rest;
            && s[..4] == Header(|m|)
            && s[4..4 + |m|] == m && s[4 + |m|..] == rest
  {
  }

  lemma FitsRoundTrip(m: seq<byte>, rest: seq<byte>, size: int)
    requires 1 <= |m| <= size && |m| < 0x1_0000
    ensures Unframe(Frame(m) + rest, size) == Message(m, rest)
  {
    HeaderRoundTrip(|m|);
    SplitFrame(m, rest);
  }

  /** A message comes back as it was sent exactly when its length fits in the header. */
  lemma FrameRoundTrip(m: seq<byte>, rest: seq<byte>, size: int)
    requires 1 <= |m| <= size
    ensures Unframe(Frame(m) + rest, size) == Message(m, rest) <==> |m| < 0x1_0000
  {
    if |m| < 0x1_0000 {
      FitsRoundTrip(m, rest, size);
    } else {
      HeaderRoundTrip(|m|);
      SplitFrame(m, rest);
    }
  }

  lemma Associate<T>(a: seq<T>, b: seq<T>, c: seq<T>)
    ensures a + (b + c) == (a + b) + c
  {
  }

  lemma AfterFirst<T>(h: seq<T>, t: seq<T>)
    ensures (h + t)[|h|..] == t
  {
  }

  /** A message that does not fit the receiver's buffer is refused; its bytes stay on the stream. */
  lemma LongMessageIsRefused(m: seq<byte>, rest: seq<byte>, size: int)
    requires 1 <= |m| < 0x1_0000 && |m| > size
    ensures Unframe(Frame(m) + rest, size) == Error(m + rest)
  {
    HeaderRoundTrip(|m|);
    SplitFrame(m, rest);
    Associate(Header(|m|), m, rest);
    AfterFirst(Header(|m|), m + rest);
  }

  /** The frame of an empty message, which no sender writes, is received as one. */
  lemma EmptyFrameIsReceived(rest: seq<byte>, size: nat)
    ensures Unframe(Header(0) + rest, size) == Message([], rest)
  {
    HeaderRoundTrip(0);
    AfterFirst(Header(0), rest);
    assert (Header(0) + rest)[..4] == Header(0);
  }

  /** Every message is short enough for the header and for the receiver's buffer. */
  predicate Sendable(ms: seq<seq<byte>>, size: int) {
    ms == [] || (|ms[0]| < 0x1_0000 && |ms[0]| <= size && Sendable(ms[1..], size))
  }

  /** Whole conversations: with large enough buffers the receiver gets the nonempty messages, in order,
      and consumes the stream; empty sends add nothing. */
  lemma {:induction false} FramesRoundTrip(ms: seq<seq<byte>>, size: int)
    requires Sendable(ms, size)
    ensures Unframes(Frames(ms), size) == (NonEmpty(ms), [])
  {
    if ms == [] {
    } else {
      FramesRoundTrip(ms[1..], size);
      if ms[0] != [] {
        FitsRoundTrip(ms[0], Frames(ms[1..]), size);
      } else {
        assert Frames(ms) == Frames(ms[1..]) && NonEmpty(ms) == NonEmpty(ms[1..]);
      }
    }
  }

  /** Different conversations never look the same on the wire. */
  lemma FramesInjective(ms: seq<seq<byte>>, ns: seq<seq<byte>>, size: int)
    requires Sendable(ms, size) && Sendable(ns, size) && Frames(ms) == Frames(ns)
    ensures NonEmpty(ms) == NonEmpty(ns)
  {
    FramesRoundTrip(ms, size);
    FramesRoundTrip(ns, size);
  }

  lemma UnframeNeedsWholeFrame(m: seq<byte>, k: nat, size: int)
    requires 1 <= |m| < 0x1_0000 && |m| <= size && k < |Frame(m)|
    ensures Unframe(Frame(m)[..k], size).Error?
  {
    HeaderRoundTrip(|m|);
    if k >= 4 { assert Frame(m)[..k][..4] == Header(|m|); }
  }

  lemma CutInside(f: seq<byte>, g: seq<byte>, k: nat)
    requires k <= |f + g|
    ensures (f + g)[..k] == if k < |f| then f[..k] else f + g[..k - |f|]
  {
  }

  lemma UnframesFirst(m: seq<byte>, rest: seq<byte>, size: int)
    requires 1 <= |m| < 0x1_0000 && |m| <= size
    ensures Unframes(Frame(m) + rest, size).0 == [m] + Unframes(rest, size).0
  {
    FitsRoundTrip(m, rest, size);
  }

  lemma PrependPrefix<T>(a: seq<T>, x: seq<T>, y: seq<T>)
    requires x <= y
    ensures a + x <= a + y
  {
  }

  /** A stream cut anywhere, say by a sender that failed, still yields only messages that were sent, in
      order, none altered and none invented. */
  lemma {:induction false} CutStreamYieldsPrefix(ms: seq<seq<byte>>, k: nat, size: int)
    requires Sendable(ms, size) && k <= |Frames(ms)|
    ensures Unframes(Frames(ms)[..k], size).0 <= NonEmpty(ms)
  {
    if ms == [] {
    } else {
      var m, n := ms[0], |Frame(ms[0])|;
      CutInside(Frame(m), Frames(ms[1..]), k);
      if k < n {
        UnframeNeedsWholeFrame(m, k, size);
      } else {
        var rest := Frames(ms[1..])[..k - n];
        CutStreamYieldsPrefix(ms[1..], k - n, size);
        if m == [] {
          assert [] + rest == rest;
        } else {
          UnframesFirst(m, rest, size);
          PrependPrefix([m], Unframes(rest, size).0, NonEmpty(ms[1..]));
        }
      }
    }
  }

  /** The format cannot resynchronize: when a send broke off after j payload bytes and the sender goes on
      all the same, the receiver takes what follows for the missing part of the broken message. */
  lemma BrokenFrameSwallowsNext(m: seq<byte>, j: nat, later: seq<byte>, size: int)
    requires 1 <= |m| < 0x1_0000 && |m| <= size && j < |m| && |later| >= |m| - j
    ensures Unframe(Frame(m)[..4 + j] + later, size) == Message(m[..j] + later[..|m| - j], later[|m| - j..])
  {
    var mixed := m[..j] + later[..|m| - j];
    assert Frame(m)[..4 + j] + later == Frame(mixed) + later[|m| - j..] by {
      CutSecond(Header(|m|), m, j);
      assert later == later[..|m| - j] + later[|m| - j..];
    }
    FitsRoundTrip(mixed, later[|m| - j..], size);
  }

  // ---- The sender ----

  /** What one write or read system call does: fail with EINTR, fail otherwise, or move up to n bytes.
      When the script has run out, calls move everything they are asked to. */
  datatype Outcome = Interrupted | Failed | Moves(n: nat)

  /** errno after a call that returned -1. */
  datatype Errno = EINTR | OTHER

  predicate Smooth(script: seq<Outcome>) {
    forall k | 0 <= k < |script| :: script[k] == Interrupted
  }

  function Min(x: nat, y: nat): nat { if x < y then x else y }

  class Sender {
    var stream: seq<byte>
    var script: seq<Outcome>

    constructor (outcomes: seq<Outcome>)
      ensures stream == [] && script == outcomes
    {
      stream, script := [], outcomes;
    }

    /** write(2). */
    method Write(buff: seq<byte>) returns (r: int, errno: Errno)
      modifies this
      ensures -1 <= r <= |buff|
      ensures stream == old(stream) + buff[..if r < 0 then 0 else r]
      ensures |script| <= |old(script)| && (r < 0 && errno == EINTR ==> |script| < |old(script)|)
      ensures Smooth(old(script)) ==> Smooth(script) && (r == |buff| || (r < 0 && errno == EINTR))
    {
      errno := OTHER;
      if script == [] {
        stream := stream + buff;
        return |buff|, errno;
      }
      var o := script[0];
      script := script[1..];
      match o
      case Interrupted => r, errno := -1, EINTR;
      case Failed => r := -1;
      case Moves(n) => r := Min(n, |buff|);
      stream := stream + buff[..if r < 0 then 0 else r];
    }

    /** qemud_fd_write. */
    method FdWrite(buff: seq<byte>) returns (len2: int, errno: Errno)
      modifies this
      ensures -1 <= len2 <= |buff| && (len2 < 0 ==> errno != EINTR)
      ensures stream == old(stream) + buff[..if len2 < 0 then 0 else len2]
      ensures Smooth(old(script)) ==> Smooth(script) && len2 == |buff|
    {
      len2, errno := Write(buff);
      while len2 < 0 && errno == EINTR
        invariant -1 <= len2 <= |buff|
        invariant stream == old(stream) + buff[..if len2 < 0 then 0 else len2]
        invariant Smooth(old(script)) ==> Smooth(script) && (len2 == |buff| || (len2 < 0 && errno == EINTR))
        decreases |script|, len2 < 0 && errno == EINTR
      {
        len2, errno := Write(buff);
      }
    }

    /** qemud_channel_send, a negative length meaning a C string. */
    method Send(msg: seq<byte>, msglen: int) returns (r: int, ghost sent: nat)
      requires msglen <= |msg| && (msglen < 0 ==> 0 in msg)
      modifies this
      ensures r == 0 || r == -1
      ensures var f := Frame(Payload(msg, msglen));
              sent <= |f| && stream == old(stream) + f[..sent] && (r == 0 <==> sent == |f|)
      ensures Smooth(old(script)) ==> Smooth(script) && r == 0
    {
      var length := if msglen < 0 then Strlen(msg) else msglen;
      if length == 0 { return 0, 0; }
      var header, payload := Header(length), msg[..length];
      var n, _ := FdWrite(header);
      CutFirst(header, payload, if n < 0 then 0 else n);
      if n != 4 { return -1, if n < 0 then 0 else n; }
      var k, _ := FdWrite(payload);
      CutSecond(header, payload, if k < 0 then 0 else k);
      r, sent := if k != length then -1 else 0, 4 + if k < 0 then 0 else k;
    }
  }

  lemma CutFirst(h: seq<byte>, p: seq<byte>, k: nat)
    requires k <= |h|
    ensures (h + p)[..k] == h[..k]
  {
  }

  lemma CutSecond(h: seq<byte>, p: seq<byte>, k: nat)
    requires k <= |p|
    ensures (h + p)[..|h| + k] == h + p[..k]
    ensures forall s: seq<byte> :: s + (h + p[..k]) == (s + h[..|h|]) + p[..k]
  {
  }

  function Strlen(s: seq<byte>): (n: nat)
    requires 0 in s
    ensures n < |s| && s[n] == 0 && 0 !in s[..n]
  {
    if s[0] == 0 then 0
    else
      assert s == [s[0]] + s[1..];
      var n := Strlen(s[1..]);
      assert s[..n + 1] == [s[0]] + s[1..][..n];
      n + 1
  }

  /** The bytes a call of qemud_channel_send is asked to send. */
  function Payload(msg: seq<byte>, msglen: int): (p: seq<byte>)
    requires msglen <= |msg| && (msglen < 0 ==> 0 in msg)
    ensures p <= msg && (msglen >= 0 ==> |p| == msglen)
    ensures msglen < 0 ==> 0 !in p && |p| < |msg| && msg[|p|] == 0
  {
    msg[..if msglen < 0 then Strlen(msg) else msglen]
  }

  // ---- The receiver ----

  class Receiver {
    var stream: seq<byte>      // what has arrived and has not been read
    var script: seq<Outcome>

    constructor (arrived: seq<byte>, outcomes: seq<Outcome>)
      ensures stream == arrived && script == outcomes
    {
      stream, script := arrived, outcomes;
    }

    method Arrive(bytes: seq<byte>)
      modifies this`stream
      ensures stream == old(stream) + bytes
    {
      stream := stream + bytes;
    }

    /** read(2); zero bytes at the end of the stream. */
    method Read(len: nat) returns (r: int, buff: seq<byte>, errno: Errno)
      modifies this
      ensures -1 <= r <= len && |buff| == (if r < 0 then 0 else r)
      ensures old(stream) == buff + stream
      ensures |script| <= |old(script)| && (r < 0 && errno == EINTR ==> |script| < |old(script)|)
      ensures Smooth(old(script)) ==> Smooth(script) && (r == Min(len, |old(stream)|) || (r < 0 && errno == EINTR))
    {
      errno, buff := OTHER, [];
      var o := if script == [] then Moves(len) else script[0];
      if script != [] { script := script[1..]; }
      match o
      case Interrupted => return -1, [], EINTR;
      case Failed => return -1, [], OTHER;
      case Moves(n) =>
        r := Min(Min(n, len), |stream|);
        buff, stream := stream[..r], stream[r..];
    }

    /** qemud_fd_read. */
    method FdRead(len: nat) returns (len2: int, buff: seq<byte>, errno: Errno)
      modifies this
      ensures -1 <= len2 <= len && |buff| == (if len2 < 0 then 0 else len2) && (len2 < 0 ==> errno != EINTR)
      ensures old(stream) == buff + stream
      ensures Smooth(old(script)) ==> Smooth(script) && len2 == Min(len, |old(stream)|)
    {
      len2, buff, errno := Read(len);
      while len2 < 0 && errno == EINTR
        invariant -1 <= len2 <= len && |buff| == (if len2 < 0 then 0 else len2)
        invariant old(stream) == buff + stream
        invariant Smooth(old(script)) ==>
                    Smooth(script) && (len2 == Min(len, |old(stream)|) || (len2 < 0 && errno == EINTR))
        decreases |script|, len2 < 0 && errno == EINTR
      {
        len2, buff, errno := Read(len);
      }
    }

    /** qemud_channel_recv. Whatever the system calls do, the bytes taken off the stream are exactly the
        frame of the message that is returned; a failed call has taken what is no frame, or the frame of
        an empty message, whose zero bytes it then failed to read. When the calls are only ever
        interrupted, the outcome is the one of the format. */
    method Recv(msgsize: int) returns (r: int, msg: seq<byte>, ghost taken: seq<byte>)
      modifies this
      ensures old(stream) == taken + stream
      ensures r >= 0 ==> |msg| <= msgsize && Unframe(taken, msgsize) == Message(msg, [])
      ensures r < 0 ==> Unframe(taken, msgsize) == Error([]) || Unframe(taken, msgsize) == Message([], [])
      ensures r == -1 || (r == |msg| && Unframe(old(stream), msgsize) == Message(msg, stream))
      ensures Smooth(old(script)) ==>
                && Smooth(script)
                && Unframe(old(stream), msgsize) == if r < 0 then Error(stream) else Message(msg, stream)
    {
      ghost var s := stream;
      var n, header, _ := FdRead(4);
      if n != 4 { return -1, [], header; }
      assert s[..4] == header && s[4..] == stream;
      assert header[..4] == header && header[4..] == [];
      var size := Scan(header);
      if size == None || size.value > msgsize { return -1, [], header; }
      var k, payload, _ := FdRead(size.value);
      taken := header + payload;
      assert taken[..4] == header;
      if k != size.value { return -1, [], taken; }
      assert s[4..4 + k] == payload && s[4 + k..] == stream;
      return k, payload, taken;
    }
  }

  // ---- Both ends ----

  lemma CutFrames(ms: seq<seq<byte>>, s: seq<byte>, k: nat)
    requires ms != [] && k <= |Frames(ms[1..])|
    ensures s + Frames(ms)[..|Frame(ms[0])| + k] == s + Frame(ms[0]) + Frames(ms[1..])[..k]
  {
    CutSecond(Frame(ms[0]), Frames(ms[1..]), k);
    assert Frame(ms[0])[..|Frame(ms[0])|] == Frame(ms[0]);
  }

  /** Sends every message; stops at the first failure. The stream has grown by a prefix of the frames,
      and by all of them exactly when every send returned 0. */
  method SendAll(c: Sender, ms: seq<seq<byte>>) returns (ok: bool, ghost sent: nat)
    modifies c
    ensures sent <= |Frames(ms)| && c.stream == old(c.stream) + Frames(ms)[..sent]
    ensures ok <==> sent == |Frames(ms)|
    ensures Smooth(old(c.script)) ==> ok
  {
    if ms == [] { return true, 0; }
    ghost var before, n := c.stream, |Frame(ms[0])|;
    var r;
    r, sent := c.Send(ms[0], |ms[0]|);
    assert Payload(ms[0], |ms[0]|) == ms[0];
    if r != 0 {
      CutFirst(Frame(ms[0]), Frames(ms[1..]), sent);
      return false, sent;
    }
    assert Frame(ms[0])[..n] == Frame(ms[0]);
    ok, sent := SendAll(c, ms[1..]);
    CutFrames(ms, before, sent);
    sent := n + sent;
  }

  lemma OneMore(ms: seq<seq<byte>>, m: seq<byte>, s: seq<byte>, rest: seq<byte>, size: int)
    requires Unframe(s, size) == Message(m, rest)
    ensures ms + Unframes(s, size).0 == ms + [m] + Unframes(rest, size).0
  {
  }

  /** Receives until a receive fails. */
  method RecvAll(c: Receiver, size: int) returns (ms: seq<seq<byte>>)
    modifies c
    ensures ms <= Unframes(old(c.stream), size).0
    ensures forall k | 0 <= k < |ms| :: |ms[k]| <= size
    ensures Smooth(old(c.script)) ==> ms == Unframes(old(c.stream), size).0
  {
    ms := [];
    while true
      invariant Unframes(old(c.stream), size).0 == ms + Unframes(c.stream, size).0
      invariant Smooth(old(c.script)) ==> Smooth(c.script)
      invariant forall k | 0 <= k < |ms| :: |ms[k]| <= size
      decreases |c.stream|
    {
      ghost var s := c.stream;
      var r, msg, _ := c.Recv(size);
      if r < 0 { return; }
      OneMore(ms, msg, s, c.stream, size);
      ms := ms + [msg];
    }
  }

  // ---- Both ends at once ----

  lemma {:induction false} FramesConcat(ms: seq<seq<byte>>, ns: seq<seq<byte>>)
    ensures Frames(ms + ns) == Frames(ms) + Frames(ns)
    ensures NonEmpty(ms + ns) == NonEmpty(ms) + NonEmpty(ns)
  {
    if ms == [] {
      assert ms + ns == ns;
    } else {
      assert (ms + ns)[0] == ms[0] && (ms + ns)[1..] == ms[1..] + ns;
      FramesConcat(ms[1..], ns);
      Associate(Frame(ms[0]), Frames(ms[1..]), Frames(ns));
      Associate(if ms[0] == [] then [] else [ms[0]], NonEmpty(ms[1..]), NonEmpty(ns));
    }
  }

  lemma PrependEmpty(ms: seq<seq<byte>>, next: seq<seq<byte>>, todo: seq<seq<byte>>)
    requires ms != [] && ms[0] == [] && ms[1..] == next + todo
    ensures ms == [ms[0]] + next + todo
    ensures Frames([ms[0]] + next) == Frames(next) && NonEmpty([ms[0]] + next) == NonEmpty(next)
  {
    assert ([ms[0]] + next)[1..] == next;
  }

  lemma PrefixCases<T>(s: seq<T>, f: seq<T>, g: seq<T>)
    requires s <= f + g
    ensures if |s| < |f| then s == f[..|s|] else s == f + g[..|s| - |f|]
  {
  }

  lemma FirstFrame(ms: seq<seq<byte>>, s: seq<byte>, m: seq<byte>, rest: seq<byte>, size: int)
    requires ms != [] && 1 <= |ms[0]| < 0x1_0000 && |ms[0]| <= size
    requires s <= Frames(ms) && Unframe(s, size) == Message(m, rest)
    ensures m == ms[0] && s == Frame(ms[0]) + rest
  {
    var later := Frames(ms[1..]);
    PrefixCases(s, Frame(ms[0]), later);
    if |s| < |Frame(ms[0])| {
      UnframeNeedsWholeFrame(ms[0], |s|, size);
      assert false;
    } else {
      FitsRoundTrip(ms[0], later[..|s| - |Frame(ms[0])|], size);
    }
  }

  /** What can be received from the part of the frames that has arrived is the next nonempty message. */
  lemma {:induction false} PrefixYieldsNext(ms: seq<seq<byte>>, s: seq<byte>, m: seq<byte>, rest: seq<byte>, size: int)
    returns (next: seq<seq<byte>>, todo: seq<seq<byte>>)
    requires Sendable(ms, size) && s <= Frames(ms) && Unframe(s, size) == Message(m, rest)
    ensures ms == next + todo && Sendable(todo, size)
    ensures NonEmpty(next) == [m] && s == Frames(next) + rest
  {
    if ms == [] {
      assert false;
    } else if ms[0] == [] {
      assert Frames(ms) == Frames(ms[1..]);
      next, todo := PrefixYieldsNext(ms[1..], s, m, rest, size);
      PrependEmpty(ms, next, todo);
      next := [ms[0]] + next;
    } else {
      FirstFrame(ms, s, m, rest, size);
      next, todo := [ms[0]], ms[1..];
      FramesOne(ms[0]);
    }
  }

  lemma FramesOne(m: seq<byte>)
    ensures Frames([m]) == Frame(m) && NonEmpty([m]) == if m == [] then [] else [m]
  {
    var one := [m];
    assert one[1..] == [];
  }

  lemma CancelPrefix<T>(a: seq<T>, u: seq<T>, f: seq<T>)
    requires a + u <= a + f
    ensures u <= f && (|a + u| == |a + f| ==> u == f)
  {
    forall k | 0 <= k < |u| ensures u[k] == f[k] {
      assert (a + u)[|a| + k] == (a + f)[|a| + k];
    }
  }

  /** What happens next in a conversation: the sender sends its next message, up to k of the bytes sent
      arrive, or the receiver receives. */
  datatype Turn = SendsNext | Arrives(k: nat) | Receives

  /** The receiver has got the nonempty ones of `got`, and what has arrived besides is still unread. */
  ghost predicate Tracks(got: seq<seq<byte>>, received: seq<seq<byte>>, arrived: seq<byte>, unread: seq<byte>) {
    received == NonEmpty(got) && arrived == Frames(got) + unread
  }

  lemma TracksPrefix(got: seq<seq<byte>>, todo: seq<seq<byte>>, received: seq<seq<byte>>,
                     arrived: seq<byte>, unread: seq<byte>)
    requires Tracks(got, received, arrived, unread) && arrived <= Frames(got + todo)
    ensures unread <= Frames(todo) && (|arrived| == |Frames(got + todo)| ==> unread == Frames(todo))
    ensures NonEmpty(got + todo) == received + NonEmpty(todo)
  {
    FramesConcat(got, todo);
    CancelPrefix(Frames(got), unread, Frames(todo));
  }

  lemma TracksMore(got: seq<seq<byte>>, received: seq<seq<byte>>, arrived: seq<byte>, unread: seq<byte>,
                   next: seq<seq<byte>>, m: seq<byte>, rest: seq<byte>)
    requires Tracks(got, received, arrived, unread)
    requires NonEmpty(next) == [m] && unread == Frames(next) + rest
    ensures Tracks(got + next, received + [m], arrived, rest)
  {
    FramesConcat(got, next);
    Associate(Frames(got), Frames(next), rest);
  }

  /** One successful receive. */
  lemma TracksReceive(got: seq<seq<byte>>, todo: seq<seq<byte>>, received: seq<seq<byte>>,
                      arrived: seq<byte>, unread: seq<byte>, m: seq<byte>, rest: seq<byte>, size: int)
    returns (got': seq<seq<byte>>, todo': seq<seq<byte>>)
    requires Sendable(todo, size) && arrived <= Frames(got + todo)
    requires Tracks(got, received, arrived, unread) && Unframe(unread, size) == Message(m, rest)
    ensures got + todo == got' + todo' && Sendable(todo', size)
    ensures Tracks(got', received + [m], arrived, rest)
  {
    TracksPrefix(got, todo, received, arrived, unread);
    var next;
    next, todo' := PrefixYieldsNext(todo, unread, m, rest, size);
    got' := got + next;
    Associate(got, next, todo');
    TracksMore(got, received, arrived, unread, next, m, rest);
  }

  /** More bytes arrive. */
  lemma TracksArrive(got: seq<seq<byte>>, received: seq<seq<byte>>, sent: seq<byte>, a: nat, n: nat, unread: seq<byte>)
    requires a <= n <= |sent| && Tracks(got, received, sent[..a], unread)
    ensures Tracks(got, received, sent[..n], unread + sent[a..n])
  {
    Associate(Frames(got), unread, sent[a..n]);
    assert sent[..n] == sent[..a] + sent[a..n];
  }

  lemma TakeAll<T>(s: seq<T>)
    ensures s[..|s|] == s
  {
  }

  lemma TakeOfLonger<T>(s: seq<T>, s': seq<T>, k: nat)
    requires s <= s' && k <= |s|
    ensures s'[..k] == s[..k]
  {
  }

  lemma TracksArriveAll(got: seq<seq<byte>>, received: seq<seq<byte>>, before: seq<byte>, sent: seq<byte>,
                        a: nat, unread: seq<byte>)
    requires before <= sent && a <= |before| && Tracks(got, received, before[..a], unread)
    ensures Tracks(got, received, sent, unread + sent[a..])
  {
    TakeOfLonger(before, sent, a);
    TracksArrive(got, received, sent, a, |sent|, unread);
    TakeAll(sent);
  }

  /** The first i messages have been sent, unless a send broke off. */
  ghost predicate Sent(ms: seq<seq<byte>>, i: nat, broken: bool, stream: seq<byte>) {
    && i <= |ms|
    && stream <= Frames(ms)
    && (!broken ==> stream == Frames(ms[..i]))
  }

  lemma FramesSplit(ms: seq<seq<byte>>, i: nat)
    requires i <= |ms|
    ensures Frames(ms) == Frames(ms[..i]) + Frames(ms[i..])
  {
    SplitAt(ms, i);
    FramesConcat(ms[..i], ms[i..]);
  }

  lemma SplitAt<T>(s: seq<T>, i: nat)
    requires i <= |s|
    ensures s == s[..i] + s[i..]
    ensures i < |s| ==> s[..i + 1] == s[..i] + [s[i]]
  {
  }

  lemma PrefixOfPart<T>(a: seq<T>, f: seq<T>, k: nat, rest: seq<T>)
    requires k <= |f|
    ensures a + f[..k] <= a + f + rest
  {
  }

  lemma SentMore(ms: seq<seq<byte>>, i: nat, k: nat, sent: seq<byte>)
    requires i < |ms| && k <= |Frame(ms[i])| && Sent(ms, i, false, sent)
    ensures var f := Frame(ms[i]);
            Sent(ms, i + 1, k != |f|, sent + f[..k]) && (k == |f| ==> sent + f[..k] == sent + f)
  {
    SplitAt(ms, i);
    FramesConcat(ms[..i], [ms[i]]);
    FramesOne(ms[i]);
    FramesSplit(ms, i + 1);
    PrefixOfPart(Frames(ms[..i]), Frame(ms[i]), k, Frames(ms[i + 1..]));
    TakeAll(Frame(ms[i]));
  }

  /** Where a conversation stands: sends done, bytes arrived, whether a send or a receive failed. */
  datatype Progress = Progress(i: nat, arrived: nat, broken: bool, cut: bool, received: seq<seq<byte>>)

  ghost predicate Standing(p: Progress, got: seq<seq<byte>>, todo: seq<seq<byte>>, size: int,
                           sent: seq<byte>, unread: seq<byte>) {
    && Sent(got + todo, p.i, p.broken, sent) && p.arrived <= |sent|
    && Sendable(todo, size)
    && p.received <= NonEmpty(got + todo)
    && (!p.cut ==> Tracks(got, p.received, sent[..p.arrived], unread))
  }

  lemma TakeOfConcat<T>(s: seq<T>, f: seq<T>, k: nat)
    requires k <= |s|
    ensures (s + f)[..k] == s[..k]
  {
  }

  /** k bytes of the next frame have been sent. */
  lemma SendStands(p: Progress, ms: seq<seq<byte>>, got: seq<seq<byte>>, todo: seq<seq<byte>>, size: int,
                   sent: seq<byte>, unread: seq<byte>, k: nat)
    requires got + todo == ms && Standing(p, got, todo, size, sent, unread) && !p.broken && p.i < |ms|
    requires k <= |Frame(ms[p.i])|
    ensures var f := Frame(ms[p.i]);
            && Standing(p.(i := p.i + 1, broken := k != |f|), got, todo, size, sent + f[..k], unread)
            && (k == |f| ==> sent + f[..k] == sent + f)
  {
    SentMore(ms, p.i, k, sent);
    TakeOfConcat(sent, Frame(ms[p.i])[..k], p.arrived);
  }

  /** The sender's turn. */
  method SendNext(c: Sender, p: Progress, ms: seq<seq<byte>>, size: int,
                  ghost got: seq<seq<byte>>, ghost todo: seq<seq<byte>>, ghost unread: seq<byte>)
    returns (p': Progress)
    requires got + todo == ms && Standing(p, got, todo, size, c.stream, unread) && !p.broken && p.i < |ms|
    modifies c
    ensures Standing(p', got, todo, size, c.stream, unread)
    ensures p' == p.(i := p.i + 1, broken := p'.broken)
    ensures !p'.broken ==> c.stream == old(c.stream) + Frame(ms[p.i])
    ensures Smooth(old(c.script)) ==> Smooth(c.script) && !p'.broken
  {
    var m := ms[p.i];
    assert Payload(m, |m|) == m;
    var r, k := c.Send(m, |m|);
    SendStands(p, ms, got, todo, size, old(c.stream), unread, k);
    p' := p.(i := p.i + 1, broken := r != 0);
  }

  /** The transport's turn. */
  method ArriveNext(c: Receiver, p: Progress, k: nat, size: int,
                    ghost got: seq<seq<byte>>, ghost todo: seq<seq<byte>>, sent: seq<byte>)
    returns (p': Progress)
    requires Standing(p, got, todo, size, sent, c.stream)
    modifies c`stream
    ensures Standing(p', got, todo, size, sent, c.stream)
    ensures p' == p.(arrived := p.arrived + Min(k, |sent| - p.arrived))
    ensures c.stream == old(c.stream) + sent[p.arrived..p'.arrived]
  {
    var n := p.arrived + Min(k, |sent| - p.arrived);
    if !p.cut { TracksArrive(got, p.received, sent, p.arrived, n, c.stream); }
    c.Arrive(sent[p.arrived..n]);
    p' := p.(arrived := n);
  }

  /** The receiver's turn. */
  method ReceiveNext(c: Receiver, p: Progress, size: int,
                     ghost got: seq<seq<byte>>, ghost todo: seq<seq<byte>>, ghost sent: seq<byte>)
    returns (p': Progress, ghost got': seq<seq<byte>>, ghost todo': seq<seq<byte>>)
    requires Standing(p, got, todo, size, sent, c.stream) && !p.cut
    modifies c
    ensures Standing(p', got', todo', size, sent, c.stream) && p'.broken == p.broken
    ensures got' + todo' == got + todo && p'.i == p.i && p'.arrived == p.arrived
    ensures Smooth(old(c.script)) ==>
              && Smooth(c.script)
              && Unframe(old(c.stream), size).rest == c.stream && p'.cut == Unframe(old(c.stream), size).Error?
  {
    var r, m, _ := c.Recv(size);
    if r < 0 { return p.(cut := true), got, todo; }
    got', todo' := TracksReceive(got, todo, p.received, sent[..p.arrived], old(c.stream), m, c.stream, size);
    p' := p.(received := p.received + [m]);
    TracksPrefix(got', todo', p'.received, sent[..p.arrived], c.stream);
  }

  /** The same turns when no system call fails, on values: what is still to be sent, on its way, and
      arrived but unread, and whether a receive failed. When nothing has arrived a receive waits for a
      later turn. */
  datatype Wire = Wire(unsent: seq<seq<byte>>, flight: seq<byte>, unread: seq<byte>, cut: bool)

  function Turned(w: Wire, turn: Turn, size: int): Wire {
    match turn
    case SendsNext =>
      if w.unsent == [] then w else w.(unsent := w.unsent[1..], flight := w.flight + Frame(w.unsent[0]))
    case Arrives(k) =>
      var n := Min(k, |w.flight|);
      w.(flight := w.flight[n..], unread := w.unread + w.flight[..n])
    case Receives =>
      if w.cut || w.unread == [] then w
      else w.(unread := Unframe(w.unread, size).rest, cut := Unframe(w.unread, size).Error?)
  }

  /** On a healthy connection a receive fails exactly when its frame has not arrived in full, and takes
      exactly that frame otherwise. */
  lemma ReceiveFailsExactlyWhenEarly(w: Wire, m: seq<byte>, later: seq<byte>, size: int)
    requires !w.cut && w.unread != [] && 1 <= |m| < 0x1_0000 && |m| <= size
    requires w.unread <= Frame(m) + later
    ensures Turned(w, Receives, size).cut <==> |w.unread| < |Frame(m)|
    ensures |w.unread| >= |Frame(m)| ==>
              w.unread == Frame(m) + Turned(w, Receives, size).unread && Unframe(w.unread, size).m == m
  {
    PrefixCases(w.unread, Frame(m), later);
    if |w.unread| < |Frame(m)| {
      UnframeNeedsWholeFrame(m, |w.unread|, size);
    } else {
      FitsRoundTrip(m, later[..|w.unread| - |Frame(m)|], size);
    }
  }

  /** Sending the next message and letting it arrive moves its frame to the receiver. */
  lemma MessageArrives(w: Wire, size: int)
    requires w.unsent != [] && w.flight == []
    ensures var f := Frame(w.unsent[0]);
            Turned(Turned(w, SendsNext, size), Arrives(|f|), size) ==
            Wire(w.unsent[1..], [], w.unread + f, w.cut)
  {
    var f := Frame(w.unsent[0]);
    assert [] + f == f;
    TakeAll(f);
  }

  function TurnedAll(w: Wire, turns: seq<Turn>, size: int): Wire {
    if turns == [] then w else Turned(TurnedAll(w, turns[..|turns| - 1], size), turns[|turns| - 1], size)
  }

  ghost predicate Mirrors(w: Wire, p: Progress, ms: seq<seq<byte>>, sent: seq<byte>, unread: seq<byte>) {
    p.i <= |ms| && p.arrived <= |sent| && w == Wire(ms[p.i..], sent[p.arrived..], unread, p.cut)
  }

  lemma DropOfConcat<T>(s: seq<T>, f: seq<T>, k: nat)
    requires k <= |s|
    ensures (s + f)[k..] == s[k..] + f
  {
  }

  lemma DropOneMore<T>(s: seq<T>, k: nat)
    requires k < |s|
    ensures s[k..] != [] && s[k..][0] == s[k] && s[k..][1..] == s[k + 1..]
  {
  }

  lemma MirrorsSend(w: Wire, p: Progress, p': Progress, ms: seq<seq<byte>>, sent: seq<byte>, sent': seq<byte>,
                    unread: seq<byte>, size: int)
    requires Mirrors(w, p, ms, sent, unread) && p'.cut == p.cut && p'.arrived == p.arrived
    requires if p.i < |ms| then p'.i == p.i + 1 && sent' == sent + Frame(ms[p.i]) else p'.i == p.i && sent' == sent
    ensures Mirrors(Turned(w, SendsNext, size), p', ms, sent', unread)
  {
    if p.i < |ms| {
      DropOfConcat(sent, Frame(ms[p.i]), p.arrived);
      DropOneMore(ms, p.i);
    }
  }

  lemma MirrorsArrive(w: Wire, p: Progress, p': Progress, ms: seq<seq<byte>>, sent: seq<byte>,
                      unread: seq<byte>, unread': seq<byte>, k: nat, size: int)
    requires Mirrors(w, p, ms, sent, unread)
    requires p' == p.(arrived := p.arrived + Min(k, |sent| - p.arrived))
    requires unread' == unread + sent[p.arrived..p'.arrived]
    ensures Mirrors(Turned(w, Arrives(k), size), p', ms, sent, unread')
  {
    var n := p'.arrived;
    assert sent[p.arrived..][n - p.arrived..] == sent[n..];
    assert sent[p.arrived..][..n - p.arrived] == sent[p.arrived..n];
  }

  lemma MirrorsReceive(w: Wire, p: Progress, p': Progress, ms: seq<seq<byte>>, sent: seq<byte>,
                       unread: seq<byte>, unread': seq<byte>, size: int)
    requires Mirrors(w, p, ms, sent, unread) && p'.i == p.i && p'.arrived == p.arrived
    requires if p.cut || unread == [] then p'.cut == p.cut && unread' == unread
             else p'.cut == Unframe(unread, size).Error? && unread' == Unframe(unread, size).rest
    ensures Mirrors(Turned(w, Receives, size), p', ms, sent, unread')
  {
  }

  /** One turn, whoever's it is. */
  method TakeTurn(turn: Turn, p: Progress, sender: Sender, receiver: Receiver, ms: seq<seq<byte>>, size: int,
                  ghost got: seq<seq<byte>>, ghost todo: seq<seq<byte>>, ghost w: Wire)
    returns (p': Progress, ghost got': seq<seq<byte>>, ghost todo': seq<seq<byte>>)
    requires got + todo == ms && Standing(p, got, todo, size, sender.stream, receiver.stream)
    modifies sender, receiver
    ensures got' + todo' == ms && Standing(p', got', todo', size, sender.stream, receiver.stream)
    ensures Smooth(old(sender.script)) ==> Smooth(sender.script) && p'.broken == p.broken
    ensures Smooth(old(receiver.script)) ==> Smooth(receiver.script)
    ensures Smooth(old(sender.script)) && Smooth(old(receiver.script)) && !p.broken &&
            Mirrors(w, p, ms, old(sender.stream), old(receiver.stream)) ==>
              Mirrors(Turned(w, turn, size), p', ms, sender.stream, receiver.stream)
  {
    p', got', todo' := p, got, todo;
    ghost var sent, unread := sender.stream, receiver.stream;
    ghost var smooth := Mirrors(w, p, ms, sent, unread) && Smooth(sender.script) && Smooth(receiver.script);
    match turn
    case SendsNext =>
      if !p.broken && p.i < |ms| {
        p' := SendNext(sender, p, ms, size, got, todo, unread);
      }
      if smooth && !p.broken { MirrorsSend(w, p, p', ms, sent, sender.stream, unread, size); }
    case Arrives(k) =>
      p' := ArriveNext(receiver, p, k, size, got, todo, sender.stream);
      if smooth { MirrorsArrive(w, p, p', ms, sent, unread, receiver.stream, k, size); }
    case Receives =>
      if !p.cut && receiver.stream != [] {
        p', got', todo' := ReceiveNext(receiver, p, size, got, todo, sent);
      }
      if smooth { MirrorsReceive(w, p, p', ms, sent, unread, receiver.stream, size); }
  }

  /** All turns. */
  method TakeTurns(sender: Sender, receiver: Receiver, ms: seq<seq<byte>>, size: int, turns: seq<Turn>)
    returns (p: Progress, ghost got: seq<seq<byte>>, ghost todo: seq<seq<byte>>)
    requires Sendable(ms, size) && sender.stream == [] && receiver.stream == []
    modifies sender, receiver
    ensures got + todo == ms && Standing(p, got, todo, size, sender.stream, receiver.stream)
    ensures Smooth(old(sender.script)) ==> Smooth(sender.script) && !p.broken
    ensures Smooth(old(receiver.script)) ==> Smooth(receiver.script)
    ensures Smooth(old(sender.script)) && Smooth(old(receiver.script)) ==>
              p.cut == TurnedAll(Wire(ms, [], [], false), turns, size).cut
  {
    p, got, todo := Progress(0, 0, false, false, []), [], ms;
    ghost var start := Wire(ms, [], [], false);
    for t := 0 to |turns|
      invariant got + todo == ms && Standing(p, got, todo, size, sender.stream, receiver.stream)
      invariant Smooth(old(sender.script)) ==> Smooth(sender.script) && !p.broken
      invariant Smooth(old(receiver.script)) ==> Smooth(receiver.script)
      invariant Smooth(old(sender.script)) && Smooth(old(receiver.script)) ==>
                  Mirrors(TurnedAll(start, turns[..t], size), p, ms, sender.stream, receiver.stream)
    {
      ghost var w := TurnedAll(start, turns[..t], size);
      assert turns[..t + 1][..t] == turns[..t];
      p, got, todo := TakeTurn(turns[t], p, sender, receiver, ms, size, got, todo, w);
    }
    assert turns[..|turns|] == turns;
  }

  /** The sender sends all that is left. */
  method SendRest(c: Sender, ms: seq<seq<byte>>, i: nat)
    requires Sent(ms, i, false, c.stream)
    modifies c
    ensures old(c.stream) <= c.stream <= Frames(ms)
    ensures Smooth(old(c.script)) ==> c.stream == Frames(ms)
  {
    FramesSplit(ms, i);
    var _, sent := SendAll(c, ms[i..]);
    PrefixOfPart(Frames(ms[..i]), Frames(ms[i..]), sent, []);
    assert Frames(ms[i..])[..|Frames(ms[i..])|] == Frames(ms[i..]);
  }

  /** What is still on its way arrives, and the receiver receives all that is left. */
  method ReceiveRest(c: Receiver, p: Progress, size: int, ghost got: seq<seq<byte>>, ghost todo: seq<seq<byte>>,
                     ghost before: seq<byte>, sent: seq<byte>)
    returns (all: seq<seq<byte>>)
    requires Standing(p, got, todo, size, before, c.stream) && !p.cut
    requires before <= sent <= Frames(got + todo)
    modifies c
    ensures all <= NonEmpty(got + todo)
    ensures Smooth(old(c.script)) && sent == Frames(got + todo) ==> all == NonEmpty(got + todo)
  {
    TracksArriveAll(got, p.received, before, sent, p.arrived, c.stream);
    c.Arrive(sent[p.arrived..]);
    TracksPrefix(got, todo, p.received, sent, c.stream);
    assert c.stream == Frames(todo)[..|c.stream|];
    CutStreamYieldsPrefix(todo, |c.stream|, size);
    FramesRoundTrip(todo, size);
    var rest := RecvAll(c, size);
    PrependPrefix(p.received, rest, NonEmpty(todo));
    all := p.received + rest;
  }

  /** A conversation in which sending, transport and receiving interleave in any way: `turns` first, then
      everything that is left. The sender stops when a send fails, the receiver when a receive fails;
      `cut` says that a receive during the turns did. What is received is always a prefix of the nonempty
      messages. When the system calls are only ever interrupted it is all of them, unless a receive
      came when its frame had not arrived in full. */
  method Converse(ms: seq<seq<byte>>, size: int, turns: seq<Turn>, onWrite: seq<Outcome>, onRead: seq<Outcome>)
    returns (received: seq<seq<byte>>, cut: bool)
    requires Sendable(ms, size)
    ensures received <= NonEmpty(ms)
    ensures Smooth(onWrite) && Smooth(onRead) ==>
              && cut == TurnedAll(Wire(ms, [], [], false), turns, size).cut
              && (!cut ==> received == NonEmpty(ms))
  {
    var sender := new Sender(onWrite);
    var receiver := new Receiver([], onRead);
    var p: Progress;
    ghost var got, todo;
    p, got, todo := TakeTurns(sender, receiver, ms, size, turns);
    ghost var before := sender.stream;
    if !p.broken { SendRest(sender, ms, p.i); }
    received, cut := p.received, p.cut;
    if !cut { received := ReceiveRest(receiver, p, size, got, todo, before, sender.stream); }
  }
}
