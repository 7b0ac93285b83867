/**
 * The framed receivers of the host tool (`read_binary_data`,
 * `read_status_data`): wait for a start-marker line or an `ERROR` line,
 * read exactly N raw bytes, then drain advisory trailer lines.
 *
 * The serial port is a finite sequence of events, each being what one
 * `readline`/`read` call returns or one empty poll; the 5 s and 2 s
 * deadlines are budgets of polls.
 */
module Receiver {

  import opened Wrappers
  import opened Text

  /** One thing the port delivers: a text line (raw bytes, newline excluded), a burst of raw bytes, or nothing. */
  datatype Event = Line(raw: seq<bv8>) | Bytes(chunk: seq<bv8>) | Quiet

  /** `decode("utf-8", errors="ignore")` restricted to ASCII: bytes below 0x80 are characters, the rest is dropped. */
  function Decode(raw: seq<bv8>): (s: string)
    ensures |s| <= |raw|
  {
    if raw == [] then ""
    else (if raw[0] < 0x80 then [(raw[0] as int) as char] else []) + Decode(raw[1..])
  }

  /** The stripped text `readline` yields for an event that is waiting. */
  function LineText(e: Event): string
    requires !e.Quiet?
  {
    Strip(Decode(if e.Line? then e.raw else e.chunk))
  }

  /** The bytes `read` sees of an event: a line is its bytes and the newline. */
  function EventBytes(e: Event): seq<bv8>
  {
    match e
    case Line(r) => r + [0x0A]
    case Bytes(c) => c
    case Quiet => []
  }

  /** All bytes of a stream, in order. */
  function Flatten(s: seq<Event>): seq<bv8>
  {
    if s == [] then [] else EventBytes(s[0]) + Flatten(s[1..])
  }

  lemma {:induction false} FlattenAppend(a: seq<Event>, b: seq<Event>)
    ensures Flatten(a + b) == Flatten(a) + Flatten(b)
  {
    if a != [] {
      assert (a + b)[0] == a[0];
      assert (a + b)[1..] == a[1..] + b;
      FlattenAppend(a[1..], b);
    } else {
      assert a + b == b;
    }
  }

  /**
   * What a receiver waits for: two accepted start markers, each with the end
   * marker it selects, and the payload length.
   */
  datatype Frame = Frame(primary: string, primaryEnd: string, legacy: string, legacyEnd: string, size: nat)

  const BinaryFrame := Frame("BINARY_START", "BINARY_END", "BIN_START", "BIN_END", 8192)
  const StatusFrame := Frame("STATUS_START", "STATUS_END", "STATUS_BEGIN", "STATUS_END", 256)

  /** How the wait for the start marker ends. */
  datatype Scan = Started(endMarker: string, rest: seq<Event>) | Aborted(rest: seq<Event>) | TimedOut

  /** What one poll of the marker wait makes of an event. */
  datatype Kind = Idle | StartsPrimary | StartsLegacy | Fails | Other

  function Classify(f: Frame, e: Event): Kind
  {
    if e.Quiet? then Idle
    else
      var line := LineText(e);
      if line == f.primary then StartsPrimary
      else if line == f.legacy then StartsLegacy
      else if Contains(line, "ERROR") then Fails
      else Other
  }

  /** The start-marker wait: one poll per event, `polls` polls before the deadline. */
  function ScanStart(s: seq<Event>, f: Frame, polls: nat): Scan
    decreases polls
  {
    if polls == 0 || s == [] then TimedOut
    else
      match Classify(f, s[0])
      case StartsPrimary => Started(f.primaryEnd, s[1..])
      case StartsLegacy => Started(f.legacyEnd, s[1..])
      case Fails => Aborted(s[1..])
      case _ => ScanStart(s[1..], f, polls - 1)
  }

  /**
   * The payload loop: repeated `read(remaining)` until `n` bytes are in.
   * It takes exactly the first `n` bytes of the stream and leaves the rest.
   */
  function TakePayload(s: seq<Event>, n: nat): (r: (seq<bv8>, seq<Event>))
    requires n <= |Flatten(s)|
    ensures r.0 == Flatten(s)[..n]
    ensures Flatten(r.1) == Flatten(s)[n..]
    decreases |s|
  {
    if n == 0 then ([], s)
    else
      var b := EventBytes(s[0]);
      var tail := Flatten(s[1..]);
      assert Flatten(s) == b + tail;
      if |b| <= n then
        var t := TakePayload(s[1..], n - |b|);
        PrefixSplit(b, tail, n);
        (b + t.0, t.1)
      else
        FlattenCons(Bytes(b[n..]), s[1..]);
        assert Flatten(s)[n..] == b[n..] + tail;
        (b[..n], [Bytes(b[n..])] + s[1..])
  }

  lemma FlattenCons(e: Event, s: seq<Event>)
    ensures Flatten([e] + s) == EventBytes(e) + Flatten(s)
  {
    assert ([e] + s)[1..] == s;
  }

  /** Taking `n` bytes across a boundary: the whole head, then `n - |b|` of the tail. */
  lemma PrefixSplit(b: seq<bv8>, tail: seq<bv8>, n: nat)
    requires |b| <= n <= |b| + |tail|
    ensures (b + tail)[..n] == b + tail[..n - |b|]
    ensures (b + tail)[n..] == tail[n - |b|..]
  {
  }

  /** The source's payload loop never times out: the stream must hold the whole payload once the marker is seen. */
  predicate PayloadReady(s: seq<Event>, f: Frame, polls: nat) {
    var sc := ScanStart(s, f, polls);
    sc.Started? ==> f.size <= |Flatten(sc.rest)|
  }

  /** The value the receiver returns. */
  function Outcome(s: seq<Event>, f: Frame, polls: nat): Option<seq<bv8>>
    requires PayloadReady(s, f, polls)
  {
    match ScanStart(s, f, polls)
    case Started(_, rest) => Some(TakePayload(rest, f.size).0)
    case _ => None
  }

  /** Waiting for the trailer: up to `polls` empty polls are skipped. */
  function DrainWait(s: seq<Event>, polls: nat): seq<Event>
    decreases polls
  {
    if polls == 0 || s == [] || !s[0].Quiet? then s else DrainWait(s[1..], polls - 1)
  }

  /** Reading trailer lines while any are waiting: whether the end marker was among them, and what is left. */
  function DrainLines(s: seq<Event>, endMarker: string): (bool, seq<Event>)
  {
    if s == [] || s[0].Quiet? then (false, s)
    else
      var t := DrainLines(s[1..], endMarker);
      (LineText(s[0]) == endMarker || t.0, t.1)
  }

  /** The start-marker loop: the end marker the start marker selects, or None on ERROR or timeout. */
  method WaitForStart(stream: seq<Event>, f: Frame, markerPolls: nat)
    returns (endMarker: Option<string>, rest: seq<Event>)
    ensures (match ScanStart(stream, f, markerPolls)
             case Started(e, r) => endMarker == Some(e) && rest == r
             case Aborted(r) => endMarker == None && rest == r
             case TimedOut => endMarker == None)
  {
    rest := stream;
    var polls := markerPolls;
    endMarker := None;
    while polls > 0
      invariant ScanStart(rest, f, polls) == ScanStart(stream, f, markerPolls)
      decreases polls
    {
      if rest != [] && !rest[0].Quiet? {
        var line := LineText(rest[0]);
        rest := rest[1..];
        if line == f.primary {
          endMarker := Some(f.primaryEnd);
          return;
        }
        if line == f.legacy {
          endMarker := Some(f.legacyEnd);
          return;
        }
        if Contains(line, "ERROR") {
          return;
        }
      } else if rest != [] {
        rest := rest[1..];
      }
      polls := polls - 1;
    }
  }

  /** One `read(remaining)`: a burst no longer than what is missing is taken whole, a longer one is split. */
  lemma TakeStep(s: seq<Event>, want: nat)
    requires 0 < want <= |Flatten(s)|
    ensures s != []
    ensures var b := EventBytes(s[0]);
      |b| <= want ==> (want - |b| <= |Flatten(s[1..])| &&
                       TakePayload(s, want) == (b + TakePayload(s[1..], want - |b|).0, TakePayload(s[1..], want - |b|).1))
    ensures var b := EventBytes(s[0]);
      |b| > want ==> TakePayload(s, want) == (b[..want], [Bytes(b[want..])] + s[1..])
  {
    assert s != [];
    assert Flatten(s) == EventBytes(s[0]) + Flatten(s[1..]);
  }

  /** The payload loop: `read(remaining)` until `n` bytes are in; a partly read burst stays at the head. */
  method ReadPayload(stream: seq<Event>, n: nat) returns (buf: seq<bv8>, rest: seq<Event>)
    requires n <= |Flatten(stream)|
    ensures (buf, rest) == TakePayload(stream, n)
    ensures |buf| == n
  {
    rest := stream;
    buf := [];
    while |buf| < n
      invariant |buf| <= n
      invariant n - |buf| <= |Flatten(rest)|
      invariant buf + TakePayload(rest, n - |buf|).0 == TakePayload(stream, n).0
      invariant TakePayload(rest, n - |buf|).1 == TakePayload(stream, n).1
      decreases n - |buf| + |rest|
    {
      var want := n - |buf|;
      TakeStep(rest, want);
      var b := EventBytes(rest[0]);
      ghost var t := TakePayload(rest, want);
      var chunk: seq<bv8>;
      if |b| <= want {
        chunk := b;
        rest := rest[1..];
        assert buf + chunk + TakePayload(rest, want - |b|).0 == buf + t.0;
      } else {
        chunk := b[..want];
        rest := [Bytes(b[want..])] + rest[1..];
        assert TakePayload(rest, 0) == ([], rest);
        assert buf + chunk + [] == buf + t.0;
      }
      buf := buf + chunk;
    }
    assert TakePayload(rest, 0) == ([], rest);
    assert buf + [] == buf;
  }

  /** The trailer: wait for lines for up to `drainPolls` empty polls, then read lines while any are waiting. */
  method DrainTrailer(stream: seq<Event>, endMarker: string, drainPolls: nat) returns (endSeen: bool, rest: seq<Event>)
    ensures (endSeen, rest) == DrainLines(DrainWait(stream, drainPolls), endMarker)
  {
    rest := stream;
    var waits := drainPolls;
    while waits > 0 && rest != [] && rest[0].Quiet?
      invariant DrainWait(rest, waits) == DrainWait(stream, drainPolls)
      decreases waits
    {
      rest := rest[1..];
      waits := waits - 1;
    }
    ghost var drained := rest;
    endSeen := false;
    while rest != [] && !rest[0].Quiet?
      invariant DrainLines(drained, endMarker) == (endSeen || DrainLines(rest, endMarker).0, DrainLines(rest, endMarker).1)
      decreases |rest|
    {
      var line := LineText(rest[0]);
      rest := rest[1..];
      if line == endMarker {
        endSeen := true;
      }
    }
  }

  /**
   * One transfer: marker wait, payload, trailer. `endSeen` stands for the
   * "end marker recognised" log line; `rest` is what stays unread. The
   * payload loop always ends with exactly `f.size` bytes, so the source's
   * final length test never rejects.
   */
  method ReceiveFramed(stream: seq<Event>, f: Frame, markerPolls: nat, drainPolls: nat)
    returns (data: Option<seq<bv8>>, endSeen: bool, rest: seq<Event>)
    requires PayloadReady(stream, f, markerPolls)
    ensures data == Outcome(stream, f, markerPolls)
    ensures data.Some? ==> |data.value| == f.size
    ensures var sc := ScanStart(stream, f, markerPolls);
      sc.Started? ==> (endSeen, rest) == DrainLines(DrainWait(TakePayload(sc.rest, f.size).1, drainPolls), sc.endMarker)
    ensures var sc := ScanStart(stream, f, markerPolls);
      sc.Aborted? ==> !endSeen && rest == sc.rest
    ensures ScanStart(stream, f, markerPolls).TimedOut? ==> !endSeen
  {
    var endMarker: Option<string>;
    endMarker, rest := WaitForStart(stream, f, markerPolls);
    if endMarker.None? {
      data, endSeen := None, false;
    } else {
      var buf: seq<bv8>;
      buf, rest := ReadPayload(rest, f.size);
      data := Some(buf);
      endSeen, rest := DrainTrailer(rest, endMarker.value, drainPolls);
    }
  }

  /** `read_binary_data`: 8192 bytes framed by BINARY_START/BINARY_END or BIN_START/BIN_END. */
  method ReadBinaryData(stream: seq<Event>, markerPolls: nat, drainPolls: nat)
    returns (data: Option<seq<bv8>>, endSeen: bool)
    requires PayloadReady(stream, BinaryFrame, markerPolls)
    ensures data == Outcome(stream, BinaryFrame, markerPolls)
    ensures data.Some? ==> |data.value| == 8192
  {
    var rest;
    data, endSeen, rest := ReceiveFramed(stream, BinaryFrame, markerPolls, drainPolls);
  }

  /** `read_status_data`: 256 bytes framed by STATUS_START or STATUS_BEGIN, ended by STATUS_END. */
  method ReadStatusData(stream: seq<Event>, markerPolls: nat, drainPolls: nat)
    returns (data: Option<seq<bv8>>, endSeen: bool)
    requires PayloadReady(stream, StatusFrame, markerPolls)
    ensures data == Outcome(stream, StatusFrame, markerPolls)
    ensures data.Some? ==> |data.value| == 256
  {
    var rest;
    data, endSeen, rest := ReceiveFramed(stream, StatusFrame, markerPolls, drainPolls);
  }

  // ---------------------------------------------------------------------------
  // Properties of the marker wait and the payload

  /** An event that neither starts nor aborts the transfer. */
  predicate Inert(f: Frame, e: Event) {
    Classify(f, e).Idle? || Classify(f, e).Other?
  }

  /** Inert events before the deadline only use up polls. */
  lemma {:induction false} ScanSkipsInert(pre: seq<Event>, post: seq<Event>, f: Frame, polls: nat)
    requires forall i :: 0 <= i < |pre| ==> Inert(f, pre[i])
    requires |pre| < polls
    ensures ScanStart(pre + post, f, polls) == ScanStart(post, f, polls - |pre|)
  {
    if pre != [] {
      assert (pre + post)[0] == pre[0];
      assert (pre + post)[1..] == pre[1..] + post;
      ScanSkipsInert(pre[1..], post, f, polls - 1);
    } else {
      assert pre + post == post;
    }
  }

  /** A start marker seen in time selects its own end marker: the primary one for the primary marker, the legacy one for the legacy alias. */
  lemma MarkerSelectsEnd(pre: seq<Event>, e: Event, post: seq<Event>, f: Frame, polls: nat)
    requires forall i :: 0 <= i < |pre| ==> Inert(f, pre[i])
    requires |pre| < polls
    requires Classify(f, e) == StartsPrimary || Classify(f, e) == StartsLegacy
    ensures ScanStart(pre + [e] + post, f, polls) == Started(if Classify(f, e) == StartsPrimary then f.primaryEnd else f.legacyEnd, post)
  {
    assert pre + [e] + post == pre + ([e] + post);
    ScanSkipsInert(pre, [e] + post, f, polls);
    assert ([e] + post)[1..] == post;
  }

  /** `BIN_START` makes the binary receiver expect `BIN_END`, never `BINARY_END`. */
  lemma LegacyBinaryMarker(pre: seq<Event>, e: Event, post: seq<Event>, polls: nat)
    requires forall i :: 0 <= i < |pre| ==> Inert(BinaryFrame, pre[i])
    requires |pre| < polls
    requires !e.Quiet? && LineText(e) == "BIN_START"
    ensures ScanStart(pre + [e] + post, BinaryFrame, polls) == Started("BIN_END", post)
  {
    MarkerSelectsEnd(pre, e, post, BinaryFrame, polls);
  }

  /** Both status markers make the status receiver expect `STATUS_END`. */
  lemma StatusMarkers(pre: seq<Event>, e: Event, post: seq<Event>, polls: nat)
    requires forall i :: 0 <= i < |pre| ==> Inert(StatusFrame, pre[i])
    requires |pre| < polls
    requires !e.Quiet? && (LineText(e) == "STATUS_START" || LineText(e) == "STATUS_BEGIN")
    ensures ScanStart(pre + [e] + post, StatusFrame, polls) == Started("STATUS_END", post)
  {
    MarkerSelectsEnd(pre, e, post, StatusFrame, polls);
  }

  /**
   * A line containing ERROR ends the wait at the poll that read it: nothing
   * after it is looked at and the transfer yields nothing, however much
   * time is left.
   */
  lemma ErrorLineAborts(pre: seq<Event>, e: Event, post: seq<Event>, f: Frame, polls: nat)
    requires forall i :: 0 <= i < |pre| ==> Inert(f, pre[i])
    requires |pre| < polls
    requires Classify(f, e) == Fails
    ensures ScanStart(pre + [e] + post, f, polls) == Aborted(post)
    ensures Outcome(pre + [e] + post, f, polls) == None
  {
    assert pre + [e] + post == pre + ([e] + post);
    ScanSkipsInert(pre, [e] + post, f, polls);
    assert ([e] + post)[1..] == post;
  }

  /** No start marker and no ERROR line within the poll budget: the transfer yields nothing. */
  lemma {:induction false} NoMarkerTimesOut(s: seq<Event>, f: Frame, polls: nat)
    requires forall i :: 0 <= i < |s| && i < polls ==> Inert(f, s[i])
    ensures ScanStart(s, f, polls) == TimedOut
    ensures Outcome(s, f, polls) == None
    decreases polls
  {
    if polls > 0 && s != [] {
      assert Inert(f, s[0]);
      NoMarkerTimesOut(s[1..], f, polls - 1);
    }
  }

  /** Once the wait has started or aborted, later arrivals make no difference to how it ended. */
  lemma {:induction false} ScanIgnoresLater(s: seq<Event>, t: seq<Event>, f: Frame, polls: nat)
    requires !ScanStart(s, f, polls).TimedOut?
    ensures ScanStart(s, f, polls).Started? ==>
      ScanStart(s + t, f, polls) == Started(ScanStart(s, f, polls).endMarker, ScanStart(s, f, polls).rest + t)
    ensures ScanStart(s, f, polls).Aborted? ==>
      ScanStart(s + t, f, polls) == Aborted(ScanStart(s, f, polls).rest + t)
    decreases polls
  {
    assert s != [] && polls > 0;
    assert (s + t)[0] == s[0];
    assert (s + t)[1..] == s[1..] + t;
    if Inert(f, s[0]) {
      ScanIgnoresLater(s[1..], t, f, polls - 1);
    }
  }

  /** The result of a transfer that started does not depend on anything after the payload: trailer lines are only logged. */
  lemma ResultIgnoresTrailer(s: seq<Event>, trailer: seq<Event>, f: Frame, polls: nat)
    requires ScanStart(s, f, polls).Started?
    requires PayloadReady(s, f, polls)
    ensures PayloadReady(s + trailer, f, polls)
    ensures Outcome(s + trailer, f, polls) == Outcome(s, f, polls)
  {
    var sc := ScanStart(s, f, polls);
    ScanIgnoresLater(s, trailer, f, polls);
    assert ScanStart(s + trailer, f, polls) == Started(sc.endMarker, sc.rest + trailer);
    FlattenAppend(sc.rest, trailer);
    var whole := Flatten(sc.rest + trailer);
    assert whole[..f.size] == Flatten(sc.rest)[..f.size];
    assert TakePayload(sc.rest + trailer, f.size).0 == TakePayload(sc.rest, f.size).0;
  }

  /** A marker, then exactly the payload in any chunking, then any trailer: the receiver returns that payload. */
  lemma CompleteTransfer(pre: seq<Event>, e: Event, payload: seq<Event>, trailer: seq<Event>, f: Frame, polls: nat)
    requires forall i :: 0 <= i < |pre| ==> Inert(f, pre[i])
    requires |pre| < polls
    requires Classify(f, e) == StartsPrimary || Classify(f, e) == StartsLegacy
    requires |Flatten(payload)| == f.size
    ensures PayloadReady(pre + [e] + payload + trailer, f, polls)
    ensures Outcome(pre + [e] + payload + trailer, f, polls) == Some(Flatten(payload))
  {
    var s := pre + [e] + (payload + trailer);
    assert pre + [e] + payload + trailer == s;
    MarkerSelectsEnd(pre, e, payload + trailer, f, polls);
    FlattenAppend(payload, trailer);
  }
}
