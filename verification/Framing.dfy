/** The framing loops of internal/listener/client_listener.go and internal/listener/gs_listener.go, on one buffer, and the
    frames PrependLength makes. */
module Framing {
  import opened Blowfish
  import opened Crypts
  import opened Words

  /** A finished packet: the total length, then the body. */
  function Frame(body: seq<byte>): (f: seq<byte>)
    requires |body| + 2 < 0x1_0000
    ensures |f| == |body| + 2
  {
    Le16(|body| + 2) + body
  }

  /** The length in front counts itself and is little-endian. */
  lemma FrameMeaning(body: seq<byte>)
    requires |body| + 2 < 0x1_0000
    ensures LittleEndian(Frame(body)[..2]) == |Frame(body)| == |body| + 2 && Frame(body)[2..] == body
  {
    hide LittleEndian;
    PackedValues(|body| + 2, 0, 0);
    assert Frame(body)[..2] == Le16(|body| + 2);
  }

  function Frames(bodies: seq<seq<byte>>): seq<byte>
    requires forall i :: 0 <= i < |bodies| ==> |bodies[i]| + 2 < 0x1_0000
  {
    if bodies == [] then [] else Frame(bodies[0]) + Frames(bodies[1..])
  }

  /** What the listener makes of one frame's body. */
  datatype Opened = Payload(bytes: seq<byte>) | Refused | OutOfRange

  /** How a call of OnTraffic ends: waiting for more, closing, or a slice expression out of range. */
  datatype Action = Wait | Close | Panic

  /** The payloads handed to the packet handlers, the bytes discarded from the buffer, and the outcome. */
  datatype Drained = Drained(payloads: seq<seq<byte>>, consumed: nat, action: Action)

  /** The loop. `accepts` says whether the handler of the last payload reported no error, given all payloads so far. */
  function Drain(open: seq<byte> -> Opened, accepts: seq<seq<byte>> -> bool, buf: seq<byte>, done: seq<seq<byte>>,
                 consumed: nat): Drained
    decreases |buf|
  {
    if |buf| < 2 then Drained(done, consumed, Wait)
    else
      var size := U16(buf[0], buf[1]);
      if |buf| < size then Drained(done, consumed, Wait)
      else if size < 2 then Drained(done, consumed, Panic)
      else
        match open(buf[2..size])
        case Refused => Drained(done, consumed, Close)
        case OutOfRange => Drained(done, consumed, Panic)
        case Payload(p) =>
          var all := done + [p];
          if !accepts(all) then Drained(all, consumed, Close)
          else Drain(open, accepts, buf[size..], all, consumed + size)
  }

  /** One turn of the loop. */
  lemma DrainTurn(open: seq<byte> -> Opened, accepts: seq<seq<byte>> -> bool, buf: seq<byte>, done: seq<seq<byte>>,
                  consumed: nat)
    requires |buf| >= 2 && 2 <= U16(buf[0], buf[1]) <= |buf|
    ensures var size := U16(buf[0], buf[1]);
            Drain(open, accepts, buf, done, consumed) ==
            match open(buf[2..size])
            case Refused => Drained(done, consumed, Close)
            case OutOfRange => Drained(done, consumed, Panic)
            case Payload(p) =>
              if !accepts(done + [p]) then Drained(done + [p], consumed, Close)
              else Drain(open, accepts, buf[size..], done + [p], consumed + size)
  {
  }

  /** The turns that stop the loop without reading a body. */
  lemma DrainStops(open: seq<byte> -> Opened, accepts: seq<seq<byte>> -> bool, buf: seq<byte>, done: seq<seq<byte>>,
                   consumed: nat)
    ensures |buf| < 2 || |buf| < U16(buf[0], buf[1]) ==>
              Drain(open, accepts, buf, done, consumed) == Drained(done, consumed, Wait)
    ensures |buf| >= 2 && U16(buf[0], buf[1]) < 2 ==>
              Drain(open, accepts, buf, done, consumed) == Drained(done, consumed, Panic)
  {
  }

  /** A client packet is deciphered; an empty or ragged one is refused. */
  ghost function ClientOpen(k: Schedule): seq<byte> -> Opened {
    body => if |body| % 8 != 0 || |body| == 0 then Refused else Payload(MapRange(DecFn(k), body, 0, |body|))
  }

  /** A client's body is refused exactly if it is empty or ragged; otherwise it is deciphered block by block. */
  lemma ClientOpens(k: Schedule, body: seq<byte>, j: nat)
    ensures ClientOpen(k)(body).Refused? <==> |body| == 0 || |body| % 8 != 0
    ensures !ClientOpen(k)(body).Refused? && 8 * j + 8 <= |body| ==>
              ClientOpen(k)(body).Payload? && |ClientOpen(k)(body).bytes| == |body|
              && var (x, y) := Dec(k, Word(body, 8 * j), Word(body, 8 * j + 4));
                 ClientOpen(k)(body).bytes[8 * j..8 * j + 8] == Le32(x) + Le32(y)
  {
    hide MapRange, Word, Le32, Dec;
    if 8 * j + 8 <= |body| {
      RangeBlock(DecFn(k), body, 0, |body|, j);
    }
  }

  /** A game-server packet is taken as it is; reading the opcode of an empty one is out of range. */
  function ServerOpen(): seq<byte> -> Opened {
    body => if |body| == 0 then OutOfRange else Payload(body)
  }

  lemma FrameHeader(body: seq<byte>, rest: seq<byte>)
    requires |body| + 2 < 0x1_0000
    ensures var b := Frame(body) + rest;
            U16(b[0], b[1]) == |body| + 2 && b[2..|body| + 2] == body && b[|body| + 2..] == rest
  {
  }

  /** The start of a frame that has not arrived in full. */
  ghost predicate Incomplete(partial: seq<byte>) {
    exists body: seq<byte> :: |body| + 2 < 0x1_0000 && partial < Frame(body)
  }

  lemma DrainIncomplete(open: seq<byte> -> Opened, accepts: seq<seq<byte>> -> bool, partial: seq<byte>,
                        done: seq<seq<byte>>, consumed: nat)
    requires Incomplete(partial)
    ensures Drain(open, accepts, partial, done, consumed) == Drained(done, consumed, Wait)
  {
    var body: seq<byte> :| |body| + 2 < 0x1_0000 && partial < Frame(body);
    if |partial| >= 2 {
      assert partial[..2] == Frame(body)[..2] == Le16(|body| + 2);
      assert partial[0] == Frame(body)[0] && partial[1] == Frame(body)[1];
    }
  }

  /** What the handlers should see of a list of bodies: each one opened and handled in turn, up to the first that is
      refused, malformed or not accepted. */
  function HandleAll(open: seq<byte> -> Opened, accepts: seq<seq<byte>> -> bool, bodies: seq<seq<byte>>,
                     done: seq<seq<byte>>, consumed: nat): Drained
    decreases |bodies|
  {
    if bodies == [] then Drained(done, consumed, Wait)
    else
      match open(bodies[0])
      case Refused => Drained(done, consumed, Close)
      case OutOfRange => Drained(done, consumed, Panic)
      case Payload(p) =>
        var all := done + [p];
        if !accepts(all) then Drained(all, consumed, Close)
        else HandleAll(open, accepts, bodies[1..], all, consumed + |bodies[0]| + 2)
  }

  /** On complete frames followed by an incomplete one the loop does exactly what handling the bodies one by one does:
      frame boundaries are never lost, and nothing of the incomplete frame is touched. */
  lemma {:induction false} DrainFrames(open: seq<byte> -> Opened, accepts: seq<seq<byte>> -> bool,
                                       bodies: seq<seq<byte>>, partial: seq<byte>, done: seq<seq<byte>>, consumed: nat)
    requires Incomplete(partial)
    requires forall i :: 0 <= i < |bodies| ==> |bodies[i]| + 2 < 0x1_0000
    ensures Drain(open, accepts, Frames(bodies) + partial, done, consumed)
            == HandleAll(open, accepts, bodies, done, consumed)
    decreases |bodies|
  {
    hide Frame, Incomplete, Drain;
    if bodies == [] {
      assert Frames(bodies) + partial == partial;
      DrainIncomplete(open, accepts, partial, done, consumed);
    } else {
      var body := bodies[0];
      var rest := Frames(bodies[1..]) + partial;
      assert Frames(bodies) + partial == Frame(body) + rest;
      FrameHeader(body, rest);
      DrainTurn(open, accepts, Frame(body) + rest, done, consumed);
      if open(body).Payload? {
        DrainFrames(open, accepts, bodies[1..], partial, done + [open(body).bytes], consumed + |body| + 2);
      }
    }
  }

  /** Every body opens to the payload named for it and every handler call succeeds. */
  ghost predicate AllSucceed(open: seq<byte> -> Opened, accepts: seq<seq<byte>> -> bool, bodies: seq<seq<byte>>,
                             payloads: seq<seq<byte>>, done: seq<seq<byte>>)
    requires |payloads| == |bodies|
  {
    bodies != [] ==>
      open(bodies[0]) == Payload(payloads[0]) && accepts(done + [payloads[0]])
      && AllSucceed(open, accepts, bodies[1..], payloads[1..], done + [payloads[0]])
  }

  lemma {:induction false} HandleAllSucceeds(open: seq<byte> -> Opened, accepts: seq<seq<byte>> -> bool,
                                             bodies: seq<seq<byte>>, payloads: seq<seq<byte>>, done: seq<seq<byte>>,
                                             consumed: nat)
    requires |payloads| == |bodies| && AllSucceed(open, accepts, bodies, payloads, done)
    requires forall i :: 0 <= i < |bodies| ==> |bodies[i]| + 2 < 0x1_0000
    ensures HandleAll(open, accepts, bodies, done, consumed)
            == Drained(done + payloads, consumed + |Frames(bodies)|, Wait)
    decreases |bodies|
  {
    hide Frame;
    if bodies == [] {
      assert done + payloads == done;
    } else {
      HandleAllSucceeds(open, accepts, bodies[1..], payloads[1..], done + [payloads[0]], consumed + |bodies[0]| + 2);
      assert done + [payloads[0]] + payloads[1..] == done + payloads;
    }
  }

  /** The loop hands over exactly the payloads of the complete frames, in order, and stops at the incomplete one. */
  lemma DeliversInOrder(open: seq<byte> -> Opened, accepts: seq<seq<byte>> -> bool, bodies: seq<seq<byte>>,
                        payloads: seq<seq<byte>>, partial: seq<byte>)
    requires Incomplete(partial) && |payloads| == |bodies| && AllSucceed(open, accepts, bodies, payloads, [])
    requires forall i :: 0 <= i < |bodies| ==> |bodies[i]| + 2 < 0x1_0000
    ensures Drain(open, accepts, Frames(bodies) + partial, [], 0) == Drained(payloads, |Frames(bodies)|, Wait)
  {
    DrainFrames(open, accepts, bodies, partial, [], 0);
    HandleAllSucceeds(open, accepts, bodies, payloads, [], 0);
    assert [] + payloads == payloads;
  }

  // ---- When a slice expression is out of range ----

  /** Every body opens and every handler call succeeds. */
  ghost predicate AllHandled(open: seq<byte> -> Opened, accepts: seq<seq<byte>> -> bool, bodies: seq<seq<byte>>,
                             done: seq<seq<byte>>)
    decreases |bodies|
  {
    bodies != [] ==>
      open(bodies[0]).Payload? && accepts(done + [open(bodies[0]).bytes])
      && AllHandled(open, accepts, bodies[1..], done + [open(bodies[0]).bytes])
  }

  /** A frame announced in full that is too short to have a body, or whose body is too short for the listener. */
  ghost predicate Faulty(open: seq<byte> -> Opened, tail: seq<byte>) {
    |tail| >= 2 && var n := U16(tail[0], tail[1]);
    n <= |tail| && (n < 2 || open(tail[2..n]).OutOfRange?)
  }

  /** Frames that are handled, and then a faulty one. */
  ghost predicate FaultAfter(open: seq<byte> -> Opened, accepts: seq<seq<byte>> -> bool, buf: seq<byte>,
                             done: seq<seq<byte>>, bodies: seq<seq<byte>>, tail: seq<byte>)
  {
    && (forall i :: 0 <= i < |bodies| ==> |bodies[i]| + 2 < 0x1_0000)
    && buf == Frames(bodies) + tail && AllHandled(open, accepts, bodies, done) && Faulty(open, tail)
  }

  lemma {:induction false} FaultPanics(open: seq<byte> -> Opened, accepts: seq<seq<byte>> -> bool, buf: seq<byte>,
                                       done: seq<seq<byte>>, consumed: nat, bodies: seq<seq<byte>>, tail: seq<byte>)
    requires FaultAfter(open, accepts, buf, done, bodies, tail)
    ensures Drain(open, accepts, buf, done, consumed).action == Panic
    decreases |bodies|
  {
    hide Frame, Drain;
    if bodies == [] {
      assert buf == tail;
      FaultStops(open, accepts, tail, done, consumed);
    } else {
      var (body, rest) := (bodies[0], Frames(bodies[1..]) + tail);
      assert buf == Frame(body) + rest;
      FrameHeader(body, rest);
      DrainTurn(open, accepts, buf, done, consumed);
      FaultPanics(open, accepts, rest, done + [open(body).bytes], consumed + |body| + 2, bodies[1..], tail);
    }
  }

  lemma FaultStops(open: seq<byte> -> Opened, accepts: seq<seq<byte>> -> bool, tail: seq<byte>, done: seq<seq<byte>>,
                   consumed: nat)
    requires Faulty(open, tail)
    ensures Drain(open, accepts, tail, done, consumed).action == Panic
  {
  }

  /** A buffer that starts with a whole frame is that frame and the rest. */
  lemma FirstFrame(buf: seq<byte>)
    requires |buf| >= 2 && 2 <= U16(buf[0], buf[1]) <= |buf|
    ensures var n := U16(buf[0], buf[1]); buf == Frame(buf[2..n]) + buf[n..]
  {
    var n := U16(buf[0], buf[1]);
    Le16OfU16(buf[0], buf[1]);
    assert buf == [buf[0], buf[1]] + buf[2..n] + buf[n..];
  }

  lemma {:induction false} PanicFault(open: seq<byte> -> Opened, accepts: seq<seq<byte>> -> bool, buf: seq<byte>,
                                      done: seq<seq<byte>>, consumed: nat)
    returns (bodies: seq<seq<byte>>, tail: seq<byte>)
    requires Drain(open, accepts, buf, done, consumed).action == Panic
    ensures FaultAfter(open, accepts, buf, done, bodies, tail)
    decreases |buf|
  {
    hide Frame, Drain;
    DrainStops(open, accepts, buf, done, consumed);
    var n := U16(buf[0], buf[1]);
    if Faulty(open, buf) {
      bodies, tail := [], buf;
      assert Frames([]) + buf == buf;
    } else {
      var body := buf[2..n];
      DrainTurn(open, accepts, buf, done, consumed);
      FirstFrame(buf);
      var rest;
      rest, tail := PanicFault(open, accepts, buf[n..], done + [open(body).bytes], consumed + n);
      bodies := [body] + rest;
      assert bodies[1..] == rest;
      assert buf == Frame(body) + (Frames(rest) + tail) == Frames(bodies) + tail;
    }
  }

  /** The loop runs out of range if and only if the bytes are some frames that are handled and then a faulty one. */
  lemma PanicExact(open: seq<byte> -> Opened, accepts: seq<seq<byte>> -> bool, buf: seq<byte>, done: seq<seq<byte>>,
                   consumed: nat)
    ensures Drain(open, accepts, buf, done, consumed).action == Panic
            <==> exists bodies, tail :: FaultAfter(open, accepts, buf, done, bodies, tail)
  {
    if Drain(open, accepts, buf, done, consumed).action == Panic {
      var bodies, tail := PanicFault(open, accepts, buf, done, consumed);
    }
    if bodies, tail :| FaultAfter(open, accepts, buf, done, bodies, tail) {
      FaultPanics(open, accepts, buf, done, consumed, bodies, tail);
    }
  }

  /** The payloads of bodies that all open. */
  function Payloads(open: seq<byte> -> Opened, bodies: seq<seq<byte>>): seq<seq<byte>> {
    if bodies == [] then []
    else (if open(bodies[0]).Payload? then [open(bodies[0]).bytes] else []) + Payloads(open, bodies[1..])
  }

  /** The loop stops at this tail of the bytes, for this reason, after these payloads. */
  ghost predicate StopsAt(open: seq<byte> -> Opened, accepts: seq<seq<byte>> -> bool, tail: seq<byte>,
                          handled: seq<seq<byte>>, d: Drained)
  {
    match d.action
    case Wait => d.payloads == handled && (|tail| < 2 || |tail| < U16(tail[0], tail[1]))
    case Panic => d.payloads == handled && Faulty(open, tail)
    case Close =>
      && |tail| >= 2 && 2 <= U16(tail[0], tail[1]) <= |tail|
      && var o := open(tail[2..U16(tail[0], tail[1])]);
         (o.Refused? && d.payloads == handled)
         || (o.Payload? && d.payloads == handled + [o.bytes] && !accepts(handled + [o.bytes]))
  }

  /** Every run of the loop, on any bytes: some whole frames are opened, accepted and discarded, and the rest begins with
      what made it stop. */
  lemma {:induction false} DrainDecomposes(open: seq<byte> -> Opened, accepts: seq<seq<byte>> -> bool, buf: seq<byte>,
                                           done: seq<seq<byte>>, consumed: nat)
    returns (bodies: seq<seq<byte>>, tail: seq<byte>)
    ensures forall i :: 0 <= i < |bodies| ==> |bodies[i]| + 2 < 0x1_0000
    ensures buf == Frames(bodies) + tail && AllHandled(open, accepts, bodies, done)
    ensures var d := Drain(open, accepts, buf, done, consumed);
            d.consumed == consumed + |Frames(bodies)| && StopsAt(open, accepts, tail, done + Payloads(open, bodies), d)
    decreases |buf|
  {
    hide Frame, StopsAt, Drain;
    if Continues(open, accepts, buf, done) {
      var n := U16(buf[0], buf[1]);
      var body := buf[2..n];
      var p := open(body).bytes;
      FirstFrame(buf);
      DrainTurn(open, accepts, buf, done, consumed);
      var rest;
      rest, tail := DrainDecomposes(open, accepts, buf[n..], done + [p], consumed + n);
      bodies := [body] + rest;
      assert bodies[1..] == rest;
      PayloadsFirst(open, body, rest, done);
      assert buf == Frame(body) + (Frames(rest) + tail) == Frames(bodies) + tail;
    } else {
      bodies, tail := [], buf;
      assert Frames([]) + buf == buf && done + Payloads(open, []) == done;
      StopsHere(open, accepts, buf, done, consumed);
    }
  }

  lemma PayloadsFirst(open: seq<byte> -> Opened, body: seq<byte>, rest: seq<seq<byte>>, done: seq<seq<byte>>)
    requires open(body).Payload?
    ensures done + Payloads(open, [body] + rest) == done + [open(body).bytes] + Payloads(open, rest)
  {
    assert ([body] + rest)[1..] == rest;
  }

  /** One more turn. */
  ghost predicate Continues(open: seq<byte> -> Opened, accepts: seq<seq<byte>> -> bool, buf: seq<byte>,
                            done: seq<seq<byte>>)
  {
    |buf| >= 2 && 2 <= U16(buf[0], buf[1]) <= |buf|
    && var o := open(buf[2..U16(buf[0], buf[1])]); o.Payload? && accepts(done + [o.bytes])
  }

  lemma StopsHere(open: seq<byte> -> Opened, accepts: seq<seq<byte>> -> bool, buf: seq<byte>, done: seq<seq<byte>>,
                  consumed: nat)
    requires !Continues(open, accepts, buf, done)
    ensures var d := Drain(open, accepts, buf, done, consumed);
            d.consumed == consumed && StopsAt(open, accepts, buf, done, d)
  {
  }

  /** A client's frame is faulty if and only if it announces less than its own header, a game server's if and only if it
      has no opcode. */
  lemma FaultySizes(k: Schedule, tail: seq<byte>)
    ensures Faulty(ClientOpen(k), tail) <==> |tail| >= 2 && U16(tail[0], tail[1]) < 2
    ensures Faulty(ServerOpen(), tail) <==> |tail| >= 2 && U16(tail[0], tail[1]) <= |tail| && U16(tail[0], tail[1]) < 3
  {
    hide MapRange;
  }

  /** Two zero bytes from anyone are enough, on either listener. */
  lemma ZeroSizePanics(k: Schedule, accepts: seq<seq<byte>> -> bool)
    ensures Drain(ClientOpen(k), accepts, [0, 0], [], 0).action == Panic
    ensures Drain(ServerOpen(), accepts, [0, 0], [], 0).action == Panic
  {
    hide ClientOpen, ServerOpen;
    DrainStops(ClientOpen(k), accepts, [0, 0], [], 0);
    DrainStops(ServerOpen(), accepts, [0, 0], [], 0);
  }

  // ---- The code ----

  /** Deciphers one body in place. */
  method OpenBody(crypt: Crypt, body: Slice) returns (o: Opened)
    requires crypt.Valid() && body.Valid()
    modifies body.arr
    ensures crypt.Key() == old(crypt.Key())
    ensures o == ClientOpen(crypt.Key())(old(body.View()))
    ensures body.RestIs(old(body.arr[..]))
  {
    hide Blowfish.MapRange, Blowfish.DecFn, Blowfish.BlowfishCipher.Value;
    var ok := crypt.Decrypt(body);
    o := if ok then Payload(body.arr[..][body.lo..body.hi]) else Refused;
  }

  /** ClientListener.OnTraffic on the bytes buffered for one connection. */
  method ClientOnTraffic(crypt: Crypt, accepts: seq<seq<byte>> -> bool, data: array<byte>) returns (d: Drained)
    requires crypt.Valid()
    modifies data
    ensures crypt.Key() == old(crypt.Key())
    ensures d == Drain(ClientOpen(crypt.Key()), accepts, old(data[..]), [], 0)
    ensures d.consumed <= data.Length && (d.action == Wait ==> data[..][d.consumed..] == old(data[..])[d.consumed..])
  {
    hide Drain, ClientOpen, Crypts.Crypt.Key, Crypts.Crypt.Valid, Slice.View, Slice.RestIs;
    ghost var k := crypt.Key();
    ghost var (open, rest) := (ClientOpen(k), data[..]);
    var payloads: seq<seq<byte>>, lo: nat := [], 0;
    while data.Length - lo >= 2
      invariant lo <= data.Length && crypt.Valid() && crypt.Key() == k
      invariant data[..][lo..] == rest == old(data[..])[lo..]
      invariant Drain(open, accepts, old(data[..]), [], 0) == Drain(open, accepts, rest, payloads, lo)
      decreases data.Length - lo
    {
      assert rest[0] == data[lo] && rest[1] == data[lo + 1];
      DrainStops(open, accepts, rest, payloads, lo);
      var size: nat := U16(data[lo], data[lo + 1]);
      if data.Length - lo < size {
        break;
      }
      if size < 2 {
        return Drained(payloads, lo, Panic);
      }
      var body := Slice(data, lo + 2, lo + size);
      ViewOfRest(body, lo, rest);
      ghost var now := data[..];
      DrainTurn(open, accepts, rest, payloads, lo);
      var o := OpenBody(crypt, body);
      match o
      case Refused => return Drained(payloads, lo, Close);
      case OutOfRange => return Drained(payloads, lo, Panic);
      case Payload(p) =>
        payloads := payloads + [p];
        if !accepts(payloads) {
          return Drained(payloads, lo, Close);
        }
        RestAfter(body, lo, rest, now, old(data[..]));
        rest := rest[size..];
        lo := lo + size;
    }
    DrainStops(open, accepts, rest, payloads, lo);
    d := Drained(payloads, lo, Wait);
  }

  lemma ViewOfRest(body: Slice, lo: nat, rest: seq<byte>)
    requires body.Valid() && body.lo == lo + 2 && body.arr[..][lo..] == rest
    ensures body.hi - lo <= |rest| && body.View() == rest[2..body.hi - lo]
  {
    BodyOfRest(body.arr[..], lo, body.hi);
  }

  lemma BodyOfRest(a: seq<byte>, lo: nat, hi: nat)
    requires lo + 2 <= hi <= |a|
    ensures a[lo + 2..hi] == a[lo..][2..hi - lo]
  {
  }

  lemma RestOfRest(a: seq<byte>, lo: nat, hi: nat)
    requires lo <= hi <= |a|
    ensures a[lo..][hi - lo..] == a[hi..]
  {
  }

  lemma RestAfter(body: Slice, lo: nat, rest: seq<byte>, was: seq<byte>, first: seq<byte>)
    requires body.Valid() && body.lo == lo + 2 && |was| == body.arr.Length && body.RestIs(was)
    requires was[lo..] == rest && lo <= |first| && rest == first[lo..]
    ensures body.hi - lo <= |rest| && body.arr[..][body.hi..] == rest[body.hi - lo..]
    ensures body.hi <= |first| && rest[body.hi - lo..] == first[body.hi..]
  {
    RestOfRest(was, lo, body.hi);
    RestOfRest(first, lo, body.hi);
  }

  /** GameServerListener.OnTraffic: the same loop without a cipher. */
  method ServerOnTraffic(accepts: seq<seq<byte>> -> bool, data: seq<byte>) returns (d: Drained)
    ensures d == Drain(ServerOpen(), accepts, data, [], 0)
  {
    var payloads: seq<seq<byte>> := [];
    var buf: seq<byte>, consumed: nat := data, 0;
    while |buf| >= 2
      invariant Drain(ServerOpen(), accepts, data, [], 0) == Drain(ServerOpen(), accepts, buf, payloads, consumed)
      decreases |buf|
    {
      var size := U16(buf[0], buf[1]);
      if |buf| < size {
        break;
      }
      if size < 3 {
        return Drained(payloads, consumed, Panic);
      }
      payloads := payloads + [buf[2..size]];
      if !accepts(payloads) {
        return Drained(payloads, consumed, Close);
      }
      buf, consumed := buf[size..], consumed + size;
    }
    d := Drained(payloads, consumed, Wait);
  }
}
