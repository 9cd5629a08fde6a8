/** The client side of the session: header and body writes on one socket that can
    fail at any octet. Header octets are recorded apart, as the responses sent, so
    that `stream.sent` holds body octets only. */
module DownstreamSession {
  import opened Bytes
  import opened Responding
  import opened FramingChoice
  import B = BodyWriting
  import W = WriterModel
  import F = Framing

  lemma PartFirst(was: seq<byte>, now: seq<byte>, a: seq<byte>, b: seq<byte>)
    requires B.SentPart(was, now, a)
    ensures B.SentPart(was, now, a + b)
  {
    var k :| 0 <= k <= |a| && now == was + a[..k];
    assert (a + b)[..k] == a[..k];
  }

  lemma PartSecond(was: seq<byte>, now: seq<byte>, a: seq<byte>, b: seq<byte>)
    requires B.SentPart(was + a, now, b)
    ensures B.SentPart(was, now, a + b)
  {
    var k :| 0 <= k <= |b| && now == was + a + b[..k];
    assert (a + b)[..|a| + k] == a + b[..k];
    assert was + a + b[..k] == was + (a + b[..k]);
  }

  lemma PartNone(was: seq<byte>, out: seq<byte>)
    ensures B.SentPart(was, was, out)
  {
    assert was == was + out[..0];
  }

  lemma PartAll(was: seq<byte>, out: seq<byte>)
    ensures B.SentPart(was, was + out, out)
  {
    assert out[..|out|] == out;
  }

  // A header goes out unless it is to be dropped or the final one is out.
  predicate Sends(d: Down, resp: Response) {
    !Ignored(d.req, resp) && (d.header.Some? ==> Informational(d.header.value.status) && !d.upgraded)
  }

  // The call did what `plan` says, or broke down after sending a first part of it.
  ghost predicate Did(plan: (Down, seq<byte>, Reply), was: seq<byte>, d: Down, now: seq<byte>, r: Reply) {
    || (d == plan.0 && now == was + plan.1 && r == plan.2)
    || (r == Stop && B.SentPart(was, now, plan.1))
  }

  class Downstream {
    const request: Request
    const stream: B.ByteSink
    const bodyWriter: B.BodyWriter
    var heads: seq<Response>
    var responseHeader: Option<Response>
    var upgrade: bool
    var requestClosed: bool   // the request's reader was put to its end
    var writeBodyVecBuffer: seq<byte>

    constructor (request: Request, stream: B.ByteSink)
      ensures this.request == request && this.stream == stream && fresh(bodyWriter)
      ensures View() == Fresh(request) && writeBodyVecBuffer == [] && heads == []
    {
      this.request := request;
      this.stream := stream;
      bodyWriter := new B.BodyWriter();
      heads, responseHeader, upgrade, requestClosed, writeBodyVecBuffer := [], None, false, false, [];
    }

    ghost function View(): Down
      reads this, bodyWriter
    {
      Down(request, bodyWriter.writeState, responseHeader, upgrade, requestClosed)
    }

    method SetResponseBodyWriter(resp: Response)
      modifies bodyWriter
      ensures bodyWriter.writeState == OpenWriter(old(bodyWriter.writeState), WriteMode(request, resp))
    {
      if resp.status == 204 || resp.status == 304 || request.head {
        bodyWriter.WithContentLengthWrite(0);
        return;
      }
      if Informational(resp.status) && resp.status != 101 {
        return;
      }
      if SessionUpgrade(request, resp) {
        bodyWriter.WithUntilClosedWrite();
        return;
      }
      if resp.chunked {
        bodyWriter.WithChunkedEncodingWrite();
        return;
      }
      match resp.length
      case Some(length) => bodyWriter.WithContentLengthWrite(length);
      case None => bodyWriter.WithUntilClosedWrite();
    }

    method WriteResponseHeaders(resp: Response) returns (ok: bool)
      modifies this`heads, this`responseHeader, this`upgrade, this`requestClosed, bodyWriter
      ensures ok ==> View() == WriteHead(old(View()), resp)
      ensures heads == if ok && Sends(old(View()), resp) then old(heads) + [resp] else old(heads)
    {
      if Informational(resp.status) && request.ignores && resp.status != 100 {
        return true;
      }
      if responseHeader.Some? {
        if !Informational(responseHeader.value.status) || upgrade {
          return true;
        }
      }
      if resp.status == 101 || !Informational(resp.status) {
        if SessionUpgrade(request, resp) {
          upgrade := true;
        } else {
          requestClosed := true;
        }
        SetResponseBodyWriter(resp);
      }
      var written: bool := *;
      if !written {
        return false;
      }
      var flushed: bool := *;
      if !flushed {
        return false;
      }
      heads := heads + [resp];
      responseHeader := Some(resp);
      return true;
    }

    method WriteResponseBody(buffer: seq<byte>) returns (r: B.Result)
      requires !bodyWriter.writeState.Start?
      modifies bodyWriter, stream
      ensures var (w, out) := W.Put(old(bodyWriter.writeState), buffer);
        if r.Done? then bodyWriter.writeState == w && stream.sent == old(stream.sent) + out
        else B.SentPart(old(stream.sent), stream.sent, out)
    {
      r := bodyWriter.WriteBody(stream, buffer);
    }

    method VectoredWriteResponseBody() returns (r: B.Result)
      requires writeBodyVecBuffer != [] ==> !bodyWriter.writeState.Start?
      modifies this`writeBodyVecBuffer, bodyWriter, stream
      ensures writeBodyVecBuffer == []
      ensures var (w, out) := if old(writeBodyVecBuffer) == [] then (old(bodyWriter.writeState), [])
                              else W.Put(old(bodyWriter.writeState), old(writeBodyVecBuffer));
        if r.Done? then bodyWriter.writeState == w && stream.sent == old(stream.sent) + out
        else B.SentPart(old(stream.sent), stream.sent, out)
    {
      if writeBodyVecBuffer == [] {
        return B.Done(None);
      }
      r := bodyWriter.WriteBody(stream, writeBodyVecBuffer);
      writeBodyVecBuffer := [];
    }

    method FinishWritingResponseBody() returns (r: Reply)
      modifies this`requestClosed, bodyWriter, stream
      ensures Did(CloseBody(old(View())), old(stream.sent), View(), stream.sent, r) && r != Go(false)
    {
      var res := bodyWriter.Finish(stream);
      ghost var out := W.Close(old(bodyWriter.writeState)).1;
      if !res.Done? {
        return Stop;
      }
      PartAll(old(stream.sent), out);
      var ok := stream.Flush();
      if !ok {
        return Stop;
      }
      if upgrade {
        requestClosed := true;
      }
      return Go(true);
    }

    // The body octets are out (or failed to go out); close when the task ends the body.
    method Conclude(ghost before: Down, ghost was: seq<byte>, octets: seq<byte>, end: bool, ok: bool) returns (r: Reply)
      requires var (w, out) := if octets == [] then (before.writer, []) else W.Put(before.writer, octets);
        if ok then View() == before.(writer := w) && stream.sent == was + out
        else B.SentPart(was, stream.sent, out)
      modifies this`requestClosed, bodyWriter, stream
      ensures Did(Send(before, octets, end), was, View(), stream.sent, r)
    {
      ghost var out := if octets == [] then [] else W.Put(before.writer, octets).1;
      ghost var last := Send(before, octets, end).1;
      if !ok {
        if end {
          PartFirst(was, stream.sent, out, last[|out|..]);
          assert last == out + last[|out|..];
        }
        return Stop;
      }
      if !end {
        return Go(false);
      }
      ghost var close := CloseBody(View());
      r := FinishWritingResponseBody();
      if !(View() == close.0 && stream.sent == was + out + close.1 && r == close.2) {
        PartSecond(was, stream.sent, out, close.1);
      } else {
        assert was + out + close.1 == was + (out + close.1);
      }
    }

    method WriteResponseToDownstream(task: Task) returns (r: Reply)
      requires task.Octets() != [] ==> !bodyWriter.writeState.Start?
      modifies this, bodyWriter, stream
      ensures writeBodyVecBuffer == old(writeBodyVecBuffer)
      ensures Did(RespondOne(old(View()), task), old(stream.sent), View(), stream.sent, r)
    {
      ghost var before, was := View(), stream.sent;
      match task
      case Header(resp, end) =>
        var ok := WriteResponseHeaders(resp);
        if !ok {
          PartNone(was, RespondOne(before, task).1);
          return Stop;
        }
        r := Conclude(WriteHead(before, resp), was, [], end, true);
      case Body(octets, end) =>
        var body := if octets.Some? then octets.value else [];
        var ok := true;
        if body != [] {
          var res := WriteResponseBody(body);
          ok := res.Done?;
        }
        r := Conclude(before, was, body, end, ok);
      case Trailer => r := Conclude(before, was, [], true, true);
      case Done => r := Conclude(before, was, [], true, true);
      case Failed => return Stop;
    }

    method VectoredWriteResponseToDownstream(tasks: seq<Task>) returns (r: Reply)
      requires writeBodyVecBuffer == []
      requires var g := Gather(Gathered(View(), [], false, false), tasks);
        g.octets != [] ==> !g.d.writer.Start?
      modifies this, bodyWriter, stream
      ensures r != Stop ==> writeBodyVecBuffer == []
      ensures Did(RespondBatch(old(View()), tasks), old(stream.sent), View(), stream.sent, r)
    {
      ghost var before, was := View(), stream.sent;
      ghost var g := Gather(Gathered(before, [], false, false), tasks);
      var endStream := false;
      var i := 0;
      while i < |tasks|
        invariant i <= |tasks| && stream.sent == was
        invariant Gather(Gathered(View(), writeBodyVecBuffer, endStream, false), tasks[i..]) == g
      {
        var task := tasks[i];
        assert tasks[i..][0] == task && tasks[i..][1..] == tasks[i + 1..];
        match task {
          case Header(resp, end) =>
            var ok := WriteResponseHeaders(resp);
            if !ok {
              PartNone(was, RespondBatch(before, tasks).1);
              return Stop;
            }
            endStream := end;
          case Body(octets, end) =>
            var body := if octets.Some? then octets.value else [];
            if body != [] {
              writeBodyVecBuffer := writeBodyVecBuffer + body;
            } else {
              assert writeBodyVecBuffer + task.Octets() == writeBodyVecBuffer;
            }
            endStream := end;
          case Trailer =>
            assert writeBodyVecBuffer + task.Octets() == writeBodyVecBuffer;
            endStream := true;
          case Done =>
            assert writeBodyVecBuffer + task.Octets() == writeBodyVecBuffer;
            endStream := true;
          case Failed =>
            ghost var view := View();
            assert g == Gathered(view, writeBodyVecBuffer, endStream, true);
            var _ := VectoredWriteResponseBody();
            PartAll(was, Send(view, g.octets, false).1);
            return Stop;
        }
        i := i + 1;
      }
      ghost var view := View();
      assert g == Gathered(view, writeBodyVecBuffer, endStream, false);
      var octets := writeBodyVecBuffer;
      var res := VectoredWriteResponseBody();
      r := Conclude(view, was, octets, endStream, res.Done?);
    }

    /** Each call carries out the plan of Respond for its tasks, or stops after a
        first part of the octets planned. */
    method WriteDownstreamResponse(tasks: seq<Task>) returns (r: Reply)
      requires writeBodyVecBuffer == []
      requires var g := Gather(Gathered(View(), [], false, false), tasks);
        g.octets != [] ==> !g.d.writer.Start?
      modifies this, bodyWriter, stream
      ensures r != Stop ==> writeBodyVecBuffer == []
      ensures Did(Respond(old(View()), tasks), old(stream.sent), View(), stream.sent, r)
    {
      if |tasks| == 0 {
        return Go(true);
      } else if |tasks| == 1 {
        SingleAsBatch(View(), tasks);
        assert [] + tasks[0].Octets() == tasks[0].Octets();
        assert tasks[1..] == [];
        r := WriteResponseToDownstream(tasks[0]);
      } else {
        r := VectoredWriteResponseToDownstream(tasks);
      }
    }

    /** Tasks as the upstream side produces them always find the writer open for their
        octets, and the client decodes what they hand over, whatever the socket does. */
    method Answer(tasks: seq<Task>, ghost mode: W.Mode, ghost started: bool, ghost acc: seq<byte>) returns (r: Reply)
      requires writeBodyVecBuffer == [] && tasks != [] && |Payload(tasks)| < USIZE_LIMIT
      requires Conforming(request, mode, started, tasks) && Tracks(mode, started, View(), acc, stream.sent)
      modifies this, bodyWriter, stream
      ensures r != Stop ==>
        writeBodyVecBuffer == [] && r == Verdict(mode, acc + Payload(tasks), tasks[|tasks| - 1])
      ensures W.Received(mode, stream.sent).payload <= W.Capped(mode, acc + Payload(tasks))
      ensures r == Go(true) ==>
        && W.Received(mode, stream.sent) == F.Decoded(W.Capped(mode, acc + Payload(tasks)), F.Finished)
        && FinalSent(View())
      ensures r == Go(false) ==>
        Tracks(mode, Opens(started, tasks), View(), acc + Payload(tasks), stream.sent)
    {
      ghost var (before, was) := (View(), stream.sent);
      OpenForBody(mode, started, before, acc, was, tasks);
      RespondTracks(mode, started, before, acc, was, tasks);
      hide Respond, Tracks, Conforming, Verdict, W.Received, W.Capped, Payload, Gather, Opens;
      r := WriteDownstreamResponse(tasks);
      DoneOrPart(mode, acc + Payload(tasks), was, tasks, Respond(before, tasks), View(), stream.sent, r);
    }
  }

  lemma OpenForBody(mode: W.Mode, started: bool, d: Down, acc: seq<byte>, out: seq<byte>, tasks: seq<Task>)
    requires tasks != [] && Conforming(d.req, mode, started, tasks) && Tracks(mode, started, d, acc, out)
    ensures var g := Gather(Gathered(d, [], false, false), tasks); g.octets != [] ==> !g.d.writer.Start?
  {
    GatherTracks(mode, started, Gathered(d, [], false, false), acc, out, tasks);
    hide Gather, Conforming, Payload;
  }

  // A call that did its plan, or a first part of it, gave the client no more than that.
  lemma DoneOrPart(mode: W.Mode, acc: seq<byte>, was: seq<byte>, tasks: seq<Task>, plan: (Down, seq<byte>, Reply),
                   d: Down, now: seq<byte>, r: Reply)
    requires Did(plan, was, d, now, r) && tasks != []
    requires W.Received(mode, was + plan.1).payload == W.Capped(mode, acc)
    ensures W.Received(mode, now).payload <= W.Capped(mode, acc)
    ensures r != Stop ==> d == plan.0 && now == was + plan.1 && r == plan.2
  {
    if B.SentPart(was, now, plan.1) {
      var k :| 0 <= k <= |plan.1| && now == was + plan.1[..k];
      assert now + plan.1[k..] == was + plan.1;
      W.ReceivedExtends(mode, now, plan.1[k..]);
    }
    hide W.Received, W.Capped;
  }
}
