/** Writing response tasks to the client, on values: one task at a time, or a whole
    batch with its body octets gathered into a single write. */
module Responding {
  import opened Bytes
  import opened Framing
  import opened WriterModel
  import opened FramingChoice

  datatype Task =
    | Header(resp: Response, end: bool)
    | Body(octets: Option<seq<byte>>, end: bool)
    | Trailer
    | Done
    | Failed
  {
    predicate IsEnd() {
      match this
      case Header(_, end) => end
      case Body(_, end) => end
      case _ => true
    }

    // The body octets the task carries.
    function Octets(): seq<byte> {
      if Body? && octets.Some? then octets.value else []
    }
  }

  // header: the last header sent; upgraded: the session was switched; closed: the
  // request's reader was put to its end by the response.
  datatype Down = Down(req: Request, writer: Writer, header: Option<Response>, upgraded: bool, closed: bool)

  // Go(is_end) for Ok(is_end); Stop for an error.
  datatype Reply = Go(end: bool) | Stop

  function Fresh(req: Request): Down {
    Down(req, Start, None, false, false)
  }

  function OpenWriter(w: Writer, mode: Option<Mode>): Writer {
    if mode.Some? then OpenedWriter(mode.value) else w
  }

  // write_response_headers, when the socket accepts the header.
  function WriteHead(d: Down, resp: Response): Down {
    if Ignored(d.req, resp) then d
    else if d.header.Some? && (!Informational(d.header.value.status) || d.upgraded) then d
    else if Interim(resp) then d.(header := Some(resp))
    else
      d.(header := Some(resp),
         upgraded := d.upgraded || SessionUpgrade(d.req, resp),
         closed := d.closed || !SessionUpgrade(d.req, resp),
         writer := OpenWriter(d.writer, WriteMode(d.req, resp)))
  }

  // finish_writing_response_body: the reply is the one of a task that ends the body.
  function CloseBody(d: Down): (Down, seq<byte>, Reply) {
    var (w, out, whole) := Close(d.writer);
    (d.(writer := w, closed := d.closed || (whole && d.upgraded)), out, if whole then Go(true) else Stop)
  }

  // Send octets, then close when asked to.
  function Send(d: Down, octets: seq<byte>, end: bool): (Down, seq<byte>, Reply) {
    var (w, out) := if octets == [] then (d.writer, []) else Put(d.writer, octets);
    var d1 := d.(writer := w);
    if !end then (d1, out, Go(false))
    else
      var (d2, last, reply) := CloseBody(d1);
      (d2, out + last, reply)
  }

  // write_response_to_downstream.
  function RespondOne(d: Down, t: Task): (Down, seq<byte>, Reply) {
    match t
    case Header(resp, end) => Send(WriteHead(d, resp), [], end)
    case Failed => (d, [], Stop)
    case _ => Send(d, t.Octets(), t.IsEnd())
  }

  // The headers and octets of a batch up to its first failure, and the end flag
  // of the last task looked at.
  datatype Gathered = Gathered(d: Down, octets: seq<byte>, end: bool, failed: bool)

  function Gather(g: Gathered, tasks: seq<Task>): Gathered
    decreases |tasks|
  {
    if tasks == [] || g.failed then g
    else
      var t := tasks[0];
      match t
      case Header(resp, end) => Gather(Gathered(WriteHead(g.d, resp), g.octets, end, false), tasks[1..])
      case Failed => g.(failed := true)
      case _ => Gather(Gathered(g.d, g.octets + t.Octets(), t.IsEnd(), false), tasks[1..])
  }

  // vectored_write_response_to_downstream.
  function RespondBatch(d: Down, tasks: seq<Task>): (Down, seq<byte>, Reply) {
    var g := Gather(Gathered(d, [], false, false), tasks);
    if g.failed then
      var (d1, out, _) := Send(g.d, g.octets, false);
      (d1, out, Stop)
    else Send(g.d, g.octets, g.end)
  }

  // write_downstream_response.
  function Respond(d: Down, tasks: seq<Task>): (Down, seq<byte>, Reply) {
    if tasks == [] then (d, [], Go(true))
    else if |tasks| == 1 then RespondOne(d, tasks[0])
    else RespondBatch(d, tasks)
  }

  // ---- the task sequences the upstream side produces ----

  // Interim headers, one header that opens a body in `mode`, body tasks, and an
  // end or a failure in the last place at most.
  predicate Conforming(req: Request, mode: Mode, started: bool, tasks: seq<Task>)
    decreases |tasks|
  {
    tasks == [] ||
    var t, rest := tasks[0], tasks[1..];
    && (t.IsEnd() ==> rest == [])
    && match t
       case Header(resp, end) =>
         && !started
         && if Interim(resp) then !end && Conforming(req, mode, false, rest)
            else WriteMode(req, resp) == Some(mode) && !Ignored(req, resp) && Conforming(req, mode, true, rest)
       case Failed => true
       case _ => started && Conforming(req, mode, true, rest)
  }

  function Payload(tasks: seq<Task>): seq<byte> {
    if tasks == [] then [] else tasks[0].Octets() + Payload(tasks[1..])
  }

  // Whether the body is open after these tasks.
  function Opens(started: bool, tasks: seq<Task>): bool
    decreases |tasks|
  {
    if tasks == [] then started else Opens(After(started, tasks[0]), tasks[1..])
  }

  function After(started: bool, t: Task): bool {
    started || (t.Header? && !Interim(t.resp))
  }

  predicate FinalSent(d: Down) {
    d.header.Some? && !Interim(d.header.value)
  }

  // The client side after acc was handed over: not started, or open in the mode.
  ghost predicate Tracks(mode: Mode, started: bool, d: Down, acc: seq<byte>, out: seq<byte>) {
    if started then Wrote(mode, d.writer, acc, out) && FinalSent(d)
    else d.writer == Start && acc == [] && out == [] && !d.upgraded &&
         (d.header.Some? ==> Interim(d.header.value))
  }

  // What the last task asks for, given all octets handed over.
  function Verdict(mode: Mode, acc: seq<byte>, last: Task): Reply {
    if last.Failed? then Stop
    else if !last.IsEnd() then Go(false)
    else if mode.Length? && mode.n > |acc| then Stop
    else Go(true)
  }

  // The client was handed acc, out was sent before, and `sent` for tasks that
  // were answered with reply.
  ghost predicate Delivered(mode: Mode, acc: seq<byte>, out: seq<byte>, tasks: seq<Task>, sent: seq<byte>,
                            reply: Reply) {
    && tasks != []
    && reply == Verdict(mode, acc + Payload(tasks), tasks[|tasks| - 1])
    && Received(mode, out + sent).payload == Capped(mode, acc + Payload(tasks))
    && (reply == Go(true) ==> Received(mode, out + sent).ending == Framing.Finished)
  }

  lemma HeadTracks(mode: Mode, d: Down, resp: Response)
    requires Tracks(mode, false, d, [], [])
    requires !Interim(resp) ==> WriteMode(d.req, resp) == Some(mode) && !Ignored(d.req, resp)
    ensures Tracks(mode, !Interim(resp), WriteHead(d, resp), [], []) && WriteHead(d, resp).req == d.req
  {
    WroteNothing(mode);
  }

  lemma BodyTracks(mode: Mode, w: Writer, acc: seq<byte>, out: seq<byte>, octets: seq<byte>)
    requires Wrote(mode, w, acc, out) && |octets| < USIZE_LIMIT
    ensures var (w', sent) := if octets == [] then (w, []) else Put(w, octets);
      Wrote(mode, w', acc + octets, out + sent)
  {
    if octets == [] {
      assert acc + octets == acc && out + [] == out;
    } else {
      PutKeeps(mode, w, acc, out, octets);
    }
  }

  lemma SendTracks(mode: Mode, d: Down, acc: seq<byte>, out: seq<byte>, octets: seq<byte>, end: bool)
    requires Wrote(mode, d.writer, acc, out) && |octets| < USIZE_LIMIT
    ensures var (d', sent, reply) := Send(d, octets, end);
      && reply == (if !end then Go(false) else if mode.Length? && mode.n > |acc + octets| then Stop else Go(true))
      && Received(mode, out + sent).payload == Capped(mode, acc + octets)
      && d'.req == d.req && d'.header == d.header
      && (!end ==> Wrote(mode, d'.writer, acc + octets, out + sent))
      && (reply == Go(true) ==> Received(mode, out + sent).ending == Framing.Finished)
  {
    hide Put, Close, Wrote, Received, Capped;
    var (w, body) := if octets == [] then (d.writer, []) else Put(d.writer, octets);
    BodyTracks(mode, d.writer, acc, out, octets);
    WroteMeans(mode, w, acc + octets, out + body);
    assert out + (body + Close(w).1) == out + body + Close(w).1;
  }

  // A batch with nothing before its header, header by header.
  lemma {:induction false} GatherTracks(mode: Mode, started: bool, g: Gathered, acc: seq<byte>, out: seq<byte>,
                                        tasks: seq<Task>)
    requires !g.failed && tasks != [] && Conforming(g.d.req, mode, started, tasks)
    requires Tracks(mode, started, g.d, acc, out) && (!started ==> g.octets == [])
    ensures var g' := Gather(g, tasks); var last := tasks[|tasks| - 1];
      && g'.d.req == g.d.req
      && g'.octets == g.octets + Payload(tasks)
      && g'.failed == last.Failed?
      && (!last.Failed? ==> g'.end == last.IsEnd())
      && Tracks(mode, Opens(started, tasks), g'.d, acc, out)
      && (!Opens(started, tasks) ==> g'.octets == [] && !(last.IsEnd() && !last.Failed?))
    decreases |tasks|
  {
    hide WriteHead, Wrote;
    var t, rest := tasks[0], tasks[1..];
    assert Payload(tasks) == t.Octets() + Payload(rest);
    if t.Failed? {
      assert rest == [] && Payload(rest) == [] && Opens(started, rest) == started;
      assert g.octets + Payload(tasks) == g.octets;
    } else {
      var started' := After(started, t);
      var g1 := if t.Header? then Gathered(WriteHead(g.d, t.resp), g.octets, t.end, false)
                else Gathered(g.d, g.octets + t.Octets(), t.IsEnd(), false);
      if t.Header? {
        HeadTracks(mode, g.d, t.resp);
        assert g.octets + t.Octets() == g.octets;
      }
      if rest == [] {
        assert Gather(g1, rest) == g1 && Opens(started', rest) == started';
        assert Payload(tasks) == t.Octets();
      } else {
        GatherTracks(mode, started', g1, acc, out, rest);
        assert g.octets + t.Octets() + Payload(rest) == g.octets + Payload(tasks);
        assert rest[|rest| - 1] == tasks[|tasks| - 1];
      }
    }
  }

  /** One call of write_downstream_response, single or batched, hands over exactly
      the payload of its tasks and answers as its last task asks. */
  lemma RespondTracks(mode: Mode, started: bool, d: Down, acc: seq<byte>, out: seq<byte>, tasks: seq<Task>)
    requires tasks != [] && Conforming(d.req, mode, started, tasks)
    requires Tracks(mode, started, d, acc, out) && |Payload(tasks)| < USIZE_LIMIT
    ensures var (d', sent, reply) := Respond(d, tasks);
      && Delivered(mode, acc, out, tasks, sent, reply)
      && d'.req == d.req
      && (reply == Go(false) ==> Tracks(mode, Opens(started, tasks), d', acc + Payload(tasks), out + sent))
      && (reply == Go(true) ==> FinalSent(d'))
  {
    var g := Gather(Gathered(d, [], false, false), tasks);
    GatherTracks(mode, started, Gathered(d, [], false, false), acc, out, tasks);
    SingleAsBatch(d, tasks);
    var last := tasks[|tasks| - 1];
    if Opens(started, tasks) {
      SendTracks(mode, g.d, acc, out, Payload(tasks), !last.Failed? && last.IsEnd());
      assert [] + Payload(tasks) == Payload(tasks);
    } else {
      SendNothing(mode, g, acc + Payload(tasks), out);
    }
  }

  // The headers among the tasks are interim ones and one other.
  ghost predicate Heads(final: Response, tasks: seq<Task>) {
    forall t :: t in tasks && t.Header? ==> Interim(t.resp) || t.resp == final
  }

  ghost predicate SentOnly(final: Response, d: Down) {
    d.header.Some? ==> Interim(d.header.value) || d.header.value == final
  }

  lemma {:induction false} GatherHeads(final: Response, g: Gathered, tasks: seq<Task>)
    requires Heads(final, tasks) && SentOnly(final, g.d)
    ensures SentOnly(final, Gather(g, tasks).d)
    decreases |tasks|
  {
    if tasks != [] && !g.failed {
      var (t, rest) := (tasks[0], tasks[1..]);
      assert t in tasks && forall u :: u in rest ==> u in tasks;
      match t
      case Header(resp, end) => GatherHeads(final, Gathered(WriteHead(g.d, resp), g.octets, end, false), rest);
      case Failed =>
      case _ => GatherHeads(final, Gathered(g.d, g.octets + t.Octets(), t.IsEnd(), false), rest);
    }
  }

  /** The client is sent no header but the tasks'. */
  lemma RespondHeads(final: Response, d: Down, tasks: seq<Task>)
    requires Heads(final, tasks) && SentOnly(final, d)
    ensures SentOnly(final, Respond(d, tasks).0)
  {
    if tasks != [] {
      SingleAsBatch(d, tasks);
      GatherHeads(final, Gathered(d, [], false, false), tasks);
    }
  }

  lemma SendNothing(mode: Mode, g: Gathered, acc: seq<byte>, out: seq<byte>)
    requires Tracks(mode, false, g.d, acc, out) && g.octets == []
    ensures Send(g.d, g.octets, false) == (g.d, [], Go(false))
    ensures Received(mode, out + []).payload == Capped(mode, acc)
    ensures out + [] == out
  {
    NothingReceived(mode);
  }

  lemma NothingReceived(mode: Mode)
    ensures Received(mode, []).payload == []
  {
    WroteNothing(mode);
    WroteMeans(mode, OpenedWriter(mode), [], []);
  }

  lemma SingleAsBatch(d: Down, tasks: seq<Task>)
    requires tasks != []
    ensures Respond(d, tasks) == RespondBatch(d, tasks)
  {
    if |tasks| == 1 {
      var t := tasks[0];
      var g := Gathered(d, [], false, false);
      assert [] + t.Octets() == t.Octets();
      assert t.Header? ==> Gather(g, tasks) == Gathered(WriteHead(d, t.resp), [], t.end, false);
      assert t.Failed? ==> Gather(g, tasks) == g.(failed := true);
      assert !t.Header? && !t.Failed? ==> Gather(g, tasks) == Gathered(d, t.Octets(), t.IsEnd(), false);
    }
  }

  // ---- batching does not matter ----

  // Respond to batch after batch until an end or an error.
  function RespondAll(d: Down, batches: seq<seq<Task>>): (seq<byte>, Reply)
    decreases |batches|
  {
    if batches == [] then ([], Go(false))
    else
      var (d', sent, reply) := Respond(d, batches[0]);
      if reply != Go(false) then (sent, reply)
      else
        var (more, last) := RespondAll(d', batches[1..]);
        (sent + more, last)
  }

  lemma {:induction false} PayloadJoin(a: seq<Task>, b: seq<Task>)
    ensures Payload(a + b) == Payload(a) + Payload(b)
  {
    if a == [] {
      assert a + b == b;
    } else {
      assert (a + b)[0] == a[0] && (a + b)[1..] == a[1..] + b;
      PayloadJoin(a[1..], b);
      assert a[0].Octets() + (Payload(a[1..]) + Payload(b)) == Payload(a) + Payload(b);
    }
  }

  lemma {:induction false} ConformingSplit(req: Request, mode: Mode, started: bool, a: seq<Task>, b: seq<Task>)
    requires Conforming(req, mode, started, a + b)
    ensures Conforming(req, mode, started, a)
    ensures a != [] && a[|a| - 1].IsEnd() ==> b == []
    ensures b == [] || Conforming(req, mode, Opens(started, a), b)
    decreases |a|
  {
    if a == [] {
      assert a + b == b;
    } else {
      var t := a[0];
      assert (a + b)[0] == t && (a + b)[1..] == a[1..] + b;
      if t.Failed? {
        assert a[1..] == [] && b == [];
        assert a + b == a;
      } else {
        ConformingSplit(req, mode, After(started, t), a[1..], b);
      }
    }
  }

  /** However the channel's tasks fall into batches, the client receives the
      payload of all of them and the reply is the one the last task asks for. */
  lemma {:induction false} BatchesDeliver(mode: Mode, started: bool, d: Down, acc: seq<byte>, out: seq<byte>,
                                          batches: seq<seq<Task>>)
    requires batches != [] && forall b :: b in batches ==> b != []
    requires Conforming(d.req, mode, started, Concat(batches))
    requires Tracks(mode, started, d, acc, out) && |Payload(Concat(batches))| < USIZE_LIMIT
    ensures var (sent, reply) := RespondAll(d, batches);
      Delivered(mode, acc, out, Concat(batches), sent, reply)
    decreases |batches|
  {
    hide Received, Capped, Tracks, Respond;
    var first, rest := batches[0], batches[1..];
    assert first in batches && forall b :: b in rest ==> b in batches;
    ConformingSplit(d.req, mode, started, first, Concat(rest));
    PayloadJoin(first, Concat(rest));
    RespondTracks(mode, started, d, acc, out, first);
    var (d', sent, reply) := Respond(d, first);
    if rest == [] {
      assert Concat(rest) == [] && Concat(batches) == first && sent + [] == sent;
    } else {
      assert rest[0] in batches && Concat(rest) != [];
      BatchesDeliver(mode, Opens(started, first), d', acc + Payload(first), out + sent, rest);
      var (more, last) := RespondAll(d', rest);
      DeliveredJoin(mode, acc, out, first, Concat(rest), sent, more, last);
    }
  }

  lemma DeliveredJoin(mode: Mode, acc: seq<byte>, out: seq<byte>, a: seq<Task>, b: seq<Task>,
                      sent: seq<byte>, more: seq<byte>, reply: Reply)
    requires Payload(a + b) == Payload(a) + Payload(b)
    requires Delivered(mode, acc + Payload(a), out + sent, b, more, reply)
    ensures Delivered(mode, acc, out, a + b, sent + more, reply)
  {
    hide Received, Capped, Verdict, Payload;
    assert out + (sent + more) == out + sent + more;
    assert acc + Payload(a) + Payload(b) == acc + (Payload(a) + Payload(b));
  }

  function Singletons(tasks: seq<Task>): (s: seq<seq<Task>>)
    ensures Concat(s) == tasks && forall b :: b in s ==> b != []
    ensures tasks != [] ==> s != []
  {
    if tasks == [] then [] else [[tasks[0]]] + Singletons(tasks[1..])
  }

  /** Any batching gives the client the same payload, and the caller the same
      answer, as writing the tasks one by one. */
  lemma BatchingIrrelevant(req: Request, mode: Mode, batches: seq<seq<Task>>)
    requires batches != [] && forall b :: b in batches ==> b != []
    requires Conforming(req, mode, false, Concat(batches))
    requires |Payload(Concat(batches))| < USIZE_LIMIT
    ensures var (a, ra) := RespondAll(Fresh(req), batches);
      var (b, rb) := RespondAll(Fresh(req), Singletons(Concat(batches)));
      && ra == rb
      && Received(mode, a).payload == Received(mode, b).payload
      && (ra == Go(true) ==> Received(mode, a) == Received(mode, b))
  {
    assert batches[0] in batches && Concat(batches) != [];
    BatchesDeliver(mode, false, Fresh(req), [], [], batches);
    BatchesDeliver(mode, false, Fresh(req), [], [], Singletons(Concat(batches)));
    var (a, _) := RespondAll(Fresh(req), batches);
    var (b, _) := RespondAll(Fresh(req), Singletons(Concat(batches)));
    assert [] + a == a && [] + b == b;
  }
}
