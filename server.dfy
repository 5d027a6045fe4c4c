/** The metrics collector (server/server.js): the projection of the five metric-source
    results into one snapshot (lines 30-52), the Server-Sent Events frame (line 54), the
    routing and CORS headers (lines 7-19, 68-71) and the per-connection interval (lines 56-67).
    The metric sources and `JSON.stringify` are parameters: `Sources` values and `encode`. */
module Server {
  import opened Types
  import EventStream

  // ---------------------------------------------------------------------------
  // What the metric sources return (only the fields the projection reads, plus one
  // it drops, so that dropping is visible).

  datatype CpuCore = CpuCore(load: real, loadUser: real)
  datatype CurrentLoad = CurrentLoad(currentLoad: real, cpus: seq<CpuCore>)
  datatype MemReading = MemReading(free: nat, total: nat, active: nat, used: nat)
  datatype TimeReading = TimeReading(uptime: nat)
  datatype FsSizeEntry = FsSizeEntry(
    fs: string, fsType: string, size: Field, used: Field, available: Field, use: Field, mount: string)
  datatype NetInterface = NetInterface(iface: string, ip4: string, ip6: string, mac: string, internal: bool)

  datatype Sources = Sources(
    cpu: CurrentLoad, mem: MemReading, time: TimeReading, disks: seq<FsSizeEntry>, nets: seq<NetInterface>)

  // ---------------------------------------------------------------------------
  // The projection (server.js:30-52)

  /** `cpuLoad.cpus.map((cpu) => cpu.load)` */
  function CpuLoads(cpus: seq<CpuCore>): (r: seq<real>)
    ensures |r| == |cpus|
    ensures forall k :: 0 <= k < |cpus| ==> r[k] == cpus[k].load
  {
    if cpus == [] then [] else [cpus[0].load] + CpuLoads(cpus[1..])
  }

  /** `disk.map(...)`: one entry per filesystem, in order, with `fs` and `use` renamed. */
  function ProjectDisks(disks: seq<FsSizeEntry>): (r: seq<DiskData>)
    ensures |r| == |disks|
    ensures forall k :: 0 <= k < |disks| ==>
      && r[k].filesystem == disks[k].fs && r[k].size == disks[k].size && r[k].used == disks[k].used
      && r[k].available == disks[k].available && r[k].capacity == disks[k].use && r[k].mount == disks[k].mount
  {
    if disks == [] then []
    else
      var d := disks[0];
      [DiskData(d.fs, d.size, d.used, d.available, d.use, d.mount)] + ProjectDisks(disks[1..])
  }

  /** `network.map(...)`: one entry per interface, in order. */
  function ProjectNets(nets: seq<NetInterface>): (r: seq<NetData>)
    ensures |r| == |nets|
    ensures forall k :: 0 <= k < |nets| ==>
      r[k].iface == nets[k].iface && r[k].ip4 == nets[k].ip4 && r[k].mac == nets[k].mac
      && r[k].internal == nets[k].internal
  {
    if nets == [] then []
    else
      var n := nets[0];
      [NetData(n.iface, n.ip4, n.mac, n.internal)] + ProjectNets(nets[1..])
  }

  /** `(memory.active / memory.total) * 100` before `toFixed(2)`, with JavaScript's
      results for a zero total. It is computed from active memory, not from total - free. */
  function UsedPercent(active: nat, total: nat): (r: JsNumber)
    ensures r.Finite? <==> total > 0
    ensures r.NaN? <==> total == 0 && active == 0
    ensures r.Finite? ==> r.value * (total as real) == (active as real) * 100.0
    ensures r.Finite? && active <= total ==> 0.0 <= r.value <= 100.0
  {
    if total == 0 then (if active == 0 then NaN else Infinity)
    else Finite(active as real / total as real * 100.0)
  }

  /** The reading of the scenario "free 2000, total 8000, active 4000": 50 percent used,
      where total - free would have given 75. */
  lemma UsedPercentFromActive()
    ensures UsedPercent(4000, 8000) == Finite(50.0)
    ensures UsedPercent(4000, 8000) != Finite((8000 - 2000) as real / 8000.0 * 100.0)
  {
  }

  /** The snapshot of one tick; `toFixed2` renders `usedPercent`. */
  function Project(src: Sources, toFixed2: JsNumber -> string): (r: SystemData)
    ensures r.cpuLoad == CpuLoads(src.cpu.cpus)
    ensures r.mem.free == src.mem.free && r.mem.total == src.mem.total
    ensures r.mem.usedPercent == toFixed2(UsedPercent(src.mem.active, src.mem.total))
    ensures r.uptime == src.time.uptime
    ensures r.disk == ProjectDisks(src.disks) && r.net == ProjectNets(src.nets)
  {
    SystemData(
      CpuLoads(src.cpu.cpus),
      MemData(src.mem.free, src.mem.total, toFixed2(UsedPercent(src.mem.active, src.mem.total))),
      src.time.uptime,
      ProjectDisks(src.disks),
      ProjectNets(src.nets))
  }

  // ---------------------------------------------------------------------------
  // The frame (server.js:54) and what a receiver reads from a run of frames

  /** One event: the `data` field holding the payload, then a blank line. */
  function Frame(payload: string): (r: string)
    ensures |r| == |payload| + 8
    ensures r[..6] == "data: " && r[6..|r| - 2] == payload && r[|r| - 2..] == "\n\n"
  {
    "data: " + payload + "\n\n"
  }

  /** The frames for a run of snapshots, one per snapshot, in order. */
  function FramesOf(sent: seq<SystemData>, encode: SystemData -> string): (r: seq<string>)
    ensures |r| == |sent|
    ensures forall k :: 0 <= k < |sent| ==> r[k] == Frame(encode(sent[k]))
  {
    if sent == [] then [] else [Frame(encode(sent[0]))] + FramesOf(sent[1..], encode)
  }

  /** The payloads for a run of snapshots. */
  function Encoded(sent: seq<SystemData>, encode: SystemData -> string): (r: seq<string>)
    ensures |r| == |sent|
    ensures forall k :: 0 <= k < |sent| ==> r[k] == encode(sent[k])
  {
    if sent == [] then [] else [encode(sent[0])] + Encoded(sent[1..], encode)
  }

  /** The bytes on the wire: the chunks written, one after the other. */
  function Concat(chunks: seq<string>): string
  {
    if chunks == [] then [] else chunks[0] + Concat(chunks[1..])
  }

  /** Between events a receiver has no partial line and no buffered data; one frame
      then dispatches exactly its payload. */
  lemma ReadOneFrame(st: EventStream.ParserState, p: string)
    requires st.line == [] && st.data == []
    requires '\n' !in p
    ensures EventStream.FeedAll(st, Frame(p)) == st.(events := st.events + [p])
  {
    var line := "data: " + p;
    assert '\n' !in line by {
      forall k | 0 <= k < |line| ensures line[k] != '\n' {
        if k >= 6 { assert line[k] == p[k - 6]; }
      }
    }
    assert Frame(p) == line + "\n\n";
    EventStream.FeedAllAppend(st, line, "\n\n");
    EventStream.FeedAllNoNewline(st, line);
    EventStream.DataLineField(p);
    var st1 := EventStream.FeedAll(st, line);
    assert st1 == st.(line := line);
    var st2 := EventStream.Feed(st1, '\n');
    assert st2 == st.(data := p + "\n");
    var st3 := EventStream.Feed(st2, '\n');
    assert (p + "\n")[..|p|] == p;
    assert st3 == st.(events := st.events + [p]);
    assert "\n\n"[1..] == "\n";
  }

  /** A receiver of the whole stream dispatches one message per frame, carrying the
      payloads in the order they were written. */
  lemma {:induction false} ReadFrames(st: EventStream.ParserState, sent: seq<SystemData>, encode: SystemData -> string)
    requires st.line == [] && st.data == []
    requires forall k :: 0 <= k < |sent| ==> '\n' !in encode(sent[k])
    ensures EventStream.FeedAll(st, Concat(FramesOf(sent, encode))) == st.(events := st.events + Encoded(sent, encode))
    decreases sent
  {
    if sent == [] {
      assert st.events + [] == st.events;
    } else {
      var p, rest := encode(sent[0]), sent[1..];
      var f := FramesOf(sent, encode);
      assert f == [Frame(p)] + FramesOf(rest, encode);
      assert Concat(f) == Frame(p) + Concat(FramesOf(rest, encode));
      EventStream.FeedAllAppend(st, Frame(p), Concat(FramesOf(rest, encode)));
      ReadOneFrame(st, p);
      var st1 := st.(events := st.events + [p]);
      assert forall k :: 0 <= k < |rest| ==> '\n' !in encode(rest[k]) by {
        assert forall k :: 0 <= k < |rest| ==> rest[k] == sent[k + 1];
      }
      ReadFrames(st1, rest, encode);
      var e := Encoded(rest, encode);
      assert Encoded(sent, encode) == [p] + e;
      var a := st.events;
      assert a + ([p] + e) == (a + [p]) + e by {
        forall k | 0 <= k < |a| + 1 + |e| ensures (a + ([p] + e))[k] == ((a + [p]) + e)[k] {
        }
      }
    }
  }

  // ---------------------------------------------------------------------------
  // The HTTP response the handler writes to

  const CorsHeaders: map<string, string> := map[
    "Access-Control-Allow-Origin" := "*",
    "Access-Control-Allow-Methods" := "GET, POST, OPTIONS, PUT, PATCH, DELETE",
    "Access-Control-Allow-Headers" := "X-Requested-With,content-type",
    "Access-Control-Allow-Credentials" := "true"]

  const SseHeaders: map<string, string> := map[
    "Content-Type" := "text/event-stream",
    "Cache-Control" := "no-cache",
    "Connection" := "keep-alive"]

  const StreamPath := "/realtime"

  /** Every header of `want` is set in `hs` to the same value. */
  predicate HasHeaders(hs: map<string, string>, want: map<string, string>)
  {
    forall h :: h in want ==> h in hs && hs[h] == want[h]
  }

  lemma CorsHeadersBuilt()
    ensures map[]["Access-Control-Allow-Origin" := "*"]
                 ["Access-Control-Allow-Methods" := "GET, POST, OPTIONS, PUT, PATCH, DELETE"]
                 ["Access-Control-Allow-Headers" := "X-Requested-With,content-type"]
                 ["Access-Control-Allow-Credentials" := "true"] == CorsHeaders
  {
  }

  lemma StreamHeaders()
    ensures HasHeaders(CorsHeaders + SseHeaders, CorsHeaders) && HasHeaders(CorsHeaders + SseHeaders, SseHeaders)
    ensures HasHeaders(CorsHeaders + map[], CorsHeaders)
  {
    assert CorsHeaders.Keys !! SseHeaders.Keys;
  }

  class Response {
    var headers: map<string, string>
    var status: nat       // 0 until the head is written
    var body: seq<string> // the chunks written, in order
    var ended: bool

    constructor ()
      ensures headers == map[] && status == 0 && body == [] && !ended
    {
      headers, status, body, ended := map[], 0, [], false;
    }

    method SetHeader(name: string, value: string)
      modifies this
      ensures headers == old(headers)[name := value]
      ensures status == old(status) && body == old(body) && ended == old(ended)
    {
      headers := headers[name := value];
    }

    method WriteHead(code: nat, extra: map<string, string>)
      modifies this
      ensures status == code && headers == old(headers) + extra
      ensures body == old(body) && ended == old(ended)
    {
      status, headers := code, headers + extra;
    }

    method Write(chunk: string)
      modifies this
      ensures body == old(body) + [chunk]
      ensures headers == old(headers) && status == old(status) && ended == old(ended)
    {
      body := body + [chunk];
    }

    method End(chunk: string)
      modifies this
      ensures body == old(body) + [chunk] && ended
      ensures headers == old(headers) && status == old(status)
    {
      body, ended := body + [chunk], true;
    }
  }

  // ---------------------------------------------------------------------------
  // One request (server.js:6-72)

  class Handler {
    const res: Response
    const encode: SystemData -> string
    const toFixed2: JsNumber -> string
    /** The request was for the stream, so an interval was started. */
    const streaming: bool
    /** The interval has not been cleared. */
    var open: bool
    /** Collections started by the interval that have not completed yet. */
    var pending: nat
    /** The snapshots written so far, in order. */
    ghost var Sent: seq<SystemData>
    /** |Sent| + pending when the request closed: no frame beyond it can ever be written. */
    ghost var Ceiling: nat

    ghost predicate Valid()
      reads this, res
    {
      && HasHeaders(res.headers, CorsHeaders)
      && (streaming ==>
            && res.status == 200 && !res.ended
            && HasHeaders(res.headers, SseHeaders)
            && res.body == FramesOf(Sent, encode)
            && (!open ==> |Sent| + pending <= Ceiling))
      && (!streaming ==>
            && res.status == 404 && res.ended && res.body == ["Not Found"]
            && !open && pending == 0 && Sent == [])
    }

    /** The request handler: CORS headers on every response, then either the event
        stream with its interval, or 404 "Not Found". */
    constructor (url: string, encode: SystemData -> string, toFixed2: JsNumber -> string)
      ensures Valid() && fresh(res)
      ensures this.encode == encode && this.toFixed2 == toFixed2
      ensures streaming <==> url == StreamPath
      ensures res.headers["Access-Control-Allow-Origin"] == "*"
      ensures streaming ==> res.status == 200 && res.body == [] && open && pending == 0
      ensures !streaming ==> res.status == 404 && res.body == ["Not Found"] && res.ended
      ensures Sent == []
    {
      var r := new Response();
      r.SetHeader("Access-Control-Allow-Origin", "*");
      r.SetHeader("Access-Control-Allow-Methods", "GET, POST, OPTIONS, PUT, PATCH, DELETE");
      r.SetHeader("Access-Control-Allow-Headers", "X-Requested-With,content-type");
      r.SetHeader("Access-Control-Allow-Credentials", "true");
      CorsHeadersBuilt();
      StreamHeaders();
      if url == StreamPath {
        r.WriteHead(200, SseHeaders);
      } else {
        r.WriteHead(404, map[]);
        r.End("Not Found");
      }
      res := r;
      this.encode, this.toFixed2 := encode, toFixed2;
      streaming := url == StreamPath;
      open := url == StreamPath;
      pending := 0;
      Sent := [];
      Ceiling := 0;
    }

    /** The interval fires: while it has not been cleared, a collection starts; nothing is written yet. */
    method Tick()
      requires Valid()
      modifies this
      ensures Valid()
      ensures pending == (if old(open) then old(pending) + 1 else old(pending))
      ensures open == old(open) && Sent == old(Sent) && res.body == old(res.body)
      ensures Ceiling == old(Ceiling)
    {
      if open {
        pending := pending + 1;
      }
    }

    /** A collection completes: on success one frame with the projected snapshot is
        written; on failure nothing is written (the error is only logged). */
    method Settle(result: Option<Sources>)
      requires Valid() && pending > 0
      modifies this, res
      ensures Valid()
      ensures pending == old(pending) - 1 && open == old(open) && Ceiling == old(Ceiling)
      ensures res.headers == old(res.headers) && res.status == old(res.status) && res.ended == old(res.ended)
      ensures result.None? ==> Sent == old(Sent) && res.body == old(res.body)
      ensures result.Some? ==>
        var snapshot := Project(result.value, toFixed2);
        Sent == old(Sent) + [snapshot] && res.body == old(res.body) + [Frame(encode(snapshot))]
    {
      pending := pending - 1;
      match result
      case None =>
      case Some(src) =>
        var snapshot := Project(src, toFixed2);
        res.Write(Frame(encode(snapshot)));
        FramesAppend(Sent, snapshot, encode);
        Sent := Sent + [snapshot];
    }

    /** The request closed: the interval is cleared. */
    method Close()
      requires Valid()
      modifies this
      ensures Valid()
      ensures !open && pending == old(pending) && Sent == old(Sent) && res.body == old(res.body)
      ensures old(open) ==> Ceiling == |Sent| + pending
      ensures !old(open) ==> Ceiling == old(Ceiling)
    {
      if open {
        Ceiling := |Sent| + pending;
      }
      open := false;
    }
  }

  lemma FramesAppend(sent: seq<SystemData>, s: SystemData, encode: SystemData -> string)
    ensures FramesOf(sent + [s], encode) == FramesOf(sent, encode) + [Frame(encode(s))]
  {
  }

  /** What a receiver reads from everything a handler has written so far: one message
      per snapshot sent, in order, each carrying that snapshot's encoding. */
  lemma ReceiverReadsSent(h: Handler)
    requires h.Valid() && h.streaming
    requires forall k :: 0 <= k < |h.Sent| ==> '\n' !in h.encode(h.Sent[k])
    ensures EventStream.FeedAll(EventStream.Start, Concat(h.res.body)).events == Encoded(h.Sent, h.encode)
  {
    ReadFrames(EventStream.Start, h.Sent, h.encode);
  }
}
