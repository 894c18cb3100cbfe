/**
 * The registry of animated-GIF playback sessions, keyed by layer id, as a state
 * machine. The download of each session (the HTTP request fetching the GIF) is
 * explicit, so that its asynchronous completion, failure and abortion are events
 * like the editor's own calls. Whether the decoder exposes its request object is
 * a property of the decoder in use: only an exposed request is recorded, can be
 * aborted, and has error and abort listeners.
 */
module GifPlayer {
  import opened Wrappers

  /** Where a GIF download stands. */
  datatype Transfer = InFlight | Loaded | Aborted | Failed

  /** One GIF download: the layer it was issued for, the GIF's URL and its state. */
  datatype Transport = Transport(layer: string, source: string, status: Transfer)

  /** A registry record: the URL, the request when the decoder exposes it, and once
      the GIF has been decoded the runner repainting its frames. */
  datatype Session = Session(source: string, xhr: Option<nat>, runner: Option<nat>)

  /**
   * The registry (`gifAnimationsRef`), every download ever issued, the runners
   * that are still animating, the next free handle for downloads and runners, and
   * whether the decoder's instances expose their request (`giflerInstance.xhr`).
   */
  datatype Player = Player(
    sessions: map<string, Session>,
    transports: map<nat, Transport>,
    running: set<nat>,
    next: nat,
    exposesRequest: bool)

  function Initial(exposesRequest: bool): Player {
    Player(map[], map[], {}, 0, exposesRequest)
  }

  /** What `startGifAnimation` finds: a ready canvas, the decoding library, and a
      2D context for the off-screen buffer. */
  datatype Env = Env(canvasReady: bool, libraryAvailable: bool, contextAvailable: bool)

  /** `xhr.abort()`: a request still in flight is aborted; any other is left as is. */
  function Abort(ts: map<nat, Transport>, h: nat): (r: map<nat, Transport>)
    ensures r.Keys == ts.Keys
    ensures h in ts ==> r[h].status != InFlight && r[h].layer == ts[h].layer
    ensures forall g :: g in ts && g != h ==> r[g] == ts[g]
  {
    if h in ts && ts[h].status == InFlight then ts[h := ts[h].(status := Aborted)] else ts
  }

  /** `record?.xhr?.abort`: aborts the recorded request, when there is one. */
  function AbortRecorded(ts: map<nat, Transport>, xhr: Option<nat>): (r: map<nat, Transport>)
    ensures xhr.None? ==> r == ts
    ensures xhr.Some? ==> r == Abort(ts, xhr.value)
  {
    if xhr.Some? then Abort(ts, xhr.value) else ts
  }

  /** The runner handles of the given optional runner. */
  function RunnerSet(r: Option<nat>): set<nat> {
    if r.Some? then {r.value} else {}
  }

  /** What a record keeps of download `h`: its request when the decoder exposes it. */
  function Recorded(p: Player, h: nat): Option<nat> {
    if p.exposesRequest then Some(h) else None
  }

  /**
   * `stopGifAnimation`: for a non-empty id with a record, stops its runner, aborts
   * its request if the record has one, and deletes the record. An empty id, or an
   * id without a record, changes nothing.
   */
  function Stop(p: Player, id: string): (q: Player)
    ensures id != "" ==> q.sessions == p.sessions - {id}
    ensures id == "" || id !in p.sessions ==> q == p
    ensures id != "" && id in p.sessions ==>
              && q.transports == AbortRecorded(p.transports, p.sessions[id].xhr)
              && q.running == p.running - RunnerSet(p.sessions[id].runner)
    ensures q.next == p.next && q.exposesRequest == p.exposesRequest
  {
    if id == "" || id !in p.sessions then p
    else
      var rec := p.sessions[id];
      p.(sessions := p.sessions - {id}, transports := AbortRecorded(p.transports, rec.xhr),
         running := p.running - RunnerSet(rec.runner))
  }

  /** Stopping twice is stopping once. */
  lemma StopIdempotent(p: Player, id: string)
    ensures Stop(Stop(p, id), id) == Stop(p, id)
  {
  }

  /**
   * `startGifAnimation`'s registry logic: when the canvas, the source, the library
   * and the layer id are all there, the layer's old session is stopped first; then,
   * given a drawing context, a download is issued and recorded as the layer's
   * session, together with its request when the decoder exposes it. Any missing
   * precondition leaves the registry as it was (a missing context only after the
   * old session was stopped).
   */
  function Start(p: Player, id: string, source: string, env: Env): (q: Player)
    ensures !env.canvasReady || source == "" || !env.libraryAvailable || id == "" ==> q == p
    ensures env.canvasReady && source != "" && env.libraryAvailable && id != "" && !env.contextAvailable
            ==> q == Stop(p, id)
    ensures env.canvasReady && source != "" && env.libraryAvailable && id != "" && env.contextAvailable ==>
              && q.sessions == p.sessions[id := Session(source, if p.exposesRequest then Some(p.next) else None, None)]
              && q.transports == Stop(p, id).transports[p.next := Transport(id, source, InFlight)]
              && q.running == Stop(p, id).running
              && q.next == p.next + 1
    ensures q.exposesRequest == p.exposesRequest
  {
    if !env.canvasReady || source == "" || !env.libraryAvailable || id == "" then p
    else
      var stopped := Stop(p, id);
      if !env.contextAvailable then stopped
      else
        var h := stopped.next;
        stopped.(sessions := stopped.sessions[id := Session(source, Recorded(p, h), None)],
                 transports := stopped.transports[h := Transport(id, source, InFlight)],
                 next := h + 1)
  }

  /**
   * The decoder's completion callback for download `h`: the download is done, a
   * runner starts, and the layer's record is (re)written with it, whatever the
   * registry holds for that layer by now. A download not in flight delivers nothing.
   */
  function Load(p: Player, h: nat): (q: Player)
    ensures h !in p.transports || p.transports[h].status != InFlight ==> q == p
    ensures h in p.transports && p.transports[h].status == InFlight ==>
              var t := p.transports[h];
              && q.sessions == p.sessions[t.layer := Session(t.source, if p.exposesRequest then Some(h) else None, Some(p.next))]
              && q.transports == p.transports[h := t.(status := Loaded)]
              && q.running == p.running + {p.next}
    ensures q.exposesRequest == p.exposesRequest
  {
    if h !in p.transports || p.transports[h].status != InFlight then p
    else
      var t := p.transports[h];
      p.(sessions := p.sessions[t.layer := Session(t.source, Recorded(p, h), Some(p.next))],
         transports := p.transports[h := t.(status := Loaded)],
         running := p.running + {p.next}, next := p.next + 1)
  }

  /** A download fails: when the request is exposed, its `error` listener deletes
      the layer's record; an unexposed request has no listener and the record stays. */
  function Fail(p: Player, h: nat): (q: Player)
    ensures h !in p.transports || p.transports[h].status != InFlight ==> q == p
    ensures h in p.transports && p.transports[h].status == InFlight ==>
              && q.sessions == (if p.exposesRequest then p.sessions - {p.transports[h].layer} else p.sessions)
              && q.transports == p.transports[h := p.transports[h].(status := Failed)]
              && q.running == p.running
    ensures q.exposesRequest == p.exposesRequest
  {
    if h !in p.transports || p.transports[h].status != InFlight then p
    else
      var t := p.transports[h];
      p.(sessions := if p.exposesRequest then p.sessions - {t.layer} else p.sessions,
         transports := p.transports[h := t.(status := Failed)])
  }

  /** The runners recorded in the registry. */
  function Runners(sessions: map<string, Session>): set<nat> {
    set id | id in sessions && sessions[id].runner.Some? :: sessions[id].runner.value
  }

  /**
   * `clearGifAnimations`, as written: every recorded runner is stopped and the
   * registry is emptied, but the requests are not aborted.
   */
  function Clear(p: Player): (q: Player)
    ensures q.sessions == map[]
    ensures q.transports == p.transports
    ensures forall id :: id in p.sessions && p.sessions[id].runner.Some? ==> p.sessions[id].runner.value !in q.running
  {
    p.(sessions := map[], running := p.running - Runners(p.sessions))
  }

  /** The requests recorded in the registry. */
  function Requests(sessions: map<string, Session>): set<nat> {
    set id | id in sessions && sessions[id].xhr.Some? :: sessions[id].xhr.value
  }

  /**
   * `clearGifAnimations` as evidently intended: what `stopGifAnimation` does for
   * one record, done for every record (runners stopped, recorded requests
   * aborted), and the registry emptied.
   */
  function ClearAndAbort(p: Player): (q: Player)
    ensures q.sessions == map[]
    ensures q.transports.Keys == p.transports.Keys
    ensures forall id :: id in p.sessions && p.sessions[id].xhr.Some? && p.sessions[id].xhr.value in p.transports ==>
              q.transports[p.sessions[id].xhr.value].status != InFlight
    ensures forall h :: h in p.transports && h !in Requests(p.sessions) ==> q.transports[h] == p.transports[h]
    ensures q.exposesRequest == p.exposesRequest
  {
    var owned := Requests(p.sessions);
    var ts := map h | h in p.transports ::
      if h in owned && p.transports[h].status == InFlight then p.transports[h].(status := Aborted)
      else p.transports[h];
    assert forall id :: id in p.sessions && p.sessions[id].xhr.Some? ==> p.sessions[id].xhr.value in owned;
    p.(sessions := map[], transports := ts, running := p.running - Runners(p.sessions))
  }

  // ---------------------------------------------------------------------------
  // The registry invariant

  /**
   * A record holds a request exactly when the decoder exposes it; with an
   * exposing decoder, every download still in flight is the recorded request of
   * its layer's record (so its completion or failure lands on a live record); and
   * handles are below `next`.
   */
  ghost predicate Inv(p: Player) {
    && (forall id :: id in p.sessions ==> (p.sessions[id].xhr.Some? <==> p.exposesRequest))
    && (p.exposesRequest ==>
          forall h :: h in p.transports && p.transports[h].status == InFlight ==>
            p.transports[h].layer in p.sessions && p.sessions[p.transports[h].layer].xhr == Some(h))
    && (forall h :: h in p.transports ==> h < p.next)
  }

  lemma InitialInv(exposesRequest: bool)
    ensures Inv(Initial(exposesRequest))
  {
  }

  /** With an exposing decoder and the invariant, a layer never has two downloads
      in flight at once: a second start always aborts the first. */
  lemma AtMostOneInFlight(p: Player, h1: nat, h2: nat)
    requires Inv(p) && p.exposesRequest
    requires h1 in p.transports && p.transports[h1].status == InFlight
    requires h2 in p.transports && p.transports[h2].status == InFlight
    requires p.transports[h1].layer == p.transports[h2].layer
    ensures h1 == h2
  {
  }

  lemma StopKeepsInv(p: Player, id: string)
    requires Inv(p)
    ensures Inv(Stop(p, id))
  {
    if id != "" && id in p.sessions && p.exposesRequest {
      var q := Stop(p, id);
      forall h | h in q.transports && q.transports[h].status == InFlight
        ensures q.transports[h].layer in q.sessions && q.sessions[q.transports[h].layer].xhr == Some(h)
      {
        assert p.sessions[id].xhr != Some(h);
        assert q.transports[h] == p.transports[h];
      }
    }
  }

  lemma StartKeepsInv(p: Player, id: string, source: string, env: Env)
    requires Inv(p)
    ensures Inv(Start(p, id, source, env))
  {
    StopKeepsInv(p, id);
    var s := Stop(p, id);
    var q := Start(p, id, source, env);
    if env.canvasReady && source != "" && env.libraryAvailable && id != "" && env.contextAvailable && p.exposesRequest {
      forall h | h in q.transports && q.transports[h].status == InFlight
        ensures q.transports[h].layer in q.sessions && q.sessions[q.transports[h].layer].xhr == Some(h)
      {
        if h != p.next {
          assert q.transports[h] == s.transports[h];
        }
      }
    }
  }

  lemma LoadKeepsInv(p: Player, h: nat)
    requires Inv(p)
    ensures Inv(Load(p, h))
  {
  }

  lemma FailKeepsInv(p: Player, h: nat)
    requires Inv(p)
    ensures Inv(Fail(p, h))
  {
  }

  lemma ClearAndAbortKeepsInv(p: Player)
    requires Inv(p)
    ensures Inv(ClearAndAbort(p))
    ensures p.exposesRequest ==>
              forall h :: h in ClearAndAbort(p).transports ==> ClearAndAbort(p).transports[h].status != InFlight
  {
    if p.exposesRequest {
      var q := ClearAndAbort(p);
      forall h | h in q.transports
        ensures q.transports[h].status != InFlight
      {
        if p.transports[h].status == InFlight {
          assert p.sessions[p.transports[h].layer].xhr == Some(h);
        } else {
          assert q.transports[h].status == p.transports[h].status;
        }
      }
    }
  }

  /**
   * Starting playback for a layer leaves exactly one record for it, the new one,
   * playing the new source; the old record's request, if it had one, is no longer
   * in flight and its runner no longer runs; every other layer's record is
   * untouched. With an exposing decoder, the new download is recorded and is the
   * only one in flight for the layer.
   */
  lemma StartReplaces(p: Player, id: string, source: string, env: Env)
    requires Inv(p)
    requires env.canvasReady && source != "" && env.libraryAvailable && id != "" && env.contextAvailable
    ensures var q := Start(p, id, source, env);
            && id in q.sessions
            && q.sessions[id].source == source
            && q.transports[p.next] == Transport(id, source, InFlight)
            && (p.exposesRequest ==>
                  && q.sessions[id].xhr == Some(p.next)
                  && (forall h :: (h in q.transports && q.transports[h].layer == id
                                   && q.transports[h].status == InFlight) ==> h == p.next))
            && (id in p.sessions ==>
                  && (p.sessions[id].xhr.Some? && p.sessions[id].xhr.value in p.transports ==>
                        q.transports[p.sessions[id].xhr.value].status != InFlight)
                  && RunnerSet(p.sessions[id].runner) !! q.running)
            && (forall other :: other != id && other in p.sessions ==> other in q.sessions && q.sessions[other] == p.sessions[other])
  {
    StartKeepsInv(p, id, source, env);
    var q := Start(p, id, source, env);
    if id in p.sessions && p.sessions[id].xhr.Some? && p.sessions[id].xhr.value in p.transports {
      assert p.sessions[id].xhr.value < p.next;
    }
    if p.exposesRequest {
      assert q.sessions[id].xhr == Some(p.next);
    }
  }

  // ---------------------------------------------------------------------------
  // Teardown

  /** What the network can still deliver once the editor is gone. */
  datatype Delivery = LoadOf(h: nat) | FailureOf(h: nat)

  /** The network delivering the completions and failures `ds` in order: no new
      request is issued, and the requests still in flight can only become fewer. */
  function Deliver(p: Player, ds: seq<Delivery>): (q: Player)
    ensures q.transports.Keys == p.transports.Keys
    ensures forall h :: h in q.transports && q.transports[h].status == InFlight ==>
              p.transports[h].status == InFlight && q.transports[h] == p.transports[h]
    decreases |ds|
  {
    if ds == [] then p
    else
      var q := match ds[0]
        case LoadOf(h) => Load(p, h)
        case FailureOf(h) => Fail(p, h);
      Deliver(q, ds[1..])
  }

  /** Whatever the network delivers keeps the registry invariant. */
  lemma {:induction false} DeliverKeepsInv(p: Player, ds: seq<Delivery>)
    requires Inv(p)
    ensures Inv(Deliver(p, ds))
    decreases |ds|
  {
    if ds != [] {
      var q := match ds[0]
        case LoadOf(h) => Load(p, h)
        case FailureOf(h) => Fail(p, h);
      match ds[0] {
        case LoadOf(h) => LoadKeepsInv(p, h);
        case FailureOf(h) => FailKeepsInv(p, h);
      }
      DeliverKeepsInv(q, ds[1..]);
    }
  }

  /** With no request in flight, nothing the network delivers changes the player. */
  lemma {:induction false} QuietStaysQuiet(p: Player, ds: seq<Delivery>)
    requires forall h :: h in p.transports ==> p.transports[h].status != InFlight
    ensures Deliver(p, ds) == p
    decreases |ds|
  {
    if ds != [] {
      var q := match ds[0]
        case LoadOf(h) => Load(p, h)
        case FailureOf(h) => Fail(p, h);
      assert q == p;
      QuietStaysQuiet(p, ds[1..]);
    }
  }

  /** Teardown with the corrected clear is final when the decoder exposes its
      requests: whatever downloads complete or fail afterwards, the registry stays
      empty and no runner is started. */
  lemma TeardownIsFinal(p: Player, ds: seq<Delivery>)
    requires Inv(p) && p.exposesRequest
    ensures Deliver(ClearAndAbort(p), ds) == ClearAndAbort(p)
    ensures Deliver(ClearAndAbort(p), ds).sessions == map[]
  {
    ClearAndAbortKeepsInv(p);
    QuietStaysQuiet(ClearAndAbort(p), ds);
  }

  /** The clear as written is not final: a request that was still in flight at
      teardown completes afterwards and puts a running session back. */
  lemma ClearThenLateLoad()
    ensures var env := Env(true, true, true);
            var started := Start(Initial(true), "layer_1", "party.gif", env);
            var late := Load(Clear(started), 0);
            && Clear(started).sessions == map[]
            && "layer_1" in late.sessions
            && late.sessions["layer_1"].runner == Some(1)
            && 1 in late.running
            && !Inv(Clear(started))
  {
    var env := Env(true, true, true);
    var started := Start(Initial(true), "layer_1", "party.gif", env);
    assert started.transports[0] == Transport("layer_1", "party.gif", InFlight);
    assert started.next == 1;
  }

  /** Without an exposed request, stopping cannot cancel the download: when it
      completes afterwards, the layer's record and a runner come back; and a
      failure leaves the record in place. */
  lemma StopThenLateLoadUnexposed()
    ensures var env := Env(true, true, true);
            var started := Start(Initial(false), "layer_1", "party.gif", env);
            var stopped := Stop(started, "layer_1");
            var late := Load(stopped, 0);
            && "layer_1" !in stopped.sessions
            && "layer_1" in late.sessions
            && late.sessions["layer_1"].runner == Some(1)
            && Fail(started, 0).sessions == started.sessions
  {
    var env := Env(true, true, true);
    var started := Start(Initial(false), "layer_1", "party.gif", env);
    assert started.transports[0] == Transport("layer_1", "party.gif", InFlight);
    assert started.next == 1;
    assert Stop(started, "layer_1").transports == started.transports;
  }
}
