/** The in-memory relay of server.js: the device registry with its tail caches and parked
    long-poll requests, the OFF macro timers, and the handlers that drive them. The events
    table is held as the sequence of its rows; wall-clock readings are parameters. */
module Server {
  import opened Wrappers
  import opened JsText
  import opened EventLog
  import opened Dispatch

  /** Capacity of a device's tail cache (`maxQueue`). */
  const MaxQueue: nat := 500

  /** Rows one poll reads from the table. */
  const PollLimit: nat := 200

  /** `Math.max(lo, Math.min(hi, x))`. */
  function Clamp(lo: int, hi: int, x: int): (r: int)
    requires lo <= hi
    ensures lo <= r <= hi
    ensures lo <= x <= hi ==> r == x
    ensures x < lo ==> r == lo
    ensures x > hi ==> r == hi
  {
    var m := if hi < x then hi else x;
    if lo > m then lo else m
  }

  /** The poll's wait budget in seconds: the `wait` parameter (25 when absent) held to [5, 60]. */
  function WaitSeconds(wait: Option<int>): (s: int)
    ensures 5 <= s <= 60
    ensures wait == None ==> s == 25
  {
    Clamp(5, 60, wait.GetOr(25))
  }

  /** The /events page size: the `limit` parameter (100 when absent) held to [1, 500]. */
  function EventsLimit(limit: Option<int>): (n: nat)
    ensures 1 <= n <= 500
    ensures limit == None ==> n == 100
  {
    Clamp(1, 500, limit.GetOr(100))
  }

  /** The refusals: a blank device, an empty batch, and an exception escaping a handler, which
      Express answers with status 500. */
  datatype HttpError = DeviceRequired | NoEvents | InternalError

  /** `{ events, cursor }`. */
  datatype Page = Page(events: seq<Event>, cursor: nat)

  /** GET /api/v1/events: one page of a device's events after a cursor. */
  function RecentEvents(log: seq<Stored>, deviceParam: string, cursor: int, limit: Option<int>): (r: Result<Page, HttpError>)
    ensures r.Err? <==> AllSpace(deviceParam)
    ensures r.Err? ==> r.error == DeviceRequired
    ensures r.Ok? ==> r.value.events == QueryAfter(log, Trim(deviceParam), cursor, EventsLimit(limit))
    ensures r.Ok? ==>
      r.value.cursor == if r.value.events != [] then r.value.events[|r.value.events| - 1].id else LastIdOf(log, Trim(deviceParam))
  {
    TrimEmptyIff(deviceParam);
    var device := Trim(deviceParam);
    if device == [] then Err(DeviceRequired)
    else
      var rows := QueryAfter(log, device, cursor, EventsLimit(limit));
      var lastId := if |rows| > 0 then rows[|rows| - 1].id else LastIdOf(log, device);
      Ok(Page(rows, lastId))
  }

  /** The cursor /events returns continues exactly where the page ends: a read from it yields
      the rest of the device's events after the requested cursor, none repeated, none lost. */
  lemma RecentEventsResume(log: seq<Stored>, deviceParam: string, cursor: int, limit: Option<int>)
    requires Increasing(log)
    requires RecentEvents(log, deviceParam, cursor, limit).Ok?
    ensures var page := RecentEvents(log, deviceParam, cursor, limit).value;
      var device := Trim(deviceParam);
      Matching(log, device, page.cursor) == Matching(log, device, cursor)[|page.events|..]
  {
    var device := Trim(deviceParam);
    var page := RecentEvents(log, deviceParam, cursor, limit).value;
    var m := Matching(log, device, cursor);
    if |page.events| > 0 {
      assert page.events[|page.events| - 1] == ToEvent(m[|page.events| - 1]);
      ResumeAfter(log, device, cursor, |page.events|);
    } else {
      NothingAfterLastId(log, device, LastIdOf(log, device));
    }
  }

  /** A cursor at or above the device's largest id finds no page, and the cursor /events
      returns is that largest id: a cursor ahead of the table comes back lowered to it. */
  lemma RecentEventsCursorAhead(log: seq<Stored>, deviceParam: string, cursor: int, limit: Option<int>)
    requires !AllSpace(deviceParam) && cursor >= LastIdOf(log, Trim(deviceParam))
    ensures RecentEvents(log, deviceParam, cursor, limit) == Ok(Page([], LastIdOf(log, Trim(deviceParam))))
  {
    NothingAfterLastId(log, Trim(deviceParam), cursor);
  }

  /** The long-poll answer: refused, answered with events and a cursor, or parked as the
      request with the given id. */
  datatype PollReply = Refused(error: HttpError) | Answered(events: seq<Event>, cursor: nat) | Held(request: nat)

  /** The life of one parked poll: it waits, then is answered with events, answered with
      204 No Content, or abandoned by its client. */
  datatype WaiterState = Parked | Delivered(events: seq<Event>, cursor: nat) | TimedOut | Closed

  /** A parked poll (`res`) with the state its handler's closures share: the device it waits
      on, its clamped wait, its `finished` flag, and whether its timer is still scheduled. */
  datatype Request = Request(device: DeviceId, waitSeconds: int, state: WaiterState, finished: bool, timerArmed: bool)

  /** The per-device runtime record: tail cache, last id, last poll time, parked requests. */
  datatype Record = Record(queue: seq<Event>, lastId: nat, lastSeenAt: int, waiters: set<nat>, maxQueue: nat)

  /** The flags of a request match its state, and its wait lies in [5, 60]. */
  predicate RequestValid(q: Request) {
    (q.state == Parked ==> !q.finished && q.timerArmed)
    && (q.state == TimedOut ==> q.finished && !q.timerArmed)
    && (q.state == Closed ==> !q.finished && !q.timerArmed)
    && 5 <= q.waitSeconds <= 60
  }

  /** Row ids increase along the table and lie in (0, nextId), nextId being the AUTOINCREMENT
      counter; IdsBelowMeans states the same with quantifiers. */
  ghost predicate TableOk(log: seq<Stored>, nextId: nat) {
    0 < nextId && IdsBelow(log, nextId)
  }

  /** A record keeps at most 500 events, holds an id its device has in the table, and its
      waiter set names requests of its own device. */
  ghost predicate RecordOk(log: seq<Stored>, device: DeviceId, r: Record, requests: seq<Request>) {
    r.maxQueue == MaxQueue && |r.queue| <= MaxQueue && r.lastId <= LastIdOf(log, device)
    && forall id | id in r.waiters :: id < |requests| && requests[id].device == device
  }

  /** A request's flags fit its state, its device is registered, and it is parked exactly
      while it sits in the waiter set of its device's record. */
  ghost predicate RequestOk(devices: map<DeviceId, Record>, q: Request, id: nat) {
    RequestValid(q) && q.device in devices && (q.state == Parked <==> id in devices[q.device].waiters)
  }

  /** The relay's invariant, over the values of its fields. */
  ghost predicate Coherent(log: seq<Stored>, nextId: nat, devices: map<DeviceId, Record>, requests: seq<Request>) {
    TableOk(log, nextId)
    && (forall k {:trigger RecordOk(log, k, devices[k], requests)} | k in devices :: RecordOk(log, k, devices[k], requests))
    && forall id {:trigger RequestOk(devices, requests[id], id)} | 0 <= id < |requests| :: RequestOk(devices, requests[id], id)
  }

  /** The record a device gets on first sight: empty cache, the table's largest id. */
  function Fresh(log: seq<Stored>, device: DeviceId): (r: Record)
    ensures r.queue == [] && r.waiters == {} && r.lastSeenAt == 0 && r.maxQueue == MaxQueue
    ensures r.lastId == LastIdOf(log, device)
  {
    Record([], LastIdOf(log, device), 0, {}, MaxQueue)
  }

  /** Registering a device that was not known keeps the invariant: no request waits on it yet. */
  lemma AddRecordKeeps(log: seq<Stored>, nextId: nat, devices: map<DeviceId, Record>, requests: seq<Request>, device: DeviceId)
    requires Coherent(log, nextId, devices, requests) && device !in devices
    ensures Coherent(log, nextId, devices[device := Fresh(log, device)], requests)
  {
    var after := devices[device := Fresh(log, device)];
    forall id | 0 <= id < |requests| ensures RequestOk(after, requests[id], id) {
      assert RequestOk(devices, requests[id], id);
    }
  }

  /** Replacing a record by one with the same waiter set that meets the record invariant
      keeps the invariant. */
  lemma ReplaceRecordKeeps(log: seq<Stored>, nextId: nat, devices: map<DeviceId, Record>, requests: seq<Request>, device: DeviceId, r: Record)
    requires Coherent(log, nextId, devices, requests) && device in devices
    requires r.waiters == devices[device].waiters && RecordOk(log, device, r, requests)
    ensures Coherent(log, nextId, devices[device := r], requests)
  {
    var after := devices[device := r];
    forall id | 0 <= id < |requests| ensures RequestOk(after, requests[id], id) {
      assert RequestOk(devices, requests[id], id);
    }
  }

  /** Storing a row under the counter keeps the invariant, and makes its id the device's
      largest. */
  lemma AppendKeeps(log: seq<Stored>, nextId: nat, devices: map<DeviceId, Record>, requests: seq<Request>, s: Stored)
    requires Coherent(log, nextId, devices, requests) && s.id == nextId
    ensures Coherent(log + [s], nextId + 1, devices, requests)
    ensures LastIdOf(log + [s], s.device) == s.id
  {
    var after := log + [s];
    assert after[..|log|] == log;
    assert forall i | 0 <= i < |log| :: after[i] == log[i];
    LastIdBelow(log, s.device, nextId);
    IdsBelowMeans(log, nextId);
    forall k | k in devices ensures RecordOk(after, k, devices[k], requests) {
      assert RecordOk(log, k, devices[k], requests);
      assert LastIdOf(log, k) <= LastIdOf(after, k);
    }
  }

  /** Answering every request parked on a device and emptying its waiter set keeps the
      invariant. */
  lemma DeliverKeeps(log: seq<Stored>, nextId: nat, devices: map<DeviceId, Record>, requests: seq<Request>,
                     device: DeviceId, delivered: seq<Request>, added: seq<Event>, cursor: nat)
    requires Coherent(log, nextId, devices, requests) && device in devices
    requires |delivered| == |requests|
    requires forall id | 0 <= id < |requests| ::
      delivered[id] == if id in devices[device].waiters then requests[id].(state := Delivered(added, cursor)) else requests[id]
    ensures Coherent(log, nextId, devices[device := devices[device].(waiters := {})], delivered)
  {
    var after := devices[device := devices[device].(waiters := {})];
    forall k | k in after ensures RecordOk(log, k, after[k], delivered) {
      assert RecordOk(log, k, devices[k], requests);
    }
    forall id | 0 <= id < |delivered| ensures RequestOk(after, delivered[id], id) {
      var q := requests[id];
      assert RequestOk(devices, q, id);
      if id in devices[device].waiters {
        assert RecordOk(log, device, devices[device], requests);
      } else if q.device != device {
        assert after[q.device] == devices[q.device];
      }
    }
  }

  /** Parking a new request on a known device keeps the invariant. */
  lemma ParkKeeps(log: seq<Stored>, nextId: nat, devices: map<DeviceId, Record>, requests: seq<Request>, device: DeviceId, waitSeconds: int)
    requires Coherent(log, nextId, devices, requests) && device in devices && 5 <= waitSeconds <= 60
    ensures var id := |requests|;
      Coherent(log, nextId, devices[device := devices[device].(waiters := devices[device].waiters + {id})],
               requests + [Request(device, waitSeconds, Parked, false, true)])
  {
    var id := |requests|;
    var after := devices[device := devices[device].(waiters := devices[device].waiters + {id})];
    var longer := requests + [Request(device, waitSeconds, Parked, false, true)];
    forall k | k in after ensures RecordOk(log, k, after[k], longer) {
      assert RecordOk(log, k, devices[k], requests);
    }
    forall j | 0 <= j < |longer| ensures RequestOk(after, longer[j], j) {
      if j < id {
        var q := requests[j];
        assert longer[j] == q;
        assert RequestOk(devices, q, j);
        assert j in after[q.device].waiters <==> j in devices[q.device].waiters;
      }
    }
  }

  /** A request leaving its waiter set for good (timed out, closed, or already answered)
      keeps the invariant. */
  lemma UnparkKeeps(log: seq<Stored>, nextId: nat, devices: map<DeviceId, Record>, requests: seq<Request>, id: nat, q: Request)
    requires Coherent(log, nextId, devices, requests) && id < |requests|
    requires q.device == requests[id].device && RequestValid(q) && q.state != Parked
    ensures q.device in devices
    ensures var device := q.device;
      Coherent(log, nextId, devices[device := devices[device].(waiters := devices[device].waiters - {id})], requests[id := q])
  {
    var device := q.device;
    assert RequestOk(devices, requests[id], id);
    var after := devices[device := devices[device].(waiters := devices[device].waiters - {id})];
    var changed := requests[id := q];
    forall k | k in after ensures RecordOk(log, k, after[k], changed) {
      assert RecordOk(log, k, devices[k], requests);
    }
    forall j | 0 <= j < |changed| ensures RequestOk(after, changed[j], j) {
      if j != id {
        var p := requests[j];
        assert RequestOk(devices, p, j);
        assert j in after[p.device].waiters <==> j in devices[p.device].waiters;
      }
    }
  }

  /** A device's waiter set holds exactly the requests parked on that device. */
  lemma WaitersAreParked(log: seq<Stored>, nextId: nat, devices: map<DeviceId, Record>, requests: seq<Request>, device: DeviceId)
    requires Coherent(log, nextId, devices, requests) && device in devices
    ensures forall id | 0 <= id < |requests| ::
      id in devices[device].waiters <==> requests[id].state == Parked && requests[id].device == device
    ensures forall id | id in devices[device].waiters :: id < |requests|
  {
    assert RecordOk(log, device, devices[device], requests);
    forall id | 0 <= id < |requests|
      ensures id in devices[device].waiters <==> requests[id].state == Parked && requests[id].device == device
    {
      assert RequestOk(devices, requests[id], id);
    }
  }

  /** The record of a device as getDevice hands it out. */
  function Registered(devices: map<DeviceId, Record>, log: seq<Stored>, device: DeviceId): (d: Record)
    ensures device in devices ==> d == devices[device]
    ensures device !in devices ==> d == Fresh(log, device)
  {
    if device in devices then devices[device] else Fresh(log, device)
  }

  /** The record after `added` was pushed into its tail cache and its waiters were answered. */
  function Pushed(d: Record, added: seq<Event>): (r: Record)
    requires |added| > 0
    ensures r.queue == KeepTail(d.queue + added, d.maxQueue) && r.lastId == added[|added| - 1].id && r.waiters == {}
    ensures r.lastSeenAt == d.lastSeenAt && r.maxQueue == d.maxQueue
  {
    d.(queue := KeepTail(d.queue + added, d.maxQueue), lastId := added[|added| - 1].id, waiters := {})
  }

  /** What a poll for a non-blank device leaves behind, given the rows `found` that the table
      holds for it after the cursor (at most 200): the record is fetched (created when new) and
      stamped with the poll time; when rows were found they are the answer, with the last one's
      id as cursor, and join the tail cache; otherwise the request is parked on the device
      under the next request id. */
  ghost predicate PollOutcome(devices0: map<DeviceId, Record>, requests0: seq<Request>, log: seq<Stored>,
                              device: DeviceId, found: seq<Event>, waitSeconds: int, nowMs: int,
                              devices: map<DeviceId, Record>, requests: seq<Request>, reply: PollReply)
  {
    var d := Registered(devices0, log, device).(lastSeenAt := nowMs);
    if found != [] then
      reply == Answered(found, found[|found| - 1].id) && requests == requests0
      && devices == devices0[device := d.(queue := KeepTail(d.queue + found, d.maxQueue), lastId := found[|found| - 1].id)]
    else
      reply == Held(|requests0|)
      && requests == requests0 + [Request(device, waitSeconds, Parked, false, true)]
      && devices == devices0[device := d.(waiters := d.waiters + {|requests0|})]
  }

  /** What flushing a non-empty batch into the record `d` of a device leaves behind: the
      record pushed, and every request in its waiter set answered with the batch and the last
      event's id as cursor, the other requests as they were. */
  ghost predicate Flushed(devices0: map<DeviceId, Record>, requests0: seq<Request>, d: Record, device: DeviceId,
                          added: seq<Event>, devices: map<DeviceId, Record>, requests: seq<Request>)
    requires |added| > 0
  {
    devices == devices0[device := Pushed(d, added)]
    && |requests| == |requests0|
    && forall id | 0 <= id < |requests| ::
         requests[id] == if id in d.waiters then requests0[id].(state := Delivered(added, added[|added| - 1].id)) else requests0[id]
  }

  /** Hence a flush answers exactly the requests parked on the device, each once with the
      batch and its last id, and leaves no request of the device waiting. */
  lemma FlushAnswersParked(log: seq<Stored>, nextId: nat, devices0: map<DeviceId, Record>, requests0: seq<Request>,
                           device: DeviceId, added: seq<Event>, devices: map<DeviceId, Record>, requests: seq<Request>)
    requires Coherent(log, nextId, devices0, requests0) && device in devices0 && |added| > 0
    requires Flushed(devices0, requests0, devices0[device], device, added, devices, requests)
    ensures forall id | 0 <= id < |requests0| && requests0[id].state == Parked && requests0[id].device == device ::
      requests[id].state == Delivered(added, added[|added| - 1].id)
    ensures forall id | 0 <= id < |requests0| && !(requests0[id].state == Parked && requests0[id].device == device) ::
      requests[id] == requests0[id]
    ensures devices[device].waiters == {} && devices[device].lastId == added[|added| - 1].id
  {
    WaitersAreParked(log, nextId, devices0, requests0, device);
  }

  /** What POST /api/v1/cmd leaves behind for a non-blank device, given the items of its body:
      the record is fetched (created when new) even when the body is then refused for carrying
      no items. Otherwise the OFF macro table has been driven by every entry before the first
      null item. A null item makes the handler throw: nothing is stored and the reply is a
      500. Without one, the rows of the non-OFF entries are stored in order under consecutive
      ids with the one timestamp and flushed when there are any, and the reply lists them with
      the macro flag. */
  ghost predicate CmdOutcome(log0: seq<Stored>, nextId0: nat, devices0: map<DeviceId, Record>, requests0: seq<Request>,
                             table0: MacroTable, device: DeviceId, items: seq<Item>, now: Timestamp,
                             log: seq<Stored>, nextId: nat, devices: map<DeviceId, Record>, requests: seq<Request>,
                             table: MacroTable, r: Result<CmdReply, HttpError>)
  {
    var d := Registered(devices0, log0, device);
    if items == [] then
      r == Err(NoEvents) && log == log0 && nextId == nextId0 && table == table0
      && devices == devices0[device := d] && requests == requests0
    else
      var es := Walked(items);
      table == TableAfter(table0, device, es)
      && if |es| < |items| then
           r == Err(InternalError) && log == log0 && nextId == nextId0
           && devices == devices0[device := d] && requests == requests0
         else
           var rows := StoredRows(es);
           var batch := Batch(nextId0, device, now, rows);
           r == Ok(CmdReply(ToEvents(batch), MacroRequested(es)))
           && log == log0 + batch && nextId == nextId0 + |rows|
           && if rows == [] then devices == devices0[device := d] && requests == requests0
              else Flushed(devices0, requests0, d, device, ToEvents(batch), devices, requests)
  }

  /** Appending after a concatenation appends to its second part. */
  lemma SnocAssoc<T>(a: seq<T>, b: seq<T>, x: T)
    ensures a + b + [x] == a + (b + [x])
  {
  }

  /** Writing a key twice keeps only the second value. */
  lemma UpdateTwice<K, V>(m: map<K, V>, k: K, a: V, b: V)
    ensures m[k := a][k := b] == m[k := b]
  {
  }

  /** The reply of POST /api/v1/cmd: the stored events and whether an OFF macro was started. */
  datatype CmdReply = CmdReply(added: seq<Event>, macro: bool)

  class Relay {
    /** The events table, in insertion order. */
    var log: seq<Stored>
    /** The id the next insert receives (the table's AUTOINCREMENT counter). */
    var nextId: nat
    /** `devices`: the lazily filled registry. */
    var devices: map<DeviceId, Record>
    /** Every poll ever parked, by id in arrival order, answered or not. */
    var requests: seq<Request>
    /** `offMacroTimers`: the not yet fired steps of each device's OFF macro. */
    var offMacroTimers: MacroTable

    ghost predicate Valid()
      reads this
    {
      Coherent(log, nextId, devices, requests)
    }

    /** Opens the relay on an existing events table whose AUTOINCREMENT counter is `nextId`. */
    constructor (log: seq<Stored>, nextId: nat)
      requires TableOk(log, nextId)
      ensures Valid()
      ensures this.log == log && this.nextId == nextId
      ensures devices == map[] && requests == [] && offMacroTimers == map[]
    {
      this.log := log;
      this.nextId := nextId;
      devices := map[];
      requests := [];
      offMacroTimers := map[];
    }

    /** getDevice: get-or-create the runtime record of a device. */
    method GetDevice(device: DeviceId) returns (d: Record)
      requires Valid()
      modifies this`devices
      ensures Valid()
      ensures devices == if device in old(devices) then old(devices) else old(devices)[device := Fresh(log, device)]
      ensures d == devices[device]
    {
      if device !in devices {
        AddRecordKeeps(log, nextId, devices, requests, device);
        devices := devices[device := Fresh(log, device)];
      }
      d := devices[device];
    }

    /** `qIns.run(device, ts, payload)`: stores one row under the next id. */
    method Insert(device: DeviceId, ts: Timestamp, row: Row) returns (id: nat)
      requires Valid()
      modifies this`log, this`nextId
      ensures Valid()
      ensures id == old(nextId) && nextId == id + 1
      ensures log == old(log) + [Stored(id, device, ts, row)]
      ensures LastIdOf(log, device) == id
      ensures forall i | 0 <= i < |old(log)| :: old(log)[i].id < id
    {
      IdsBelowMeans(log, nextId);
      id := nextId;
      AppendKeeps(log, nextId, devices, requests, Stored(id, device, ts, row));
      log := log + [Stored(id, device, ts, row)];
      nextId := nextId + 1;
    }

    /** flushToClients: pushes a non-empty batch into the device's tail cache, records its
        last id and answers every parked request of the device once with the batch. */
    method FlushToClients(device: DeviceId, added: seq<Event>)
      requires Valid() && device in devices
      requires |added| > 0 && added[|added| - 1].id <= LastIdOf(log, device)
      modifies this`devices, this`requests
      ensures Valid()
      ensures Flushed(old(devices), old(requests), old(devices[device]), device, added, devices, requests)
    {
      var waiting := devices[device].waiters;
      PushToCache(device, added);
      var lastId := added[|added| - 1].id;
      if |waiting| > 0 && |added| > 0 {
        Broadcast(device, added, lastId);
      }
    }

    /** The cache half of flushToClients, shared with the poll handler's warm-up: the events
        join the device's tail cache, held to its last `maxQueue` entries, and the last one's
        id becomes the record's `lastId`. */
    method PushToCache(device: DeviceId, added: seq<Event>)
      requires Valid() && device in devices
      requires |added| > 0 && added[|added| - 1].id <= LastIdOf(log, device)
      modifies this`devices
      ensures Valid()
      ensures var d := old(devices[device]);
        devices == old(devices)[device := d.(queue := KeepTail(d.queue + added, d.maxQueue), lastId := added[|added| - 1].id)]
    {
      var d := devices[device];
      var queue := d.queue + added;
      if |queue| > d.maxQueue {
        queue := queue[|queue| - d.maxQueue..];
      }
      assert queue == KeepTail(d.queue + added, d.maxQueue);
      var lastId := added[|added| - 1].id;
      assert RecordOk(log, device, d, requests);
      ReplaceRecordKeeps(log, nextId, devices, requests, device, d.(queue := queue, lastId := lastId));
      devices := devices[device := d.(queue := queue, lastId := lastId)];
    }

    /** The delivery loop of flushToClients: every request parked on the device gets the same
        batch and cursor, once, and leaves the waiter set. */
    method Broadcast(device: DeviceId, added: seq<Event>, cursor: nat)
      requires Valid() && device in devices
      modifies this`devices, this`requests
      ensures Valid()
      ensures devices == old(devices)[device := old(devices[device]).(waiters := {})]
      ensures |requests| == |old(requests)|
      ensures forall id | 0 <= id < |requests| ::
        requests[id] == if id in old(devices[device].waiters) then old(requests[id]).(state := Delivered(added, cursor)) else old(requests[id])
    {
      ghost var parked := devices[device].waiters;
      assert RecordOk(log, device, devices[device], requests);
      var pending := devices[device].waiters;
      while pending != {}
        invariant pending <= parked
        invariant forall id | id in parked :: id < |requests|
        invariant devices == old(devices)[device := old(devices[device]).(waiters := pending)]
        invariant |requests| == |old(requests)|
        invariant forall id | 0 <= id < |requests| ::
          requests[id] == if id in parked - pending then old(requests[id]).(state := Delivered(added, cursor)) else old(requests[id])
        decreases |pending|
      {
        var id :| id in pending;
        requests := requests[id := requests[id].(state := Delivered(added, cursor))];
        pending := pending - {id};
        devices := devices[device := devices[device].(waiters := pending)];
      }
      DeliverKeeps(old(log), old(nextId), old(devices), old(requests), device, requests, added, cursor);
    }

    /** insertOne: stores one row for a device under the next id with the given timestamp and
        flushes it to the device's cache and parked polls. */
    method InsertOne(device: DeviceId, row: Row, now: Timestamp) returns (ev: Event)
      requires Valid()
      modifies this`log, this`nextId, this`devices, this`requests
      ensures Valid()
      ensures ev == Event(old(nextId), now, row)
      ensures log == old(log) + [Stored(ev.id, device, now, row)] && nextId == old(nextId) + 1
      ensures Flushed(old(devices), old(requests), Registered(old(devices), old(log), device), device, [ev], devices, requests)
    {
      var d := GetDevice(device);
      var id := Insert(device, now, row);
      ev := Event(id, now, row);
      FlushToClients(device, [ev]);
      UpdateTwice(old(devices), device, d, Pushed(d, [ev]));
    }

    /** GET /api/v1/poll: a blank device is refused; otherwise the device's record is fetched
        and stamped, and up to 200 stored events after the cursor (0 when absent) answer at
        once, warming the tail cache; when there are none the request is parked on the device
        with its wait budget and its timer armed. */
    method Poll(deviceParam: string, cursor: Option<int>, wait: Option<int>, nowMs: int) returns (reply: PollReply)
      requires Valid()
      modifies this`devices, this`requests
      ensures Valid()
      ensures reply.Refused? <==> AllSpace(deviceParam)
      ensures reply.Refused? ==> reply.error == DeviceRequired && devices == old(devices) && requests == old(requests)
      ensures !reply.Refused? ==>
        var device := Trim(deviceParam);
        PollOutcome(old(devices), old(requests), log, device, QueryAfter(log, device, cursor.GetOr(0), PollLimit), WaitSeconds(wait), nowMs, devices, requests, reply)
    {
      var device := Trim(deviceParam);
      TrimEmptyIff(deviceParam);
      if device == [] {
        return Refused(DeviceRequired);
      }
      var waitSeconds := WaitSeconds(wait);
      var from := cursor.GetOr(0);
      reply := PollDevice(device, from, waitSeconds, nowMs);
    }

    /** The poll handler past its device check. */
    method PollDevice(device: DeviceId, from: int, waitSeconds: int, nowMs: int) returns (reply: PollReply)
      requires Valid() && 5 <= waitSeconds <= 60
      modifies this`devices, this`requests
      ensures Valid()
      ensures PollOutcome(old(devices), old(requests), log, device, QueryAfter(log, device, from, PollLimit), waitSeconds, nowMs, devices, requests, reply)
    {
      ghost var d := Registered(devices, log, device).(lastSeenAt := nowMs);
      Touch(device, nowMs);
      ghost var touched := devices;
      assert touched[device] == d;
      var fromDb := QueryAfter(log, device, from, PollLimit);
      if |fromDb| > 0 {
        LastReturnedIsStored(log, device, from, PollLimit);
        PushToCache(device, fromDb);
        reply := Answered(fromDb, fromDb[|fromDb| - 1].id);
        UpdateTwice(old(devices), device, d, devices[device]);
      } else {
        var id := Park(device, waitSeconds);
        reply := Held(id);
        UpdateTwice(old(devices), device, d, devices[device]);
      }
    }

    /** The poll handler's first step: getDevice, then `d.lastSeenAt = nowMs()`. */
    method Touch(device: DeviceId, nowMs: int)
      requires Valid()
      modifies this`devices
      ensures Valid()
      ensures devices == old(devices)[device := Registered(old(devices), log, device).(lastSeenAt := nowMs)]
    {
      var d := GetDevice(device);
      assert RecordOk(log, device, d, requests);
      ReplaceRecordKeeps(log, nextId, devices, requests, device, d.(lastSeenAt := nowMs));
      devices := devices[device := d.(lastSeenAt := nowMs)];
    }

    /** The poll handler's hold: a new request, parked with its timer armed, joins the
        device's waiter set under the next request id. */
    method Park(device: DeviceId, waitSeconds: int) returns (id: nat)
      requires Valid() && device in devices && 5 <= waitSeconds <= 60
      modifies this`devices, this`requests
      ensures Valid()
      ensures id == |old(requests)| && requests == old(requests) + [Request(device, waitSeconds, Parked, false, true)]
      ensures devices == old(devices)[device := old(devices[device]).(waiters := old(devices[device].waiters) + {id})]
    {
      id := |requests|;
      ParkKeeps(log, nextId, devices, requests, device, waitSeconds);
      requests := requests + [Request(device, waitSeconds, Parked, false, true)];
      devices := devices[device := devices[device].(waiters := devices[device].waiters + {id})];
    }

    /** The poll's timer fires: the handler is marked finished, the request leaves its
        device's waiter set, and a still parked request is answered with 204. */
    method TimeoutFires(id: nat)
      requires Valid() && id < |requests| && requests[id].timerArmed
      modifies this`devices, this`requests
      ensures Valid()
      ensures var q := old(requests[id]);
        requests == old(requests)[id := q.(state := if q.state == Parked then TimedOut else q.state, finished := true, timerArmed := false)]
        && q.device in old(devices)
        && devices == old(devices)[q.device := old(devices[q.device]).(waiters := old(devices[q.device].waiters) - {id})]
    {
      var q := requests[id];
      assert RequestOk(devices, q, id);
      var after := q.(state := if q.state == Parked then TimedOut else q.state, finished := true, timerArmed := false);
      UnparkKeeps(log, nextId, devices, requests, id, after);
      requests := requests[id := after];
      devices := devices[q.device := devices[q.device].(waiters := devices[q.device].waiters - {id})];
    }

    /** The poll's client goes away: unless the timeout already ran, the timer is cleared and
        the request leaves its device's waiter set, a still parked one for good. */
    method ClientCloses(id: nat)
      requires Valid() && id < |requests|
      modifies this`devices, this`requests
      ensures Valid()
      ensures var q := old(requests[id]);
        if q.finished then devices == old(devices) && requests == old(requests)
        else
          requests == old(requests)[id := q.(state := if q.state == Parked then Closed else q.state, timerArmed := false)]
          && q.device in old(devices)
          && devices == old(devices)[q.device := old(devices[q.device]).(waiters := old(devices[q.device].waiters) - {id})]
    {
      var q := requests[id];
      assert RequestOk(devices, q, id);
      if !q.finished {
        var after := q.(state := if q.state == Parked then Closed else q.state, timerArmed := false);
        UnparkKeeps(log, nextId, devices, requests, id, after);
        requests := requests[id := after];
        devices := devices[q.device := devices[q.device].(waiters := devices[q.device].waiters - {id})];
      }
    }

    /** cancelOffMacro: clears every pending step of the device's OFF macro and forgets it. */
    method CancelOffMacro(device: DeviceId)
      modifies this`offMacroTimers
      ensures offMacroTimers == old(offMacroTimers) - {device}
    {
      if device in offMacroTimers {
        offMacroTimers := offMacroTimers - {device};
      }
    }

    /** startOffMacro: restarts the device's OFF macro, scheduling its five steps, and reports
        their delays in seconds. */
    method StartOffMacro(device: DeviceId) returns (scheduleSec: seq<nat>)
      modifies this`offMacroTimers
      ensures offMacroTimers == (old(offMacroTimers) - {device})[device := OffSteps]
      ensures scheduleSec == [0, 20, 40, 60, 80]
    {
      CancelOffMacro(device);
      var timers: seq<Step> := [];
      for i := 0 to |OffSteps|
        invariant timers == OffSteps[..i]
      {
        timers := timers + [OffSteps[i]];
      }
      assert timers == OffSteps;
      offMacroTimers := offMacroTimers[device := timers];
      OffStepsShape();
      scheduleSec := ScheduleSec(OffSteps);
    }

    /** The next pending timer of a device's OFF macro fires: its step leaves the table and its
        row is stored and flushed by insertOne. The device keeps its (possibly emptied) entry. */
    method FireStep(device: DeviceId, now: Timestamp) returns (ev: Event)
      requires Valid() && device in offMacroTimers && offMacroTimers[device] != []
      modifies this`log, this`nextId, this`devices, this`requests, this`offMacroTimers
      ensures Valid()
      ensures var steps := old(offMacroTimers[device]);
        offMacroTimers == old(offMacroTimers)[device := steps[1..]] && ev == Event(old(nextId), now, steps[0].row)
      ensures log == old(log) + [Stored(ev.id, device, now, ev.row)] && nextId == old(nextId) + 1
      ensures Flushed(old(devices), old(requests), Registered(old(devices), old(log), device), device, [ev], devices, requests)
    {
      var steps := offMacroTimers[device];
      offMacroTimers := offMacroTimers[device := steps[1..]];
      ev := InsertOne(device, steps[0].row, now);
    }

    /** The normalising loop of POST /api/v1/cmd: every entry but OFF is normalised into a
        row, OFF (re)starts the macro and sets the flag, and any command other than GET
        cancels the macro. */
    method Normalize(device: DeviceId, incoming: seq<Item>) returns (normalized: seq<Row>, macroTriggered: bool, failed: bool)
      modifies this`offMacroTimers
      ensures failed <==> |Walked(incoming)| < |incoming|
      ensures normalized == StoredRows(Walked(incoming))
      ensures macroTriggered == MacroRequested(Walked(incoming))
      ensures offMacroTimers == TableAfter(old(offMacroTimers), device, Walked(incoming))
    {
      ghost var walked := Walked(incoming);
      macroTriggered := false;
      normalized := [];
      failed := false;
      var i := 0;
      while i < |incoming|
        invariant i <= |walked|
        invariant normalized == StoredRows(walked[..i])
        invariant macroTriggered == MacroRequested(walked[..i])
        invariant offMacroTimers == TableAfter(old(offMacroTimers), device, walked[..i])
      {
        WalkedStep(incoming, i);
        if incoming[i].None? {
          // `ev.cmd` of a null item throws; the entries before it have taken effect.
          failed := true;
          break;
        }
        var ev := incoming[i].value;
        assert walked[..i + 1][..i] == walked[..i];
        MacroRequestedSnoc(walked, i);
        var cmd := Upper(ev.cmd);
        var row := Row(cmd, Field(ev.args), Field(ev.val), Field(ev.num), Field(ev.raw));
        if cmd == "OFF" {
          macroTriggered := true;
          var _ := StartOffMacro(device);
        } else {
          if cmd != "GET" {
            CancelOffMacro(device);
          }
          normalized := normalized + [row];
        }
        i := i + 1;
      }
      assert i == |walked|;
      assert walked[..i] == walked;
    }

    /** The batch insert of POST /api/v1/cmd: the rows are stored in order under consecutive
        ids with one timestamp, and a non-empty batch is flushed to the device. */
    method StoreRows(device: DeviceId, rows: seq<Row>, now: Timestamp) returns (added: seq<Event>)
      requires Valid() && device in devices
      modifies this`log, this`nextId, this`devices, this`requests
      ensures Valid()
      ensures log == old(log) + Batch(old(nextId), device, now, rows) && nextId == old(nextId) + |rows|
      ensures added == ToEvents(Batch(old(nextId), device, now, rows))
      ensures rows == [] ==> devices == old(devices) && requests == old(requests)
      ensures rows != [] ==> Flushed(old(devices), old(requests), old(devices[device]), device, added, devices, requests)
    {
      added := InsertRows(device, rows, now);
      if |added| > 0 {
        LastIdOfIsMax(log, device);
        assert log[|log| - 1].id == added[|added| - 1].id;
        FlushToClients(device, added);
      }
    }

    /** `normalized.map(row => qIns.run(...))`: one insert per row, in order. */
    method InsertRows(device: DeviceId, rows: seq<Row>, now: Timestamp) returns (added: seq<Event>)
      requires Valid()
      modifies this`log, this`nextId
      ensures Valid()
      ensures log == old(log) + Batch(old(nextId), device, now, rows) && nextId == old(nextId) + |rows|
      ensures added == ToEvents(Batch(old(nextId), device, now, rows))
    {
      added := [];
      ghost var batch: seq<Stored> := [];
      for i := 0 to |rows|
        invariant Valid()
        invariant batch == Batch(old(nextId), device, now, rows[..i])
        invariant log == old(log) + batch && nextId == old(nextId) + i
        invariant added == ToEvents(batch)
      {
        var id := Insert(device, now, rows[i]);
        BatchSnoc(old(nextId), device, now, rows, i);
        SnocAssoc(old(log), batch, Stored(id, device, now, rows[i]));
        batch := batch + [Stored(id, device, now, rows[i])];
        added := added + [Event(id, now, rows[i])];
      }
      assert rows[..|rows|] == rows;
    }

    /** POST /api/v1/cmd: a blank device is refused and nothing changes; otherwise the device
        is handled as CmdOutcome describes. */
    method SubmitCommands(deviceParam: string, body: Body, now: Timestamp) returns (r: Result<CmdReply, HttpError>)
      requires Valid()
      modifies this`log, this`nextId, this`devices, this`requests, this`offMacroTimers
      ensures Valid()
      ensures r.Err? <==> AllSpace(deviceParam) || Incoming(body) == [] || |Walked(Incoming(body))| < |Incoming(body)|
      ensures AllSpace(deviceParam) ==>
        r == Err(DeviceRequired) && log == old(log) && nextId == old(nextId) && devices == old(devices)
        && requests == old(requests) && offMacroTimers == old(offMacroTimers)
      ensures !AllSpace(deviceParam) ==>
        CmdOutcome(old(log), old(nextId), old(devices), old(requests), old(offMacroTimers), Trim(deviceParam), Incoming(body), now,
                   log, nextId, devices, requests, offMacroTimers, r)
    {
      var device := Trim(deviceParam);
      TrimEmptyIff(deviceParam);
      if device == [] {
        return Err(DeviceRequired);
      }
      r := SubmitFor(device, body, now);
    }

    /** The /cmd handler past its device check. */
    method SubmitFor(device: DeviceId, body: Body, now: Timestamp) returns (r: Result<CmdReply, HttpError>)
      requires Valid()
      modifies this`log, this`nextId, this`devices, this`requests, this`offMacroTimers
      ensures Valid()
      ensures r.Err? <==> Incoming(body) == [] || |Walked(Incoming(body))| < |Incoming(body)|
      ensures CmdOutcome(old(log), old(nextId), old(devices), old(requests), old(offMacroTimers), device, Incoming(body), now,
                         log, nextId, devices, requests, offMacroTimers, r)
    {
      var d := GetDevice(device);
      var incoming := Incoming(body);
      if |incoming| == 0 {
        return Err(NoEvents);
      }
      var normalized, macroTriggered, failed := Normalize(device, incoming);
      if failed {
        return Err(InternalError);
      }
      var added := StoreRows(device, normalized, now);
      r := Ok(CmdReply(added, macroTriggered));
      if normalized != [] {
        UpdateTwice(old(devices), device, d, Pushed(d, added));
      }
    }
  }
}
