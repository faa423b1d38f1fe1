/** The pure part of POST /api/v1/cmd in server.js: which entries a body carries, how each
    entry becomes a row, which rows are stored, and how the OFF macro table evolves while
    the entries are walked. */
module Dispatch {
  import opened Wrappers
  import opened JsText
  import opened EventLog

  /** One incoming command object; `cmd` holds `String(ev.cmd || '')`. */
  datatype Entry = Entry(cmd: string, args: Option<Value>, val: Option<Value>, num: Option<Value>, raw: Option<Value>)

  /** One item of a batch: an entry, or a JSON null (None), on which reading `ev.cmd` throws. */
  type Item = Option<Entry>

  /** The parsed request body (`req.body || {}`). */
  datatype Body =
    | ArrayBody(items: seq<Item>)
      /** An object; `events` is Some when its `events` member is an array, and `self` is the
          object read as a single command. */
    | ObjectBody(events: Option<seq<Item>>, self: Entry)
      /** Anything that is neither an array nor an object. */
    | OtherBody

  /** The batch shape: a bare array, else an `events` array, else the object itself. */
  function Incoming(body: Body): seq<Item> {
    match body
    case ArrayBody(items) => items
    case ObjectBody(Some(events), _) => events
    case ObjectBody(None, self) => [Some(self)]
    case OtherBody => []
  }

  /** The request is refused for carrying no events exactly for an empty array, an empty
      `events` array, or a body that is no object at all. */
  lemma IncomingEmpty(body: Body)
    ensures Incoming(body) == [] <==>
      body == ArrayBody([]) || (body.ObjectBody? && body.events == Some([])) || body.OtherBody?
  {
  }

  /** The entries the normalising loop gets through: those before the first null item. */
  function Walked(items: seq<Item>): (es: seq<Entry>)
    ensures |es| <= |items|
  {
    if items == [] || items[0] == None then []
    else [items[0].value] + Walked(items[1..])
  }

  /** The walk stops at the first null item and keeps every entry before it. */
  lemma {:induction false} WalkedPrefix(items: seq<Item>)
    ensures forall i | 0 <= i < |Walked(items)| :: items[i] == Some(Walked(items)[i])
    ensures |Walked(items)| < |items| ==> items[|Walked(items)|] == None
  {
    if items != [] && items[0] != None {
      WalkedPrefix(items[1..]);
      assert forall i | 0 < i < |Walked(items)| :: Walked(items)[i] == Walked(items[1..])[i - 1];
    }
  }

  /** One step of the walk: item `i`, reached, is an entry exactly when the walk goes past it. */
  lemma WalkedStep(items: seq<Item>, i: nat)
    requires i <= |Walked(items)| && i < |items|
    ensures items[i].Some? <==> i < |Walked(items)|
    ensures items[i].Some? ==> items[i].value == Walked(items)[i]
  {
    WalkedPrefix(items);
  }

  /** A batch without null items is walked whole. */
  lemma WalkedAll(items: seq<Item>)
    requires forall i | 0 <= i < |items| :: items[i].Some?
    ensures |Walked(items)| == |items|
  {
    WalkedPrefix(items);
  }

  /** `ev.f ?? undefined`: a JSON null is dropped like an absent field. */
  function Field(v: Option<Value>): (r: Option<Value>)
    ensures r.Some? <==> v.Some? && v.value != Null
    ensures r.Some? ==> r == v
  {
    match v
    case Some(Null) => None
    case _ => v
  }

  function NormalizeRow(e: Entry): Row {
    Row(Upper(e.cmd), Field(e.args), Field(e.val), Field(e.num), Field(e.raw))
  }

  predicate IsOff(e: Entry) { Upper(e.cmd) == "OFF" }

  predicate IsGet(e: Entry) { Upper(e.cmd) == "GET" }

  /** The rows the loop collects: every entry except the OFF ones, normalised, in order. */
  function StoredRows(es: seq<Entry>): (rows: seq<Row>)
    ensures |rows| <= |es|
  {
    if es == [] then []
    else
      var front := es[..|es| - 1];
      var e := es[|es| - 1];
      if IsOff(e) then StoredRows(front) else StoredRows(front) + [NormalizeRow(e)]
  }

  /** The stored rows are the normalised non-OFF entries: none of them is OFF, every non-OFF
      entry is among them and every one of them comes from a non-OFF entry. */
  lemma {:induction false} StoredRowsContents(es: seq<Entry>)
    ensures forall r | r in StoredRows(es) :: r.cmd != "OFF"
    ensures forall i | 0 <= i < |es| && !IsOff(es[i]) :: NormalizeRow(es[i]) in StoredRows(es)
    ensures forall r | r in StoredRows(es) :: exists i | 0 <= i < |es| :: !IsOff(es[i]) && r == NormalizeRow(es[i])
  {
    if es != [] {
      var front := es[..|es| - 1];
      StoredRowsContents(front);
      assert forall i | 0 <= i < |front| :: front[i] == es[i];
    }
  }

  /** Splitting a batch splits its stored rows the same way: input order is kept. */
  lemma {:induction false} StoredRowsAppend(a: seq<Entry>, b: seq<Entry>)
    ensures StoredRows(a + b) == StoredRows(a) + StoredRows(b)
    decreases |b|
  {
    if b == [] {
      assert a + b == a;
    } else {
      var front := b[..|b| - 1];
      StoredRowsAppend(a, front);
      assert (a + b)[..|a + b| - 1] == a + front;
    }
  }

  /** A batch without OFF entries is stored whole, entry by entry. */
  lemma {:induction false} StoredRowsWithoutOff(es: seq<Entry>)
    requires forall i | 0 <= i < |es| :: !IsOff(es[i])
    ensures |StoredRows(es)| == |es|
    ensures forall i | 0 <= i < |es| :: StoredRows(es)[i] == NormalizeRow(es[i])
  {
    if es != [] {
      var front := es[..|es| - 1];
      StoredRowsWithoutOff(front);
    }
  }

  /** The reply's `macro` field: set once any entry was OFF. */
  predicate MacroRequested(es: seq<Entry>) {
    exists i | 0 <= i < |es| :: IsOff(es[i])
  }

  /** Walking one more entry sets the flag exactly when that entry is OFF (or it was set). */
  lemma MacroRequestedSnoc(es: seq<Entry>, i: nat)
    requires i < |es|
    ensures MacroRequested(es[..i + 1]) <==> MacroRequested(es[..i]) || IsOff(es[i])
  {
    var longer := es[..i + 1];
    if MacroRequested(longer) {
      var j :| 0 <= j < |longer| && IsOff(longer[j]);
      if j < i {
        assert es[..i][j] == es[j];
      }
    }
    if MacroRequested(es[..i]) {
      var j :| 0 <= j < i && IsOff(es[..i][j]);
      assert longer[j] == es[j];
    }
    if IsOff(es[i]) {
      assert longer[i] == es[i];
    }
  }

  /** One step of the OFF macro: its delay after the start and the row it stores. */
  datatype Step = Step(delayMs: nat, row: Row)

  function CmdRow(cmd: string): Row { Row(cmd, None, None, None, None) }

  function RawRow(raw: string): Row { Row("RAW", None, None, None, Some(Text(raw))) }

  /** SCENE 1, then three raw hardware resets 20 s apart, then OFF. */
  const OffSteps: seq<Step> := [
    Step(0, Row("SCENE 1", None, Some(Number(1)), None, None)),
    Step(20000, RawRow("1 0")),
    Step(40000, RawRow("40 0")),
    Step(60000, RawRow("50 0")),
    Step(80000, CmdRow("OFF"))
  ]

  /** The `scheduleSec` startOffMacro reports: each step's delay in seconds. */
  function ScheduleSec(steps: seq<Step>): (secs: seq<nat>)
    ensures |secs| == |steps|
    ensures forall i | 0 <= i < |steps| :: secs[i] * 1000 <= steps[i].delayMs < secs[i] * 1000 + 1000
  {
    seq(|steps|, i requires 0 <= i < |steps| => steps[i].delayMs / 1000)
  }

  /** The sequence has five steps at 0, 20, 40, 60 and 80 s, and only its last row is OFF. */
  lemma OffStepsShape()
    ensures |OffSteps| == 5
    ensures ScheduleSec(OffSteps) == [0, 20, 40, 60, 80]
    ensures OffSteps[4].row.cmd == "OFF"
    ensures forall i | 0 <= i < 4 :: OffSteps[i].row.cmd != "OFF"
  {
  }

  /** The timers table: per device, the steps of its OFF macro that have not fired yet. */
  type MacroTable = map<DeviceId, seq<Step>>

  /** What one loop iteration does to the table: OFF restarts the macro (cancel, then start),
      any other command but GET cancels it, GET leaves it alone. */
  function AfterEntry(t: MacroTable, device: DeviceId, e: Entry): MacroTable {
    if IsOff(e) then (t - {device})[device := OffSteps]
    else if !IsGet(e) then t - {device}
    else t
  }

  function TableAfter(t: MacroTable, device: DeviceId, es: seq<Entry>): MacroTable {
    if es == [] then t else AfterEntry(TableAfter(t, device, es[..|es| - 1]), device, es[|es| - 1])
  }

  /** A batch of GETs keeps the table as it was. */
  lemma {:induction false} TableAfterGets(t: MacroTable, device: DeviceId, es: seq<Entry>)
    requires forall i | 0 <= i < |es| :: IsGet(es[i])
    ensures TableAfter(t, device, es) == t
  {
    if es != [] {
      TableAfterGets(t, device, es[..|es| - 1]);
    }
  }

  /** After the loop, the last entry other than GET decides: OFF leaves a fresh five-step
      macro, anything else leaves none. */
  lemma {:induction false} TableAfterLastActionable(t: MacroTable, device: DeviceId, es: seq<Entry>, k: nat)
    requires k < |es| && !IsGet(es[k])
    requires forall j | k < j < |es| :: IsGet(es[j])
    ensures TableAfter(t, device, es) == if IsOff(es[k]) then t[device := OffSteps] else t - {device}
    decreases |es|
  {
    var front := es[..|es| - 1];
    if k < |es| - 1 {
      TableAfterLastActionable(t, device, front, k);
    } else {
      var before := TableAfter(t, device, front);
      forall other | other != device
        ensures (other in before <==> other in t) && (other in t ==> before[other] == t[other])
      {
        TableAfterOthers(t, device, front, other);
      }
      assert before - {device} == t - {device};
    }
  }

  /** Other devices' macros are never touched by a batch for this device. */
  lemma {:induction false} TableAfterOthers(t: MacroTable, device: DeviceId, es: seq<Entry>, other: DeviceId)
    requires other != device
    ensures other in TableAfter(t, device, es) <==> other in t
    ensures other in t ==> TableAfter(t, device, es)[other] == t[other]
    decreases |es|
  {
    if es != [] {
      TableAfterOthers(t, device, es[..|es| - 1], other);
    }
  }

  /** Hence the device has a macro after the batch exactly when its last entry other than GET
      was OFF, or when it had an entry before and the batch holds only GETs. */
  lemma MacroActiveAfterBatch(t: MacroTable, device: DeviceId, es: seq<Entry>)
    ensures (forall i | 0 <= i < |es| :: IsGet(es[i])) ==> (device in TableAfter(t, device, es) <==> device in t)
    ensures forall k | 0 <= k < |es| && !IsGet(es[k]) && (forall j | k < j < |es| :: IsGet(es[j])) ::
      (device in TableAfter(t, device, es) <==> IsOff(es[k]))
  {
    if forall i | 0 <= i < |es| :: IsGet(es[i]) {
      TableAfterGets(t, device, es);
    }
    forall k | 0 <= k < |es| && !IsGet(es[k]) && (forall j | k < j < |es| :: IsGet(es[j]))
      ensures device in TableAfter(t, device, es) <==> IsOff(es[k])
    {
      TableAfterLastActionable(t, device, es, k);
    }
  }
}
