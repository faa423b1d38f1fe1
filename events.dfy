/** The `events` table of server.js and the queries run against it, with the events table kept
    as the sequence of its rows in insertion order. */
module EventLog {
  import opened Wrappers

  type DeviceId = string

  /** An ISO-8601 timestamp, kept opaque. */
  type Timestamp = string

  /** A value of one of the optional command fields, as it arrives in JSON. */
  datatype Value = Null | Number(n: int) | Text(s: string) | Other(json: string)

  /** A command row: `{ cmd, args, val, num, raw }`; an absent field is None. */
  datatype Row = Row(cmd: string, args: Option<Value>, val: Option<Value>, num: Option<Value>, raw: Option<Value>)

  /** A stored row of the table: `(id, device, ts, payload)`. */
  datatype Stored = Stored(id: nat, device: DeviceId, ts: Timestamp, payload: Row)

  /** An event as the server hands it out: `{ id, ts, ...row }`. */
  datatype Event = Event(id: nat, ts: Timestamp, row: Row)

  function ToEvent(s: Stored): Event {
    Event(s.id, s.ts, s.payload)
  }

  function ToEvents(ss: seq<Stored>): (es: seq<Event>)
    ensures |es| == |ss| && forall i | 0 <= i < |ss| :: es[i] == ToEvent(ss[i])
  {
    seq(|ss|, i requires 0 <= i < |ss| => ToEvent(ss[i]))
  }

  /** AUTOINCREMENT: row ids grow strictly in insertion order. */
  predicate Increasing(log: seq<Stored>) {
    forall i, j | 0 <= i < j < |log| :: log[i].id < log[j].id
  }

  /** The same fact read from the end of the table: the last id lies in (0, bound) and
      everything before it lies below the last id. */
  predicate IdsBelow(log: seq<Stored>, bound: nat) {
    log == [] || (0 < log[|log| - 1].id < bound && IdsBelow(log[..|log| - 1], log[|log| - 1].id))
  }

  /** Both readings agree: ids increase and lie in (0, bound) exactly when IdsBelow holds. */
  lemma {:induction false} IdsBelowMeans(log: seq<Stored>, bound: nat)
    ensures IdsBelow(log, bound) <==> Increasing(log) && forall i | 0 <= i < |log| :: 0 < log[i].id < bound
    decreases |log|
  {
    if log != [] {
      var front := log[..|log| - 1];
      var last := log[|log| - 1];
      IdsBelowMeans(front, last.id);
      assert forall i | 0 <= i < |front| :: front[i] == log[i];
    }
  }

  /** Every device's largest id lies below the bound. */
  lemma {:induction false} LastIdBelow(log: seq<Stored>, device: DeviceId, bound: nat)
    requires 0 < bound && IdsBelow(log, bound)
    ensures LastIdOf(log, device) < bound
    decreases |log|
  {
    if log != [] {
      LastIdBelow(log[..|log| - 1], device, log[|log| - 1].id);
    }
  }

  predicate Ascending(es: seq<Event>) {
    forall i, j | 0 <= i < j < |es| :: es[i].id < es[j].id
  }

  /** The rows with `device = ? AND id > ?`, in table order. */
  function Matching(log: seq<Stored>, device: DeviceId, cursor: int): (m: seq<Stored>)
    ensures |m| <= |log|
  {
    if log == [] then []
    else
      var m := Matching(log[..|log| - 1], device, cursor);
      var s := log[|log| - 1];
      if s.device == device && s.id > cursor then m + [s] else m
  }

  /** The query selects exactly the device's rows above the cursor, and keeps their order. */
  lemma {:induction false} MatchingSpec(log: seq<Stored>, device: DeviceId, cursor: int)
    ensures var m := Matching(log, device, cursor);
      (forall s | s in m :: s in log && s.device == device && s.id > cursor)
      && (forall i | 0 <= i < |log| && log[i].device == device && log[i].id > cursor :: log[i] in m)
      && (Increasing(log) ==> Increasing(m))
    decreases |log|
  {
    if log != [] {
      var front := log[..|log| - 1];
      var s := log[|log| - 1];
      var m := Matching(front, device, cursor);
      MatchingSpec(front, device, cursor);
      assert forall i | 0 <= i < |front| :: log[i] == front[i];
      if s.device == device && s.id > cursor && Increasing(log) {
        forall k | 0 <= k < |m| ensures m[k].id < s.id {
          assert m[k] in front;
        }
      }
    }
  }

  /** `SELECT id, ts, payload FROM events WHERE device=? AND id>? ORDER BY id LIMIT ?`. */
  function QueryAfter(log: seq<Stored>, device: DeviceId, cursor: int, limit: nat): (r: seq<Event>)
    ensures |r| <= limit
  {
    var m := Matching(log, device, cursor);
    var n := if |m| < limit then |m| else limit;
    ToEvents(m[..n])
  }

  /** A read returns the first `limit` matching rows as events, each above the cursor, in
      ascending id order. */
  lemma QueryAfterSpec(log: seq<Stored>, device: DeviceId, cursor: int, limit: nat)
    ensures var m := Matching(log, device, cursor); var r := QueryAfter(log, device, cursor, limit);
      |r| == (if |m| < limit then |m| else limit) && r == ToEvents(m[..|r|])
      && (forall i | 0 <= i < |r| :: r[i].id > cursor)
      && (Increasing(log) ==> Ascending(r))
  {
    var m := Matching(log, device, cursor);
    MatchingSpec(log, device, cursor);
    assert forall i | 0 <= i < |m| :: m[i] in m;
  }

  /** `SELECT COALESCE(MAX(id), 0) FROM events WHERE device=?`. */
  function LastIdOf(log: seq<Stored>, device: DeviceId): nat {
    if log == [] then 0
    else
      var r := LastIdOf(log[..|log| - 1], device);
      var s := log[|log| - 1];
      if s.device == device && s.id > r then s.id else r
  }

  /** The value is the largest id of the device's rows, and 0 when it has none. */
  lemma {:induction false} LastIdOfIsMax(log: seq<Stored>, device: DeviceId)
    ensures forall i | 0 <= i < |log| && log[i].device == device :: log[i].id <= LastIdOf(log, device)
    ensures LastIdOf(log, device) == 0
      || exists i | 0 <= i < |log| :: log[i].device == device && log[i].id == LastIdOf(log, device)
    decreases |log|
  {
    if log != [] {
      var front := log[..|log| - 1];
      LastIdOfIsMax(front, device);
      assert forall i | 0 <= i < |front| :: log[i] == front[i];
    }
  }

  /** Nothing of a device follows its largest id. */
  lemma {:induction false} NothingAfterLastId(log: seq<Stored>, device: DeviceId, cursor: int)
    requires cursor >= LastIdOf(log, device)
    ensures Matching(log, device, cursor) == []
  {
    if log != [] {
      NothingAfterLastId(log[..|log| - 1], device, cursor);
    }
  }

  /** Appending rows to the table adds their matching rows at the end of every query. */
  lemma {:induction false} MatchingAppend(log: seq<Stored>, extra: seq<Stored>, device: DeviceId, cursor: int)
    ensures Matching(log + extra, device, cursor) == Matching(log, device, cursor) + Matching(extra, device, cursor)
    decreases |extra|
  {
    if extra == [] {
      assert log + extra == log;
    } else {
      var front := extra[..|extra| - 1];
      MatchingAppend(log, front, device, cursor);
      assert (log + extra)[..|log + extra| - 1] == log + front;
    }
  }

  /** With every id at most `bound`, no row lies after `bound`. */
  lemma NoneAbove(log: seq<Stored>, device: DeviceId, bound: int)
    requires forall i | 0 <= i < |log| :: log[i].id <= bound
    ensures Matching(log, device, bound) == []
  {
  }

  /** Raising the cursor to the id of the k-th matching row drops exactly the first k rows:
      a reader that resumes from the id it last received sees every later row once, in order. */
  lemma {:induction false} ResumeAfter(log: seq<Stored>, device: DeviceId, cursor: int, k: nat)
    requires Increasing(log)
    requires 0 < k <= |Matching(log, device, cursor)|
    ensures Matching(log, device, cursor)[k..] == Matching(log, device, Matching(log, device, cursor)[k - 1].id)
    decreases |log|
  {
    var front := log[..|log| - 1];
    var s := log[|log| - 1];
    var m := Matching(log, device, cursor);
    var m' := Matching(front, device, cursor);
    MatchingSpec(front, device, cursor);
    assert Increasing(front);
    assert forall i | 0 <= i < |front| :: front[i].id < s.id;
    if s.device == device && s.id > cursor {
      if k < |m| {
        ResumeAfter(front, device, cursor, k);
        assert m[k - 1] == m'[k - 1];
        assert m'[k - 1] in front;
        assert m[k..] == m'[k..] + [s];
      } else {
        NoneAbove(log, device, s.id);
      }
    } else if s.device != device {
      ResumeAfter(front, device, cursor, k);
    }
  }

  /** Two consecutive reads, the second from the id the first one ended on, return the
      first `|r1| + limit` matching rows without a gap or a repetition. */
  lemma ConsecutiveQueries(log: seq<Stored>, device: DeviceId, cursor: int, limit: nat)
    requires Increasing(log)
    requires QueryAfter(log, device, cursor, limit) != []
    ensures var r1 := QueryAfter(log, device, cursor, limit);
      var r2 := QueryAfter(log, device, r1[|r1| - 1].id, limit);
      (forall i | 0 <= i < |r2| :: r2[i].id > r1[|r1| - 1].id)
      && r1 + r2 == QueryAfter(log, device, cursor, |r1| + limit)
  {
    var m := Matching(log, device, cursor);
    var r1 := QueryAfter(log, device, cursor, limit);
    var n := |r1|;
    QueryAfterSpec(log, device, cursor, limit);
    assert r1[n - 1] == ToEvent(m[n - 1]);
    ResumeAfter(log, device, cursor, n);
    var m2 := Matching(log, device, m[n - 1].id);
    var r2 := QueryAfter(log, device, r1[n - 1].id, limit);
    var both := QueryAfter(log, device, cursor, n + limit);
    QueryAfterSpec(log, device, r1[n - 1].id, limit);
    QueryAfterSpec(log, device, cursor, n + limit);
    assert |both| == |r1| + |r2|;
    forall i | 0 <= i < |both| ensures both[i] == (r1 + r2)[i] {
      if i >= n {
        assert m[i] == m2[i - n];
      }
    }
  }

  /** The tail cache: `q.push(...added); if (q.length > max) q = q.slice(-max)`, applied to
      the already concatenated sequence. The result is the last `min(|s|, max)` elements of s. */
  function KeepTail<T>(s: seq<T>, max: nat): (r: seq<T>)
    ensures |r| == (if |s| < max then |s| else max)
  {
    if |s| > max then s[|s| - max..] else s
  }

  /** The cache is a suffix of what was pushed. */
  lemma KeepTailIsSuffix<T>(s: seq<T>, max: nat)
    ensures var r := KeepTail(s, max); r == s[|s| - |r|..]
  {
  }

  /** Trimming after every push keeps the same tail as trimming the whole history once. */
  lemma KeepTailCompose<T>(s: seq<T>, t: seq<T>, max: nat)
    ensures KeepTail(KeepTail(s, max) + t, max) == KeepTail(s + t, max)
  {
    var a := KeepTail(s, max);
    var lhs := KeepTail(a + t, max);
    var rhs := KeepTail(s + t, max);
    KeepTailIsSuffix(s, max);
    KeepTailIsSuffix(a + t, max);
    KeepTailIsSuffix(s + t, max);
    assert |lhs| == |rhs|;
    forall i | 0 <= i < |lhs| ensures lhs[i] == rhs[i] {
      var j := |a + t| - |lhs| + i;
      var k := |s + t| - |rhs| + i;
      assert lhs[i] == (a + t)[j];
      assert rhs[i] == (s + t)[k];
      if j < |a| {
        assert (a + t)[j] == s[|s| - |a| + j];
      }
    }
  }

  /** A batch no longer than the cache is entirely in the cache after the push, at its end. */
  lemma KeepTailHoldsBatch<T>(q: seq<T>, added: seq<T>, max: nat)
    requires |added| <= max
    ensures var r := KeepTail(q + added, max); |r| >= |added| && r[|r| - |added|..] == added
  {
    var r := KeepTail(q + added, max);
    KeepTailIsSuffix(q + added, max);
    assert r[|r| - |added|..] == (q + added)[|q|..];
  }

  /** The rows a batch of inserts creates: one row per input row, in order, with consecutive
      ids from `firstId` and one shared timestamp. */
  function Batch(firstId: nat, device: DeviceId, ts: Timestamp, rows: seq<Row>): (b: seq<Stored>)
    ensures |b| == |rows|
  {
    seq(|rows|, i requires 0 <= i < |rows| => Stored(firstId + i, device, ts, rows[i]))
  }

  /** A batch grows one row at a time, each under the next id. */
  lemma BatchSnoc(firstId: nat, device: DeviceId, ts: Timestamp, rows: seq<Row>, i: nat)
    requires i < |rows|
    ensures Batch(firstId, device, ts, rows[..i + 1])
      == Batch(firstId, device, ts, rows[..i]) + [Stored(firstId + i, device, ts, rows[i])]
    ensures ToEvents(Batch(firstId, device, ts, rows[..i + 1]))
      == ToEvents(Batch(firstId, device, ts, rows[..i])) + [Event(firstId + i, ts, rows[i])]
  {
    var longer := Batch(firstId, device, ts, rows[..i + 1]);
    var shorter := Batch(firstId, device, ts, rows[..i]);
    assert longer == shorter + [Stored(firstId + i, device, ts, rows[i])];
    assert ToEvents(longer) == ToEvents(shorter) + [ToEvent(longer[i])];
  }

  /** A batch appended above every existing id keeps the table increasing; inside the batch the
      ids grow in input order and every row bears the batch's timestamp and device. */
  lemma BatchExtends(log: seq<Stored>, firstId: nat, device: DeviceId, ts: Timestamp, rows: seq<Row>)
    requires Increasing(log)
    requires forall i | 0 <= i < |log| :: log[i].id < firstId
    ensures Increasing(log + Batch(firstId, device, ts, rows))
    ensures var b := Batch(firstId, device, ts, rows);
      forall i | 0 <= i < |b| :: b[i].device == device && b[i].ts == ts && b[i].payload == rows[i] && b[i].id == firstId + i
  {
    var b := Batch(firstId, device, ts, rows);
    var all := log + b;
    forall i, j | 0 <= i < j < |all| ensures all[i].id < all[j].id {
      if j < |log| {
        assert all[i] == log[i] && all[j] == log[j];
      } else if i < |log| {
        assert all[i] == log[i] && all[j] == b[j - |log|];
      } else {
        assert all[i] == b[i - |log|] && all[j] == b[j - |log|];
      }
    }
  }

  /** The last event a query returns is a stored row of the device, so the device's largest id
      is at least its id. */
  lemma LastReturnedIsStored(log: seq<Stored>, device: DeviceId, cursor: int, limit: nat)
    requires QueryAfter(log, device, cursor, limit) != []
    ensures var r := QueryAfter(log, device, cursor, limit); r[|r| - 1].id <= LastIdOf(log, device)
  {
    var r := QueryAfter(log, device, cursor, limit);
    var m := Matching(log, device, cursor);
    QueryAfterSpec(log, device, cursor, limit);
    MatchingSpec(log, device, cursor);
    var s := m[|r| - 1];
    assert s in m;
    var i :| 0 <= i < |log| && log[i] == s;
    LastIdOfIsMax(log, device);
  }
}
