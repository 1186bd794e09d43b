/**
 The writers of the audit log (app/logging_service.py): the handler object of one worker, and every
 interleaving of many workers' lock, re-read, append and state-file steps.
 */
module AuditWriters {
  import opened Common
  import opened Audit
  import Json

  /** How an attempt to rewrite the state file ends. Opening it for writing truncates it first. */
  datatype StateWrite = Stored | Refused | Truncated

  function Rewritten(state: Option<string>, h: string, write: StateWrite): (state': Option<string>)
  {
    match write
    case Stored => Some(h)
    case Refused => state
    case Truncated => Some("")
  }

  /** The link value a state file stands for. */
  function StateHead(state: Option<string>): (v: Json.Value)
  {
    LinkValue(Reread(state, None, true))
  }

  /**
   What an emission does to an accepted log: one entry more, accepted exactly when it was linked to the head,
   and a state file, if written, that is in step with the log again.
   */
  ghost predicate Extends(c: Codec, before: seq<string>, used: Option<string>, after: seq<string>,
                          state: Option<string>, write: StateWrite)
  {
    && (Accepted(c, after) <==> LinkValue(used) == Head(Entries(before)))
    && |Entries(after)| == |Entries(before)| + 1
    && (write.Stored? ==> StateHead(state) == Head(Entries(after)))
  }

  lemma EmissionExtends(c: Codec, log: seq<string>, record: Record, used: Option<string>, state: Option<string>,
                        write: StateWrite)
    requires c.Lawful()
    ensures Accepted(c, log) ==>
              Extends(c, log, used, log + [NewLine(c, record, used)],
                      Rewritten(state, NewHmac(c, record, used), write), write)
  {
    if Accepted(c, log) {
      AppendAcceptedIff(c, log, record, used);
    }
  }

  // ---------------------------------------------------------------- one handler

  class AuditFiles {
    var log: seq<string>
    var state: Option<string>

    constructor ()
      ensures log == [] && state == None
    {
      log := [];
      state := None;
    }
  }

  class HmacAuditHandler {
    const files: AuditFiles
    const codec: Codec
    var last: Option<string>

    /** The handler starts from the state file, or from nothing when that is absent, empty or unreadable. */
    constructor (shared: AuditFiles, c: Codec, readable: bool)
      ensures files == shared && codec == c && last == Reread(shared.state, None, readable)
    {
      files := shared;
      codec := c;
      last := if shared.state.Some? && readable && shared.state.value != "" then shared.state else None;
    }

    /**
     One `emit`, holding the file lock. With a readable state file that is in step with an accepted log, the
     log stays accepted, grows by this record's entry, and the state file is in step again.
     */
    method Emit(record: Record, readable: bool, appended: bool, write: StateWrite)
      requires codec.Lawful()
      modifies this`last, files`log, files`state
      ensures !appended ==>
                && files.log == old(files.log) && files.state == old(files.state)
                && last == Reread(old(files.state), old(last), readable)
      ensures appended ==>
                var used := Reread(old(files.state), old(last), readable);
                && files.log == old(files.log) + [NewLine(codec, record, used)]
                && last == Some(NewHmac(codec, record, used))
                && files.state == Rewritten(old(files.state), NewHmac(codec, record, used), write)
      ensures Accepted(codec, old(files.log)) && appended ==>
                Extends(codec, old(files.log), Reread(old(files.state), old(last), readable),
                        files.log, files.state, write)
    {
      if files.state.Some? && readable {
        last := if files.state.value == "" then None else files.state;
      }
      if !appended {
        return;
      }
      var h := NewHmac(codec, record, last);
      EmissionExtends(codec, files.log, record, last, files.state, write);
      files.log := files.log + [NewLine(codec, record, last)];
      last := Some(h);
      match write {
        case Stored => files.state := Some(h);
        case Refused =>
        case Truncated => files.state := Some("");
      }
    }
  }

  // ---------------------------------------------------------------- every interleaving of workers

  datatype Phase = Idle | Locked(record: Record) | Linked(record: Record) | Appended

  datatype Handler = Handler(last: Option<string>, phase: Phase)

  datatype World = World(log: seq<string>, state: Option<string>, owner: Option<WorkerId>,
                         handlers: map<WorkerId, Handler>)

  datatype Event =
    | Start(w: WorkerId, readable: bool)         // a worker starts and reads the state file
    | Acquire(w: WorkerId, record: Record)       // it has a record and gets the exclusive file lock
    | ReadState(w: WorkerId, readable: bool)     // it re-reads the state file
    | Append(w: WorkerId, written: bool)         // it appends the line, or the write raises and the record is dropped
    | WriteState(w: WorkerId, write: StateWrite) // it rewrites the state file and releases the lock
    | Die(w: WorkerId)                           // the process ends wherever it is; its lock is released

  const EMPTY := World([], None, None, map[])

  function Set(x: World, w: WorkerId, h: Handler): (x': World)
  {
    x.(handlers := x.handlers[w := h])
  }

  function Happen(c: Codec, x: World, v: Event): (x': World)
  {
    if v.Start? then
      if v.w in x.handlers then x else Set(x, v.w, Handler(Reread(x.state, None, v.readable), Idle))
    else if v.w !in x.handlers then x
    else
      var h := x.handlers[v.w];
      match v
      case Start(_, _) => x
      case Acquire(w, record) =>
        if h.phase.Idle? && x.owner.None? then Set(x.(owner := Some(w)), w, h.(phase := Locked(record))) else x
      case ReadState(w, readable) =>
        if h.phase.Locked? then Set(x, w, Handler(Reread(x.state, h.last, readable), Linked(h.phase.record))) else x
      case Append(w, written) =>
        if !h.phase.Linked? then x
        else if written then
          var line, hmac := NewLine(c, h.phase.record, h.last), NewHmac(c, h.phase.record, h.last);
          Set(x.(log := x.log + [line]), w, Handler(Some(hmac), Appended))
        else Set(x.(owner := None), w, h.(phase := Idle))
      case WriteState(w, write) =>
        if !h.phase.Appended? || h.last.None? then x
        else Set(x.(owner := None, state := Rewritten(x.state, h.last.value, write)), w, h.(phase := Idle))
      case Die(w) =>
        x.(handlers := x.handlers - {w}, owner := if h.phase.Idle? then x.owner else None)
  }

  function History(c: Codec, x: World, events: seq<Event>): (x': World)
  {
    if events == [] then x else Happen(c, History(c, x, events[..|events| - 1]), events[|events| - 1])
  }

  /** The state file is read and written when it has to be: no failed read, failed write or death in between. */
  predicate Healthy(x: World, v: Event)
  {
    match v
    case ReadState(_, readable) => readable
    case WriteState(_, write) => write.Stored?
    case Die(w) => w in x.handlers ==> !x.handlers[w].phase.Appended?
    case _ => true
  }

  ghost predicate HealthyRun(c: Codec, x: World, events: seq<Event>)
  {
    forall k :: 0 <= k < |events| ==> Healthy(History(c, x, events[..k]), events[k])
  }

  /** Some worker has appended its line and not yet rewritten the state file. */
  predicate Midway(x: World)
  {
    x.owner.Some? && x.owner.value in x.handlers && x.handlers[x.owner.value].phase.Appended?
  }

  /** The lock admits one worker, and only that worker is past waiting for it. */
  ghost predicate Exclusive(x: World)
  {
    && (x.owner.Some? ==> x.owner.value in x.handlers && !x.handlers[x.owner.value].phase.Idle?)
    && (forall w :: w in x.handlers && x.owner != Some(w) ==> x.handlers[w].phase.Idle?)
  }

  /** The head that the state file, or the owner's memory, holds. */
  ghost predicate InStep(x: World, head: Json.Value)
  {
    && (!Midway(x) ==> StateHead(x.state) == head)
    && (!Midway(x) && x.state.None? ==> forall w :: w in x.handlers ==> x.handlers[w].last.None?)
    && (x.owner.Some? && x.owner.value in x.handlers ==>
          var h := x.handlers[x.owner.value];
          && (h.phase.Linked? || h.phase.Appended? ==> LinkValue(h.last) == head)
          && (h.phase.Appended? ==> h.last.Some? && h.last.value != ""))
  }

  ghost predicate Inv(c: Codec, x: World)
  {
    Accepted(c, x.log) && Exclusive(x) && InStep(x, Head(Entries(x.log)))
  }

  lemma OtherStepKeepsInStep(c: Codec, x: World, v: Event, head: Json.Value)
    requires Exclusive(x) && InStep(x, head) && Healthy(x, v)
    requires !(v.Append? && v.written)
    ensures InStep(Happen(c, x, v), head) && Exclusive(Happen(c, x, v)) && Happen(c, x, v).log == x.log
  {
  }

  lemma AppendKeepsInStep(c: Codec, x: World, v: Event, head: Json.Value)
    requires c.Lawful() && Exclusive(x) && InStep(x, head) && v.Append? && v.written
    requires v.w in x.handlers && x.handlers[v.w].phase.Linked?
    ensures var h := x.handlers[v.w];
            && Exclusive(Happen(c, x, v))
            && InStep(Happen(c, x, v), Json.Str(NewHmac(c, h.phase.record, h.last)))
            && LinkValue(h.last) == head
  {
  }

  lemma EventKeepsInv(c: Codec, x: World, v: Event)
    requires c.Lawful() && Inv(c, x) && Healthy(x, v)
    ensures Inv(c, Happen(c, x, v)) && x.log <= Happen(c, x, v).log
  {
    var head := Head(Entries(x.log));
    if Appends(x, v) {
      AppendKeepsInStep(c, x, v, head);
      AppendAcceptedIff(c, x.log, x.handlers[v.w].phase.record, x.handlers[v.w].last);
    } else if !(v.Append? && v.written) {
      OtherStepKeepsInStep(c, x, v, head);
    }
  }

  /** At every moment of every healthy interleaving the log is one that the verifier accepts, and only grows. */
  lemma {:induction false} HealthyRunKeepsInv(c: Codec, x: World, events: seq<Event>)
    requires c.Lawful() && Inv(c, x) && HealthyRun(c, x, events)
    ensures Inv(c, History(c, x, events)) && x.log <= History(c, x, events).log
  {
    if events != [] {
      var k := |events| - 1;
      forall j | 0 <= j < k ensures Healthy(History(c, x, events[..k][..j]), events[..k][j]) {
        assert events[..k][..j] == events[..j];
      }
      HealthyRunKeepsInv(c, x, events[..k]);
      EventKeepsInv(c, History(c, x, events[..k]), events[k]);
    }
  }

  lemma EmptyInv(c: Codec)
    ensures Inv(c, EMPTY)
  {
  }

  /** From empty files: every healthy interleaving of any number of writers leaves an accepted log. */
  lemma WritersAreAccepted(c: Codec, events: seq<Event>)
    requires c.Lawful() && HealthyRun(c, EMPTY, events)
    ensures Accepted(c, History(c, EMPTY, events).log)
  {
    EmptyInv(c);
    HealthyRunKeepsInv(c, EMPTY, events);
  }

  // ---------------------------------------------------------------- exactly which runs are accepted

  /** If the event appends a line, the worker links it to the head of the log. */
  ghost predicate Links(x: World, v: Event)
  {
    Appends(x, v) ==> LinkValue(x.handlers[v.w].last) == Head(Entries(x.log))
  }

  ghost predicate LinksAt(c: Codec, x: World, events: seq<Event>, k: nat)
    requires k < |events|
  {
    Links(History(c, x, events[..k]), events[k])
  }

  ghost predicate LinkedRun(c: Codec, x: World, events: seq<Event>)
  {
    forall k :: 0 <= k < |events| ==> LinksAt(c, x, events, k)
  }

  lemma LinkedSnoc(c: Codec, x: World, events: seq<Event>)
    requires events != []
    ensures var n := |events| - 1;
            LinkedRun(c, x, events) <==> LinkedRun(c, x, events[..n]) && Links(History(c, x, events[..n]), events[n])
  {
    var n := |events| - 1;
    var front := events[..n];
    forall k | 0 <= k < n ensures LinksAt(c, x, front, k) <==> LinksAt(c, x, events, k) {
      assert front[..k] == events[..k] && front[k] == events[k];
    }
    assert LinksAt(c, x, events, n) <==> Links(History(c, x, front), events[n]);
  }

  lemma EventAcceptedIff(c: Codec, x: World, v: Event)
    requires c.Lawful()
    ensures Accepted(c, Happen(c, x, v).log) <==> Accepted(c, x.log) && Links(x, v)
  {
    if Appends(x, v) {
      var h := x.handlers[v.w];
      var line := NewLine(c, h.phase.record, h.last);
      assert Happen(c, x, v).log == x.log + [line];
      if Accepted(c, x.log) {
        AppendAcceptedIff(c, x.log, h.phase.record, h.last);
      } else {
        RejectedForGood(c, x.log, [line]);
      }
    } else {
      assert Happen(c, x, v).log == x.log;
    }
  }

  /**
   Whatever fails in whatever interleaving: the log is accepted in the end if and only if every append along the way
   was linked to the head of the log as it then was.
   */
  lemma {:induction false} RunAcceptedIff(c: Codec, x: World, events: seq<Event>)
    requires c.Lawful() && Accepted(c, x.log)
    ensures Accepted(c, History(c, x, events).log) <==> LinkedRun(c, x, events)
  {
    if events != [] {
      var n := |events| - 1;
      RunAcceptedIff(c, x, events[..n]);
      EventAcceptedIff(c, History(c, x, events[..n]), events[n]);
      LinkedSnoc(c, x, events);
    }
  }

  // ---------------------------------------------------------------- nothing is lost or reordered

  /** The records appended along a run, in the order of the appends. */
  function Logged(c: Codec, x: World, events: seq<Event>): (records: seq<Record>)
  {
    if events == [] then []
    else
      var v := events[|events| - 1];
      var y := History(c, x, events[..|events| - 1]);
      Logged(c, x, events[..|events| - 1]) +
      if Appends(y, v) then [y.handlers[v.w].phase.record] else []
  }

  /** Entry by entry, the log says what the records say. */
  ghost predicate Holds(entries: seq<seq<Json.Field>>, records: seq<Record>)
  {
    && |entries| == |records|
    && forall i :: 0 <= i < |entries| ==> Reports(entries[i], records[i])
  }

  lemma HoldsSnoc(c: Codec, entries: seq<seq<Json.Field>>, records: seq<Record>, r: Record, last: Option<string>)
    requires Holds(entries, records)
    ensures Holds(entries + [NewEntry(c, r, last)], records + [r])
  {
    EntrySays(c, r, last);
  }

  predicate Appends(x: World, v: Event)
  {
    v.Append? && v.written && v.w in x.handlers && x.handlers[v.w].phase.Linked?
  }

  lemma StepLogs(c: Codec, x: World, v: Event, records: seq<Record>)
    requires c.Lawful() && Accepted(c, x.log) && Holds(Entries(x.log), records)
    ensures Appends(x, v) ==> Holds(Entries(Happen(c, x, v).log), records + [x.handlers[v.w].phase.record])
    ensures !Appends(x, v) ==> Holds(Entries(Happen(c, x, v).log), records)
  {
    if Appends(x, v) {
      var h := x.handlers[v.w];
      AppendAcceptedIff(c, x.log, h.phase.record, h.last);
      HoldsSnoc(c, Entries(x.log), records, h.phase.record, h.last);
    } else {
      assert Happen(c, x, v).log == x.log;
    }
  }

  /** The log holds exactly the records whose append succeeded, in that order. */
  lemma {:induction false} NothingLost(c: Codec, events: seq<Event>)
    requires c.Lawful() && HealthyRun(c, EMPTY, events)
    ensures Holds(Entries(History(c, EMPTY, events).log), Logged(c, EMPTY, events))
  {
    if events != [] {
      var k := |events| - 1;
      forall j | 0 <= j < k ensures Healthy(History(c, EMPTY, events[..k][..j]), events[..k][j]) {
        assert events[..k][..j] == events[..j];
      }
      NothingLost(c, events[..k]);
      EmptyInv(c);
      HealthyRunKeepsInv(c, EMPTY, events[..k]);
      var records := Logged(c, EMPTY, events[..k]);
      StepLogs(c, History(c, EMPTY, events[..k]), events[k], records);
      assert records + [] == records;
    }
  }

  // ---------------------------------------------------------------- what a lost state write costs

  /** The four events of one whole `emit`. */
  function Whole(c: Codec, x: World, w: WorkerId, record: Record, readable: bool, write: StateWrite): (x': World)
  {
    var y := Happen(c, Happen(c, x, Acquire(w, record)), ReadState(w, readable));
    Happen(c, Happen(c, y, Append(w, true)), WriteState(w, write))
  }

  /** An undisturbed `emit` in the interleaving is the handler's `Emit`. */
  lemma WholeEmission(c: Codec, x: World, w: WorkerId, record: Record, readable: bool, write: StateWrite)
    requires w in x.handlers && x.handlers[w].phase.Idle? && x.owner.None?
    ensures var used := Reread(x.state, x.handlers[w].last, readable);
            Whole(c, x, w, record, readable, write) ==
              World(x.log + [NewLine(c, record, used)],
                    Rewritten(x.state, NewHmac(c, record, used), write),
                    None,
                    x.handlers[w := Handler(Some(NewHmac(c, record, used)), Idle)])
  {
    var y := Whole(c, x, w, record, readable, write);
    assert y.handlers == x.handlers[w := y.handlers[w]];
  }

  /**
   Why the state file matters: from a healthy world whose state file exists, one emission whose state write is
   lost makes the very next emission, by any worker, break the chain, and the log is rejected from then on.
   */
  lemma LostStateWriteBreaksChain(c: Codec, x: World, w: WorkerId, w': WorkerId, r: Record, r': Record,
                                  write: StateWrite, next: StateWrite, more: seq<string>)
    requires c.Lawful() && c.CollisionFree() && Inv(c, x) && x.owner.None? && x.state.Some?
    requires w in x.handlers && w' in x.handlers && !write.Stored?
    ensures var y := Whole(c, Whole(c, x, w, r, true, write), w', r', true, next);
            !Accepted(c, y.log) && !Accepted(c, y.log + more)
  {
    var used := Reread(x.state, x.handlers[w].last, true);
    var y := Whole(c, x, w, r, true, write);
    WholeEmission(c, x, w, r, true, write);
    AppendAcceptedIff(c, x.log, r, used);
    assert LinkValue(used) == StateHead(x.state) == Head(Entries(x.log));
    var used' := Reread(y.state, y.handlers[w'].last, true);
    WholeEmission(c, y, w', r', true, next);
    AppendAcceptedIff(c, y.log, r', used');
    FreshHead(c, x.log, r, used);
    RejectedForGood(c, y.log + [NewLine(c, r', used')], more);
  }

  /**
   A failed read of the state file does the same: the second worker falls back on its own memory, which does not
   know the first worker's entry.
   */
  lemma FailedReadBreaksChain(c: Codec, w: WorkerId, w': WorkerId, r: Record, r': Record, more: seq<string>)
    requires c.Lawful() && w != w'
    ensures var x := Happen(c, Happen(c, EMPTY, Start(w, true)), Start(w', true));
            var y := Whole(c, Whole(c, x, w, r, true, Stored), w', r', false, Stored);
            !Accepted(c, y.log) && !Accepted(c, y.log + more)
  {
    var x := Happen(c, Happen(c, EMPTY, Start(w, true)), Start(w', true));
    EmptyInv(c);
    WholeEmission(c, x, w, r, true, Stored);
    AppendAcceptedIff(c, [], r, None);
    var y := Whole(c, x, w, r, true, Stored);
    WholeEmission(c, y, w', r', false, Stored);
    AppendAcceptedIff(c, y.log, r', None);
    RejectedForGood(c, y.log + [NewLine(c, r', None)], more);
  }

  /** A new entry's hmac is not the head it links to, and not null. */
  lemma FreshHead(c: Codec, log: seq<string>, r: Record, last: Option<string>)
    requires c.Lawful() && c.CollisionFree() && Accepted(c, log) && LinkValue(last) == Head(Entries(log))
    ensures Json.Str(NewHmac(c, r, last)) != Head(Entries(log))
  {
    AppendAcceptedIff(c, log, r, last);
    NewEntryOk(c, r, last);
    if Entries(log) != [] {
      LastIsFresh(c, log + [NewLine(c, r, last)], Entries(log), NewEntry(c, r, last));
    }
  }
}
