/**
 The audit log (app/logging_service.py): JSON lines chained by HMAC, written by any number of worker
 processes that share one log, one state file and one lock, and checked by `verify_audit`.

 A log is a list of stripped lines. The keyed HMAC and the text form of an entry (`json.dumps` in insertion
 order, not escaped to ASCII) are parameters: the reader only relies on `json.loads` giving the entry back.
 */
module Audit {
  import opened Common
  import Json
  import Text

  type WorkerId = int

  const PREV := "prev_hmac"
  const HMAC := "hmac"

  datatype Codec = Codec(hmac: string -> string, render: Json.Value -> string)
  {
    ghost predicate Lawful() {
      && (forall x: string :: hmac(x) != "")
      && (forall v: Json.Value :: Json.WellFormed(v) ==> render(v) != "" && Json.Loads(render(v)) == Some(v))
    }

    /** The idealisation of a keyed hash nobody can find collisions for. */
    ghost predicate CollisionFree() {
      forall x: string, y: string :: hmac(x) == hmac(y) ==> x == y
    }
  }

  // ---------------------------------------------------------------- what an accepted log is

  /** `obj.get(key)`: a missing key reads as null. */
  function Get(entry: seq<Json.Field>, key: string): (v: Json.Value)
  {
    var found := Json.Lookup(entry, key);
    if found.Some? then found.value else Json.Null
  }

  /** The hmac an entry should carry: over its canonical text without the `hmac` field. */
  function Seal(c: Codec, entry: seq<Json.Field>): (h: Json.Value)
  {
    Json.Str(c.hmac(Json.Print(Json.Obj(Json.Without(entry, HMAC)))))
  }

  /** What the next entry must link to. */
  function Head(entries: seq<seq<Json.Field>>): (h: Json.Value)
  {
    if entries == [] then Json.Null else Get(entries[|entries| - 1], HMAC)
  }

  /** Every entry carries its own hmac and names that of the entry before it. */
  ghost predicate Chain(c: Codec, entries: seq<seq<Json.Field>>)
  {
    forall i :: 0 <= i < |entries| ==> LinkedAt(c, entries, i)
  }

  ghost predicate LinkedAt(c: Codec, entries: seq<seq<Json.Field>>, i: nat)
    requires i < |entries|
  {
    Get(entries[i], PREV) == Head(entries[..i]) && Get(entries[i], HMAC) == Seal(c, entries[i])
  }

  predicate IsEntry(line: string)
  {
    Json.Loads(line).Some? && Json.Loads(line).value.Obj?
  }

  /** Every line that is not blank holds a JSON object. */
  predicate Readable(lines: seq<string>)
  {
    forall i :: 0 <= i < |lines| ==> lines[i] == "" || IsEntry(lines[i])
  }

  /** The objects of a log, blank lines skipped. */
  function Entries(lines: seq<string>): (entries: seq<seq<Json.Field>>)
    ensures |entries| <= |lines|
  {
    if lines == [] then []
    else
      var line := lines[|lines| - 1];
      Entries(lines[..|lines| - 1]) + (if IsEntry(line) then [Json.Loads(line).value.fields] else [])
  }

  ghost predicate Accepted(c: Codec, lines: seq<string>)
  {
    Readable(lines) && Chain(c, Entries(lines))
  }

  lemma BlankIsNoEntry()
    ensures !IsEntry("")
  {
    assert Json.SkipSpace("") == "";
  }

  lemma ChainSnoc(c: Codec, entries: seq<seq<Json.Field>>, e: seq<Json.Field>)
    ensures Chain(c, entries + [e]) <==>
              Chain(c, entries) && Get(e, PREV) == Head(entries) && Get(e, HMAC) == Seal(c, e)
  {
    var all := entries + [e];
    forall i | 0 <= i < |entries| ensures LinkedAt(c, all, i) <==> LinkedAt(c, entries, i) {
      assert all[i] == entries[i] && all[..i] == entries[..i];
    }
    assert all[..|entries|] == entries && all[|entries|] == e;
    assert LinkedAt(c, all, |entries|) <==> Get(e, PREV) == Head(entries) && Get(e, HMAC) == Seal(c, e);
  }

  // ---------------------------------------------------------------- verify_audit

  datatype Problem = InvalidJson(line: nat) | PrevMismatch(line: nat) | HmacMismatch(line: nat) | FileError(line: nat)

  /** A reported problem is there: what is wrong with the line does not depend on the lines before it. */
  ghost predicate Justified(c: Codec, lines: seq<string>, p: Problem)
  {
    && 1 <= p.line <= |lines| && lines[p.line - 1] != ""
    && match p
       case InvalidJson(k) => Json.Loads(lines[k - 1]).None?
       case FileError(k) => Json.Loads(lines[k - 1]).Some? && !IsEntry(lines[k - 1])
       case PrevMismatch(k) =>
         IsEntry(lines[k - 1]) &&
         Get(Json.Loads(lines[k - 1]).value.fields, PREV) != Head(Entries(lines[..k - 1]))
       case HmacMismatch(k) => IsEntry(lines[k - 1]) && !Sealed(c, lines[k - 1])
  }

  /** The line's entry carries its own hmac. */
  predicate Sealed(c: Codec, line: string)
    requires IsEntry(line)
  {
    var e := Json.Loads(line).value.fields;
    Get(e, HMAC) == Seal(c, e)
  }

  /** What one more line does to acceptance and to the head. */
  lemma AcceptedSnoc(c: Codec, before: seq<string>, line: string)
    ensures var after := before + [line];
            && (line == "" ==> (Accepted(c, after) <==> Accepted(c, before)) && Entries(after) == Entries(before))
            && (line != "" && !IsEntry(line) ==> !Accepted(c, after))
            && (IsEntry(line) ==>
                  var e := Json.Loads(line).value.fields;
                  && Entries(after) == Entries(before) + [e] && Head(Entries(after)) == Get(e, HMAC)
                  && (Accepted(c, after) <==>
                        Accepted(c, before) && Get(e, PREV) == Head(Entries(before)) && Sealed(c, line)))
  {
    BlankIsNoEntry();
    ReadableSnoc(before, line);
    EntriesSnoc(before, line);
    if IsEntry(line) {
      ChainSnoc(c, Entries(before), Json.Loads(line).value.fields);
    }
  }

  lemma EntriesSnoc(before: seq<string>, line: string)
    ensures Entries(before + [line]) ==
            if IsEntry(line) then Entries(before) + [Json.Loads(line).value.fields] else Entries(before)
  {
    var after := before + [line];
    assert after[..|after| - 1] == before && after[|after| - 1] == line;
    assert Entries(before) + [] == Entries(before);
  }

  lemma ReadableSnoc(before: seq<string>, line: string)
    ensures Readable(before + [line]) <==> Readable(before) && (line == "" || IsEntry(line))
  {
    var after := before + [line];
    assert after[|before|] == line;
    forall i | 0 <= i < |before| ensures after[i] == before[i] {
    }
  }

  /** These are the problems of line `i`, counted from zero. */
  ghost predicate ProblemsAt(c: Codec, lines: seq<string>, i: nat, problems: seq<Problem>)
  {
    forall p :: p in problems <==> p.line == i + 1 && Justified(c, lines, p)
  }

  /** These are the problems of the first `n` lines. */
  ghost predicate ProblemsOf(c: Codec, lines: seq<string>, n: nat, problems: seq<Problem>)
  {
    forall p :: p in problems <==> p.line <= n && Justified(c, lines, p)
  }

  lemma OneLineMore(c: Codec, lines: seq<string>, i: nat, problems: seq<Problem>, more: seq<Problem>)
    requires ProblemsOf(c, lines, i, problems) && ProblemsAt(c, lines, i, more)
    ensures ProblemsOf(c, lines, i + 1, problems + more)
  {
  }

  /** The problems of a line without an entry. */
  lemma LineWithoutEntry(c: Codec, lines: seq<string>, i: nat)
    requires i < |lines|
    ensures lines[i] == "" ==> ProblemsAt(c, lines, i, [])
    ensures lines[i] != "" && Json.Loads(lines[i]).None? ==> ProblemsAt(c, lines, i, [InvalidJson(i + 1)])
    ensures lines[i] != "" && Json.Loads(lines[i]).Some? && !IsEntry(lines[i]) ==>
              ProblemsAt(c, lines, i, [FileError(i + 1)])
  {
  }

  /** The two comparisons made on one entry. */
  method CheckEntry(c: Codec, lines: seq<string>, i: nat, last: Json.Value) returns (problems: seq<Problem>)
    requires i < |lines| && lines[i] != "" && IsEntry(lines[i]) && last == Head(Entries(lines[..i]))
    ensures ProblemsAt(c, lines, i, problems)
  {
    var entry := Json.Loads(lines[i]).value.fields;
    problems := [];
    if Get(entry, PREV) != last {
      problems := problems + [PrevMismatch(i + 1)];
    }
    if Get(entry, HMAC) != Seal(c, entry) {
      problems := problems + [HmacMismatch(i + 1)];
    }
  }

  /** Some line before this one is JSON but not an object, and the verifier has stopped there. */
  predicate Stopped(lines: seq<string>, k: nat)
    requires k <= |lines|
  {
    exists j :: 0 <= j < k && lines[j] != "" && Json.Loads(lines[j]).Some? && !IsEntry(lines[j])
  }

  /** The log is accepted exactly when there is nothing to report on any line. */
  lemma {:induction false} AcceptedIffNoProblem(c: Codec, lines: seq<string>)
    ensures Accepted(c, lines) <==> forall p :: !Justified(c, lines, p)
  {
    if lines == [] {
      assert Entries(lines) == [];
    } else {
      var n := |lines| - 1;
      var before := lines[..n];
      AcceptedIffNoProblem(c, before);
      AcceptedSnoc(c, before, lines[n]);
      assert lines == before + [lines[n]];
      forall p: Problem | p.line <= n ensures Justified(c, lines, p) <==> Justified(c, before, p) {
        SameProblems(c, lines, p);
      }
      LastLineFine(c, lines);
      if Accepted(c, before) && exists p :: Justified(c, lines, p) {
        var p :| Justified(c, lines, p);
        assert p.line == n + 1;
      }
      if !Accepted(c, before) {
        var p :| Justified(c, before, p);
        assert Justified(c, lines, p);
      }
    }
  }

  /** What is wrong with a line does not depend on the lines after it. */
  lemma SameProblems(c: Codec, lines: seq<string>, p: Problem)
    requires p.line < |lines|
    ensures Justified(c, lines, p) <==> Justified(c, lines[..|lines| - 1], p)
  {
    if p.line >= 1 {
      var before := lines[..|lines| - 1];
      assert before[p.line - 1] == lines[p.line - 1] && before[..p.line - 1] == lines[..p.line - 1];
    }
  }

  /** The last line has a problem unless it is blank or a sealed entry linked to what comes before. */
  lemma LastLineFine(c: Codec, lines: seq<string>)
    requires lines != []
    ensures var line := lines[|lines| - 1];
            (exists p: Problem :: p.line == |lines| && Justified(c, lines, p)) <==>
            line != "" && (IsEntry(line) ==>
              !(Get(Json.Loads(line).value.fields, PREV) == Head(Entries(lines[..|lines| - 1])) && Sealed(c, line)))
  {
    var n := |lines|;
    var line := lines[n - 1];
    if line != "" {
      if Json.Loads(line).None? {
        assert Justified(c, lines, InvalidJson(n));
      } else if !IsEntry(line) {
        assert Justified(c, lines, FileError(n));
      } else if !Sealed(c, line) {
        assert Justified(c, lines, HmacMismatch(n));
      } else if Get(Json.Loads(line).value.fields, PREV) != Head(Entries(lines[..n - 1])) {
        assert Justified(c, lines, PrevMismatch(n));
      }
    }
  }

  /**
   The verifier's loop. It carries on after a bad line, with the hmac that line claims, and stops at a
   line that is JSON but not an object. It reports exactly what is wrong with the lines up to there, and accepts
   exactly the accepted logs.
   */
  method VerifyAudit(c: Codec, lines: seq<string>) returns (ok: bool, errors: seq<Problem>)
    ensures ok <==> Accepted(c, lines)
    ensures ok <==> errors == []
    ensures forall p :: p in errors <==> Justified(c, lines, p) && !Stopped(lines, p.line - 1)
  {
    errors := [];
    var last := Json.Null;
    var i := 0;
    assert lines[..0] == [];
    while i < |lines|
      invariant 0 <= i <= |lines|
      invariant last == Head(Entries(lines[..i])) && !Stopped(lines, i)
      invariant ProblemsOf(c, lines, i, errors)
    {
      var line := lines[i];
      var problems := [];
      LineWithoutEntry(c, lines, i);
      HeadAfter(lines, i);
      if line != "" {
        var loaded := Json.Loads(line);
        if loaded.None? {
          problems := [InvalidJson(i + 1)];
        } else if !loaded.value.Obj? {
          OneLineMore(c, lines, i, errors, [FileError(i + 1)]);
          StoppedHere(c, lines, i, errors + [FileError(i + 1)]);
          return false, errors + [FileError(i + 1)];
        } else {
          problems := CheckEntry(c, lines, i, last);
          last := Get(loaded.value.fields, HMAC);
        }
      }
      OneLineMore(c, lines, i, errors, problems);
      errors := errors + problems;
      i := i + 1;
    }
    AllFound(c, lines, errors);
    ok := |errors| == 0;
  }

  /** Where it has read every line it has found everything. */
  lemma AllFound(c: Codec, lines: seq<string>, errors: seq<Problem>)
    requires ProblemsOf(c, lines, |lines|, errors) && !Stopped(lines, |lines|)
    ensures forall p :: p in errors <==> Justified(c, lines, p) && !Stopped(lines, p.line - 1)
    ensures Accepted(c, lines) <==> errors == []
  {
    AcceptedIffNoProblem(c, lines);
    if errors != [] {
      assert errors[0] in errors;
    }
  }

  lemma HeadAfter(lines: seq<string>, i: nat)
    requires i < |lines|
    ensures Head(Entries(lines[..i + 1])) ==
            if IsEntry(lines[i]) then Get(Json.Loads(lines[i]).value.fields, HMAC) else Head(Entries(lines[..i]))
  {
    EntriesSnoc(lines[..i], lines[i]);
    assert lines[..i + 1] == lines[..i] + [lines[i]];
  }

  /** Where the verifier stops it has found all that can be found up to there. */
  lemma StoppedHere(c: Codec, lines: seq<string>, i: nat, errors: seq<Problem>)
    requires i < |lines| && lines[i] != "" && Json.Loads(lines[i]).Some? && !IsEntry(lines[i])
    requires ProblemsOf(c, lines, i + 1, errors) && !Stopped(lines, i)
    ensures forall p :: p in errors <==> Justified(c, lines, p) && !Stopped(lines, p.line - 1)
    ensures !Accepted(c, lines)
  {
    assert Justified(c, lines, FileError(i + 1));
    AcceptedIffNoProblem(c, lines);
    forall p: Problem | Justified(c, lines, p) ensures p.line <= i + 1 <==> !Stopped(lines, p.line - 1) {
    }
  }

  /**
   What an accepted log is, in terms of its entries' own keys: each carries the hmac of its text without that field;
   the first has no link or a null one, and every other has the hmac of the entry before it.
   */
  lemma AcceptedSays(c: Codec, lines: seq<string>)
    requires Readable(lines)
    ensures var entries := Entries(lines);
            Accepted(c, lines) <==>
              && (forall i :: 0 <= i < |entries| ==>
                    Json.Lookup(entries[i], "hmac") ==
                    Some(Json.Str(c.hmac(Json.Print(Json.Obj(Json.Without(entries[i], "hmac")))))))
              && (entries != [] ==>
                    Json.Lookup(entries[0], "prev_hmac") == None ||
                    Json.Lookup(entries[0], "prev_hmac") == Some(Json.Null))
              && (forall i :: 1 <= i < |entries| ==>
                    Json.Lookup(entries[i], "prev_hmac") == Json.Lookup(entries[i - 1], "hmac"))
  {
    var entries := Entries(lines);
    forall i | 0 <= i < |entries|
      ensures LinkedAt(c, entries, i) <==>
                && Get(entries[i], HMAC) == Seal(c, entries[i])
                && Get(entries[i], PREV) == if i == 0 then Json.Null else Get(entries[i - 1], HMAC)
    {
      assert i > 0 ==> entries[..i][i - 1] == entries[i - 1];
    }
    if Accepted(c, lines) {
      forall i | 0 <= i < |entries| ensures Get(entries[i], HMAC) == Seal(c, entries[i]) {
        assert LinkedAt(c, entries, i);
      }
      forall i | 1 <= i < |entries| ensures Get(entries[i], PREV) == Get(entries[i - 1], HMAC) {
        assert LinkedAt(c, entries, i);
      }
      assert entries != [] ==> LinkedAt(c, entries, 0);
    }
  }

  // ---------------------------------------------------------------- tampering

  ghost predicate AllDictionaries(entries: seq<seq<Json.Field>>)
  {
    forall i :: 0 <= i < |entries| ==> Json.FieldsOk(entries[i])
  }

  lemma {:induction false} EntriesAreDictionaries(lines: seq<string>)
    ensures AllDictionaries(Entries(lines))
  {
    if lines != [] {
      EntriesAreDictionaries(lines[..|lines| - 1]);
      Json.LoadsIsWellFormed(lines[|lines| - 1]);
    }
  }

  /** Two sealed entries with the same hmac are the same entry. */
  lemma SealBinds(c: Codec, a: seq<Json.Field>, b: seq<Json.Field>)
    requires c.CollisionFree() && Json.FieldsOk(a) && Json.FieldsOk(b)
    requires Get(a, HMAC) == Seal(c, a) && Get(b, HMAC) == Seal(c, b) && Get(a, HMAC) == Get(b, HMAC)
    ensures a == b
  {
    Json.WithoutOk(a, HMAC);
    Json.WithoutOk(b, HMAC);
    Json.PrintInjective(Json.Obj(Json.Without(a, HMAC)), Json.Obj(Json.Without(b, HMAC)));
    Json.RestoreField(a, HMAC);
    Json.RestoreField(b, HMAC);
  }

  lemma ChainPrefix(c: Codec, entries: seq<seq<Json.Field>>, k: nat)
    requires Chain(c, entries) && k <= |entries|
    ensures Chain(c, entries[..k])
  {
    forall i | 0 <= i < k ensures LinkedAt(c, entries[..k], i) {
      assert LinkedAt(c, entries, i);
      assert entries[..k][..i] == entries[..i] && entries[..k][i] == entries[i];
    }
  }

  /** By induction back to the null first link: the head of a chain determines all of it. */
  lemma {:induction false} HeadBindsChain(c: Codec, a: seq<seq<Json.Field>>, b: seq<seq<Json.Field>>)
    requires c.CollisionFree() && Chain(c, a) && Chain(c, b) && Head(a) == Head(b)
    requires AllDictionaries(a) && AllDictionaries(b)
    ensures a == b
    decreases |a|
  {
    assert a != [] ==> LinkedAt(c, a, |a| - 1);
    assert b != [] ==> LinkedAt(c, b, |b| - 1);
    if a != [] && b != [] {
      var m, n := |a| - 1, |b| - 1;
      SealBinds(c, a[m], b[n]);
      ChainPrefix(c, a, m);
      ChainPrefix(c, b, n);
      HeadBindsChain(c, a[..m], b[..n]);
      assert a == a[..m] + [a[m]] && b == b[..n] + [b[n]];
    }
  }

  /** Prefixes of two chains that end in the same hmac are equal; so they have the same length. */
  lemma HeadBindsPrefix(c: Codec, a: seq<seq<Json.Field>>, i: nat, b: seq<seq<Json.Field>>, j: nat)
    requires c.CollisionFree() && Chain(c, a) && Chain(c, b) && AllDictionaries(a) && AllDictionaries(b)
    requires i <= |a| && j <= |b| && Head(a[..i]) == Head(b[..j])
    ensures i == j && a[..i] == b[..j]
  {
    ChainPrefix(c, a, i);
    ChainPrefix(c, b, j);
    HeadBindsChain(c, a[..i], b[..j]);
    assert |a[..i]| == i && |b[..j]| == j;
  }

  lemma HeadAt(entries: seq<seq<Json.Field>>, k: nat)
    requires k < |entries|
    ensures Head(entries[..k + 1]) == Get(entries[k], HMAC) && entries[..|entries|] == entries
  {
    assert entries[..k + 1][k] == entries[k];
  }

  /** Two logs that the verifier accepts and that end in the same hmac agree entry for entry. */
  lemma HeadBindsLog(c: Codec, a: seq<string>, b: seq<string>)
    requires c.CollisionFree() && Accepted(c, a) && Accepted(c, b) && Head(Entries(a)) == Head(Entries(b))
    ensures Entries(a) == Entries(b)
  {
    EntriesAreDictionaries(a);
    EntriesAreDictionaries(b);
    HeadBindsChain(c, Entries(a), Entries(b));
  }

  /** An accepted log that contains the head of another one anywhere begins with that whole log. */
  lemma ContainedHeadIsPrefix(c: Codec, a: seq<string>, b: seq<string>, k: nat)
    requires c.CollisionFree() && Accepted(c, a) && Accepted(c, b) && k < |Entries(b)|
    requires Get(Entries(b)[k], HMAC) == Head(Entries(a))
    ensures Entries(b)[..k + 1] == Entries(a)
  {
    var x, y := Entries(a), Entries(b);
    EntriesAreDictionaries(a);
    EntriesAreDictionaries(b);
    HeadAt(y, k);
    assert x[..|x|] == x;
    HeadBindsPrefix(c, x, |x|, y, k + 1);
  }

  /** No entry of an accepted log can be a replay of an earlier one. */
  lemma NoReplay(c: Codec, lines: seq<string>, i: nat, j: nat)
    requires c.CollisionFree() && Accepted(c, lines) && i < j < |Entries(lines)|
    ensures Get(Entries(lines)[i], HMAC) != Get(Entries(lines)[j], HMAC)
  {
    var y := Entries(lines);
    if Get(y[i], HMAC) == Get(y[j], HMAC) {
      EntriesAreDictionaries(lines);
      HeadAt(y, i);
      HeadAt(y, j);
      HeadBindsPrefix(c, y, i + 1, y, j + 1);
    }
  }

  /** In particular the last entry does not carry the hmac it links to. */
  lemma LastIsFresh(c: Codec, lines: seq<string>, before: seq<seq<Json.Field>>, e: seq<Json.Field>)
    requires c.CollisionFree() && Accepted(c, lines) && Entries(lines) == before + [e] && before != []
    ensures Get(e, HMAC) != Head(before)
  {
    var k := |before|;
    NoReplay(c, lines, k - 1, k);
    assert (before + [e])[k - 1] == before[k - 1] && (before + [e])[k] == e;
  }

  // ---------------------------------------------------------------- emit

  type Extra = v: Json.Value | Json.WellFormed(v) witness Json.Null

  /** The attributes `emit` takes from a log record. `extra` is present only when it is truthy. */
  datatype Record = Record(timestamp: string, level: string, logger: string, message: string,
                           pathname: Option<string>, lineno: Option<int>, extra: Option<Extra>)
  {
    function Required(): (fields: seq<Json.Field>)
    {
      [Json.Field("level", Json.Str(level)),
       Json.Field("lineno", if lineno.Some? then Json.Num(lineno.value) else Json.Null),
       Json.Field("logger", Json.Str(logger)),
       Json.Field("message", Json.Str(message)),
       Json.Field("pathname", if pathname.Some? then Json.Str(pathname.value) else Json.Null),
       Json.Field("timestamp", Json.Str(timestamp))]
    }

    /** The payload before it is linked and sealed, in key order. */
    function Body(): (fields: seq<Json.Field>)
    {
      if extra.Some? then [Json.Field("extra", extra.value)] + Required() else Required()
    }
  }

  /** `payload['prev_hmac'] = self.last_hmac`. */
  function LinkValue(last: Option<string>): (v: Json.Value)
  {
    if last.Some? then Json.Str(last.value) else Json.Null
  }

  /** The payload that `emit` seals. */
  function Payload(record: Record, last: Option<string>): (fields: seq<Json.Field>)
  {
    Json.AddField(PREV, LinkValue(last), record.Body())
  }

  function NewHmac(c: Codec, record: Record, last: Option<string>): (h: string)
  {
    c.hmac(Json.Print(Json.Obj(Payload(record, last))))
  }

  /** The entry that `emit` appends. */
  function NewEntry(c: Codec, record: Record, last: Option<string>): (fields: seq<Json.Field>)
  {
    Json.AddField(HMAC, Json.Str(NewHmac(c, record, last)), Payload(record, last))
  }

  function NewLine(c: Codec, record: Record, last: Option<string>): (line: string)
  {
    c.render(Json.Obj(NewEntry(c, record, last)))
  }

  /** What a handler takes the last hmac to be once it holds the lock: the state file, or its own memory. */
  function Reread(state: Option<string>, memory: Option<string>, readable: bool): (last: Option<string>)
  {
    if state.None? || !readable then memory
    else if state.value == "" then None
    else state
  }

  lemma KeyOrder()
    ensures Text.Less("extra", "level") && Text.Less("level", "lineno") && Text.Less("lineno", "logger")
    ensures Text.Less("logger", "message") && Text.Less("message", "pathname") && Text.Less("pathname", "timestamp")
  {
    assert "level"[1..] == "evel" && "lineno"[1..] == "ineno" && "logger"[1..] == "ogger";
  }

  lemma KeysDiffer(absent: string)
    requires absent == PREV || absent == HMAC
    ensures absent !in {"extra", "level", "lineno", "logger", "message", "pathname", "timestamp"}
  {
    assert absent[0] == 'p' || absent[0] == 'h';
    assert absent[1] == 'r' || absent[1] == 'm';
  }

  /** A payload is a dictionary in key order and does not yet have the two chain fields. */
  lemma BodyOk(r: Record, absent: string)
    requires absent == PREV || absent == HMAC
    ensures Json.FieldsOk(r.Body()) && Json.Lookup(r.Body(), absent).None?
  {
    KeyOrder();
    KeysDiffer(absent);
    Json.SortedFieldsOk(r.Required());
    Json.LookupAbsent(r.Required(), absent);
    if r.extra.Some? {
      var f := Json.Field("extra", r.extra.value);
      assert ([f] + r.Required())[1..] == r.Required();
    }
  }

  /** An emitted entry is sealed, links to the hmac it was given, and still holds the record. */
  lemma NewEntryOk(c: Codec, r: Record, last: Option<string>)
    ensures var e := NewEntry(c, r, last);
            && Json.FieldsOk(e)
            && Get(e, PREV) == LinkValue(last)
            && Get(e, HMAC) == Seal(c, e) == Json.Str(NewHmac(c, r, last))
            && Json.Without(Json.Without(e, HMAC), PREV) == r.Body()
  {
    BodyOk(r, PREV);
    BodyOk(r, HMAC);
    var body, payload := r.Body(), Payload(r, last);
    Json.AddFieldOk(PREV, LinkValue(last), body);
    Json.AddNewField(body, PREV, LinkValue(last));
    Json.AddFieldKeepsOthers(body, PREV, LinkValue(last), HMAC);
    var h := Json.Str(NewHmac(c, r, last));
    Json.AddFieldOk(HMAC, h, payload);
    Json.AddNewField(payload, HMAC, h);
    Json.AddFieldKeepsOthers(payload, HMAC, h, PREV);
  }

  /** The entry says of the record, key by key, what `emit` was given, and names no key of its own but the chain's. */
  ghost predicate Reports(entry: seq<Json.Field>, r: Record)
  {
    && Json.Lookup(entry, "level") == Some(Json.Str(r.level))
    && Json.Lookup(entry, "lineno") == Some(if r.lineno.Some? then Json.Num(r.lineno.value) else Json.Null)
    && Json.Lookup(entry, "logger") == Some(Json.Str(r.logger))
    && Json.Lookup(entry, "message") == Some(Json.Str(r.message))
    && Json.Lookup(entry, "pathname") == Some(if r.pathname.Some? then Json.Str(r.pathname.value) else Json.Null)
    && Json.Lookup(entry, "timestamp") == Some(Json.Str(r.timestamp))
    && Json.Lookup(entry, "extra") == (if r.extra.Some? then Some(r.extra.value) else None)
  }

  lemma BodyReports(r: Record)
    ensures Reports(r.Body(), r)
  {
    BodyOk(r, HMAC);
    var body := r.Body();
    forall i | 0 <= i < |body| ensures Json.Lookup(body, body[i].key) == Some(body[i].value) {
      Json.LookupIff(body, body[i].key, body[i].value);
    }
    var n := |body| - 6;
    assert body[n].key == "level" && body[n + 1].key == "lineno" && body[n + 2].key == "logger";
    assert body[n + 3].key == "message" && body[n + 4].key == "pathname" && body[n + 5].key == "timestamp";
    if r.extra.Some? {
      assert body[0].key == "extra";
    } else {
      KeyOrder();
      Json.LookupBelow(body, "extra");
    }
  }

  /** Adding one of the chain's fields leaves the report alone. */
  lemma ChainFieldKeepsReport(entry: seq<Json.Field>, r: Record, key: string, v: Json.Value)
    requires (key == PREV || key == HMAC) && Reports(entry, r)
    ensures Reports(Json.AddField(key, v, entry), r)
  {
    KeysDiffer(key);
    Json.AddFieldKeepsOthers(entry, key, v, "level");
    Json.AddFieldKeepsOthers(entry, key, v, "lineno");
    Json.AddFieldKeepsOthers(entry, key, v, "logger");
    Json.AddFieldKeepsOthers(entry, key, v, "message");
    Json.AddFieldKeepsOthers(entry, key, v, "pathname");
    Json.AddFieldKeepsOthers(entry, key, v, "timestamp");
    Json.AddFieldKeepsOthers(entry, key, v, "extra");
  }

  /** What the appended entry says: the record attribute by attribute, the link, and the seal over all of that. */
  lemma EntrySays(c: Codec, r: Record, last: Option<string>)
    ensures var e := NewEntry(c, r, last);
            && Reports(e, r)
            && Json.Lookup(e, "prev_hmac") == Some(if last.Some? then Json.Str(last.value) else Json.Null)
            && Json.Lookup(e, "hmac") == Some(Json.Str(c.hmac(Json.Print(Json.Obj(Json.Without(e, "hmac"))))))
  {
    var body, payload := r.Body(), Payload(r, last);
    BodyReports(r);
    ChainFieldKeepsReport(body, r, PREV, LinkValue(last));
    ChainFieldKeepsReport(payload, r, HMAC, Json.Str(NewHmac(c, r, last)));
    EntryLinks(c, r, last);
  }

  lemma EntryLinks(c: Codec, r: Record, last: Option<string>)
    ensures Json.Lookup(NewEntry(c, r, last), PREV) == Some(LinkValue(last))
    ensures Json.Lookup(NewEntry(c, r, last), HMAC) == Some(Seal(c, NewEntry(c, r, last)))
  {
    BodyOk(r, PREV);
    BodyOk(r, HMAC);
    var body, payload := r.Body(), Payload(r, last);
    Json.AddFieldOk(PREV, LinkValue(last), body);
    Json.AddNewField(body, PREV, LinkValue(last));
    Json.AddFieldKeepsOthers(body, PREV, LinkValue(last), HMAC);
    Json.AddNewField(payload, HMAC, Json.Str(NewHmac(c, r, last)));
    Json.AddFieldKeepsOthers(payload, HMAC, Json.Str(NewHmac(c, r, last)), PREV);
  }

  /** The same entry comes from the same record and the same link. */
  lemma EntryDeterminesRecord(c: Codec, r: Record, r': Record, last: Option<string>, last': Option<string>)
    requires NewEntry(c, r, last) == NewEntry(c, r', last')
    ensures r == r' && last == last'
  {
    EntrySays(c, r, last);
    EntrySays(c, r', last');
    ReportDeterminesRecord(NewEntry(c, r, last), r, r');
  }

  lemma ReportDeterminesRecord(entry: seq<Json.Field>, r: Record, r': Record)
    requires Reports(entry, r) && Reports(entry, r')
    ensures r == r'
  {
  }

  /** The line `emit` appends reads back as the entry it sealed. */
  lemma NewLineOk(c: Codec, r: Record, last: Option<string>)
    requires c.Lawful()
    ensures NewLine(c, r, last) != "" && IsEntry(NewLine(c, r, last))
    ensures Json.Loads(NewLine(c, r, last)).value.fields == NewEntry(c, r, last)
  {
    NewEntryOk(c, r, last);
    assert Json.WellFormed(Json.Obj(NewEntry(c, r, last)));
  }

  /** Appending to an accepted log keeps it accepted exactly when the link is its head. */
  lemma AppendAcceptedIff(c: Codec, log: seq<string>, r: Record, last: Option<string>)
    requires c.Lawful() && Accepted(c, log)
    ensures Accepted(c, log + [NewLine(c, r, last)]) <==> LinkValue(last) == Head(Entries(log))
    ensures Entries(log + [NewLine(c, r, last)]) == Entries(log) + [NewEntry(c, r, last)]
    ensures Head(Entries(log + [NewLine(c, r, last)])) == Json.Str(NewHmac(c, r, last))
  {
    NewLineOk(c, r, last);
    NewEntryOk(c, r, last);
    AcceptedSnoc(c, log, NewLine(c, r, last));
  }

  /** A log once rejected stays rejected, whatever is appended. */
  lemma {:induction false} RejectedForGood(c: Codec, log: seq<string>, more: seq<string>)
    requires !Accepted(c, log)
    ensures !Accepted(c, log + more)
  {
    if more == [] {
      assert log + more == log;
    } else {
      var front, line := more[..|more| - 1], more[|more| - 1];
      RejectedForGood(c, log, front);
      RejectedSnoc(c, log + front, line);
      assert log + more == (log + front) + [line];
    }
  }

  lemma RejectedSnoc(c: Codec, log: seq<string>, line: string)
    requires !Accepted(c, log)
    ensures !Accepted(c, log + [line])
  {
    AcceptedSnoc(c, log, line);
  }
}
