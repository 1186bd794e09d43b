/**
 The life of an election's blind-signing key (app/security/blind_signature.py): worker processes that
 generate, publish by atomic directory rename, load and cache it, and the database anchor that open and
 reconcile write. A process serialises its own key operations with a lock; processes interleave freely.
 */
module Keys {
  import opened Common
  import opened NumberTheory
  import BS = BlindSignature
  import Hex

  type WorkerId = int
  type Fingerprint = BS.Key -> Hex.Digest

  // ---------------------------------------------------------------- one worker

  /** The key directory all workers share: only complete, renamed key pairs are visible. */
  class KeyDirectory {
    var published: map<ElectionId, BS.Key>

    constructor ()
      ensures published == map[]
    {
      published := map[];
    }
  }

  /** The published keys after someone else may have published `rival` first. */
  function AfterRival(published: map<ElectionId, BS.Key>, id: ElectionId,
                      rival: Option<BS.Key>): (p: map<ElectionId, BS.Key>)
  {
    if rival.Some? && id !in published then published[id := rival.value] else published
  }

  /** What the file system may refuse while a key is obtained. */
  datatype Fault = NoFault | CannotWrite | CannotRename | CannotRead

  /** What a worker has of a key, and what the file system would refuse if asked for it. */
  datatype Access = Access(cached: bool, fault: Fault)
  {
    /** A cached key is not read again. */
    predicate Readable() { cached || !fault.CannotRead? }
  }

  /**
   A cached key is at hand. One that is published, or is published by `rival` in the meantime, only has to be read;
   otherwise it has to be written and renamed into place as well.
   */
  predicate Obtainable(published: bool, rival: bool, access: Access)
  {
    access.cached ||
    match access.fault
    case NoFault => true
    case CannotWrite => published
    case CannotRename => published || rival
    case CannotRead => false
  }

  /** What an attempt to generate leaves: the published keys, the worker's cache, and whether it went through. */
  datatype Attempt = Attempt(published: map<ElectionId, BS.Key>, cache: map<ElectionId, BS.Key>, ok: bool)

  /** Reading the published key into the cache, or failing to. */
  function Loaded(published: map<ElectionId, BS.Key>, cache: map<ElectionId, BS.Key>, id: ElectionId, fault: Fault):
    (a: Attempt)
    requires id in published
  {
    if fault.CannotRead? then Attempt(published, cache, false)
    else Attempt(published, cache[id := published[id]], true)
  }

  function Generation(published: map<ElectionId, BS.Key>, cache: map<ElectionId, BS.Key>, id: ElectionId,
                      generated: BS.Key, rival: Option<BS.Key>, fault: Fault): (a: Attempt)
  {
    var after := AfterRival(published, id, rival);
    if id in cache then Attempt(published, cache, true)
    else if id in published then Loaded(published, cache, id, fault)
    else if fault.CannotWrite? then Attempt(after, cache, false)
    else if id in after then Loaded(after, cache, id, fault)
    else if fault.CannotRename? then Attempt(after, cache, false)
    else Loaded(after[id := generated], cache, id, fault)
  }

  class Worker {
    const directory: KeyDirectory
    const fingerprint: Fingerprint
    var cache: map<ElectionId, BS.Key>

    constructor (directory: KeyDirectory, fingerprint: Fingerprint)
      ensures this.directory == directory && this.fingerprint == fingerprint && cache == map[] && Coherent()
    {
      this.directory := directory;
      this.fingerprint := fingerprint;
      cache := map[];
    }

    /** Every cached key is the published one. */
    ghost predicate Coherent()
      reads this, directory
    {
      forall id :: id in cache ==> id in directory.published && cache[id] == directory.published[id]
    }

    /**
     `generate_blind_signing_keypair`. Between looking for the directory and renaming into place another
     process may publish `rival`; then the rename fails and the rival's pair is authoritative. Whoever
     wins, a key published before stays, and this worker ends up caching the published key. A fault of the file
     system makes it raise, possibly after the pair was published.
     */
    method Generate(id: ElectionId, generated: BS.Key, rival: Option<BS.Key>, fault: Fault) returns (ok: bool)
      requires Coherent()
      modifies this`cache, directory`published
      ensures Coherent()
      ensures ok <==>
                id >= 1 && Obtainable(id in old(directory.published), rival.Some?, Access(id in old(cache), fault))
      ensures ok ==> id in cache && id in directory.published && cache[id] == directory.published[id]
      ensures !ok ==> cache == old(cache)
      ensures id >= 1 ==>
                Attempt(directory.published, cache, ok) ==
                Generation(old(directory.published), old(cache), id, generated, rival, fault)
      ensures forall j :: j in old(directory.published) ==>
                j in directory.published && directory.published[j] == old(directory.published)[j]
      ensures forall j :: j in directory.published && j !in old(directory.published) ==>
                j == id && directory.published[j] == (if rival.Some? then rival.value else generated)
      ensures forall j :: j in old(cache) ==> j in cache && cache[j] == old(cache)[j]
    {
      if id < 1 {
        return false;
      }
      if id in cache {
        return true;
      }
      if id in directory.published {
        if fault.CannotRead? {
          return false;
        }
        cache := cache[id := directory.published[id]];
        return true;
      }
      // the pair is written to a temporary directory; meanwhile another process may publish
      directory.published := AfterRival(directory.published, id, rival);
      if fault.CannotWrite? {
        return false;
      }
      if id !in directory.published {
        if fault.CannotRename? {
          return false;
        }
        directory.published := directory.published[id := generated];
      }
      if fault.CannotRead? {
        return false;
      }
      cache := cache[id := directory.published[id]];
      return true;
    }

    /** `_load_keys`. */
    method Load(id: ElectionId, fault: Fault) returns (key: Option<BS.Key>)
      requires Coherent()
      modifies this`cache
      ensures Coherent()
      ensures key.Some? <==> id >= 1 && id in directory.published && Access(id in old(cache), fault).Readable()
      ensures key.Some? ==> id in directory.published && key.value == directory.published[id]
      ensures forall j :: j in old(cache) ==> j in cache && cache[j] == old(cache)[j]
    {
      if id < 1 {
        return None;
      }
      if id in cache {
        return Some(cache[id]);
      }
      if id !in directory.published || fault.CannotRead? {
        return None;
      }
      cache := cache[id := directory.published[id]];
      return Some(cache[id]);
    }

    /**
     `ensure_election_blind_signing_key`: creation only where no anchor exists and the caller allows it;
     an anchored fingerprint is never regenerated, only matched.
     */
    method Ensure(id: ElectionId, expected: Option<string>, allowCreate: bool, generated: BS.Key, rival: Option<BS.Key>,
                  fault: Fault)
      returns (keyId: Option<string>)
      requires Coherent()
      modifies this`cache, directory`published
      ensures Coherent()
      ensures expected.None? ==>
                (keyId.Some? <==>
                   && allowCreate && id >= 1
                   && Obtainable(id in old(directory.published), rival.Some?, Access(id in old(cache), fault)))
      ensures expected.Some? ==>
                && directory.published == old(directory.published)
                && (keyId.Some? <==>
                      && id >= 1 && id in directory.published && Access(id in old(cache), fault).Readable()
                      && fingerprint(directory.published[id]) == expected.value)
      ensures keyId.Some? ==> id in directory.published && keyId.value == fingerprint(directory.published[id])
      ensures forall j :: j in old(directory.published) ==>
                j in directory.published && directory.published[j] == old(directory.published)[j]
    {
      if expected.None? {
        if !allowCreate {
          return None;
        }
        var ok := Generate(id, generated, rival, fault);
        if !ok {
          return None;
        }
      } else if !Hex.IsHex64(expected.value) {
        return None;
      }
      var key := Load(id, fault);
      if key.None? || (expected.Some? && fingerprint(key.value) != expected.value) {
        return None;
      }
      return Some(fingerprint(key.value));
    }
  }

  // ---------------------------------------------------------------- every interleaving of workers

  /** What a worker process is in the middle of. */
  datatype Phase = Idle | Prepared(id: ElectionId, key: BS.Key) | Renamed(id: ElectionId)

  datatype Process = Process(cache: map<ElectionId, BS.Key>, phase: Phase, pending: map<ElectionId, string>)

  datatype World = World(
    published: map<ElectionId, BS.Key>,
    processes: map<WorkerId, Process>,
    anchors: map<ElectionId, string>)

  datatype Event =
    | Start(w: WorkerId)                                    // a worker starts, or restarts with a cold cache
    | Prepare(w: WorkerId, id: ElectionId, key: BS.Key)     // no directory seen: pair written to a temporary one
    | Rename(w: WorkerId)                                   // atomic publication, or lost race
    | GiveUp(w: WorkerId)                                   // the file system refused; temporary directory removed
    | LoadKey(w: WorkerId, id: ElectionId)                  // read the published pair into the cache
    | TakeFingerprint(w: WorkerId, id: ElectionId)          // open or reconcile holds a key id to write
    | CommitAnchor(w: WorkerId, id: ElectionId)             // and its transaction commits
    | AbortAnchor(w: WorkerId, id: ElectionId)              // or rolls back after publishing

  function Set(x: World, w: WorkerId, p: Process): (x': World)
  {
    x.(processes := x.processes[w := p])
  }

  function Happen(fp: Fingerprint, x: World, v: Event): (x': World)
  {
    if v.Start? then Set(x, v.w, Process(map[], Idle, map[]))
    else if v.w !in x.processes then x
    else
      var p := x.processes[v.w];
      match v
      case Start(_) => x
      case Prepare(w, id, key) =>
        if p.phase.Idle? && id !in p.cache && id !in x.published then Set(x, w, p.(phase := Prepared(id, key))) else x
      case Rename(w) =>
        if !p.phase.Prepared? then x
        else if p.phase.id in x.published then Set(x, w, p.(phase := Renamed(p.phase.id)))
        else Set(x.(published := x.published[p.phase.id := p.phase.key]), w, p.(phase := Renamed(p.phase.id)))
      case GiveUp(w) => Set(x, w, p.(phase := Idle))
      case LoadKey(w, id) =>
        if id in x.published && id !in p.cache && (p.phase.Idle? || p.phase == Renamed(id))
        then Set(x, w, p.(cache := p.cache[id := x.published[id]], phase := Idle)) else x
      case TakeFingerprint(w, id) =>
        if id in p.cache && (id !in x.anchors || x.anchors[id] == fp(p.cache[id]))
        then Set(x, w, p.(pending := p.pending[id := fp(p.cache[id])])) else x
      case CommitAnchor(w, id) =>
        if id in p.pending
        then Set(x.(anchors := x.anchors[id := p.pending[id]]), w, p.(pending := p.pending - {id})) else x
      case AbortAnchor(w, id) => Set(x, w, p.(pending := p.pending - {id}))
  }

  function History(fp: Fingerprint, x: World, events: seq<Event>): (x': World)
  {
    if events == [] then x else Happen(fp, History(fp, x, events[..|events| - 1]), events[|events| - 1])
  }

  /** A process's cache and the anchors it has in flight speak of the published keys. */
  ghost predicate ProcessOk(fp: Fingerprint, published: map<ElectionId, BS.Key>, p: Process)
  {
    && (forall id :: id in p.cache ==> id in published && p.cache[id] == published[id])
    && (forall id :: id in p.pending ==> id in published && p.pending[id] == fp(published[id]))
  }

  /** Caches, anchors in flight and committed anchors all speak of the published key. */
  ghost predicate Agreement(fp: Fingerprint, x: World)
  {
    && (forall w :: w in x.processes ==> ProcessOk(fp, x.published, x.processes[w]))
    && (forall id :: id in x.anchors ==> id in x.published && x.anchors[id] == fp(x.published[id]))
  }

  /** Published keys and committed anchors are for good. */
  ghost predicate Permanent(x: World, x': World)
  {
    && (forall id :: id in x.published ==> id in x'.published && x'.published[id] == x.published[id])
    && (forall id :: id in x.anchors ==> id in x'.anchors && x'.anchors[id] == x.anchors[id])
  }

  lemma ProcessStaysOk(fp: Fingerprint, published: map<ElectionId, BS.Key>, published': map<ElectionId, BS.Key>,
                       p: Process)
    requires ProcessOk(fp, published, p)
    requires forall id :: id in published ==> id in published' && published'[id] == published[id]
    ensures ProcessOk(fp, published', p)
  {
  }

  /** Publication only adds, anchors are of published keys, and only one process moves. */
  lemma EventOnShared(fp: Fingerprint, x: World, v: Event)
    requires Agreement(fp, x)
    ensures var x' := Happen(fp, x, v);
            && Permanent(x, x')
            && (forall id :: id in x'.anchors ==> id in x'.published && x'.anchors[id] == fp(x'.published[id]))
            && (forall w :: w in x'.processes && w != v.w ==> w in x.processes && x'.processes[w] == x.processes[w])
  {
    assert v.w in x.processes ==> ProcessOk(fp, x.published, x.processes[v.w]);
  }

  /** The process that an event moves ends up in agreement. */
  lemma EventOnProcess(fp: Fingerprint, x: World, v: Event)
    requires Agreement(fp, x)
    ensures var x' := Happen(fp, x, v); v.w in x'.processes ==> ProcessOk(fp, x'.published, x'.processes[v.w])
  {
    assert v.w in x.processes ==> ProcessOk(fp, x.published, x.processes[v.w]);
  }

  lemma EventKeepsAgreement(fp: Fingerprint, x: World, v: Event)
    requires Agreement(fp, x)
    ensures Agreement(fp, Happen(fp, x, v)) && Permanent(x, Happen(fp, x, v))
  {
    var x' := Happen(fp, x, v);
    EventOnShared(fp, x, v);
    EventOnProcess(fp, x, v);
    forall w | w in x'.processes ensures ProcessOk(fp, x'.published, x'.processes[w]) {
      if w != v.w {
        ProcessStaysOk(fp, x.published, x'.published, x.processes[w]);
      }
    }
  }

  /**
   Under every interleaving of workers that generate, race, load, crash, open, abort an open after
   publishing, retry and reconcile: a published key never changes, a committed anchor never changes, every
   worker's cache entry is the published key, and every anchor is its fingerprint.
   */
  lemma {:induction false} KeysArePermanent(fp: Fingerprint, x: World, events: seq<Event>)
    requires Agreement(fp, x)
    ensures Agreement(fp, History(fp, x, events)) && Permanent(x, History(fp, x, events))
  {
    if events != [] {
      KeysArePermanent(fp, x, events[..|events| - 1]);
      EventKeepsAgreement(fp, History(fp, x, events[..|events| - 1]), events[|events| - 1]);
    }
  }

  const NOTHING := World(map[], map[], map[])

  /** From nothing at all: in every world that events can lead to, caches, anchors and published keys agree. */
  lemma AgreementFromNothing(fp: Fingerprint, before: seq<Event>, after: seq<Event>)
    ensures Agreement(fp, History(fp, NOTHING, before))
    ensures Permanent(History(fp, NOTHING, before), History(fp, History(fp, NOTHING, before), after))
  {
    KeysArePermanent(fp, NOTHING, before);
    KeysArePermanent(fp, History(fp, NOTHING, before), after);
  }

  // ---------------------------------------------------------------- one attempt, as events

  lemma Then(fp: Fingerprint, x: World, events: seq<Event>, v: Event)
    ensures History(fp, x, events + [v]) == Happen(fp, History(fp, x, events), v)
  {
    assert (events + [v])[..|events|] == events;
  }

  /** The worker reads the key, or its read fails and it gives up. */
  function Reads(w: WorkerId, id: ElectionId, fault: Fault): (v: Event)
  {
    if fault.CannotRead? then GiveUp(w) else LoadKey(w, id)
  }

  /** The events of one attempt, with the rename of a rival who is ready in the middle of it. */
  function Attempting(x: World, w: WorkerId, other: WorkerId, id: ElectionId, generated: BS.Key, rival: Option<BS.Key>,
                      fault: Fault): (events: seq<Event>)
    requires w in x.processes
  {
    var race := if rival.Some? then [Rename(other)] else [];
    if id in x.processes[w].cache then []
    else if id in x.published then [Reads(w, id, fault)]
    else if fault.CannotWrite? then race
    else if rival.None? && fault.CannotRename? then [Prepare(w, id, generated), GiveUp(w)]
    else [Prepare(w, id, generated)] + race + [Rename(w), Reads(w, id, fault)]
  }

  /** What `Generate` does is what those events do: the method is one path through the interleavings. */
  lemma GenerateIsEvents(fp: Fingerprint, x: World, w: WorkerId, other: WorkerId, id: ElectionId, generated: BS.Key,
                         rival: Option<BS.Key>, fault: Fault)
    requires w in x.processes && x.processes[w].phase.Idle?
    requires rival.Some? ==> other != w && other in x.processes && x.processes[other].phase == Prepared(id, rival.value)
    ensures var y := History(fp, x, Attempting(x, w, other, id, generated, rival, fault));
            var a := Generation(x.published, x.processes[w].cache, id, generated, rival, fault);
            && y.published == a.published && w in y.processes
            && y.processes[w].cache == a.cache && y.processes[w].phase.Idle?
  {
    var start: seq<Event> := [];
    assert History(fp, x, start) == x;
    var events := Attempting(x, w, other, id, generated, rival, fault);
    if id in x.processes[w].cache {
    } else if id in x.published {
      Then(fp, x, start, Reads(w, id, fault));
      assert start + [Reads(w, id, fault)] == events;
    } else if fault.CannotWrite? {
      if rival.Some? {
        Then(fp, x, start, Rename(other));
        assert start + [Rename(other)] == events;
      }
    } else {
      var prepared := [Prepare(w, id, generated)];
      Then(fp, x, start, Prepare(w, id, generated));
      assert start + prepared == prepared;
      if rival.None? && fault.CannotRename? {
        Then(fp, x, prepared, GiveUp(w));
        assert prepared + [GiveUp(w)] == events;
      } else {
        PublishingEvents(fp, x, w, other, id, generated, rival, fault);
      }
    }
  }

  /** The long path: prepare, perhaps lose the race, rename, read. */
  lemma PublishingEvents(fp: Fingerprint, x: World, w: WorkerId, other: WorkerId, id: ElectionId, generated: BS.Key,
                         rival: Option<BS.Key>, fault: Fault)
    requires w in x.processes && x.processes[w].phase.Idle? && id !in x.processes[w].cache && id !in x.published
    requires rival.Some? ==> other != w && other in x.processes && x.processes[other].phase == Prepared(id, rival.value)
    ensures var race := if rival.Some? then [Rename(other)] else [];
            var y := History(fp, x, [Prepare(w, id, generated)] + race + [Rename(w), Reads(w, id, fault)]);
            var winner := if rival.Some? then rival.value else generated;
            && y.published == x.published[id := winner] && w in y.processes && y.processes[w].phase.Idle?
            && y.processes[w].cache ==
               (if fault.CannotRead? then x.processes[w].cache else x.processes[w].cache[id := winner])
  {
    var race := if rival.Some? then [Rename(other)] else [];
    var raced := [Prepare(w, id, generated)] + race;
    var x2 := History(fp, x, raced);
    RaceEvents(fp, x, w, other, id, generated, rival);
    Then(fp, x, raced, Rename(w));
    Then(fp, x, raced + [Rename(w)], Reads(w, id, fault));
    assert raced + [Rename(w)] + [Reads(w, id, fault)] == raced + [Rename(w), Reads(w, id, fault)];
  }

  lemma RaceEvents(fp: Fingerprint, x: World, w: WorkerId, other: WorkerId, id: ElectionId, generated: BS.Key,
                   rival: Option<BS.Key>)
    requires w in x.processes && x.processes[w].phase.Idle? && id !in x.processes[w].cache && id !in x.published
    requires rival.Some? ==> other != w && other in x.processes && x.processes[other].phase == Prepared(id, rival.value)
    ensures var race := if rival.Some? then [Rename(other)] else [];
            var y := History(fp, x, [Prepare(w, id, generated)] + race);
            && y.published == AfterRival(x.published, id, rival)
            && w in y.processes && y.processes[w] == x.processes[w].(phase := Prepared(id, generated))
  {
    var start: seq<Event> := [];
    var prepared := [Prepare(w, id, generated)];
    assert History(fp, x, start) == x;
    Then(fp, x, start, Prepare(w, id, generated));
    assert start + prepared == prepared;
    if rival.Some? {
      Then(fp, x, prepared, Rename(other));
    } else {
      assert prepared + [] == prepared;
    }
  }

  /** Workers never disagree about a key, across any number of events. */
  lemma CachesAgree(fp: Fingerprint, x: World, events: seq<Event>, w: WorkerId, w': WorkerId, id: ElectionId)
    requires Agreement(fp, x) && w in x.processes && id in x.processes[w].cache
    requires var x' := History(fp, x, events); w' in x'.processes && id in x'.processes[w'].cache
    ensures History(fp, x, events).processes[w'].cache[id] == x.processes[w].cache[id]
  {
    KeysArePermanent(fp, x, events);
    assert ProcessOk(fp, x.published, x.processes[w]);
    var x' := History(fp, x, events);
    assert ProcessOk(fp, x'.published, x'.processes[w']);
  }

  /** What one worker signs, any other worker verifies, however many events lie between. */
  lemma AnyWorkerVerifies(fp: Fingerprint, sha: BS.Hash, x: World, events: seq<Event>, signer: WorkerId,
                          verifier: WorkerId, id: ElectionId, key: BS.Key, key': BS.Key, ballot: seq<Byte>,
                          r: nat, rInv: int)
    requires Agreement(fp, x) && signer in x.processes && id in x.processes[signer].cache
    requires x.processes[signer].cache[id] == key
    requires var x' := History(fp, x, events);
             verifier in x'.processes && id in x'.processes[verifier].cache && x'.processes[verifier].cache[id] == key'
    requires key.Valid() && key.N() > 0 && (r * rInv) % key.N() == Gcd(r, key.N()) % key.N()
    ensures var signed := BS.BlindSign(key, BS.Blinded(key, BS.HashBallot(sha, ballot, key.N()), r));
            signed.Some? ==> BS.VerifyUnblinded(sha, key', ballot, (signed.value * rInv) % key.N())
  {
    CachesAgree(fp, x, events, signer, verifier, id);
    BS.BlindRoundTrip(sha, key, ballot, r, rInv);
  }
}
