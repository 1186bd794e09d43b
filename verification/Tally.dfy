/**
 `get_vote_tallies` (app/services/results_service.py): the join, group and order of the tally query
 against a plain recount of one election's ballots.
 */
module Tally {
  import opened Common
  import opened Text
  import opened Elections

  // ---------------------------------------------------------------- the order of rows

  /** ORDER BY votes DESC, name ASC, id ASC. */
  predicate Before(x: TallyRow, y: TallyRow)
  {
    || x.votes > y.votes
    || (x.votes == y.votes && (Less(x.name, y.name) || (x.name == y.name && x.candidate < y.candidate)))
  }

  lemma BeforeIsTotal(x: TallyRow, y: TallyRow)
    ensures x.candidate != y.candidate ==> Before(x, y) || Before(y, x)
    ensures !(Before(x, y) && Before(y, x))
  {
    LessTrichotomy(x.name, y.name);
  }

  lemma BeforeTransitive(x: TallyRow, y: TallyRow, z: TallyRow)
    requires Before(x, y) && Before(y, z)
    ensures Before(x, z)
  {
    if Less(x.name, y.name) && Less(y.name, z.name) {
      LessTransitive(x.name, y.name, z.name);
    }
  }

  predicate Sorted(rows: seq<TallyRow>)
  {
    forall i, j :: 0 <= i < j < |rows| ==> Before(rows[i], rows[j])
  }

  // ---------------------------------------------------------------- the recount

  function VotesIn(s: Database, e: ElectionId): (v: set<string>)
  {
    set t | t in s.votes && s.votes[t].election == e
  }

  function BallotsFor(s: Database, e: ElectionId, c: CandidateId): (v: set<string>)
  {
    set t | t in s.votes && s.votes[t].election == e && s.votes[t].candidate == c
  }

  /** Every candidate row refers to a region row. */
  predicate RegionsOk(s: Database)
  {
    forall c :: c in s.candidates ==> s.candidates[c].region in s.regions
  }

  /** What a recount reports for one candidate. */
  function Row(s: Database, e: ElectionId, c: CandidateId): (r: TallyRow)
    requires RegionsOk(s) && c in s.candidates
  {
    var k := s.candidates[c];
    TallyRow(c, k.name, k.position, k.region, s.regions[k.region], |BallotsFor(s, e, c)|)
  }

  predicate Lists(rows: seq<TallyRow>, c: CandidateId)
  {
    exists i :: 0 <= i < |rows| && rows[i].candidate == c
  }

  /** The rows are a recount: one per roster candidate, each with that candidate's ballots, in order. */
  predicate IsRecount(s: Database, e: ElectionId, rows: seq<TallyRow>)
    requires RegionsOk(s)
  {
    && (forall i :: 0 <= i < |rows| ==>
          rows[i].candidate in Roster(s, e) && rows[i] == Row(s, e, rows[i].candidate))
    && (forall c :: c in Roster(s, e) ==> Lists(rows, c))
    && Sorted(rows)
  }

  lemma {:induction false} SortedSame(a: seq<TallyRow>, b: seq<TallyRow>)
    requires Sorted(a) && Sorted(b)
    requires forall x :: x in a <==> x in b
    ensures a == b
  {
    if a != [] || b != [] {
      assert (a != [] ==> a[0] in a) && (b != [] ==> b[0] in b);
      assert a[0] in b && b[0] in a;
      var i :| 0 <= i < |b| && b[i] == a[0];
      var j :| 0 <= j < |a| && a[j] == b[0];
      BeforeIsTotal(a[0], b[0]);
      assert a[0] == b[0];
      BeforeIsTotal(a[0], a[0]);
      forall x ensures x in a[1..] <==> x in b[1..] {
        assert a[0] !in a[1..] && b[0] !in b[1..];
        assert a == [a[0]] + a[1..] && b == [b[0]] + b[1..];
        assert x in a <==> x in b;
      }
      SortedSame(a[1..], b[1..]);
      assert a == [a[0]] + a[1..] && b == [b[0]] + b[1..];
    }
  }

  /** A recount is determined by the database. */
  lemma RecountUnique(s: Database, e: ElectionId, a: seq<TallyRow>, b: seq<TallyRow>)
    requires RegionsOk(s) && IsRecount(s, e, a) && IsRecount(s, e, b)
    ensures a == b
  {
    forall x ensures x in a <==> x in b {
      if x in a {
        assert Lists(b, x.candidate);
      }
      if x in b {
        assert Lists(a, x.candidate);
      }
    }
    SortedSame(a, b);
  }

  // ---------------------------------------------------------------- the query

  /** FROM candidate JOIN regions LEFT JOIN vote: a candidate without ballots appears once, with NULL. */
  function LeftJoin(s: Database, e: ElectionId): (j: set<(CandidateId, Option<string>)>)
  {
    (set c, t | c in Roster(s, e) && s.candidates[c].region in s.regions && t in BallotsFor(s, e, c) :: (c, Some(t))) +
    (set c | c in Roster(s, e) && s.candidates[c].region in s.regions && BallotsFor(s, e, c) == {} :: (c, None))
  }

  /** COUNT(v.id) over the group of one candidate: NULLs do not count. */
  function GroupCount(s: Database, e: ElectionId, c: CandidateId): (n: nat)
  {
    |set p | p in LeftJoin(s, e) && p.0 == c && p.1.Some?|
  }

  lemma GroupCountIsBallots(s: Database, e: ElectionId, c: CandidateId)
    requires RegionsOk(s) && c in Roster(s, e)
    ensures GroupCount(s, e, c) == |BallotsFor(s, e, c)|
  {
    var pairs := set p | p in LeftJoin(s, e) && p.0 == c && p.1.Some?;
    assert pairs == (set t | t in BallotsFor(s, e, c) :: (c, Some(t)));
    TagKeepsSize(BallotsFor(s, e, c), c);
  }

  lemma {:induction false} TagKeepsSize(x: set<string>, c: CandidateId)
    ensures |set t | t in x :: (c, Some(t))| == |x|
  {
    var pairs := set t | t in x :: (c, Some(t));
    if x == {} {
      assert pairs == {};
    } else {
      var t :| t in x;
      var rest := set t' | t' in x - {t} :: (c, Some(t'));
      TagKeepsSize(x - {t}, c);
      assert pairs == rest + {(c, Some(t))};
    }
  }

  function Insert(row: TallyRow, rows: seq<TallyRow>): (r: seq<TallyRow>)
  {
    if rows == [] then [row]
    else if Before(row, rows[0]) then [row] + rows
    else [rows[0]] + Insert(row, rows[1..])
  }

  /** The query result when the candidate table is scanned in the given order. */
  function GetVoteTallies(s: Database, e: ElectionId, scan: seq<CandidateId>): (rows: seq<TallyRow>)
    requires RegionsOk(s) && forall i :: 0 <= i < |scan| ==> scan[i] in s.candidates
  {
    if scan == [] then []
    else
      var c := scan[|scan| - 1];
      Insert(Row(s, e, c).(votes := GroupCount(s, e, c)), GetVoteTallies(s, e, scan[..|scan| - 1]))
  }

  lemma {:induction false} InsertMembers(row: TallyRow, rows: seq<TallyRow>)
    ensures forall x :: x in Insert(row, rows) <==> x == row || x in rows
  {
    if rows != [] && !Before(row, rows[0]) {
      InsertMembers(row, rows[1..]);
      assert rows == [rows[0]] + rows[1..];
    }
  }

  lemma {:induction false} InsertSorted(row: TallyRow, rows: seq<TallyRow>)
    requires Sorted(rows)
    requires forall i :: 0 <= i < |rows| ==> rows[i].candidate != row.candidate
    ensures Sorted(Insert(row, rows))
  {
    if rows != [] {
      if Before(row, rows[0]) {
        forall i | 0 <= i < |rows| ensures Before(row, rows[i]) {
          if i > 0 {
            BeforeTransitive(row, rows[0], rows[i]);
          }
        }
      } else {
        var tail := Insert(row, rows[1..]);
        InsertSorted(row, rows[1..]);
        InsertMembers(row, rows[1..]);
        BeforeIsTotal(row, rows[0]);
        forall j | 0 <= j < |tail| ensures Before(rows[0], tail[j]) {
          assert tail[j] in tail;
          assert tail[j] == row || tail[j] in rows[1..];
        }
      }
    }
  }

  /** Each element of the roster exactly once. */
  predicate Enumerates(scan: seq<CandidateId>, ids: set<CandidateId>)
  {
    && (forall i :: 0 <= i < |scan| ==> scan[i] in ids)
    && (forall c :: c in ids ==> c in scan)
    && (forall i, j :: 0 <= i < j < |scan| ==> scan[i] != scan[j])
  }

  /** The rows are sorted and are exactly the recount rows of the listed candidates. */
  ghost predicate RowsOf(s: Database, e: ElectionId, ids: seq<CandidateId>, rows: seq<TallyRow>)
    requires RegionsOk(s)
    requires forall i :: 0 <= i < |ids| ==> ids[i] in s.candidates
  {
    && Sorted(rows)
    && (forall i :: 0 <= i < |rows| ==> rows[i].candidate in ids && rows[i] == Row(s, e, rows[i].candidate))
    && (forall i :: 0 <= i < |ids| ==> Row(s, e, ids[i]) in rows)
  }

  lemma RowsOfInsert(s: Database, e: ElectionId, ids: seq<CandidateId>, rows: seq<TallyRow>, c: CandidateId)
    requires RegionsOk(s) && c in s.candidates && c !in ids
    requires forall i :: 0 <= i < |ids| ==> ids[i] in s.candidates
    requires RowsOf(s, e, ids, rows)
    ensures RowsOf(s, e, ids + [c], Insert(Row(s, e, c), rows))
  {
    var r := Insert(Row(s, e, c), rows);
    InsertSorted(Row(s, e, c), rows);
    InsertMembers(Row(s, e, c), rows);
    forall i | 0 <= i < |r| ensures r[i].candidate in ids + [c] && r[i] == Row(s, e, r[i].candidate) {
      assert r[i] in r;
    }
  }

  lemma {:induction false} QueryMembers(s: Database, e: ElectionId, scan: seq<CandidateId>)
    requires RegionsOk(s)
    requires forall i :: 0 <= i < |scan| ==> scan[i] in s.candidates && s.candidates[scan[i]].election == e
    requires forall i, j :: 0 <= i < j < |scan| ==> scan[i] != scan[j]
    ensures RowsOf(s, e, scan, GetVoteTallies(s, e, scan))
  {
    if scan != [] {
      var front, c := scan[..|scan| - 1], scan[|scan| - 1];
      QueryMembers(s, e, front);
      GroupCountIsBallots(s, e, c);
      RowsOfInsert(s, e, front, GetVoteTallies(s, e, front), c);
      assert scan == front + [c];
    }
  }

  /** Whatever order the table is scanned in, the query returns the recount. */
  lemma QueryIsRecount(s: Database, e: ElectionId, scan: seq<CandidateId>)
    requires RegionsOk(s) && Enumerates(scan, Roster(s, e))
    ensures IsRecount(s, e, GetVoteTallies(s, e, scan))
  {
    QueryMembers(s, e, scan);
    var rows := GetVoteTallies(s, e, scan);
    forall c | c in Roster(s, e) ensures Lists(rows, c) {
      assert c in scan && Row(s, e, c) in rows;
    }
  }

  lemma {:induction false} EnumerationExists(ids: set<CandidateId>) returns (scan: seq<CandidateId>)
    ensures Enumerates(scan, ids)
  {
    if ids == {} {
      scan := [];
    } else {
      var c := Pick(ids);
      var rest := EnumerationExists(ids - {c});
      scan := rest + [c];
    }
  }

  lemma RecountExists(s: Database, e: ElectionId)
    requires RegionsOk(s)
    ensures exists rows :: IsRecount(s, e, rows)
  {
    var scan := EnumerationExists(Roster(s, e));
    QueryIsRecount(s, e, scan);
  }

  /** The recount of one election. */
  ghost function Recount(s: Database, e: ElectionId): (rows: seq<TallyRow>)
    requires RegionsOk(s)
    ensures IsRecount(s, e, rows)
  {
    RecountExists(s, e);
    var rows :| IsRecount(s, e, rows);
    rows
  }

  /**
   What a recount says, row by row and in terms of the stored rows: one row for each candidate of the election with
   the candidate's own data, the name of the region and the number of ballots for it, by votes descending, then name,
   then id.
   */
  lemma RecountSays(s: Database, e: ElectionId, rows: seq<TallyRow>)
    requires RegionsOk(s) && IsRecount(s, e, rows)
    ensures forall c :: c in s.candidates && s.candidates[c].election == e ==>
              exists i :: 0 <= i < |rows| && rows[i].candidate == c
    ensures forall i :: 0 <= i < |rows| ==>
              var c := rows[i].candidate;
              && c in s.candidates && s.candidates[c].election == e
              && rows[i].name == s.candidates[c].name && rows[i].position == s.candidates[c].position
              && rows[i].region == s.candidates[c].region && rows[i].regionName == s.regions[s.candidates[c].region]
              && rows[i].votes == |set t | t in s.votes && s.votes[t].election == e && s.votes[t].candidate == c|
    ensures forall i, j :: 0 <= i < j < |rows| ==>
              && rows[i].candidate != rows[j].candidate && rows[i].votes >= rows[j].votes
              && (rows[i].votes == rows[j].votes ==>
                    || Less(rows[i].name, rows[j].name)
                    || (rows[i].name == rows[j].name && rows[i].candidate < rows[j].candidate))
  {
    forall c | c in s.candidates && s.candidates[c].election == e
      ensures exists i :: 0 <= i < |rows| && rows[i].candidate == c
    {
      assert c in Roster(s, e) && Lists(rows, c);
    }
    forall i, j | 0 <= i < j < |rows| ensures rows[i].candidate != rows[j].candidate {
      LessTrichotomy(rows[i].name, rows[j].name);
    }
  }

  // ---------------------------------------------------------------- conservation

  function Ids(rows: seq<TallyRow>): (ids: set<CandidateId>)
  {
    set i | 0 <= i < |rows| :: rows[i].candidate
  }

  lemma SplitCovered(s: Database, e: ElectionId, covered: set<string>, before: set<string>,
                     ids: set<CandidateId>, c: CandidateId)
    requires covered == set t | t in VotesIn(s, e) && s.votes[t].candidate in ids + {c}
    requires before == set t | t in VotesIn(s, e) && s.votes[t].candidate in ids
    requires c !in ids
    ensures |covered| == |before| + |BallotsFor(s, e, c)|
  {
    assert covered == before + BallotsFor(s, e, c);
    assert before !! BallotsFor(s, e, c);
  }

  lemma {:induction false} TotalCountsCovered(s: Database, e: ElectionId, rows: seq<TallyRow>)
    requires RegionsOk(s) && Sorted(rows)
    requires forall i :: 0 <= i < |rows| ==>
               rows[i].candidate in s.candidates && rows[i] == Row(s, e, rows[i].candidate)
    ensures Total(rows) == |set t | t in VotesIn(s, e) && s.votes[t].candidate in Ids(rows)|
  {
    var covered := set t | t in VotesIn(s, e) && s.votes[t].candidate in Ids(rows);
    if rows == [] {
      assert covered == {};
    } else {
      var front, last := rows[..|rows| - 1], rows[|rows| - 1];
      TotalCountsCovered(s, e, front);
      var before := set t | t in VotesIn(s, e) && s.votes[t].candidate in Ids(front);
      forall i | 0 <= i < |front| ensures front[i].candidate != last.candidate {
        BeforeIsTotal(front[i], last);
      }
      assert Ids(rows) == Ids(front) + {last.candidate} by {
        assert forall i :: 0 <= i < |front| ==> rows[i] == front[i];
      }
      SplitCovered(s, e, covered, before, Ids(front), last.candidate);
    }
  }

  /** The composite foreign key of a vote: its candidate stands in its election. */
  predicate VotesReferToRoster(s: Database)
  {
    forall t :: t in s.votes ==> s.votes[t].candidate in Roster(s, s.votes[t].election)
  }

  /** No ballot of the election is lost and none is counted twice. */
  lemma TotalIsAllBallots(s: Database, e: ElectionId, rows: seq<TallyRow>)
    requires RegionsOk(s) && VotesReferToRoster(s) && IsRecount(s, e, rows)
    ensures Total(rows) == |VotesIn(s, e)|
  {
    TotalCountsCovered(s, e, rows);
    forall t | t in VotesIn(s, e) ensures s.votes[t].candidate in Ids(rows) {
      assert Lists(rows, s.votes[t].candidate);
    }
    assert VotesIn(s, e) == set t | t in VotesIn(s, e) && s.votes[t].candidate in Ids(rows);
  }

  /** A recount depends only on the election's own roster rows and ballots. */
  lemma RecountFrame(s: Database, s': Database, e: ElectionId, rows: seq<TallyRow>)
    requires RegionsOk(s) && RegionsOk(s') && s.regions == s'.regions
    requires Roster(s, e) == Roster(s', e)
    requires forall c :: c in Roster(s, e) ==> s.candidates[c] == s'.candidates[c]
    requires VotesIn(s, e) == VotesIn(s', e)
    requires forall t :: t in VotesIn(s, e) ==> s.votes[t] == s'.votes[t]
    ensures IsRecount(s, e, rows) ==> IsRecount(s', e, rows)
  {
    forall c | c in Roster(s, e) ensures Row(s, e, c) == Row(s', e, c) {
      assert BallotsFor(s, e, c) == BallotsFor(s', e, c) by {
        forall t ensures t in BallotsFor(s, e, c) <==> t in BallotsFor(s', e, c) {
          if t in VotesIn(s, e) {
          }
        }
      }
    }
  }
}
