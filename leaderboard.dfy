/**
 * GET /leaderboard: one row per student who received at least one
 * recognition, with the credits, recognitions and endorsements received,
 * ranked by credits received (most first, then lowest id first) and cut
 * to the requested number of rows.
 */
module Leaderboard {
  import opened Records
  import opened LedgerSpec

  /** Rows returned when the `limit` query argument is missing or not an integer. */
  const DEFAULT_LIMIT := 10

  datatype Row = Row(
    studentId: int,
    username: string,
    totalCreditsReceived: int,
    totalRecognitionsReceived: nat,
    totalEndorsementsReceived: nat)

  // ---------------------------------------------------------------------
  // The aggregates
  // ---------------------------------------------------------------------

  /** Endorsements of recognition `recId`: a count over the outer join, so 0 when it has none. */
  function EndorsementCount(ends: seq<Endorsement>, recId: int): nat
  {
    if ends == [] then 0
    else EndorsementCount(ends[..|ends| - 1], recId) + (if ends[|ends| - 1].recognitionId == recId then 1 else 0)
  }

  function CreditsReceived(recs: seq<Recognition>, id: int): int
  {
    if recs == [] then 0
    else (if recs[0].receiverId == id then recs[0].credits else 0) + CreditsReceived(recs[1..], id)
  }

  function RecognitionsReceived(recs: seq<Recognition>, id: int): nat
  {
    if recs == [] then 0
    else (if recs[0].receiverId == id then 1 else 0) + RecognitionsReceived(recs[1..], id)
  }

  /** The sum, over the recognitions `id` received, of each one's endorsement count. */
  function EndorsementsReceived(recs: seq<Recognition>, ends: seq<Endorsement>, id: int): nat
  {
    if recs == [] then 0
    else (if recs[0].receiverId == id then EndorsementCount(ends, recs[0].id) else 0)
         + EndorsementsReceived(recs[1..], ends, id)
  }

  function RowFor(s: Store, id: int): Row
    requires id in s.students
  {
    Row(id, s.students[id].username,
        CreditsReceived(s.recognitions, id),
        RecognitionsReceived(s.recognitions, id),
        EndorsementsReceived(s.recognitions, s.endorsements, id))
  }

  /**
   * The students that the inner join of students with recognitions keeps:
   * each receiver that is a student, once.
   */
  function Receivers(students: map<int, Student>, recs: seq<Recognition>): (ids: seq<int>)
    ensures forall i, j :: 0 <= i < j < |ids| ==> ids[i] != ids[j]
    ensures forall id :: id in ids <==> id in students && RecognitionsReceived(recs, id) >= 1
  {
    if recs == [] then []
    else
      var rest := Receivers(students, recs[1..]);
      var id := recs[0].receiverId;
      if id in students && id !in rest then [id] + rest else rest
  }

  // ---------------------------------------------------------------------
  // ORDER BY total_credits_received DESC, student id ASC
  // ---------------------------------------------------------------------

  predicate RanksBefore(a: Row, b: Row)
  {
    a.totalCreditsReceived > b.totalCreditsReceived
    || (a.totalCreditsReceived == b.totalCreditsReceived && a.studentId < b.studentId)
  }

  predicate Ranked(rows: seq<Row>)
  {
    forall i, j :: 0 <= i < j < |rows| ==> RanksBefore(rows[i], rows[j])
  }

  predicate DistinctStudents(rows: seq<Row>)
  {
    forall i, j :: 0 <= i < j < |rows| ==> rows[i].studentId != rows[j].studentId
  }

  function Insert(x: Row, rows: seq<Row>): (r: seq<Row>)
    requires Ranked(rows)
    requires forall i :: 0 <= i < |rows| ==> rows[i].studentId != x.studentId
    ensures multiset(r) == multiset(rows) + multiset{x}
    ensures Ranked(r)
  {
    if rows == [] then [x]
    else if RanksBefore(x, rows[0]) then
      RankedCons(x, rows);
      [x] + rows
    else
      var rest := Insert(x, rows[1..]);
      assert rows == [rows[0]] + rows[1..];
      HeadRanksBeforeInserted(x, rows, rest);
      RankedCons(rows[0], rest);
      [rows[0]] + rest
  }

  /** A row that ranks before the head of a ranked sequence ranks before all of it, and may lead it. */
  lemma RankedCons(y: Row, rest: seq<Row>)
    requires Ranked(rest)
    requires rest != [] ==> RanksBefore(y, rest[0])
    ensures Ranked([y] + rest)
  {
    var r := [y] + rest;
    forall i, j | 0 <= i < j < |r| ensures RanksBefore(r[i], r[j]) {
      if i == 0 {
        assert r[j] == rest[j - 1];
        if j > 1 { assert RanksBefore(rest[0], rest[j - 1]); }
      } else {
        assert r[i] == rest[i - 1] && r[j] == rest[j - 1];
      }
    }
  }

  lemma HeadRanksBeforeInserted(x: Row, rows: seq<Row>, rest: seq<Row>)
    requires rows != [] && Ranked(rows)
    requires !RanksBefore(x, rows[0]) && x.studentId != rows[0].studentId
    requires multiset(rest) == multiset(rows[1..]) + multiset{x}
    ensures rest != [] ==> RanksBefore(rows[0], rest[0])
  {
    if rest != [] {
      assert rest[0] in multiset(rest);
      if rest[0] != x {
        assert rest[0] in multiset(rows[1..]);
        var k :| 0 <= k < |rows[1..]| && rows[1..][k] == rest[0];
        assert rows[k + 1] == rest[0];
      }
    }
  }

  function Sort(rows: seq<Row>): (r: seq<Row>)
    requires DistinctStudents(rows)
    ensures multiset(r) == multiset(rows)
    ensures Ranked(r)
  {
    if rows == [] then []
    else
      var rest := Sort(rows[1..]);
      assert forall i :: 0 <= i < |rest| ==> rest[i].studentId != rows[0].studentId by {
        forall i | 0 <= i < |rest| ensures rest[i].studentId != rows[0].studentId {
          assert rest[i] in multiset(rows[1..]);
          var k :| 0 <= k < |rows[1..]| && rows[1..][k] == rest[i];
          assert rows[k + 1] == rest[i];
        }
      }
      assert rows == [rows[0]] + rows[1..];
      Insert(rows[0], rest)
  }

  /** The row of each student in `ids`, in the same order. */
  function RowsFor(s: Store, ids: seq<int>): (rows: seq<Row>)
    requires forall id :: id in ids ==> id in s.students
    ensures |rows| == |ids|
    ensures forall i :: 0 <= i < |ids| ==> rows[i] == RowFor(s, ids[i])
  {
    if ids == [] then [] else [RowFor(s, ids[0])] + RowsFor(s, ids[1..])
  }

  /** The rows of every receiving student, before ordering. */
  function AllRows(s: Store): (rows: seq<Row>)
    ensures DistinctStudents(rows)
    ensures forall i :: 0 <= i < |rows| ==>
      && rows[i].studentId in s.students
      && rows[i] == RowFor(s, rows[i].studentId)
      && rows[i].totalRecognitionsReceived >= 1
    ensures forall id :: id in s.students && RecognitionsReceived(s.recognitions, id) >= 1 ==>
      exists i :: 0 <= i < |rows| && rows[i].studentId == id
  {
    var ids := Receivers(s.students, s.recognitions);
    var rows := RowsFor(s, ids);
    assert forall i :: 0 <= i < |rows| ==> rows[i].studentId == ids[i];
    assert forall id :: id in ids ==> exists i :: 0 <= i < |rows| && rows[i].studentId == id by {
      forall id | id in ids ensures exists i :: 0 <= i < |rows| && rows[i].studentId == id {
        var k :| 0 <= k < |ids| && ids[k] == id;
        assert rows[k].studentId == id;
      }
    }
    rows
  }

  /** Sorting keeps exactly the rows it was given. */
  lemma SortKeepsRows(rows: seq<Row>)
    requires DistinctStudents(rows)
    ensures forall i :: 0 <= i < |Sort(rows)| ==> Sort(rows)[i] in rows
    ensures forall x :: x in rows ==> x in Sort(rows)
    ensures |Sort(rows)| == |rows|
  {
    var sorted := Sort(rows);
    assert |multiset(sorted)| == |multiset(rows)|;
    forall i | 0 <= i < |sorted| ensures sorted[i] in rows {
      assert sorted[i] in multiset(rows);
    }
    forall x | x in rows ensures x in sorted {
      assert x in multiset(sorted);
    }
  }

  /** LIMIT as SQLite applies it: a negative limit means no limit. */
  function Truncate(rows: seq<Row>, limit: int): (r: seq<Row>)
    ensures |r| <= |rows| && r == rows[..|r|]
    ensures 0 <= limit ==> |r| <= limit
    ensures |r| < |rows| ==> |r| == limit
  {
    if 0 <= limit < |rows| then rows[..limit] else rows
  }

  /** The `limit` query argument, read with type=int and a default of 10. */
  function LimitOf(limit: Option<int>): int
  {
    if limit.Some? then limit.value else DEFAULT_LIMIT
  }

  /**
   * The leaderboard: every row is the aggregate of a student who received
   * at least one recognition, rows are ranked, there are at most `limit` of
   * them, and a receiving student is missing only when `limit` rows all
   * rank above them.
   */
  function GetLeaderboard(s: Store, limit: Option<int>): (rows: seq<Row>)
    ensures Ranked(rows)
    ensures DistinctStudents(rows)
    ensures LimitOf(limit) >= 0 ==> |rows| <= LimitOf(limit)
    ensures forall i :: 0 <= i < |rows| ==>
      && rows[i].studentId in s.students
      && rows[i] == RowFor(s, rows[i].studentId)
      && rows[i].totalRecognitionsReceived >= 1
    ensures forall id :: id in s.students && RecognitionsReceived(s.recognitions, id) >= 1 ==>
      || (exists i :: 0 <= i < |rows| && rows[i].studentId == id)
      || (|rows| == LimitOf(limit) && forall i :: 0 <= i < |rows| ==> RanksBefore(rows[i], RowFor(s, id)))
  {
    var all := AllRows(s);
    var sorted := Sort(all);
    SortKeepsRows(all);
    var rows := Truncate(sorted, LimitOf(limit));
    TopRowsComplete(s, all, sorted, rows, LimitOf(limit));
    rows
  }

  /** The part of GetLeaderboard's contract that is about cutting the ranked rows short. */
  lemma TopRowsComplete(s: Store, all: seq<Row>, sorted: seq<Row>, rows: seq<Row>, limit: int)
    requires forall i :: 0 <= i < |all| ==>
      && all[i].studentId in s.students
      && all[i] == RowFor(s, all[i].studentId)
      && all[i].totalRecognitionsReceived >= 1
    requires forall id :: id in s.students && RecognitionsReceived(s.recognitions, id) >= 1 ==>
      exists i :: 0 <= i < |all| && all[i].studentId == id
    requires Ranked(sorted)
    requires forall i :: 0 <= i < |sorted| ==> sorted[i] in all
    requires forall x :: x in all ==> x in sorted
    requires |rows| <= |sorted| && rows == sorted[..|rows|]
    requires |rows| < |sorted| ==> |rows| == limit
    ensures Ranked(rows)
    ensures forall i :: 0 <= i < |rows| ==>
      && rows[i].studentId in s.students
      && rows[i] == RowFor(s, rows[i].studentId)
      && rows[i].totalRecognitionsReceived >= 1
    ensures DistinctStudents(rows)
    ensures forall id :: id in s.students && RecognitionsReceived(s.recognitions, id) >= 1 ==>
      || (exists i :: 0 <= i < |rows| && rows[i].studentId == id)
      || (|rows| == limit && forall i :: 0 <= i < |rows| ==> RanksBefore(rows[i], RowFor(s, id)))
  {
    PrefixOfRanked(sorted, rows);
    forall i | 0 <= i < |rows|
      ensures rows[i].studentId in s.students && rows[i] == RowFor(s, rows[i].studentId)
      ensures rows[i].totalRecognitionsReceived >= 1
    {
      assert sorted[i] in all;
    }
    // Two rows of the same student are the same row, which cannot rank before itself.
    forall i, j | 0 <= i < j < |rows| ensures rows[i].studentId != rows[j].studentId {
      assert RanksBefore(rows[i], rows[j]);
    }
    forall id | id in s.students && RecognitionsReceived(s.recognitions, id) >= 1
      ensures || (exists i :: 0 <= i < |rows| && rows[i].studentId == id)
              || (|rows| == limit && forall i :: 0 <= i < |rows| ==> RanksBefore(rows[i], RowFor(s, id)))
    {
      var k :| 0 <= k < |all| && all[k].studentId == id;
      CutRow(sorted, rows, all[k]);
    }
  }

  /** A prefix of a ranked sequence is ranked. */
  lemma PrefixOfRanked(sorted: seq<Row>, rows: seq<Row>)
    requires Ranked(sorted)
    requires |rows| <= |sorted| && rows == sorted[..|rows|]
    ensures Ranked(rows)
    ensures forall i :: 0 <= i < |rows| ==> rows[i] == sorted[i]
  {
    assert forall i :: 0 <= i < |rows| ==> rows[i] == sorted[i];
  }

  /** A row of a ranked sequence is either kept in a prefix or ranks after every row of it. */
  lemma CutRow(sorted: seq<Row>, rows: seq<Row>, x: Row)
    requires Ranked(sorted) && x in sorted
    requires |rows| <= |sorted| && rows == sorted[..|rows|]
    ensures || (exists i :: 0 <= i < |rows| && rows[i].studentId == x.studentId)
            || (|rows| < |sorted| && forall i :: 0 <= i < |rows| ==> RanksBefore(rows[i], x))
  {
    var m :| 0 <= m < |sorted| && sorted[m] == x;
    if m < |rows| {
      assert rows[m] == x;
    } else {
      forall i | 0 <= i < |rows| ensures RanksBefore(rows[i], x) {
        assert rows[i] == sorted[i];
      }
    }
  }

  // ---------------------------------------------------------------------
  // Properties of the aggregates
  // ---------------------------------------------------------------------

  /** Recognitions carry positive amounts, so a receiver has at least one credit per recognition. */
  lemma {:induction false} CreditsCoverRecognitions(recs: seq<Recognition>, id: int)
    requires forall r :: r in recs ==> r.credits > 0
    ensures CreditsReceived(recs, id) >= RecognitionsReceived(recs, id)
  {
    if recs != [] {
      assert forall r :: r in recs[1..] ==> r in recs;
      CreditsCoverRecognitions(recs[1..], id);
    }
  }

  /** Whether recognition `recId` exists and was received by `id`. */
  predicate ReceivedBy(recs: seq<Recognition>, recId: int, id: int)
  {
    var r := FindRecognition(recs, recId);
    r.Some? && r.value.receiverId == id
  }

  /**
   * A second definition of the endorsement total: count the endorsements
   * whose recognition was received by `id`.
   */
  function EndorsementsOfReceived(recs: seq<Recognition>, ends: seq<Endorsement>, id: int): nat
  {
    if ends == [] then 0
    else EndorsementsOfReceived(recs, ends[..|ends| - 1], id)
         + (if ReceivedBy(recs, ends[|ends| - 1].recognitionId, id) then 1 else 0)
  }

  /** How many recognitions have key `recId` and receiver `id`. */
  function Matches(recs: seq<Recognition>, recId: int, id: int): nat
  {
    if recs == [] then 0
    else (if recs[0].id == recId && recs[0].receiverId == id then 1 else 0) + Matches(recs[1..], recId, id)
  }

  lemma {:induction false} MatchesIsLookup(recs: seq<Recognition>, recId: int, id: int)
    requires IncreasingRecognitionIds(recs)
    ensures Matches(recs, recId, id) == if ReceivedBy(recs, recId, id) then 1 else 0
  {
    if recs != [] {
      MatchesIsLookup(recs[1..], recId, id);
      if recs[0].id == recId {
        assert !HasRecognition(recs[1..], recId) by {
          forall i | 0 <= i < |recs[1..]| ensures recs[1..][i].id != recId {
            assert recs[1..][i] == recs[i + 1];
          }
        }
      }
    }
  }

  lemma {:induction false} EndorsementsReceivedAppend(recs: seq<Recognition>, ends: seq<Endorsement>, e: Endorsement, id: int)
    ensures EndorsementsReceived(recs, ends + [e], id)
         == EndorsementsReceived(recs, ends, id) + Matches(recs, e.recognitionId, id)
  {
    if recs != [] {
      EndorsementsReceivedAppend(recs[1..], ends, e, id);
      assert (ends + [e])[..|ends|] == ends;
    }
  }

  lemma {:induction false} EndorsementsReceivedOfNone(recs: seq<Recognition>, id: int)
    ensures EndorsementsReceived(recs, [], id) == 0
  {
    if recs != [] {
      EndorsementsReceivedOfNone(recs[1..], id);
    }
  }

  /**
   * Summing endorsement counts over the recognitions a student received
   * (the query's outer join) counts exactly the endorsements of those
   * recognitions, each once.
   */
  lemma {:induction false} EndorsementsReceivedCountsEndorsements(recs: seq<Recognition>, ends: seq<Endorsement>, id: int)
    requires IncreasingRecognitionIds(recs)
    ensures EndorsementsReceived(recs, ends, id) == EndorsementsOfReceived(recs, ends, id)
  {
    if ends == [] {
      EndorsementsReceivedOfNone(recs, id);
    } else {
      var init, e := ends[..|ends| - 1], ends[|ends| - 1];
      assert ends == init + [e];
      EndorsementsReceivedCountsEndorsements(recs, init, id);
      EndorsementsReceivedAppend(recs, init, e, id);
      MatchesIsLookup(recs, e.recognitionId, id);
    }
  }

  /**
   * On a well-formed store every row lists at least one credit per
   * recognition, and its endorsement total is the number of endorsements
   * of recognitions the student received.
   */
  lemma LeaderboardRowTotals(s: Store, limit: Option<int>)
    requires WellFormed(s)
    ensures var rows := GetLeaderboard(s, limit);
      forall i :: 0 <= i < |rows| ==>
        && rows[i].totalCreditsReceived >= rows[i].totalRecognitionsReceived >= 1
        && rows[i].totalEndorsementsReceived
           == EndorsementsOfReceived(s.recognitions, s.endorsements, rows[i].studentId)
  {
    var rows := GetLeaderboard(s, limit);
    forall i | 0 <= i < |rows|
      ensures rows[i].totalCreditsReceived >= rows[i].totalRecognitionsReceived >= 1
      ensures rows[i].totalEndorsementsReceived
           == EndorsementsOfReceived(s.recognitions, s.endorsements, rows[i].studentId)
    {
      assert forall r :: r in s.recognitions ==> RecognitionRowOk(s, r);
      CreditsCoverRecognitions(s.recognitions, rows[i].studentId);
      EndorsementsReceivedCountsEndorsements(s.recognitions, s.endorsements, rows[i].studentId);
    }
  }

  /**
   * In a well-formed store every receiver is a student, so with a limit
   * that is negative or at least the number of students, every receiver
   * has a row.
   */
  lemma LeaderboardListsEveryReceiver(s: Store, limit: Option<int>)
    requires WellFormed(s)
    requires LimitOf(limit) < 0 || LimitOf(limit) >= |s.students|
    ensures var rows := GetLeaderboard(s, limit);
      forall r :: r in s.recognitions ==> exists i :: 0 <= i < |rows| && rows[i].studentId == r.receiverId
  {
    var rows := GetLeaderboard(s, limit);
    NothingCut(s, limit);
    forall r | r in s.recognitions
      ensures exists i :: 0 <= i < |rows| && rows[i].studentId == r.receiverId
    {
      assert RecognitionRowOk(s, r);
      ReceivedAtLeastOnce(s.recognitions, r);
    }
  }

  /** With a limit that is negative or at least the number of students, no row is cut. */
  lemma NothingCut(s: Store, limit: Option<int>)
    requires LimitOf(limit) < 0 || LimitOf(limit) >= |s.students|
    ensures var rows := GetLeaderboard(s, limit);
      forall id :: id in s.students && RecognitionsReceived(s.recognitions, id) >= 1 ==>
        exists i :: 0 <= i < |rows| && rows[i].studentId == id
  {
    var all := AllRows(s);
    SortKeepsRows(all);
    RowsAreStudents(s, all);
    var rows := GetLeaderboard(s, limit);
    assert rows == Sort(all);
    forall id | id in s.students && RecognitionsReceived(s.recognitions, id) >= 1
      ensures exists i :: 0 <= i < |rows| && rows[i].studentId == id
    {
      var k :| 0 <= k < |all| && all[k].studentId == id;
      assert all[k] in rows;
    }
  }

  lemma {:induction false} ReceivedAtLeastOnce(recs: seq<Recognition>, r: Recognition)
    requires r in recs
    ensures RecognitionsReceived(recs, r.receiverId) >= 1
  {
    if recs[0] != r {
      ReceivedAtLeastOnce(recs[1..], r);
    }
  }

  /** Rows for distinct students number at most the students there are. */
  lemma RowsAreStudents(s: Store, rows: seq<Row>)
    requires DistinctStudents(rows)
    requires forall i :: 0 <= i < |rows| ==> rows[i].studentId in s.students
    ensures |rows| <= |s.students|
  {
    var ids := set i | 0 <= i < |rows| :: rows[i].studentId;
    assert ids <= s.students.Keys;
    assert |ids| == |rows| by {
      IdsOfDistinctRows(rows);
    }
    assert |ids| <= |s.students.Keys| by {
      SubsetCardinality(ids, s.students.Keys);
    }
  }

  lemma {:induction false} IdsOfDistinctRows(rows: seq<Row>)
    requires DistinctStudents(rows)
    ensures |set i | 0 <= i < |rows| :: rows[i].studentId| == |rows|
  {
    if rows != [] {
      var n := |rows| - 1;
      var init := rows[..n];
      assert forall i :: 0 <= i < n ==> init[i] == rows[i];
      assert DistinctStudents(init);
      IdsOfDistinctRows(init);
      var before := set i | 0 <= i < |init| :: init[i].studentId;
      var after := set i | 0 <= i < |rows| :: rows[i].studentId;
      assert rows[n].studentId !in before;
      assert after == before + {rows[n].studentId};
    }
  }

  lemma SubsetCardinality(a: set<int>, b: set<int>)
    requires a <= b
    ensures |a| <= |b|
  {
    assert b == a + (b - a);
  }
}
