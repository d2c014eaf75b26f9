/**
 * The daily digest job: folding the digest query's rows into one `UserStat`
 * per user, ordered by user id, and the once-only scheduling of the job.
 */
module DailyNotificationConfig {
  import opened Wrappers
  import opened Seqs
  import opened AppTypes
  import opened EmailService
  import DailyNotificationService

  /** The cron expression of the job: every day at midnight. */
  const DailyCron := "0 0 * * *"

  // ---------------------------------------------------------------------
  // The fold performed by `summarizeUserNotes`
  // ---------------------------------------------------------------------

  /** `stats.find(stat => stat.type === t)`, as the index of the first entry with that type. */
  function FindType(stats: seq<Stat>, t: string): (r: Option<nat>)
    ensures r.Some? ==> r.value < |stats| && stats[r.value].noteType == t
    ensures r.Some? ==> forall j | 0 <= j < r.value :: stats[j].noteType != t
    ensures r.None? ==> forall j | 0 <= j < |stats| :: stats[j].noteType != t
  {
    if |stats| == 0 then None
    else if stats[0].noteType == t then Some(0)
    else match FindType(stats[1..], t)
      case None => None
      case Some(k) => Some(k + 1)
  }

  /** Counting one more note of type `t`: increment the entry found, or push a new entry with count 1. */
  function AddType(stats: seq<Stat>, t: string): seq<Stat> {
    match FindType(stats, t)
    case Some(k) => stats[k := Stat(t, stats[k].count + 1)]
    case None => stats + [Stat(t, 1)]
  }

  /** One iteration of the loop: create the user's entry on first sight, then count the row's note type. */
  function Step(userStats: map<int, UserStat>, row: UserNotesSummary): map<int, UserStat> {
    var entry := if row.userId in userStats then userStats[row.userId]
                 else UserStat(row.email, row.userId, row.username, []);
    userStats[row.userId := entry.(stats := AddType(entry.stats, row.typeName))]
  }

  /** The record after the loop has consumed `rows` in order. */
  function Fold(rows: seq<UserNotesSummary>): map<int, UserStat> {
    if |rows| == 0 then map[]
    else Step(Fold(rows[..|rows| - 1]), rows[|rows| - 1])
  }

  /** `Object.values(userStats)`. */
  function ObjectValues(userStats: map<int, UserStat>): (r: seq<UserStat>)
    ensures |r| == |userStats.Keys|
  {
    var keys := SortedKeys(userStats.Keys);
    seq(|keys|, i requires 0 <= i < |keys| => userStats[keys[i]])
  }

  /** `summarizeUserNotes`: the loop over the rows, then the record's values. */
  method SummarizeUserNotes(summary: seq<UserNotesSummary>) returns (result: seq<UserStat>)
    ensures result == ObjectValues(Fold(summary))
  {
    var userStats: map<int, UserStat> := map[];
    for i := 0 to |summary|
      invariant userStats == Fold(summary[..i])
    {
      var curr := summary[i];
      if curr.userId !in userStats {
        userStats := userStats[curr.userId := UserStat(curr.email, curr.userId, curr.username, [])];
      }
      var entry := userStats[curr.userId];
      var found := FindType(entry.stats, curr.typeName);
      match found {
        case Some(k) =>
          entry := entry.(stats := entry.stats[k := Stat(curr.typeName, entry.stats[k].count + 1)]);
        case None =>
          entry := entry.(stats := entry.stats + [Stat(curr.typeName, 1)]);
      }
      userStats := userStats[curr.userId := entry];
      assert summary[..i + 1][..i] == summary[..i];
    }
    assert summary[..|summary|] == summary;
    result := ObjectValues(userStats);
  }

  // ---------------------------------------------------------------------
  // What the fold computes, defined independently of the loop
  // ---------------------------------------------------------------------

  /** The users that appear in the rows. */
  function Users(rows: seq<UserNotesSummary>): set<int> {
    set i | 0 <= i < |rows| :: rows[i].userId
  }

  /** The first row of user `u`, if any. */
  function FirstRowOf(rows: seq<UserNotesSummary>, u: int): (r: Option<UserNotesSummary>)
    ensures r.Some? <==> u in Users(rows)
    ensures r.Some? ==> r.value.userId == u
  {
    if |rows| == 0 then None
    else if rows[0].userId == u then Some(rows[0])
    else
      assert Users(rows) == {rows[0].userId} + Users(rows[1..]) by {
        forall v | v in Users(rows) ensures v in {rows[0].userId} + Users(rows[1..]) {
          var i :| 0 <= i < |rows| && rows[i].userId == v;
          if i > 0 { assert rows[1..][i - 1] == rows[i]; }
        }
      }
      FirstRowOf(rows[1..], u)
  }

  /** The note type names of user `u`'s rows, in row order. */
  function TypesOf(rows: seq<UserNotesSummary>, u: int): seq<string> {
    if |rows| == 0 then []
    else TypesOf(rows[..|rows| - 1], u) + (if rows[|rows| - 1].userId == u then [rows[|rows| - 1].typeName] else [])
  }

  /** How many times `t` occurs in `ts`. */
  function Count(ts: seq<string>, t: string): (n: nat)
    ensures n > 0 <==> t in ts
  {
    if |ts| == 0 then 0
    else
      assert ts == ts[..|ts| - 1] + [ts[|ts| - 1]];
      Count(ts[..|ts| - 1], t) + (if ts[|ts| - 1] == t then 1 else 0)
  }

  /** The distinct elements of `ts`, in order of first occurrence. */
  function Dedup(ts: seq<string>): (r: seq<string>)
    ensures forall t :: t in r <==> t in ts
    ensures Distinct(r)
    ensures |r| <= |ts|
  {
    if |ts| == 0 then []
    else
      var pre := ts[..|ts| - 1];
      var last := ts[|ts| - 1];
      assert ts == pre + [last];
      if last in pre then Dedup(pre) else Dedup(pre) + [last]
  }

  /** The position of the first occurrence of `t`. */
  function FirstIndex(ts: seq<string>, t: string): (k: nat)
    requires t in ts
    ensures k < |ts| && ts[k] == t && forall j | 0 <= j < k :: ts[j] != t
  {
    if ts[0] == t then 0 else FirstIndex(ts[1..], t) + 1
  }

  /** One stat per distinct type, in order of first occurrence, counting that type's occurrences. */
  function StatsOf(ts: seq<string>): seq<Stat> {
    var types := Dedup(ts);
    seq(|types|, i requires 0 <= i < |types| => Stat(types[i], Count(ts, types[i])))
  }

  /** The digest entry of user `u`: contact details from the user's first row, stats from all of the user's rows. */
  function Expected(rows: seq<UserNotesSummary>, u: int): UserStat
    requires u in Users(rows)
  {
    var first := FirstRowOf(rows, u).value;
    UserStat(first.email, u, first.username, StatsOf(TypesOf(rows, u)))
  }

  /** Sum of the counts. */
  function SumCounts(stats: seq<Stat>): nat {
    if |stats| == 0 then 0 else SumCounts(stats[..|stats| - 1]) + stats[|stats| - 1].count
  }

  // ---------------------------------------------------------------------
  // Lemmas
  // ---------------------------------------------------------------------

  lemma CountAppend(ts: seq<string>, t: string, x: string)
    ensures Count(ts + [t], x) == Count(ts, x) + (if x == t then 1 else 0)
  {
    assert (ts + [t])[..|ts|] == ts;
  }

  lemma DedupAppend(ts: seq<string>, t: string)
    ensures Dedup(ts + [t]) == if t in ts then Dedup(ts) else Dedup(ts) + [t]
  {
    assert (ts + [t])[..|ts|] == ts;
  }

  /** Counting one more `t` in the fold's stats is the same as recounting with `t` appended. */
  lemma AddTypeCounts(ts: seq<string>, t: string)
    ensures AddType(StatsOf(ts), t) == StatsOf(ts + [t])
  {
    var ts' := ts + [t];
    var types := Dedup(ts);
    var stats := StatsOf(ts);
    DedupAppend(ts, t);
    if t in ts {
      var k :| 0 <= k < |types| && types[k] == t;
      assert stats[k].noteType == t;
      assert forall j | 0 <= j < |stats| && j != k :: stats[j].noteType != t;
      assert FindType(stats, t) == Some(k);
      var added := stats[k := Stat(t, stats[k].count + 1)];
      assert AddType(stats, t) == added;
      forall i | 0 <= i < |types| ensures added[i] == StatsOf(ts')[i] {
        CountAppend(ts, t, types[i]);
      }
    } else {
      assert forall j | 0 <= j < |stats| :: stats[j].noteType != t;
      assert FindType(stats, t) == None;
      var added := stats + [Stat(t, 1)];
      assert AddType(stats, t) == added;
      forall i | 0 <= i < |types| + 1 ensures added[i] == StatsOf(ts')[i] {
        if i < |types| {
          CountAppend(ts, t, types[i]);
        } else {
          CountAppend(ts, t, t);
        }
      }
    }
  }

  lemma FirstRowOfAppend(rows: seq<UserNotesSummary>, x: UserNotesSummary, u: int)
    ensures FirstRowOf(rows + [x], u)
         == if FirstRowOf(rows, u).Some? then FirstRowOf(rows, u)
            else if x.userId == u then Some(x) else None
  {
    if |rows| > 0 {
      assert (rows + [x])[1..] == rows[1..] + [x];
      FirstRowOfAppend(rows[1..], x, u);
    }
  }

  lemma UsersAppend(rows: seq<UserNotesSummary>, x: UserNotesSummary)
    ensures Users(rows + [x]) == Users(rows) + {x.userId}
  {
    var rows' := rows + [x];
    forall v | v in Users(rows') ensures v in Users(rows) + {x.userId} {
      var i :| 0 <= i < |rows'| && rows'[i].userId == v;
      if i < |rows| { assert rows'[i] == rows[i]; }
    }
    forall v | v in Users(rows) ensures v in Users(rows') {
      var i :| 0 <= i < |rows| && rows[i].userId == v;
      assert rows'[i] == rows[i];
    }
    assert rows'[|rows|] == x;
  }

  lemma {:induction false} TypesOfAbsent(rows: seq<UserNotesSummary>, u: int)
    requires u !in Users(rows)
    ensures TypesOf(rows, u) == []
  {
    if |rows| > 0 {
      var pre := rows[..|rows| - 1];
      assert rows == pre + [rows[|rows| - 1]];
      UsersAppend(pre, rows[|rows| - 1]);
      TypesOfAbsent(pre, u);
    }
  }

  /** One more row keeps every user's entry equal to its expected value. */
  lemma FoldStep(pre: seq<UserNotesSummary>, x: UserNotesSummary, u: int)
    requires Fold(pre).Keys == Users(pre)
    requires forall v | v in Users(pre) :: Fold(pre)[v] == Expected(pre, v)
    requires u in Users(pre + [x])
    ensures Fold(pre + [x])[u] == Expected(pre + [x], u)
  {
    var rows := pre + [x];
    assert rows[..|rows| - 1] == pre;
    UsersAppend(pre, x);
    FirstRowOfAppend(pre, x, u);
    var types := TypesOf(pre, u);
    if u == x.userId {
      assert TypesOf(rows, u) == types + [x.typeName];
      if u !in Users(pre) {
        TypesOfAbsent(pre, u);
        assert StatsOf(types) == [];
      }
      AddTypeCounts(types, x.typeName);
    } else {
      assert TypesOf(rows, u) == types;
    }
  }

  /**
   * The loop's record has one entry per user in the rows; each entry takes
   * the email and username of the user's first row and one stat per note type
   * the user received, in order of first occurrence, counting its rows.
   */
  lemma {:induction false} FoldComputesExpected(rows: seq<UserNotesSummary>)
    ensures Fold(rows).Keys == Users(rows)
    ensures forall u | u in Users(rows) :: Fold(rows)[u] == Expected(rows, u)
  {
    if |rows| > 0 {
      var pre := rows[..|rows| - 1];
      var x := rows[|rows| - 1];
      assert rows == pre + [x];
      FoldComputesExpected(pre);
      UsersAppend(pre, x);
      forall u | u in Users(rows) ensures Fold(rows)[u] == Expected(rows, u) {
        FoldStep(pre, x, u);
      }
    }
  }

  lemma {:induction false} SumCountsUpdate(stats: seq<Stat>, k: nat, s: Stat)
    requires k < |stats|
    ensures SumCounts(stats[k := s]) == SumCounts(stats) - stats[k].count + s.count
  {
    var n := |stats|;
    assert stats[k := s][..n - 1] == if k == n - 1 then stats[..n - 1] else stats[..n - 1][k := s];
    if k < n - 1 {
      SumCountsUpdate(stats[..n - 1], k, s);
    }
  }

  lemma SumCountsAddType(stats: seq<Stat>, t: string)
    ensures SumCounts(AddType(stats, t)) == SumCounts(stats) + 1
  {
    match FindType(stats, t)
    case Some(k) => SumCountsUpdate(stats, k, Stat(t, stats[k].count + 1));
    case None => assert (stats + [Stat(t, 1)])[..|stats|] == stats;
  }

  lemma {:induction false} FirstIndexAppend(pre: seq<string>, x: string, t: string)
    requires t in pre + [x]
    ensures t in pre ==> FirstIndex(pre + [x], t) == FirstIndex(pre, t)
    ensures t !in pre ==> FirstIndex(pre + [x], t) == |pre|
  {
    if t in pre {
      var k := FirstIndex(pre, t);
      var k' := FirstIndex(pre + [x], t);
      assert (pre + [x])[k] == t;
      assert k' <= k;
      assert pre[k'] == (pre + [x])[k'];
    } else {
      assert (pre + [x])[|pre|] == t;
    }
  }

  /** The distinct types come in the order of their first occurrences. */
  lemma {:induction false} DedupInFirstOccurrenceOrder(ts: seq<string>, i: int, j: int)
    requires 0 <= i < j < |Dedup(ts)|
    ensures FirstIndex(ts, Dedup(ts)[i]) < FirstIndex(ts, Dedup(ts)[j])
  {
    var pre := ts[..|ts| - 1];
    var x := ts[|ts| - 1];
    assert ts == pre + [x];
    var types := Dedup(ts);
    DedupAppend(pre, x);
    FirstIndexAppend(pre, x, types[i]);
    FirstIndexAppend(pre, x, types[j]);
    if x in pre || j < |Dedup(pre)| {
      assert types[i] == Dedup(pre)[i] && types[j] == Dedup(pre)[j];
      DedupInFirstOccurrenceOrder(pre, i, j);
    } else {
      assert types[i] == Dedup(pre)[i];
      assert types[i] in pre;
    }
  }

  /**
   * The stats of a list of type names: distinct types, exactly the names
   * that occur, in the order of their first occurrence, each counted at
   * least once and exactly as often as it occurs.
   */
  lemma StatsOfShape(ts: seq<string>)
    ensures |StatsOf(ts)| <= |ts|
    ensures forall t :: t in ts <==> exists i | 0 <= i < |StatsOf(ts)| :: StatsOf(ts)[i].noteType == t
    ensures forall i, j | 0 <= i < j < |StatsOf(ts)| :: StatsOf(ts)[i].noteType != StatsOf(ts)[j].noteType
    ensures forall i | 0 <= i < |StatsOf(ts)| :: StatsOf(ts)[i].count == Count(ts, StatsOf(ts)[i].noteType) >= 1
    ensures forall i, j | 0 <= i < j < |StatsOf(ts)| ::
              StatsOf(ts)[i].noteType in ts && StatsOf(ts)[j].noteType in ts &&
              FirstIndex(ts, StatsOf(ts)[i].noteType) < FirstIndex(ts, StatsOf(ts)[j].noteType)
  {
    var types := Dedup(ts);
    var stats := StatsOf(ts);
    forall t | t in ts ensures exists i | 0 <= i < |stats| :: stats[i].noteType == t {
      var i :| 0 <= i < |types| && types[i] == t;
      assert stats[i].noteType == t;
    }
    forall i | 0 <= i < |stats| ensures stats[i].noteType in ts {
      assert stats[i].noteType == types[i];
    }
    forall i, j | 0 <= i < j < |stats|
      ensures FirstIndex(ts, stats[i].noteType) < FirstIndex(ts, stats[j].noteType)
    {
      DedupInFirstOccurrenceOrder(ts, i, j);
    }
  }

  /** The counts add up to the number of names: no row is lost or counted twice. */
  lemma {:induction false} StatsOfSum(ts: seq<string>)
    ensures SumCounts(StatsOf(ts)) == |ts|
  {
    if |ts| > 0 {
      var pre := ts[..|ts| - 1];
      assert ts == pre + [ts[|ts| - 1]];
      StatsOfSum(pre);
      AddTypeCounts(pre, ts[|ts| - 1]);
      SumCountsAddType(StatsOf(pre), ts[|ts| - 1]);
    }
  }

  /** Every value of the record is among `Object.values`, and every listed value is the value of some key. */
  lemma ValuesOfEveryKey(m: map<int, UserStat>)
    ensures forall u | u in m :: m[u] in ObjectValues(m)
    ensures forall x | x in ObjectValues(m) :: exists u | u in m :: x == m[u]
  {
    var keys := SortedKeys(m.Keys);
    var r := ObjectValues(m);
    forall u | u in m ensures m[u] in r {
      var i :| 0 <= i < |keys| && keys[i] == u;
      assert r[i] == m[u];
    }
    forall x | x in r ensures exists u | u in m :: x == m[u] {
      var i :| 0 <= i < |r| && r[i] == x;
      assert x == m[keys[i]];
    }
  }

  /**
   * `summarizeUserNotes` returns one entry per user in the rows, in ascending
   * user id order, each the user's expected digest entry.
   */
  lemma SummaryPerUser(rows: seq<UserNotesSummary>)
    ensures var out := ObjectValues(Fold(rows));
            && |out| == |Users(rows)|
            && (forall i, j | 0 <= i < j < |out| :: out[i].userId < out[j].userId)
            && (forall u :: u in Users(rows) <==> exists i | 0 <= i < |out| :: out[i].userId == u)
            && (forall i | 0 <= i < |out| :: out[i].userId in Users(rows) && out[i] == Expected(rows, out[i].userId))
  {
    var m := Fold(rows);
    FoldComputesExpected(rows);
    ValuesByUserId(m);
    forall i | 0 <= i < |ObjectValues(m)|
      ensures ObjectValues(m)[i] == Expected(rows, ObjectValues(m)[i].userId)
    {
      var u := ObjectValues(m)[i].userId;
      assert ObjectValues(m)[i] == m[u];
    }
  }

  /** A record keyed by user id lists its entries in ascending user id order, each once. */
  lemma ValuesByUserId(m: map<int, UserStat>)
    requires forall u | u in m :: m[u].userId == u
    ensures var out := ObjectValues(m);
            && |out| == |m.Keys|
            && (forall i, j | 0 <= i < j < |out| :: out[i].userId < out[j].userId)
            && (forall u :: u in m <==> exists i | 0 <= i < |out| :: out[i].userId == u)
            && (forall i | 0 <= i < |out| :: out[i].userId in m && out[i] == m[out[i].userId])
  {
    var keys := SortedKeys(m.Keys);
    var out := ObjectValues(m);
    forall i | 0 <= i < |out| ensures out[i].userId == keys[i] && out[i] == m[keys[i]] {
    }
    forall u | u in m ensures exists i | 0 <= i < |out| :: out[i].userId == u {
      var i :| 0 <= i < |keys| && keys[i] == u;
      assert out[i].userId == u;
    }
  }

  // ---------------------------------------------------------------------
  // Scheduling
  // ---------------------------------------------------------------------

  /** The class's static `scheduled` flag and the jobs it has registered with the scheduler. */
  class DailyNotificationConfig {
    var scheduled: bool
    var jobs: seq<string>

    /** The job is registered exactly when the flag is set, and at most once. */
    ghost predicate Valid()
      reads this
    {
      jobs == if scheduled then [DailyCron] else []
    }

    constructor ()
      ensures Valid() && !scheduled
    {
      scheduled := false;
      jobs := [];
    }

    /** `scheduleDailyNotifications`: registers the midnight job the first time only. */
    method ScheduleDailyNotifications()
      requires Valid()
      modifies this
      ensures Valid() && scheduled
      ensures old(scheduled) ==> jobs == old(jobs)
      ensures !old(scheduled) ==> jobs == old(jobs) + [DailyCron]
    {
      if scheduled {
        return;
      }
      jobs := jobs + [DailyCron];
      scheduled := true;
    }
  }

  /** The body of the midnight job, given the rows of the digest query. */
  method RunDailyJob(service: DailyNotificationService.DailyNotificationService, mailer: EmailService,
                     summary: seq<UserNotesSummary>)
    modifies mailer
    ensures mailer.sent == old(mailer.sent) + DailyNotificationService.DigestEmails(ObjectValues(Fold(summary)))
  {
    var userStats := SummarizeUserNotes(summary);
    service.SendDailyNoteStats(mailer, userStats);
  }
}
