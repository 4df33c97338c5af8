/** The administrator's audit-log page (app/admin/audit-logs/page.tsx): the
    newest log entries with the names of the users who made them, the search
    over them, and the labels they are shown with. */
module AuditLogs {
  import opened Common
  import opened Records
  import opened Calendar
  import opened Ordering
  import opened Database
  import opened Access

  /** `.limit(500)`. */
  const Limit := 500

  /** The sort key of `order("created_at", { ascending: false })`: every
      component negated, so that ascending keys are descending stamps. */
  function NewestKey(l: AuditLog): Key
  {
    var t := l.createdAt;
    [-(t.date.year as int), -(t.date.month as int), -(t.date.day as int),
     -(t.hour as int), -(t.minute as int), -(t.second as int), -(t.micro as int)]
  }

  /** One step down two keys of equal length: a key no greater than another
      from position `k` on has a no greater component at `k`, and, when the
      two agree there, is no greater from `k + 1` on. */
  lemma KeyLeStep(a: Key, b: Key, k: nat)
    requires k < |a| == |b| && KeyLe(a[k..], b[k..])
    ensures a[k] <= b[k]
    ensures a[k] == b[k] ==> KeyLe(a[k + 1..], b[k + 1..])
  {
    assert a[k..][1..] == a[k + 1..] && b[k..][1..] == b[k + 1..];
  }

  /** Ascending `NewestKey` is descending `created_at`. */
  lemma NewestKeyOrder(a: AuditLog, b: AuditLog)
    ensures KeyLe(NewestKey(a), NewestKey(b)) ==> DateTimeLe(b.createdAt, a.createdAt)
  {
    var ka, kb := NewestKey(a), NewestKey(b);
    if KeyLe(ka, kb) {
      assert ka[0..] == ka && kb[0..] == kb;
      KeyLeStep(ka, kb, 0);
      if ka[0] == kb[0] {
        KeyLeStep(ka, kb, 1);
        if ka[1] == kb[1] {
          KeyLeStep(ka, kb, 2);
          if ka[2] == kb[2] {
            KeyLeStep(ka, kb, 3);
            if ka[3] == kb[3] {
              KeyLeStep(ka, kb, 4);
              if ka[4] == kb[4] {
                KeyLeStep(ka, kb, 5);
                if ka[5] == kb[5] {
                  KeyLeStep(ka, kb, 6);
                }
              }
            }
          }
        }
      }
    }
  }

  /** The rows `fetchLogs` reads: the table newest first, cut at `Limit`. */
  function Newest(t: seq<AuditLog>): (r: seq<AuditLog>)
    ensures |r| <= Limit
  {
    var s := SortBy(t, NewestKey);
    s[..if |s| < Limit then |s| else Limit]
  }

  /** The newest rows: as many as the table has, up to 500, taken from the
      table, newest first, and no row left out is newer than any row kept. */
  lemma NewestSpec(t: seq<AuditLog>)
    ensures |Newest(t)| == if |t| < Limit then |t| else Limit
    ensures multiset(Newest(t)) <= multiset(t)
    ensures forall i, j :: 0 <= i < j < |Newest(t)| ==>
      DateTimeLe(Newest(t)[j].createdAt, Newest(t)[i].createdAt)
    ensures forall x, y :: x in t && x !in Newest(t) && y in Newest(t) ==>
      DateTimeLe(x.createdAt, y.createdAt)
  {
    var s := SortBy(t, NewestKey);
    var r := Newest(t);
    assert |s| == |t| by { assert |multiset(s)| == |multiset(t)|; }
    assert s == r + s[|r|..];
    assert multiset(s) == multiset(r) + multiset(s[|r|..]);
    forall i, j | 0 <= i < j < |r|
      ensures DateTimeLe(r[j].createdAt, r[i].createdAt)
    {
      NewestKeyOrder(s[i], s[j]);
    }
    forall x, y | x in t && x !in r && y in r
      ensures DateTimeLe(x.createdAt, y.createdAt)
    {
      assert x in multiset(s);
      var j :| 0 <= j < |s| && s[j] == x;
      var i :| 0 <= i < |r| && r[i] == y;
      assert s[i] == y;
      NewestKeyOrder(s[i], s[j]);
    }
  }

  /** A listed entry with the name of the user who made it. */
  datatype ShownLog = ShownLog(entry: AuditLog, userName: string)

  /** `userData?.full_name || "Unknown"`, where `userData` is the result of
      the profile lookup by the entry's user id. */
  function UserName(profiles: seq<Profile>, userId: Id, readOk: bool): (r: string)
    ensures r != ""
  {
    match ProfileLookup(profiles, userId, readOk)
    case None => "Unknown"
    case Some(p) => Or(p.fullName, "Unknown")
  }

  /** The user's full name when their one profile row has one, and
      "Unknown" when the lookup fails, finds no row, finds two, or finds a
      row without a name. */
  lemma UserNameSpec(profiles: seq<Profile>, userId: Id, readOk: bool)
    ensures forall p :: readOk && Filter((q: Profile) => q.id == userId, profiles) == [p]
                        && p.fullName.Some? && p.fullName.value != "" ==>
      UserName(profiles, userId, readOk) == p.fullName.value
    ensures !readOk || (forall p :: p in profiles ==> p.id != userId) ==>
      UserName(profiles, userId, readOk) == "Unknown"
    ensures |Filter((q: Profile) => q.id == userId, profiles)| >= 2 ==>
      UserName(profiles, userId, readOk) == "Unknown"
    ensures forall p :: Filter((q: Profile) => q.id == userId, profiles) == [p]
                        && (p.fullName.None? || p.fullName.value == "") ==>
      UserName(profiles, userId, readOk) == "Unknown"
  {
    if readOk && forall p :: p in profiles ==> p.id != userId {
      FilterNone((q: Profile) => q.id == userId, profiles);
    }
  }

  /** The entries with their user names: lookup `i` is call `i + 1`, and it
      fails when that number is in `faults`. */
  function Enriched(rows: seq<AuditLog>, profiles: seq<Profile>, faults: set<nat>): (r: seq<ShownLog>)
    ensures |r| == |rows|
    ensures forall i :: 0 <= i < |rows| ==> r[i].entry == rows[i]
    ensures forall i :: 0 <= i < |rows| ==> r[i].userName == UserName(profiles, rows[i].userId, i + 1 !in faults)
  {
    seq(|rows|, i requires 0 <= i < |rows| =>
      ShownLog(rows[i], UserName(profiles, rows[i].userId, i + 1 !in faults)))
  }

  /** `filteredLogs`: the user name, the action or the entity type contains
      the search term, case-sensitively. */
  predicate Matches(l: ShownLog, term: string)
  {
    Contains(l.userName, term) || Contains(l.entry.action, term) || Contains(l.entry.entityType, term)
  }

  function FilteredLogs(logs: seq<ShownLog>, term: string): (r: seq<ShownLog>)
    ensures forall l :: l in r <==> l in logs && Matches(l, term)
  {
    Filter((l: ShownLog) => Matches(l, term), logs)
  }

  /** An empty search shows every entry, in order. */
  lemma EmptySearchKeepsAll(logs: seq<ShownLog>)
    ensures FilteredLogs(logs, "") == logs
  {
    forall l | l in logs
      ensures Matches(l, "")
    {
      assert Contains(l.userName, "") by { ContainsAt(l.userName, ""); assert "" <= l.userName[0..]; }
    }
    FilterKeepsAll((l: ShownLog) => Matches(l, ""), logs);
  }

  /** The search does not fold case: "sara" does not find an entry by a
      user named "Sara" that "Sara" finds. */
  lemma SearchIsCaseSensitive(l: ShownLog)
    requires l.userName == "Sara" && l.entry.action == "created" && l.entry.entityType == "grade"
    ensures FilteredLogs([l], "Sara") == [l] && FilteredLogs([l], "sara") == []
  {
    SaraSearch();
    assert Matches(l, "Sara") && !Matches(l, "sara");
    assert [l][1..] == [];
  }

  /** The searches of that example, one field at a time. */
  lemma SaraSearch()
    ensures Contains("Sara", "Sara")
    ensures !Contains("Sara", "sara") && !Contains("created", "sara") && !Contains("grade", "sara")
  {
    assert "Sara" <= "Sara"[0..];
    ContainsAt("Sara", "Sara");
    NoFirstChar("Sara", "sara");
    NoFirstChar("created", "sara");
    NoFirstChar("grade", "sara");
  }

  /** A text whose first character occurs nowhere in `s` is not in `s`. */
  lemma NoFirstChar(s: string, t: string)
    requires t != [] && forall i :: 0 <= i < |s| ==> s[i] != t[0]
    ensures !Contains(s, t)
  {
    forall i | 0 <= i <= |s|
      ensures !(t <= s[i..])
    {
      if i < |s| {
        assert s[i..][0] == s[i];
      }
    }
    NotContained(s, t);
  }

  /** `t` occurs nowhere in `s` when no position of `s` starts with it. */
  lemma NotContained(s: string, t: string)
    requires forall i :: 0 <= i <= |s| ==> !(t <= s[i..])
    ensures !Contains(s, t)
  {
    ContainsAt(s, t);
  }

  const ActionLabels: map<string, string> := map[
    "created" := "إنشاء", "updated" := "تحديث", "deleted" := "حذف",
    "locked" := "قفل", "unlocked" := "فتح"]

  const EntityLabels: map<string, string> := map[
    "grade" := "درجة", "student" := "طالب", "class" := "فصل",
    "teacher" := "مدرس", "profile" := "ملف شخصي"]

  /** `labels[key] || key`. */
  function Label(labels: map<string, string>, key: string): string
  {
    Or(if key in labels then Some(labels[key]) else None, key)
  }

  /** The five known actions and entity types show their labels; anything
      else shows its own value. */
  lemma LabelSpec(key: string)
    ensures key in ActionLabels ==> Label(ActionLabels, key) == ActionLabels[key] != key
    ensures key !in ActionLabels ==> Label(ActionLabels, key) == key
    ensures key in EntityLabels ==> Label(EntityLabels, key) == EntityLabels[key] != key
    ensures key !in EntityLabels ==> Label(EntityLabels, key) == key
  {
  }

  /** `n` profile lookups. */
  function Lookups(n: nat): (r: seq<Call>)
    ensures |r| == n
    ensures forall k :: 0 <= k < n ==> r[k] == Select(Profiles)
  {
    if n == 0 then [] else Lookups(n - 1) + [Select(Profiles)]
  }

  /** The lookup loop of `fetchLogs`: one profile read per entry, in order,
      the entry's name taken from its own read (call `i + 1`). */
  method LookUpUsers(db: Db, rows: seq<AuditLog>, faults: set<nat>) returns (shown: seq<ShownLog>)
    modifies db`log
    ensures shown == Enriched(rows, db.profiles, faults)
    ensures db.log == old(db.log) + Lookups(|rows|)
  {
    ghost var all := Enriched(rows, db.profiles, faults);
    shown := [];
    var i := 0;
    while i < |rows|
      invariant 0 <= i <= |rows|
      invariant shown == all[..i]
      invariant db.log == old(db.log) + Lookups(i)
    {
      db.Read(Profiles);
      shown := shown + [ShownLog(rows[i], UserName(db.profiles, rows[i].userId, i + 1 !in faults))];
      assert all[..i + 1] == all[..i] + [all[i]];
      i := i + 1;
    }
    assert all[..|rows|] == all;
  }

  class AuditLogsPage {
    var logs: seq<ShownLog>
    var searchTerm: string

    constructor ()
      ensures logs == [] && searchTerm == ""
    {
      logs, searchTerm := [], "";
    }

    /** `fetchLogs`: call 0 reads the newest entries; a failure leaves the
        list as it was. Then one profile lookup per entry, in order. */
    method FetchLogs(db: Db, faults: set<nat>)
      modifies this`logs, db`log
      ensures 0 in faults ==> logs == old(logs) && db.log == old(db.log) + [Select(AuditLogs)]
      ensures 0 !in faults ==>
        logs == Enriched(Newest(db.auditLogs), db.profiles, faults)
        && db.log == old(db.log) + [Select(AuditLogs)] + Lookups(|logs|)
    {
      db.Read(AuditLogs);
      if 0 in faults {
        return;
      }
      logs := LookUpUsers(db, Newest(db.auditLogs), faults);
    }
  }
}
