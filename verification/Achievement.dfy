/** Saving a character's achievement log. */
module Achievement {
  // The submitted entries are compared with the stored ones, which are crossed off, in place, as they
  // are met.

  import opened Seqs

  const MAX_ACHIEVEMENT_OBJECTIVES: nat := 10

  type Counts = s: seq<int> | |s| == MAX_ACHIEVEMENT_OBJECTIVES witness [0, 0, 0, 0, 0, 0, 0, 0, 0, 0]

  /** What is stored about an achievement; a completion time of 0 stands for NULL. */
  datatype Progress = Progress(count: Counts, completed: int, rewarded: int)

  datatype Entry = Entry(id: int, progress: Progress)

  const NoCounts: Counts := [0, 0, 0, 0, 0, 0, 0, 0, 0, 0]
  const Cleared: Entry := Entry(0, Progress(NoCounts, 0, 0))

  predicate Blank(p: Progress)
  {
    (forall k | 0 <= k < MAX_ACHIEVEMENT_OBJECTIVES :: p.count[k] == 0) && p.completed == 0 && p.rewarded == 0
  }

  /** The primary key: character and achievement. */
  type RowKey = (nat, int)

  type Rows = map<RowKey, Progress>

  predicate DistinctIds(s: seq<Entry>)
  {
    forall i, j | 0 <= i < j < |s| :: s[i].id != s[j].id
  }

  predicate HasId(s: seq<Entry>, id: int)
  {
    exists i | 0 <= i < |s| :: s[i].id == id
  }

  datatype Statement = Insert(key: RowKey) | Update(key: RowKey) | Delete(key: RowKey)

  class Table {
    var rows: Rows
    var log: seq<Statement>

    /** `mapif_achievements_fromsql` */
    method FromSql(character: nat) returns (entries: array<Entry>)
      ensures fresh(entries)
      ensures DistinctIds(entries[..])
      ensures forall i | 0 <= i < entries.Length ::
        (character, entries[i].id) in rows && rows[(character, entries[i].id)] == entries[i].progress
      ensures forall id :: (character, id) in rows ==> HasId(entries[..], id)
    {
      var left: set<int> := set key | key in rows && key.0 == character :: key.1;
      var list: seq<Entry> := [];
      while left != {}
        invariant DistinctIds(list)
        invariant forall i | 0 <= i < |list| ::
          (character, list[i].id) in rows && rows[(character, list[i].id)] == list[i].progress && list[i].id !in left
        invariant forall id | id in left :: (character, id) in rows
        invariant forall id :: (character, id) in rows ==> id in left || HasId(list, id)
        decreases |left|
      {
        var id := Pick(left);
        ghost var before := list;
        list := list + [Entry(id, rows[(character, id)])];
        left := left - {id};
        forall other | (character, other) in rows ensures other in left || HasId(list, other) {
          if other == id {
            assert list[|before|].id == id;
          } else if HasId(before, other) {
            var i :| 0 <= i < |before| && before[i].id == other;
            assert list[i].id == other;
          }
        }
      }
      entries := new Entry[|list|](i requires 0 <= i < |list| => list[i]);
      assert entries[..] == list;
    }

    /** `mapif_achievement_delete` */
    method DeleteRow(character: nat, id: int)
      modifies this
      ensures rows == old(rows) - {(character, id)}
      ensures log == old(log) + [Delete((character, id))]
    {
      rows := rows - {(character, id)};
      log := log + [Delete((character, id))];
    }

    /** `mapif_achievement_add`: blank entries are not stored. */
    method Add(character: nat, entry: Entry)
      modifies this
      ensures Blank(entry.progress) ==> rows == old(rows) && log == old(log)
      ensures !Blank(entry.progress) ==>
        rows == old(rows)[(character, entry.id) := entry.progress] && log == old(log) + [Insert((character, entry.id))]
    {
      var i := 0;
      while i < MAX_ACHIEVEMENT_OBJECTIVES && entry.progress.count[i] == 0
        invariant 0 <= i <= MAX_ACHIEVEMENT_OBJECTIVES
        invariant forall k | 0 <= k < i :: entry.progress.count[k] == 0
      {
        i := i + 1;
      }
      if i == MAX_ACHIEVEMENT_OBJECTIVES && entry.progress.completed == 0 && entry.progress.rewarded == 0 {
        return;
      }
      rows := rows[(character, entry.id) := entry.progress];
      log := log + [Insert((character, entry.id))];
    }

    /** `mapif_achievement_update` */
    method UpdateRow(character: nat, entry: Entry)
      modifies this
      ensures rows ==
        if (character, entry.id) in old(rows) then old(rows)[(character, entry.id) := entry.progress] else old(rows)
      ensures log == old(log) + [Update((character, entry.id))]
    {
      if (character, entry.id) in rows {
        rows := rows[(character, entry.id) := entry.progress];
      }
      log := log + [Update((character, entry.id))];
    }
  }

  /** `ARR_FIND` for an id among the stored entries that are left. */
  method FindEntry(entries: array<Entry>, n: nat, id: int) returns (j: nat)
    requires n <= entries.Length
    ensures j <= n && (j < n ==> entries[j].id == id)
    ensures j == n ==> !HasId(entries[..n], id)
  {
    j := 0;
    while j < n && entries[j].id != id
      invariant j <= n && forall k | 0 <= k < j :: entries[k].id != id
    {
      j := j + 1;
    }
  }

  method SameProgress(a: Progress, b: Progress) returns (same: bool)
    ensures same <==> a == b
  {
    var k := FirstDifference(a.count, b.count);
    return k == MAX_ACHIEVEMENT_OBJECTIVES && a.completed == b.completed && a.rewarded == b.rewarded;
  }

  lemma WithoutIs(s: seq<Entry>, t: seq<Entry>, j: nat)
    requires j < |s| && |t| == |s| - 1 && forall k | 0 <= k < |t| :: t[k] == s[if k < j then k else k + 1]
    ensures t == Without(s, j)
  {}

  /** Crossing off a stored entry: those after it move up, in place. */
  method CrossOff(entries: array<Entry>, n: nat, j: nat)
    requires j < n <= entries.Length
    modifies entries
    ensures entries[..n - 1] == Without(old(entries[..n]), j)
  {
    hide Without;
    ghost var s := entries[..n];
    if j < n - 1 {
      forall k | j <= k < n - 1 {
        entries[k] := entries[k + 1];
      }
      entries[n - 1] := Cleared;
    }
    WithoutIs(s, entries[..n - 1], j);
  }

  lemma WithoutIds(s: seq<Entry>, j: nat)
    requires j < |s| && DistinctIds(s)
    ensures DistinctIds(Without(s, j))
    ensures forall id :: HasId(Without(s, j), id) <==> HasId(s, id) && id != s[j].id
    ensures forall e | e in Without(s, j) :: e in s
  {
    var t := Without(s, j);
    assert forall i | 0 <= i < |t| :: t[i] == s[if i < j then i else i + 1];
    forall id ensures HasId(t, id) <==> HasId(s, id) && id != s[j].id {
      if HasId(s, id) && id != s[j].id {
        var i :| 0 <= i < |s| && s[i].id == id;
        assert t[if i < j then i else i - 1].id == id;
      }
    }
  }

  // ----- what a save does -----

  /** The row of a submitted entry afterwards: present unless it is new and blank or has no id. */
  predicate Saved(before: Rows, after: Rows, character: nat, entry: Entry)
  {
    var key := (character, entry.id);
    && (key in after <==> key in before || (entry.id != 0 && !Blank(entry.progress)))
    && (key in after ==> after[key] == entry.progress)
  }

  predicate SameRow(before: Rows, after: Rows, key: RowKey)
  {
    (key in after <==> key in before) && (key in after ==> after[key] == before[key])
  }

  /** The first `i` submitted entries have been dealt with, and no other row. */
  ghost predicate Dealt(before: Rows, after: Rows, character: nat, submitted: seq<Entry>, i: nat)
    requires i <= |submitted|
  {
    && (forall n | 0 <= n < i :: Saved(before, after, character, submitted[n]))
    && (forall key: RowKey :: key.0 != character || !HasId(submitted[..i], key.1) ==> SameRow(before, after, key))
  }

  /** The stored entries that are left are the rows not yet dealt with. */
  ghost predicate Left(rows: Rows, character: nat, left: seq<Entry>, submitted: seq<Entry>, i: nat)
    requires i <= |submitted|
  {
    && DistinctIds(left)
    && (forall e | e in left :: (character, e.id) in rows && rows[(character, e.id)] == e.progress)
    && (forall id :: HasId(left, id) <==> (character, id) in rows && !HasId(submitted[..i], id))
  }

  /** Afterwards the character's rows are the submitted entries, and nobody else's changed. */
  ghost predicate Replaced(before: Rows, after: Rows, character: nat, submitted: seq<Entry>)
  {
    && (forall n | 0 <= n < |submitted| :: Saved(before, after, character, submitted[n]))
    && (forall id | !HasId(submitted, id) :: (character, id) !in after)
    && (forall key: RowKey | key.0 != character :: SameRow(before, after, key))
  }

  lemma OneMoreId(s: seq<Entry>, i: nat)
    requires i < |s|
    ensures forall id :: HasId(s[..i + 1], id) <==> HasId(s[..i], id) || id == s[i].id
  {
    forall id ensures HasId(s[..i + 1], id) <==> HasId(s[..i], id) || id == s[i].id {
      assert s[..i + 1][i] == s[i];
      if HasId(s[..i], id) {
        var n :| 0 <= n < i && s[..i][n].id == id;
        assert s[..i + 1][n].id == id;
      }
      if HasId(s[..i + 1], id) && id != s[i].id {
        var n :| 0 <= n < i + 1 && s[..i + 1][n].id == id;
        assert s[..i][n].id == id;
      }
    }
  }

  lemma NewId(s: seq<Entry>, i: nat)
    requires i < |s| && DistinctIds(s)
    ensures !HasId(s[..i], s[i].id)
  {}

  /** The effect of one submitted entry on the rows. */
  lemma DealWithOne(before: Rows, rows: Rows, after: Rows, character: nat, submitted: seq<Entry>, i: nat)
    requires i < |submitted| && DistinctIds(submitted) && Dealt(before, rows, character, submitted, i)
    requires Saved(before, after, character, submitted[i])
    requires forall key: RowKey | key != (character, submitted[i].id) :: SameRow(rows, after, key)
    ensures Dealt(before, after, character, submitted, i + 1)
  {
    OneMoreId(submitted, i);
    forall n | 0 <= n < i ensures Saved(before, after, character, submitted[n]) {
      assert (character, submitted[n].id) != (character, submitted[i].id);
      assert SameRow(rows, after, (character, submitted[n].id));
    }
    forall key: RowKey | key.0 != character || !HasId(submitted[..i + 1], key.1) ensures SameRow(before, after, key) {
      assert SameRow(rows, after, key);
    }
  }

  /** `mapif_parse_achievement_save`: every statement is needed, so no statement is issued exactly
      when the table stays as it is. */
  method Save(table: Table, character: nat, submitted: seq<Entry>)
    requires DistinctIds(submitted)
    modifies table
    ensures Replaced(old(table.rows), table.rows, character, submitted)
    ensures table.log == old(table.log) <==> table.rows == old(table.rows)
    ensures old(table.log) <= table.log
  {
    hide Dealt, Left, Blank, DistinctIds;
    var stored := table.FromSql(character);
    var n: nat := stored.Length;
    ghost var before := table.rows;
    assert stored[..n] == stored[..];
    StartSave(before, character, stored[..], submitted);
    var i := 0;
    while i < |submitted|
      invariant 0 <= i <= |submitted| && n <= stored.Length && fresh(stored)
      invariant Dealt(before, table.rows, character, submitted, i)
      invariant Left(before, character, stored[..n], submitted, i)
      invariant table.log == old(table.log) <==> table.rows == before
      invariant old(table.log) <= table.log
    {
      n := SaveEntry(table, character, submitted, i, stored, n, before);
      i := i + 1;
    }
    DeleteLeft(table, character, submitted, stored, n, before);
  }

  lemma StartSave(rows: Rows, character: nat, stored: seq<Entry>, submitted: seq<Entry>)
    requires DistinctIds(stored)
    requires forall i | 0 <= i < |stored| ::
      (character, stored[i].id) in rows && rows[(character, stored[i].id)] == stored[i].progress
    requires forall id :: (character, id) in rows ==> HasId(stored, id)
    ensures Dealt(rows, rows, character, submitted, 0)
    ensures Left(rows, character, stored, submitted, 0)
  {}

  /** A change of a row that was still as before. */
  lemma Changed(before: Rows, rows: Rows, after: Rows, key: RowKey)
    requires SameRow(before, rows, key) && !SameRow(rows, after, key)
    ensures after != before && rows != after
  {}

  method SaveEntry(
    table: Table, character: nat, submitted: seq<Entry>, i: nat, stored: array<Entry>, n: nat, ghost before: Rows)
    returns (n': nat)
    requires DistinctIds(submitted) && i < |submitted| && n <= stored.Length
    requires Dealt(before, table.rows, character, submitted, i)
    requires Left(before, character, stored[..n], submitted, i)
    modifies table, stored
    ensures n' <= n
    ensures Dealt(before, table.rows, character, submitted, i + 1)
    ensures Left(before, character, stored[..n'], submitted, i + 1)
    ensures old(table.log) <= table.log
    ensures table.log == old(table.log) ==> table.rows == old(table.rows)
    ensures table.log != old(table.log) ==> table.rows != before
  {
    hide Blank, DistinctIds, HasId;
    var entry := submitted[i];
    ghost var rows, left := table.rows, stored[..n];
    NewId(submitted, i);
    OneMoreId(submitted, i);
    assert SameRow(before, rows, (character, entry.id));
    var j := FindEntry(stored, n, entry.id);
    if j < n {
      assert left[j] in left;
      WithoutIds(left, j);
      var same := SameProgress(entry.progress, stored[j].progress);
      if !same {
        table.UpdateRow(character, entry);
        Changed(before, rows, table.rows, (character, entry.id));
      }
      CrossOff(stored, n, j);
      n' := n - 1;
    } else {
      if entry.id != 0 {
        table.Add(character, entry);
        if !Blank(entry.progress) {
          Changed(before, rows, table.rows, (character, entry.id));
        }
      }
      n' := n;
      assert stored[..n'] == left;
    }
    DealWithOne(before, rows, table.rows, character, submitted, i);
  }

  /** The rows that were not submitted are deleted. */
  method DeleteLeft(
    table: Table, character: nat, submitted: seq<Entry>, stored: array<Entry>, n: nat, ghost before: Rows)
    requires n <= stored.Length
    requires Dealt(before, table.rows, character, submitted, |submitted|)
    requires Left(before, character, stored[..n], submitted, |submitted|)
    modifies table
    ensures Replaced(before, table.rows, character, submitted)
    ensures old(table.log) <= table.log
    ensures table.log == old(table.log) ==> table.rows == old(table.rows)
    ensures table.log != old(table.log) ==> table.rows != before
  {
    hide Dealt, Left, Replaced, Erased, HasId;
    ghost var rows, left := table.rows, stored[..n];
    NothingErased(rows, character, left);
    var i := 0;
    while i < n
      invariant 0 <= i <= n
      invariant Erased(rows, table.rows, character, left, i)
      invariant old(table.log) <= table.log && (table.log == old(table.log) <==> i == 0)
      invariant i == 0 ==> table.rows == rows
    {
      EraseOne(rows, table.rows, character, left, i);
      table.DeleteRow(character, stored[i].id);
      i := i + 1;
    }
    AllDealt(before, rows, table.rows, character, submitted, left);
  }

  /** The rows of the first `i` entries left have been deleted. */
  ghost predicate Erased(rows: Rows, after: Rows, character: nat, left: seq<Entry>, i: nat)
    requires i <= |left|
  {
    forall key: RowKey ::
      if key.0 == character && HasId(left[..i], key.1) then key !in after else SameRow(rows, after, key)
  }

  lemma NothingErased(rows: Rows, character: nat, left: seq<Entry>)
    ensures Erased(rows, rows, character, left, 0)
  {}

  lemma EraseOne(rows: Rows, after: Rows, character: nat, left: seq<Entry>, i: nat)
    requires i < |left| && Erased(rows, after, character, left, i)
    ensures Erased(rows, after - {(character, left[i].id)}, character, left, i + 1)
  {
    OneMoreId(left, i);
    hide HasId;
    var after' := after - {(character, left[i].id)};
    forall key: RowKey
      ensures if key.0 == character && HasId(left[..i + 1], key.1) then key !in after' else SameRow(rows, after', key)
    {
      assert HasId(left[..i + 1], key.1) <==> HasId(left[..i], key.1) || key.1 == left[i].id;
      assert key.0 == character && key.1 == left[i].id ==> key == (character, left[i].id);
    }
  }

  lemma AllDealt(before: Rows, rows: Rows, after: Rows, character: nat, submitted: seq<Entry>, left: seq<Entry>)
    requires Dealt(before, rows, character, submitted, |submitted|)
    requires Left(before, character, left, submitted, |submitted|)
    requires Erased(rows, after, character, left, |left|)
    ensures Replaced(before, after, character, submitted)
    ensures left != [] ==> before != after
  {
    hide Blank, HasId;
    assert submitted[..|submitted|] == submitted && left[..|left|] == left;
    if left != [] {
      assert left[0] in left;
      HasOwnId(left, 0);
      assert (character, left[0].id) in before && (character, left[0].id) !in after;
    }
    forall id | !HasId(submitted, id) ensures (character, id) !in after {
      assert SameRow(before, rows, (character, id));
      assert HasId(left, id) || SameRow(rows, after, (character, id));
    }
    forall k | 0 <= k < |submitted| ensures Saved(before, after, character, submitted[k]) {
      HasOwnId(submitted, k);
      assert Saved(before, rows, character, submitted[k]);
      assert SameRow(rows, after, (character, submitted[k].id));
    }
    forall key: RowKey | key.0 != character ensures SameRow(before, after, key) {
      assert SameRow(before, rows, key) && SameRow(rows, after, key);
    }
  }

  lemma HasOwnId(s: seq<Entry>, k: nat)
    requires k < |s|
    ensures HasId(s, s[k].id)
  {}

  /** The same entries saved again leave the table alone. */
  lemma SavedAgain(before: Rows, once: Rows, twice: Rows, character: nat, submitted: seq<Entry>)
    requires Replaced(before, once, character, submitted) && Replaced(once, twice, character, submitted)
    ensures once == twice
  {
    forall key: RowKey ensures SameRow(once, twice, key) {
      if key.0 == character && HasId(submitted, key.1) {
        var n :| 0 <= n < |submitted| && submitted[n].id == key.1;
        assert Saved(before, once, character, submitted[n]) && Saved(once, twice, character, submitted[n]);
      }
    }
    assert forall key | key in once :: key in twice && once[key] == twice[key] by {
      forall key | key in once ensures key in twice && once[key] == twice[key] {
        assert SameRow(once, twice, key);
      }
    }
    assert forall key | key in twice :: key in once by {
      forall key | key in twice ensures key in once {
        assert SameRow(once, twice, key);
      }
    }
  }

  /** The second of two saves issues no statement. */
  method SaveTwice(table: Table, character: nat, submitted: seq<Entry>) returns (issued: int)
    requires DistinctIds(submitted)
    modifies table
    ensures Replaced(old(table.rows), table.rows, character, submitted)
    ensures issued == 0
  {
    Save(table, character, submitted);
    var count := |table.log|;
    ghost var once := table.rows;
    Save(table, character, submitted);
    SavedAgain(old(table.rows), once, table.rows, character, submitted);
    issued := |table.log| - count;
  }
}
