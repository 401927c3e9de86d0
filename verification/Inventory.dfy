/** Saving an item array to its table. */
module Inventory {
  // The array is compared with the stored rows, and loaded back from them. A table is a sequence of
  // rows in increasing id order.

  import opened Seqs

  const MAX_SLOTS: nat := 4
  const MAX_ITEM_RDM_OPT: nat := 5

  datatype RandomOption = RandomOption(id: int, value: int, param: int)

  type Cards = s: seq<nat> | |s| == MAX_SLOTS witness [0, 0, 0, 0]

  const NoOption: RandomOption := RandomOption(0, 0, 0)

  type Options = s: seq<RandomOption> | |s| == MAX_ITEM_RDM_OPT
    witness [NoOption, NoOption, NoOption, NoOption, NoOption]

  datatype Item = Item(
    nameid: nat, amount: int, equip: nat, identify: int, refine: int, attribute: int, expireTime: nat,
    bound: int, uniqueId: nat, enchantgrade: int, favorite: int, equipSwitch: nat, card: Cards, option: Options)

  datatype StorageKind = InventoryTable | CartTable | StorageTable | GuildStorageTable

  /** What decides that an item and a row are the same item; the second card does not. */
  datatype Key = Key(nameid: nat, card0: nat, card2: nat, card3: nat, uniqueId: nat)

  function KeyOf(item: Item): Key
  {
    Key(item.nameid, item.card[0], item.card[2], item.card[3], item.uniqueId)
  }

  /** What a table records of an item: all of it in the inventory, and elsewhere all but the last
      two columns, which are then 0. */
  predicate Records(kind: StorageKind, stored: Item, item: Item)
  {
    && stored.nameid == item.nameid && stored.amount == item.amount && stored.equip == item.equip
    && stored.identify == item.identify && stored.refine == item.refine && stored.attribute == item.attribute
    && stored.expireTime == item.expireTime && stored.bound == item.bound && stored.uniqueId == item.uniqueId
    && stored.enchantgrade == item.enchantgrade && stored.card == item.card && stored.option == item.option
    && (if kind == InventoryTable then stored.favorite == item.favorite && stored.equipSwitch == item.equipSwitch
        else stored.favorite == 0 && stored.equipSwitch == 0)
  }

  predicate RecordsAll(kind: StorageKind, stored: seq<Item>, items: seq<Item>)
  {
    |stored| == |items| && forall i | 0 <= i < |items| :: Records(kind, stored[i], items[i])
  }

  /** There is one way to record an item. */
  lemma RecordsOne(kind: StorageKind, a: Item, b: Item, item: Item)
    requires Records(kind, a, item) && Records(kind, b, item)
    ensures a == b
  {
    assert a.favorite == b.favorite && a.equipSwitch == b.equipSwitch;
  }

  lemma RecordsOnly(kind: StorageKind, stored: seq<Item>, items: seq<Item>)
    ensures RecordsAll(kind, stored, items) <==> stored == StoredAll(kind, items)
  {
    hide Records, Stored;
    if RecordsAll(kind, stored, items) {
      forall i | 0 <= i < |items| ensures stored[i] == StoredAll(kind, items)[i] {
        StoredRecords(kind, items[i]);
        RecordsOne(kind, stored[i], Stored(kind, items[i]), items[i]);
      }
    }
    forall i | 0 <= i < |items| ensures Records(kind, StoredAll(kind, items)[i], items[i]) {
      StoredRecords(kind, items[i]);
    }
  }

  lemma StoredRecords(kind: StorageKind, item: Item)
    ensures Records(kind, Stored(kind, item), item)
  {}

  /** The inventory records items as they are. */
  lemma RecordedWhole(items: seq<Item>)
    ensures RecordsAll(InventoryTable, items, items)
  {}

  function Stored(kind: StorageKind, item: Item): (r: Item)
    ensures KeyOf(r) == KeyOf(item) && (r.nameid == 0 <==> item.nameid == 0)
  {
    if kind == InventoryTable then item else item.(favorite := 0, equipSwitch := 0)
  }

  function StoredAll(kind: StorageKind, items: seq<Item>): (r: seq<Item>)
    ensures |r| == |items|
    ensures forall i | 0 <= i < |items| :: r[i] == Stored(kind, items[i]) && Stored(kind, r[i]) == r[i]
  {
    if items == [] then [] else [Stored(kind, items[0])] + StoredAll(kind, items[1..])
  }

  datatype Row = Row(id: nat, owner: int, item: Item)

  datatype Statement = UpdateRow(id: nat) | DeleteRow(id: nat) | InsertRows(count: nat)

  // ----- the table -----

  function OwnedBy(rows: seq<Row>, owner: int): seq<Row>
  {
    if rows == [] then []
    else (if rows[0].owner == owner then [rows[0]] else []) + OwnedBy(rows[1..], owner)
  }

  function OthersThan(rows: seq<Row>, owner: int): seq<Row>
  {
    if rows == [] then []
    else (if rows[0].owner != owner then [rows[0]] else []) + OthersThan(rows[1..], owner)
  }

  predicate Increasing(rows: seq<Row>)
  {
    forall i, j | 0 <= i < j < |rows| :: rows[i].id < rows[j].id
  }

  /** `UPDATE ... WHERE id`: every column but the name id and the owner. */
  function SetRow(rows: seq<Row>, id: nat, item: Item): (r: seq<Row>)
    ensures |r| == |rows|
    ensures forall i | 0 <= i < |rows| ::
      r[i] == if rows[i].id == id then rows[i].(item := item.(nameid := rows[i].item.nameid)) else rows[i]
  {
    if rows == [] then []
    else
      [if rows[0].id == id then rows[0].(item := item.(nameid := rows[0].item.nameid)) else rows[0]] +
      SetRow(rows[1..], id, item)
  }

  /** `DELETE ... WHERE id` */
  function DropRow(rows: seq<Row>, id: nat): seq<Row>
  {
    if rows == [] then []
    else (if rows[0].id == id then [] else [rows[0]]) + DropRow(rows[1..], id)
  }

  function NewRows(nextId: nat, owner: int, items: seq<Item>): (r: seq<Row>)
    ensures |r| == |items|
    ensures forall i | 0 <= i < |items| :: r[i] == Row(nextId + i, owner, items[i])
    decreases |items|
  {
    if items == [] then [] else [Row(nextId, owner, items[0])] + NewRows(nextId + 1, owner, items[1..])
  }

  lemma {:induction false} OwnedJoin(a: seq<Row>, b: seq<Row>, owner: int)
    ensures OwnedBy(a + b, owner) == OwnedBy(a, owner) + OwnedBy(b, owner)
    ensures OthersThan(a + b, owner) == OthersThan(a, owner) + OthersThan(b, owner)
  {
    if a == [] {
      PlusNothing(b);
      PlusNothing(OwnedBy(b, owner));
      PlusNothing(OthersThan(b, owner));
    } else {
      OwnedJoin(a[1..], b, owner);
      assert (a + b)[0] == a[0] && (a + b)[1..] == a[1..] + b;
      Assoc(if a[0].owner == owner then [a[0]] else [], OwnedBy(a[1..], owner), OwnedBy(b, owner));
      Assoc(if a[0].owner != owner then [a[0]] else [], OthersThan(a[1..], owner), OthersThan(b, owner));
    }
  }

  lemma {:induction false} OwnedRows(rows: seq<Row>, owner: int)
    ensures forall r | r in OwnedBy(rows, owner) :: r in rows && r.owner == owner
    ensures forall r | r in OthersThan(rows, owner) :: r in rows && r.owner != owner
    ensures forall r | r in rows :: r in (if r.owner == owner then OwnedBy(rows, owner) else OthersThan(rows, owner))
  {
    if rows != [] {
      OwnedRows(rows[1..], owner);
    }
  }

  lemma {:induction false} OwnedIncreasing(rows: seq<Row>, owner: int)
    requires Increasing(rows)
    ensures Increasing(OwnedBy(rows, owner))
  {
    if rows != [] {
      OwnedIncreasing(rows[1..], owner);
      OwnedRows(rows[1..], owner);
      assert forall r | r in rows[1..] :: rows[0].id < r.id;
      var later := OwnedBy(rows[1..], owner);
      assert forall i | 0 <= i < |later| :: later[i] in later;
    }
  }

  lemma {:induction false} OwnedSet(rows: seq<Row>, owner: int, id: nat, item: Item)
    ensures OwnedBy(SetRow(rows, id, item), owner) == SetRow(OwnedBy(rows, owner), id, item)
    ensures OthersThan(SetRow(rows, id, item), owner) == SetRow(OthersThan(rows, owner), id, item)
  {
    if rows != [] {
      OwnedSet(rows[1..], owner, id, item);
    }
  }

  lemma OwnedCons(r: Row, rows: seq<Row>, owner: int)
    ensures OwnedBy([r] + rows, owner) == (if r.owner == owner then [r] else []) + OwnedBy(rows, owner)
    ensures OthersThan([r] + rows, owner) == (if r.owner != owner then [r] else []) + OthersThan(rows, owner)
  {
    assert ([r] + rows)[1..] == rows;
  }

  lemma DropCons(r: Row, rows: seq<Row>, id: nat)
    ensures DropRow([r] + rows, id) == (if r.id == id then [] else [r]) + DropRow(rows, id)
  {
    assert ([r] + rows)[1..] == rows;
  }

  /** Dropping a row among the owner's rows, */
  lemma {:induction false} DropOwned(rows: seq<Row>, owner: int, id: nat)
    ensures OwnedBy(DropRow(rows, id), owner) == DropRow(OwnedBy(rows, owner), id)
  {
    if rows != [] {
      hide OwnedBy, DropRow;
      var r, rest := rows[0], rows[1..];
      assert rows == [r] + rest;
      DropOwned(rest, owner, id);
      DropCons(r, rest, id);
      OwnedCons(r, rest, owner);
      OwnedCons(r, DropRow(rest, id), owner);
      DropCons(r, OwnedBy(rest, owner), id);
      PlusNothing(DropRow(rest, id));
      PlusNothing(OwnedBy(rest, owner));
      PlusNothing(DropRow(OwnedBy(rest, owner), id));
    }
  }

  /** and among those of others. */
  lemma {:induction false} DropOthers(rows: seq<Row>, owner: int, id: nat)
    ensures OthersThan(DropRow(rows, id), owner) == DropRow(OthersThan(rows, owner), id)
  {
    if rows != [] {
      hide OthersThan, DropRow;
      var r, rest := rows[0], rows[1..];
      assert rows == [r] + rest;
      DropOthers(rest, owner, id);
      DropCons(r, rest, id);
      OwnedCons(r, rest, owner);
      OwnedCons(r, DropRow(rest, id), owner);
      DropCons(r, OthersThan(rest, owner), id);
      PlusNothing(DropRow(rest, id));
      PlusNothing(OthersThan(rest, owner));
      PlusNothing(DropRow(OthersThan(rest, owner), id));
    }
  }

  lemma OwnedDrop(rows: seq<Row>, owner: int, id: nat)
    ensures OwnedBy(DropRow(rows, id), owner) == DropRow(OwnedBy(rows, owner), id)
    ensures OthersThan(DropRow(rows, id), owner) == DropRow(OthersThan(rows, owner), id)
  {
    hide OwnedBy, OthersThan, DropRow;
    DropOwned(rows, owner, id);
    DropOthers(rows, owner, id);
  }

  lemma {:induction false} Untouched(rows: seq<Row>, id: nat, item: Item)
    requires forall r | r in rows :: r.id != id
    ensures SetRow(rows, id, item) == rows && DropRow(rows, id) == rows
  {
    if rows != [] {
      Untouched(rows[1..], id, item);
    }
  }

  lemma {:induction false} DropJoin(a: seq<Row>, b: seq<Row>, id: nat)
    ensures DropRow(a + b, id) == DropRow(a, id) + DropRow(b, id)
  {
    if a == [] {
      PlusNothing(b);
      PlusNothing(DropRow(b, id));
    } else {
      DropJoin(a[1..], b, id);
      assert (a + b)[0] == a[0] && (a + b)[1..] == a[1..] + b;
      Assoc(if a[0].id == id then [] else [a[0]], DropRow(a[1..], id), DropRow(b, id));
    }
  }

  lemma {:induction false} DropRows(rows: seq<Row>, id: nat)
    ensures forall r | r in DropRow(rows, id) :: r in rows
    ensures Increasing(rows) ==> Increasing(DropRow(rows, id))
  {
    if rows != [] {
      DropRows(rows[1..], id);
      var later := DropRow(rows[1..], id);
      assert forall i | 0 <= i < |later| :: later[i] in later;
    }
  }

  /** The statements against one table. */
  class Table {
    var rows: seq<Row>
    var nextId: nat
    var log: seq<Statement>

    predicate Valid()
      reads this
    {
      Increasing(rows) && forall r | r in rows :: r.id < nextId
    }

    method Select(owner: int) returns (selected: seq<Row>)
      requires Valid()
      ensures selected == OwnedBy(rows, owner) && Increasing(selected)
    {
      OwnedIncreasing(rows, owner);
      selected := OwnedBy(rows, owner);
    }

    method Update(id: nat, item: Item)
      requires Valid()
      modifies this
      ensures Valid() && nextId == old(nextId)
      ensures rows == SetRow(old(rows), id, item)
      ensures log == old(log) + [UpdateRow(id)]
    {
      rows := SetRow(rows, id, item);
      log := log + [UpdateRow(id)];
    }

    method Delete(id: nat)
      requires Valid()
      modifies this
      ensures Valid() && nextId == old(nextId)
      ensures rows == DropRow(old(rows), id)
      ensures log == old(log) + [DeleteRow(id)]
    {
      DropRows(rows, id);
      rows := DropRow(rows, id);
      log := log + [DeleteRow(id)];
    }

    method Insert(owner: int, items: seq<Item>)
      requires Valid()
      modifies this
      ensures Valid()
      ensures rows == old(rows) + NewRows(old(nextId), owner, items)
      ensures log == old(log) + [InsertRows(|items|)]
    {
      rows := rows + NewRows(nextId, owner, items);
      nextId := nextId + |items|;
      log := log + [InsertRows(|items|)];
    }
  }

  // ----- rows and items by key -----

  function Payloads(rows: seq<Row>, key: Key): seq<Item>
  {
    if rows == [] then []
    else (if KeyOf(rows[0].item) == key then [rows[0].item] else []) + Payloads(rows[1..], key)
  }

  function Ids(rows: seq<Row>, key: Key): seq<nat>
  {
    if rows == [] then []
    else (if KeyOf(rows[0].item) == key then [rows[0].id] else []) + Ids(rows[1..], key)
  }

  /** The non-empty entries with a key. */
  function ByKey(items: seq<Item>, key: Key): seq<Item>
  {
    if items == [] then []
    else (if items[0].nameid != 0 && KeyOf(items[0]) == key then [items[0]] else []) + ByKey(items[1..], key)
  }

  /** The non-empty entries with a key whose flag is `want`. */
  function Picked(items: seq<Item>, flags: seq<bool>, want: bool, key: Key): seq<Item>
    requires |flags| == |items|
  {
    if items == [] then []
    else
      (if items[0].nameid != 0 && flags[0] == want && KeyOf(items[0]) == key then [items[0]] else []) +
      Picked(items[1..], flags[1..], want, key)
  }

  predicate Matches(items: seq<Item>, flags: seq<bool>, key: Key, i: nat)
    requires |flags| == |items|
  {
    i < |items| && items[i].nameid != 0 && !flags[i] && KeyOf(items[i]) == key
  }

  /** Among the entries with one key, the matched ones come first. */
  predicate MatchedFirst(items: seq<Item>, flags: seq<bool>)
    requires |flags| == |items|
  {
    forall i, j | 0 <= i < j < |items| && items[i].nameid != 0 && KeyOf(items[i]) == KeyOf(items[j]) && flags[j] ::
      flags[i]
  }

  lemma {:induction false} PayloadsJoin(a: seq<Row>, b: seq<Row>, key: Key)
    ensures Payloads(a + b, key) == Payloads(a, key) + Payloads(b, key)
    ensures Ids(a + b, key) == Ids(a, key) + Ids(b, key)
  {
    if a == [] {
      PlusNothing(b);
      PlusNothing(Payloads(b, key));
      PlusNothing(Ids(b, key));
    } else {
      PayloadsJoin(a[1..], b, key);
      assert (a + b)[0] == a[0] && (a + b)[1..] == a[1..] + b;
      Assoc(if KeyOf(a[0].item) == key then [a[0].item] else [], Payloads(a[1..], key), Payloads(b, key));
      Assoc(if KeyOf(a[0].item) == key then [a[0].id] else [], Ids(a[1..], key), Ids(b, key));
    }
  }

  lemma PayloadsOne(r: Row, key: Key)
    ensures Payloads([r], key) == if KeyOf(r.item) == key then [r.item] else []
    ensures Ids([r], key) == if KeyOf(r.item) == key then [r.id] else []
  {
    assert [r][1..] == [];
  }

  lemma MatchedFirstTail(items: seq<Item>, flags: seq<bool>)
    requires |flags| == |items| && items != [] && MatchedFirst(items, flags)
    ensures MatchedFirst(items[1..], flags[1..])
  {
    var rest := items[1..];
    forall i, j | 0 <= i < j < |rest| && rest[i].nameid != 0 && KeyOf(rest[i]) == KeyOf(rest[j]) && flags[1..][j]
      ensures flags[1..][i]
    {
      assert items[1..][i] == items[i + 1] && items[1..][j] == items[j + 1];
    }
  }

  /** Matched and unmatched entries of a key make up all of its entries, in order. */
  lemma {:induction false} PickedSplit(items: seq<Item>, flags: seq<bool>, key: Key)
    requires |flags| == |items| && MatchedFirst(items, flags)
    ensures ByKey(items, key) == Picked(items, flags, true, key) + Picked(items, flags, false, key)
  {
    if items != [] {
      MatchedFirstTail(items, flags);
      PickedSplit(items[1..], flags[1..], key);
      if items[0].nameid != 0 && KeyOf(items[0]) == key && !flags[0] {
        forall j | 0 <= j < |items| - 1 && items[1..][j].nameid != 0 && KeyOf(items[1..][j]) == key
          ensures !flags[1..][j]
        {
          assert items[1..][j] == items[j + 1];
        }
        NoneFlagged(items[1..], flags[1..], key);
      }
    }
  }

  lemma {:induction false} NoneFlagged(items: seq<Item>, flags: seq<bool>, key: Key)
    requires |flags| == |items|
    requires forall j | 0 <= j < |items| && items[j].nameid != 0 && KeyOf(items[j]) == key :: !flags[j]
    ensures Picked(items, flags, true, key) == []
  {
    if items != [] {
      NoneFlagged(items[1..], flags[1..], key);
    }
  }

  /** The first match is the first unmatched entry of its key. */
  lemma {:induction false} FirstMatch(items: seq<Item>, flags: seq<bool>, key: Key, i: nat)
    requires |flags| == |items| && i <= |items|
    requires i < |items| ==> Matches(items, flags, key, i)
    requires forall j | 0 <= j < i :: !Matches(items, flags, key, j)
    ensures i == |items| ==> Picked(items, flags, false, key) == []
    ensures i < |items| ==> Picked(items, flags, false, key) != [] && Picked(items, flags, false, key)[0] == items[i]
  {
    if items != [] {
      assert !Matches(items, flags, key, 0) || i == 0;
      if i > 0 {
        forall j | 0 <= j < i - 1 ensures !Matches(items[1..], flags[1..], key, j) {
          assert !Matches(items, flags, key, j + 1);
        }
        FirstMatch(items[1..], flags[1..], key, i - 1);
      }
    }
  }

  /** Flagging the first match moves it to the end of the matched entries of its key. */
  lemma {:induction false} FlagMatch(items: seq<Item>, flags: seq<bool>, i: nat, key: Key)
    requires |flags| == |items| && i < |items| && items[i].nameid != 0 && !flags[i]
    requires MatchedFirst(items, flags)
    requires forall j | 0 <= j < i :: !Matches(items, flags, KeyOf(items[i]), j)
    ensures
      var flags' := flags[i := true];
      && (KeyOf(items[i]) == key ==>
            && Picked(items, flags', true, key) == Picked(items, flags, true, key) + [items[i]]
            && Picked(items, flags, false, key) == [items[i]] + Picked(items, flags', false, key))
      && (KeyOf(items[i]) != key ==>
            && Picked(items, flags', true, key) == Picked(items, flags, true, key)
            && Picked(items, flags', false, key) == Picked(items, flags, false, key))
  {
    var flags' := flags[i := true];
    if i == 0 {
      assert flags'[1..] == flags[1..];
      if KeyOf(items[0]) == key {
        forall j | 0 <= j < |items| - 1 && items[1..][j].nameid != 0 && KeyOf(items[1..][j]) == key
          ensures !flags[1..][j]
        {
          assert items[1..][j] == items[j + 1];
        }
        NoneFlagged(items[1..], flags[1..], key);
      }
    } else {
      MatchedFirstTail(items, flags);
      assert !Matches(items, flags, KeyOf(items[i]), 0);
      forall j | 0 <= j < i - 1 ensures !Matches(items[1..], flags[1..], KeyOf(items[i]), j) {
        assert !Matches(items, flags, KeyOf(items[i]), j + 1);
      }
      assert flags'[1..] == flags[1..][i - 1 := true];
      FlagMatch(items[1..], flags[1..], i - 1, key);
    }
  }

  lemma FlagKeepsOrder(items: seq<Item>, flags: seq<bool>, i: nat)
    requires |flags| == |items| && i < |items| && items[i].nameid != 0
    requires MatchedFirst(items, flags)
    requires forall j | 0 <= j < i :: !Matches(items, flags, KeyOf(items[i]), j)
    ensures MatchedFirst(items, flags[i := true])
  {
    var after := flags[i := true];
    forall a, b | 0 <= a < b < |items| && items[a].nameid != 0 && KeyOf(items[a]) == KeyOf(items[b]) && after[b]
      ensures after[a]
    {
      if b == i {
        assert !Matches(items, flags, KeyOf(items[i]), a);
      }
    }
  }

  // ----- the invariant of the comparison loop -----

  /** The first `k` of the owner's rows have been dealt with: `kept` is what became of them. */
  ghost predicate Compared(items: seq<Item>, flags: seq<bool>, rows: seq<Row>, k: nat, kept: seq<Row>)
    requires |flags| == |items| && k <= |rows|
  {
    && MatchedFirst(items, flags)
    && (forall key :: Payloads(kept, key) == Picked(items, flags, true, key))
    && (forall key :: Ids(kept, key) <= Ids(rows[..k], key))
    && (forall key :: Picked(items, flags, false, key) != [] ==> Ids(kept, key) == Ids(rows[..k], key))
  }

  /** The rows already hold the items, key by key and in order. */
  ghost predicate Holds(rows: seq<Row>, items: seq<Item>)
  {
    forall key :: Payloads(rows, key) == ByKey(items, key)
  }

  lemma NothingCompared(items: seq<Item>, flags: seq<bool>, rows: seq<Row>)
    requires |flags| == |items| && forall i | 0 <= i < |flags| :: !flags[i]
    ensures Compared(items, flags, rows, 0, [])
  {
    forall key ensures Picked(items, flags, true, key) == [] {
      NoneFlagged(items, flags, key);
    }
    assert rows[..0] == [];
  }

  lemma KeepRow(items: seq<Item>, flags: seq<bool>, rows: seq<Row>, k: nat, kept: seq<Row>, i: nat)
    requires |flags| == |items| && k < |rows| && Compared(items, flags, rows, k, kept)
    requires Matches(items, flags, KeyOf(rows[k].item), i)
    requires forall j | 0 <= j < i :: !Matches(items, flags, KeyOf(rows[k].item), j)
    ensures Compared(items, flags[i := true], rows, k + 1, kept + [rows[k].(item := items[i])])
  {
    hide Payloads, Ids, Picked;
    var flags', kept' := flags[i := true], kept + [rows[k].(item := items[i])];
    FlagKeepsOrder(items, flags, i);
    forall key
      ensures Payloads(kept', key) == Picked(items, flags', true, key)
      ensures Ids(kept', key) <= Ids(rows[..k + 1], key)
      ensures Picked(items, flags', false, key) != [] ==> Ids(kept', key) == Ids(rows[..k + 1], key)
    {
      FlagMatch(items, flags, i, key);
      PayloadsJoin(kept, [rows[k].(item := items[i])], key);
      PayloadsOne(rows[k].(item := items[i]), key);
      PayloadsJoin(rows[..k], [rows[k]], key);
      PayloadsOne(rows[k], key);
      assert rows[..k + 1] == rows[..k] + [rows[k]];
      if KeyOf(items[i]) == key {
        assert Picked(items, flags, false, key) != [];
      }
    }
  }

  lemma LoseRow(items: seq<Item>, flags: seq<bool>, rows: seq<Row>, k: nat, kept: seq<Row>)
    requires |flags| == |items| && k < |rows| && Compared(items, flags, rows, k, kept)
    requires forall j | 0 <= j < |items| :: !Matches(items, flags, KeyOf(rows[k].item), j)
    ensures Compared(items, flags, rows, k + 1, kept)
  {
    hide Payloads, Ids, Picked;
    FirstMatch(items, flags, KeyOf(rows[k].item), |items|);
    forall key
      ensures Ids(kept, key) <= Ids(rows[..k + 1], key)
      ensures Picked(items, flags, false, key) != [] ==> Ids(kept, key) == Ids(rows[..k + 1], key)
    {
      PayloadsJoin(rows[..k], [rows[k]], key);
      PayloadsOne(rows[k], key);
      assert rows[..k + 1] == rows[..k] + [rows[k]];
    }
  }

  /** When the rows already hold the items, the next row finds an entry equal to it. */
  lemma AlreadyThere(items: seq<Item>, flags: seq<bool>, rows: seq<Row>, k: nat, i: nat)
    requires |flags| == |items| && k < |rows| && i <= |items|
    requires Compared(items, flags, rows, k, rows[..k]) && Holds(rows, items)
    requires i < |items| ==> Matches(items, flags, KeyOf(rows[k].item), i)
    requires forall j | 0 <= j < i :: !Matches(items, flags, KeyOf(rows[k].item), j)
    ensures i < |items| && items[i] == rows[k].item
  {
    hide Picked, ByKey;
    var key := KeyOf(rows[k].item);
    PickedSplit(items, flags, key);
    FirstMatch(items, flags, key, i);
    PayloadsJoin(rows[..k], rows[k..], key);
    assert rows[..k] + rows[k..] == rows;
    var done, due := Picked(items, flags, true, key), Picked(items, flags, false, key);
    assert (done + due)[|done|..] == due && (done + Payloads(rows[k..], key))[|done|..] == Payloads(rows[k..], key);
    assert Payloads(rows[k..], key)[0] == rows[k].item;
  }

  function Unmatched(items: seq<Item>, flags: seq<bool>): seq<Item>
    requires |flags| == |items|
  {
    if items == [] then []
    else (if items[0].nameid != 0 && !flags[0] then [items[0]] else []) + Unmatched(items[1..], flags[1..])
  }

  lemma {:induction false} UnmatchedByKey(items: seq<Item>, flags: seq<bool>, nextId: nat, owner: int, key: Key)
    requires |flags| == |items|
    ensures Payloads(NewRows(nextId, owner, Unmatched(items, flags)), key) == Picked(items, flags, false, key)
  {
    if items != [] {
      var head := if items[0].nameid != 0 && !flags[0] then [items[0]] else [];
      UnmatchedByKey(items[1..], flags[1..], nextId + |head|, owner, key);
      var later := Unmatched(items[1..], flags[1..]);
      assert (head + later)[|head|..] == later;
      if head == [] {
        assert head + later == later;
      } else {
        NewRowsCons(nextId, owner, items[0], later, key);
      }
    }
  }

  lemma NewRowsCons(nextId: nat, owner: int, item: Item, later: seq<Item>, key: Key)
    ensures NewRows(nextId, owner, [item] + later) == [Row(nextId, owner, item)] + NewRows(nextId + 1, owner, later)
    ensures Payloads(NewRows(nextId, owner, [item] + later), key) ==
            (if KeyOf(item) == key then [item] else []) + Payloads(NewRows(nextId + 1, owner, later), key)
  {
    assert ([item] + later)[1..] == later;
    var rows := [Row(nextId, owner, item)] + NewRows(nextId + 1, owner, later);
    assert rows[1..] == NewRows(nextId + 1, owner, later);
  }

  /** What a save leaves: for every key the rows hold the entries with that key in order, and
      the rows that were there first keep their ids. */
  ghost predicate Replaced(before: seq<Row>, after: seq<Row>, items: seq<Item>)
  {
    && Holds(after, items)
    && (forall key :: Ids(after, key) <= Ids(before, key) || Ids(before, key) <= Ids(after, key))
  }

  lemma AllCompared(items: seq<Item>, flags: seq<bool>, rows: seq<Row>, kept: seq<Row>, nextId: nat, owner: int)
    requires |flags| == |items| && Compared(items, flags, rows, |rows|, kept)
    ensures Replaced(rows, kept + NewRows(nextId, owner, Unmatched(items, flags)), items)
  {
    hide Payloads, Ids, Picked, Unmatched, ByKey;
    var added := NewRows(nextId, owner, Unmatched(items, flags));
    assert rows[..|rows|] == rows;
    forall key
      ensures Payloads(kept + added, key) == ByKey(items, key)
      ensures Ids(kept + added, key) <= Ids(rows, key) || Ids(rows, key) <= Ids(kept + added, key)
    {
      PayloadsJoin(kept, added, key);
      UnmatchedByKey(items, flags, nextId, owner, key);
      PickedSplit(items, flags, key);
      if Picked(items, flags, false, key) == [] {
        NoIds(added, key);
        assert Ids(kept, key) + [] == Ids(kept, key);
      }
    }
  }

  lemma {:induction false} NoIds(rows: seq<Row>, key: Key)
    ensures |Ids(rows, key)| == |Payloads(rows, key)|
  {
    if rows != [] {
      NoIds(rows[1..], key);
    }
  }

  lemma {:induction false} NothingUnmatched(items: seq<Item>, flags: seq<bool>)
    requires |flags| == |items| && forall key :: Picked(items, flags, false, key) == []
    ensures Unmatched(items, flags) == []
  {
    if items != [] {
      assert Picked(items, flags, false, KeyOf(items[0])) == [];
      forall key ensures Picked(items[1..], flags[1..], false, key) == [] {
        assert Picked(items, flags, false, key) == [];
      }
      NothingUnmatched(items[1..], flags[1..]);
    }
  }

  lemma NothingToInsert(items: seq<Item>, flags: seq<bool>, rows: seq<Row>)
    requires |flags| == |items| && Compared(items, flags, rows, |rows|, rows) && Holds(rows, items)
    ensures Unmatched(items, flags) == []
  {
    hide Payloads, Ids, Picked, ByKey, Unmatched;
    forall key ensures Picked(items, flags, false, key) == [] {
      PickedSplit(items, flags, key);
      var done, due := Picked(items, flags, true, key), Picked(items, flags, false, key);
      assert |done + due| == |done|;
    }
    NothingUnmatched(items, flags);
  }

  // ----- the save -----

  /** The comparison of every saved column. */
  method SameColumns(kind: StorageKind, a: Item, b: Item) returns (same: bool)
    requires KeyOf(a) == KeyOf(b)
    ensures same <==> Stored(kind, a) == Stored(kind, b)
    ensures kind == InventoryTable ==> (same <==> a == b)
    ensures kind != InventoryTable ==> (same <==> a.(favorite := b.favorite, equipSwitch := b.equipSwitch) == b)
  {
    var j := FirstDifference(a.card, b.card);
    var k := FirstDifference(a.option, b.option);
    same :=
      && j == MAX_SLOTS && k == MAX_ITEM_RDM_OPT
      && a.amount == b.amount && a.equip == b.equip && a.identify == b.identify && a.refine == b.refine
      && a.attribute == b.attribute && a.expireTime == b.expireTime && a.bound == b.bound
      && a.enchantgrade == b.enchantgrade
      && (kind != InventoryTable || (a.favorite == b.favorite && a.equipSwitch == b.equipSwitch));
  }

  /** The first entry that is the same item as the row and has not been matched. */
  method FindMatch(items: array<Item>, flag: array<bool>, key: Key) returns (i: nat)
    requires flag.Length == items.Length
    ensures i <= items.Length
    ensures i < items.Length ==> Matches(items[..], flag[..], key, i)
    ensures forall j | 0 <= j < i :: !Matches(items[..], flag[..], key, j)
  {
    i := 0;
    while i < items.Length
      invariant i <= items.Length
      invariant forall j | 0 <= j < i :: !Matches(items[..], flag[..], key, j)
    {
      if items[i].nameid != 0 && !flag[i] && KeyOf(items[i]) == key {
        return;
      }
      i := i + 1;
    }
  }

  lemma AroundOne(kept: seq<Row>, row: Row, later: seq<Row>)
    requires Increasing(kept + [row] + later)
    ensures forall r | r in kept || r in later :: r.id != row.id
  {
    var mine := kept + [row] + later;
    assert mine[|kept|] == row;
    forall r | r in kept ensures r.id != row.id {
      var n :| 0 <= n < |kept| && kept[n] == r;
      assert mine[n] == r;
    }
    forall r | r in later ensures r.id != row.id {
      var n :| 0 <= n < |later| && later[n] == r;
      assert mine[|kept| + 1 + n] == r;
    }
  }

  lemma SetOne(kept: seq<Row>, row: Row, later: seq<Row>, item: Item)
    requires forall r | r in kept || r in later :: r.id != row.id
    requires item.nameid == row.item.nameid
    ensures SetRow(kept + [row] + later, row.id, item) == kept + [row.(item := item)] + later
  {
    var a, b := SetRow(kept + [row] + later, row.id, item), kept + [row.(item := item)] + later;
    forall n | 0 <= n < |a| ensures a[n] == b[n] {
      if n < |kept| {
        assert kept[n] in kept;
      } else if n > |kept| {
        assert later[n - |kept| - 1] in later;
      }
    }
  }

  lemma DropMiddle(kept: seq<Row>, row: Row, later: seq<Row>)
    requires forall r | r in kept || r in later :: r.id != row.id
    ensures DropRow(kept + [row] + later, row.id) == kept + later
  {
    Untouched(kept, row.id, row.item);
    Untouched(later, row.id, row.item);
    DropOne(row);
    hide DropRow;
    DropJoin(kept + [row], later, row.id);
    DropJoin(kept, [row], row.id);
    PlusNothing(kept);
  }

  lemma OthersDiffer(rows: seq<Row>, owner: int, row: Row)
    requires Increasing(rows) && row in OwnedBy(rows, owner)
    ensures forall r | r in OthersThan(rows, owner) :: r.id != row.id
  {
    OwnedRows(rows, owner);
    hide OwnedBy, OthersThan;
    forall r | r in OthersThan(rows, owner) ensures r.id != row.id {
      assert r in rows && row in rows && r != row;
      var a :| 0 <= a < |rows| && rows[a] == r;
      var b :| 0 <= b < |rows| && rows[b] == row;
    }
  }

  /** The rows of one owner, split at the row being compared. */
  lemma OneRow(rows: seq<Row>, kept: seq<Row>, row: Row, later: seq<Row>, owner: int, item: Item)
    requires OwnedBy(rows, owner) == kept + [row] + later && Increasing(rows)
    requires item.nameid == row.item.nameid
    ensures OwnedBy(SetRow(rows, row.id, item), owner) == kept + [row.(item := item)] + later
    ensures OwnedBy(DropRow(rows, row.id), owner) == kept + later
    ensures OthersThan(SetRow(rows, row.id, item), owner) == OthersThan(rows, owner)
    ensures OthersThan(DropRow(rows, row.id), owner) == OthersThan(rows, owner)
  {
    hide OwnedBy, OthersThan, SetRow, DropRow, Increasing;
    OwnedIncreasing(rows, owner);
    OwnedSet(rows, owner, row.id, item);
    OwnedDrop(rows, owner, row.id);
    AroundOne(kept, row, later);
    assert (kept + [row] + later)[|kept|] == row;
    OthersDiffer(rows, owner, row);
    Untouched(OthersThan(rows, owner), row.id, item);
    SetOne(kept, row, later, item);
    DropMiddle(kept, row, later);
  }

  lemma DropOne(row: Row)
    ensures DropRow([row], row.id) == []
  {}

  /** The rows hold no more than the table's columns. */
  predicate AllStored(kind: StorageKind, rows: seq<Row>)
  {
    forall r | r in rows :: Stored(kind, r.item) == r.item
  }

  /** One round of the comparison: a stored row is kept, updated or deleted. */
  method CompareRow(kind: StorageKind, table: Table, items: array<Item>, flag: array<bool>, owner: int, row: Row,
                    ghost selected: seq<Row>, ghost k: nat, ghost kept: seq<Row>)
    returns (ghost kept': seq<Row>)
    requires table.Valid() && flag.Length == items.Length && k < |selected| && row == selected[k]
    requires Compared(StoredAll(kind, items[..]), flag[..], selected, k, kept)
    requires OwnedBy(table.rows, owner) == kept + [row] + selected[k + 1..]
    requires AllStored(kind, kept) && Stored(kind, row.item) == row.item
    modifies table, flag
    ensures table.Valid() && AllStored(kind, kept')
    ensures Compared(StoredAll(kind, items[..]), flag[..], selected, k + 1, kept')
    ensures OwnedBy(table.rows, owner) == kept' + selected[k + 1..]
    ensures OthersThan(table.rows, owner) == old(OthersThan(table.rows, owner))
    ensures kept == selected[..k] && Holds(selected, StoredAll(kind, items[..])) ==>
      kept' == kept + [row] && table.rows == old(table.rows) && table.log == old(table.log)
    ensures old(table.log) <= table.log && (table.log == old(table.log) ==> table.rows == old(table.rows))
  {
    hide Compared, Holds, OwnedBy, OthersThan, SetRow, DropRow, AllStored;
    ghost var entries, later := StoredAll(kind, items[..]), selected[k + 1..];
    var i := FindMatch(items, flag, KeyOf(row.item));
    MatchesStored(kind, items[..], flag[..], KeyOf(row.item), i);
    if kept == selected[..k] && Holds(selected, entries) {
      AlreadyThere(entries, flag[..], selected, k, i);
    }
    if i < items.Length {
      OneRow(table.rows, kept, row, later, owner, entries[i]);
      KeepRow(entries, flag[..], selected, k, kept, i);
      MoreStored(kind, kept, row.(item := entries[i]));
      var same := SameColumns(kind, items[i], row.item);
      if !same {
        table.Update(row.id, Stored(kind, items[i]));
      }
      flag[i] := true;
      kept' := kept + [row.(item := entries[i])];
    } else {
      OneRow(table.rows, kept, row, later, owner, row.item);
      LoseRow(entries, flag[..], selected, k, kept);
      table.Delete(row.id);
      kept' := kept;
    }
  }

  /** `char_memitemdata_to_sql`. For every owner and every table: the other owners' rows are
      untouched; the owner's rows hold exactly the non-empty entries, in order within each
      key; rows keep their ids as far as the entries go; and nothing is changed, and no
      statement issued, when the rows held the entries already. */
  method Save(kind: StorageKind, table: Table, items: array<Item>, owner: int)
    requires table.Valid() && AllStored(kind, OwnedBy(table.rows, owner))
    modifies table
    ensures table.Valid() && AllStored(kind, OwnedBy(table.rows, owner))
    ensures OthersThan(table.rows, owner) == old(OthersThan(table.rows, owner))
    ensures Replaced(old(OwnedBy(table.rows, owner)), OwnedBy(table.rows, owner), StoredAll(kind, items[..]))
    ensures Holds(OwnedBy(table.rows, owner), StoredAll(kind, items[..]))
    ensures kind == InventoryTable ==>
      multiset(Items(OwnedBy(table.rows, owner))) == multiset(NonEmpty(items[..]))
    ensures forall recorded | RecordsAll(kind, recorded, items[..]) ::
      multiset(Items(OwnedBy(table.rows, owner))) == multiset(NonEmpty(recorded))
    ensures old(Holds(OwnedBy(table.rows, owner), StoredAll(kind, items[..]))) ==>
      table.rows == old(table.rows) && table.log == old(table.log)
    ensures old(table.log) <= table.log && (table.log == old(table.log) ==> table.rows == old(table.rows))
  {
    hide Compared, Holds, Replaced, OwnedBy, OthersThan, AllStored, Increasing, StoredAll, Table.Valid;
    hide Items, NonEmpty, RecordsAll;
    var selected := table.Select(owner);
    var flag := new bool[items.Length](_ => false);
    ghost var kept: seq<Row> := [];
    ghost var entries, already := StoredAll(kind, items[..]), Holds(selected, StoredAll(kind, items[..]));
    NothingCompared(entries, flag[..], selected);
    PlusNothing(selected);
    NoneStored(kind);
    var k := 0;
    while k < |selected|
      invariant 0 <= k <= |selected| && table.Valid()
      invariant Compared(entries, flag[..], selected, k, kept) && AllStored(kind, kept)
      invariant OwnedBy(table.rows, owner) == kept + selected[k..]
      invariant OthersThan(table.rows, owner) == old(OthersThan(table.rows, owner))
      invariant already ==> kept == selected[..k] && table.rows == old(table.rows) && table.log == old(table.log)
      invariant old(table.log) <= table.log && (table.log == old(table.log) ==> table.rows == old(table.rows))
    {
      StillStored(kind, selected, k);
      NextRow(selected, k, kept);
      kept := CompareRow(kind, table, items, flag, owner, selected[k], selected, k, kept);
      k := k + 1;
    }
    PlusNothing(kept);
    assert selected[..k] == selected;
    InsertUnmatched(kind, table, items, flag, owner, selected, kept);
    ReplacedHolds(selected, OwnedBy(table.rows, owner), entries);
    HeldIsRecorded(kind, OwnedBy(table.rows, owner), items[..]);
  }

  lemma HeldIsRecorded(kind: StorageKind, rows: seq<Row>, items: seq<Item>)
    requires Holds(rows, StoredAll(kind, items))
    ensures kind == InventoryTable ==> StoredAll(kind, items) == items
    ensures kind == InventoryTable ==> multiset(Items(rows)) == multiset(NonEmpty(items))
    ensures forall recorded | RecordsAll(kind, recorded, items) :: recorded == StoredAll(kind, items)
    ensures forall recorded | RecordsAll(kind, recorded, items) :: multiset(Items(rows)) == multiset(NonEmpty(recorded))
  {
    hide Holds, StoredAll, Items, NonEmpty, RecordsAll;
    SaveIsReplaceAll(rows, StoredAll(kind, items));
    forall recorded | RecordsAll(kind, recorded, items) ensures recorded == StoredAll(kind, items) {
      RecordsOnly(kind, recorded, items);
    }
    RecordedWhole(items);
  }

  lemma ReplacedHolds(before: seq<Row>, after: seq<Row>, items: seq<Item>)
    requires Replaced(before, after, items)
    ensures Holds(after, items)
  {}

  lemma NextRow(rows: seq<Row>, k: nat, kept: seq<Row>)
    requires k < |rows|
    ensures kept + rows[k..] == kept + [rows[k]] + rows[k + 1..]
    ensures rows[..k + 1] == rows[..k] + [rows[k]]
  {
    assert rows[k..] == [rows[k]] + rows[k + 1..];
    Assoc(kept, [rows[k]], rows[k + 1..]);
  }

  lemma NoneStored(kind: StorageKind)
    ensures AllStored(kind, [])
  {}

  lemma MoreStored(kind: StorageKind, rows: seq<Row>, row: Row)
    requires AllStored(kind, rows) && Stored(kind, row.item) == row.item
    ensures AllStored(kind, rows + [row])
  {}

  lemma StillStored(kind: StorageKind, rows: seq<Row>, k: nat)
    requires AllStored(kind, rows) && k < |rows|
    ensures Stored(kind, rows[k].item) == rows[k].item
  {}

  lemma MatchesStored(kind: StorageKind, items: seq<Item>, flags: seq<bool>, key: Key, i: nat)
    requires |flags| == |items| && i <= |items|
    ensures forall j: nat :: Matches(items, flags, key, j) <==> Matches(StoredAll(kind, items), flags, key, j)
  {}

  /** The values of the final statement. */
  method CollectUnmatched(kind: StorageKind, items: array<Item>, flag: array<bool>) returns (values: seq<Item>)
    requires flag.Length == items.Length
    ensures values == Unmatched(StoredAll(kind, items[..]), flag[..])
    ensures forall v | v in values :: Stored(kind, v) == v
  {
    ghost var entries, flags := StoredAll(kind, items[..]), flag[..];
    ghost var all := Unmatched(entries, flags);
    values := [];
    assert entries[0..] == entries && flags[0..] == flags;
    PlusNothing(all);
    var i := 0;
    while i < items.Length
      invariant 0 <= i <= items.Length
      invariant values + Unmatched(entries[i..], flags[i..]) == all
      invariant forall v | v in values :: Stored(kind, v) == v
    {
      assert entries[i..][1..] == entries[i + 1..] && flags[i..][1..] == flags[i + 1..];
      if items[i].nameid != 0 && !flag[i] {
        Assoc(values, [entries[i]], Unmatched(entries[i + 1..], flags[i + 1..]));
        values := values + [Stored(kind, items[i])];
      } else {
        PlusNothing(Unmatched(entries[i + 1..], flags[i + 1..]));
      }
      i := i + 1;
    }
    assert entries[i..] == [] && flags[i..] == [];
    PlusNothing(values);
  }

  lemma Inserted(rows: seq<Row>, owner: int, nextId: nat, items: seq<Item>)
    ensures OwnedBy(rows + NewRows(nextId, owner, items), owner) == OwnedBy(rows, owner) + NewRows(nextId, owner, items)
    ensures OthersThan(rows + NewRows(nextId, owner, items), owner) == OthersThan(rows, owner)
  {
    hide OwnedBy, OthersThan, NewRows;
    OwnedJoin(rows, NewRows(nextId, owner, items), owner);
    NewRowsOwned(nextId, owner, items);
    PlusNothing(OthersThan(rows, owner));
  }

  /** The final statement: all unmatched entries in one `INSERT`, unless there are none. */
  method InsertUnmatched(kind: StorageKind, table: Table, items: array<Item>, flag: array<bool>, owner: int,
                         ghost selected: seq<Row>, ghost kept: seq<Row>)
    requires table.Valid() && flag.Length == items.Length
    requires Compared(StoredAll(kind, items[..]), flag[..], selected, |selected|, kept)
    requires OwnedBy(table.rows, owner) == kept && AllStored(kind, kept)
    modifies table
    ensures table.Valid() && OthersThan(table.rows, owner) == old(OthersThan(table.rows, owner))
    ensures Replaced(selected, OwnedBy(table.rows, owner), StoredAll(kind, items[..]))
    ensures AllStored(kind, OwnedBy(table.rows, owner))
    ensures kept == selected && Holds(selected, StoredAll(kind, items[..])) ==>
      table.rows == old(table.rows) && table.log == old(table.log)
    ensures old(table.log) <= table.log && (table.log == old(table.log) ==> table.rows == old(table.rows))
  {
    hide Compared, Holds, Replaced, OwnedBy, OthersThan, Unmatched, NewRows;
    ghost var entries := StoredAll(kind, items[..]);
    var values := CollectUnmatched(kind, items, flag);
    AllCompared(entries, flag[..], selected, kept, table.nextId, owner);
    if kept == selected && Holds(selected, entries) {
      NothingToInsert(entries, flag[..], selected);
    }
    if values != [] {
      Inserted(table.rows, owner, table.nextId, values);
      table.Insert(owner, values);
      assert forall n | 0 <= n < |values| :: values[n] in values;
    } else {
      NoNewRows(table.nextId, owner);
      PlusNothing(kept);
    }
  }

  lemma NoNewRows(nextId: nat, owner: int)
    ensures NewRows(nextId, owner, []) == []
  {}

  lemma {:induction false} NewRowsOwned(nextId: nat, owner: int, items: seq<Item>)
    ensures OwnedBy(NewRows(nextId, owner, items), owner) == NewRows(nextId, owner, items)
    ensures OthersThan(NewRows(nextId, owner, items), owner) == []
    decreases |items|
  {
    if items != [] {
      NewRowsOwned(nextId + 1, owner, items[1..]);
      assert NewRows(nextId, owner, items)[1..] == NewRows(nextId + 1, owner, items[1..]);
    }
  }

  // ----- what the save means -----

  function Items(rows: seq<Row>): (r: seq<Item>)
    ensures |r| == |rows|
    ensures forall i | 0 <= i < |rows| :: r[i] == rows[i].item
  {
    if rows == [] then [] else [rows[0].item] + Items(rows[1..])
  }

  /** What deleting all rows of the owner and inserting all non-empty entries would store. */
  function NonEmpty(items: seq<Item>): seq<Item>
  {
    if items == [] then [] else (if items[0].nameid != 0 then [items[0]] else []) + NonEmpty(items[1..])
  }

  lemma {:induction false} CountByKey(items: seq<Item>, x: Item)
    ensures multiset(NonEmpty(items))[x] == multiset(ByKey(items, KeyOf(x)))[x]
  {
    if items != [] {
      CountByKey(items[1..], x);
      assert items == [items[0]] + items[1..];
    }
  }

  lemma {:induction false} CountPayloads(rows: seq<Row>, x: Item)
    ensures multiset(Items(rows))[x] == multiset(Payloads(rows, KeyOf(x)))[x]
  {
    if rows != [] {
      CountPayloads(rows[1..], x);
    }
  }

  /** The stored rows are, as a multiset, the non-empty entries: the save does what deleting
      and inserting everything would do. */
  lemma SaveIsReplaceAll(rows: seq<Row>, items: seq<Item>)
    requires Holds(rows, items)
    ensures multiset(Items(rows)) == multiset(NonEmpty(items))
    ensures |rows| == |NonEmpty(items)|
  {
    hide Items, NonEmpty, ByKey, Payloads;
    forall x: Item ensures multiset(Items(rows))[x] == multiset(NonEmpty(items))[x] {
      CountPayloads(rows, x);
      CountByKey(items, x);
      assert Payloads(rows, KeyOf(x)) == ByKey(items, KeyOf(x));
    }
    assert multiset(Items(rows)) == multiset(NonEmpty(items));
    assert |multiset(Items(rows))| == |Items(rows)|;
    assert |multiset(NonEmpty(items))| == |NonEmpty(items)|;
  }

  /** `char_memitemdata_from_sql`: the first `max` rows in id order. */
  method Load(table: Table, max: nat, owner: int) returns (loaded: seq<Item>)
    requires table.Valid()
    ensures
      var stored := Items(OwnedBy(table.rows, owner));
      loaded == if |stored| <= max then stored else stored[..max]
  {
    hide OwnedBy;
    var selected := table.Select(owner);
    loaded := [];
    var i := 0;
    while i < max && i < |selected|
      invariant 0 <= i <= max && i <= |selected|
      invariant loaded == Items(selected)[..i]
    {
      loaded := loaded + [selected[i].item];
      i := i + 1;
    }
  }

  lemma {:induction false} LoadedByKey(rows: seq<Row>, key: Key)
    requires forall r | r in rows :: r.item.nameid != 0
    ensures ByKey(Items(rows), key) == Payloads(rows, key)
  {
    if rows != [] {
      LoadedByKey(rows[1..], key);
      assert rows[0] in rows;
      assert Items(rows)[1..] == Items(rows[1..]);
    }
  }

  lemma {:induction false} StoredNotEmpty(items: seq<Item>)
    ensures forall x | x in NonEmpty(items) :: x.nameid != 0 && x in items
  {
    if items != [] {
      StoredNotEmpty(items[1..]);
    }
  }

  /** Saving, loading and saving again: the load returns the non-empty entries, permuted but in
      order within each key, and the second save, of the same entries, changes nothing. */
  method SaveLoadSave(kind: StorageKind, table: Table, items: array<Item>, owner: int)
    returns (loaded: seq<Item>, issued: int)
    requires table.Valid() && AllStored(kind, OwnedBy(table.rows, owner))
    modifies table
    ensures issued == 0
    ensures kind == InventoryTable ==>
      multiset(loaded) == multiset(NonEmpty(items[..])) && forall key :: ByKey(loaded, key) == ByKey(items[..], key)
    ensures forall recorded | RecordsAll(kind, recorded, items[..]) ::
      multiset(loaded) == multiset(NonEmpty(recorded)) && forall key :: ByKey(loaded, key) == ByKey(recorded, key)
  {
    hide OwnedBy, OthersThan, AllStored, ByKey, NonEmpty, StoredAll, Items, Holds, Table.Valid, RecordsAll;
    ghost var entries := StoredAll(kind, items[..]);
    Save(kind, table, items, owner);
    var before := |table.log|;
    SavedMeans(OwnedBy(table.rows, owner), entries);
    HeldIsRecorded(kind, OwnedBy(table.rows, owner), items[..]);
    loaded := Load(table, items.Length, owner);
    Save(kind, table, items, owner);
    issued := |table.log| - before;
  }

  lemma SavedMeans(rows: seq<Row>, entries: seq<Item>)
    requires Holds(rows, entries)
    ensures multiset(Items(rows)) == multiset(NonEmpty(entries))
    ensures forall key :: ByKey(Items(rows), key) == ByKey(entries, key)
    ensures |rows| <= |entries|
  {
    hide ByKey, NonEmpty, Payloads;
    SaveIsReplaceAll(rows, entries);
    StoredNotEmpty(entries);
    forall r | r in rows ensures r.item.nameid != 0 {
      var n :| 0 <= n < |rows| && rows[n] == r;
      assert r.item == Items(rows)[n] && r.item in multiset(Items(rows));
    }
    forall key ensures ByKey(Items(rows), key) == ByKey(entries, key) {
      LoadedByKey(rows, key);
    }
    AtMostAll(entries);
  }

  lemma {:induction false} AtMostAll(items: seq<Item>)
    ensures |NonEmpty(items)| <= |items|
  {
    if items != [] {
      AtMostAll(items[1..]);
    }
  }
}
