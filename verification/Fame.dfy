/** The fame rankings. */
module Fame {
  // An array that is updated in place, player by player, and always shows the best of all players. An
  // entry with id 0 is empty.

  import opened Seqs

  datatype Entry = Entry(id: nat, fame: int, name: string)

  const Empty: Entry := Entry(0, 0, "")

  // ----- moving an entry -----

  /** `ARR_MOVE` */
  function Moved(s: seq<Entry>, from: nat, to: nat): (r: seq<Entry>)
    requires from < |s| && to < |s|
    ensures |r| == |s|
  {
    if from <= to then s[..from] + s[from + 1..to + 1] + [s[from]] + s[to + 1..]
    else s[..to] + [s[from]] + s[to..from] + s[from + 1..]
  }

  /** Where the entry at position `i` was before the move. */
  function Origin(from: nat, to: nat, i: nat): nat
  {
    if i == to then from
    else if from <= i < to then i + 1
    else if to < i <= from then i - 1
    else i
  }

  /** `t` is `s` with one entry moved from one position to another and replaced by `e`. */
  predicate Shifted(s: seq<Entry>, t: seq<Entry>, from: nat, to: nat, e: Entry)
    requires from < |s| && to < |s|
  {
    && |t| == |s| && t[to] == e
    && (forall i | 0 <= i < |s| && i != to :: t[i] == s[Origin(from, to, i)])
  }

  lemma MovedAt(s: seq<Entry>, from: nat, to: nat, i: nat)
    requires from < |s| && to < |s| && i < |s|
    ensures Origin(from, to, i) < |s| && Moved(s, from, to)[i] == s[Origin(from, to, i)]
  {}

  lemma MovedShifts(s: seq<Entry>, from: nat, to: nat, e: Entry)
    requires from < |s| && to < |s|
    ensures Shifted(s, Moved(s, from, to)[to := e], from, to, e)
    ensures Moved(s, from, to)[to] == s[from]
  {
    hide Moved;
    MovedAt(s, from, to, to);
    forall i | 0 <= i < |s| && i != to ensures Moved(s, from, to)[to := e][i] == s[Origin(from, to, i)] {
      MovedAt(s, from, to, i);
    }
  }

  /** Every entry but the moved one is still there. */
  lemma StaysListed(s: seq<Entry>, t: seq<Entry>, from: nat, to: nat, e: Entry, i: nat)
    requires from < |s| && to < |s| && Shifted(s, t, from, to, e) && i < |s| && i != from
    ensures Listed(t, s[i].id)
  {
    var n := if from < i <= to then i - 1 else if to <= i < from then i + 1 else i;
    assert Origin(from, to, n) == i && t[n] == s[i];
  }

  lemma MovedIs(s: seq<Entry>, t: seq<Entry>, from: nat, to: nat)
    requires from < |s| && to < |s| && |t| == |s| && forall i | 0 <= i < |s| :: t[i] == s[Origin(from, to, i)]
    ensures t == Moved(s, from, to)
  {
    hide Moved;
    forall i | 0 <= i < |s| ensures t[i] == Moved(s, from, to)[i] {
      MovedAt(s, from, to, i);
    }
  }

  method ArrMove(list: array<Entry>, from: nat, to: nat)
    requires from < list.Length && to < list.Length
    modifies list
    ensures list[..] == Moved(old(list[..]), from, to)
  {
    hide Moved;
    ghost var s := list[..];
    if from != to {
      var backup := list[from];
      if from < to {
        forall i | from <= i < to {
          list[i] := list[i + 1];
        }
      } else {
        forall i | to < i <= from {
          list[i] := list[i - 1];
        }
      }
      list[to] := backup;
    }
    MovedIs(s, list[..], from, to);
  }

  // ----- the update -----

  function FindId(s: seq<Entry>, id: nat): (n: nat)
    ensures n <= |s| && (n < |s| ==> s[n].id == id)
  {
    if s == [] || s[0].id == id then 0 else 1 + FindId(s[1..], id)
  }

  function FindFame(s: seq<Entry>, fame: int): (n: nat)
    ensures n <= |s| && (n < |s| ==> s[n].fame <= fame)
  {
    if s == [] || s[0].fame <= fame then 0 else 1 + FindFame(s[1..], fame)
  }

  lemma {:induction false} FindIdFirst(s: seq<Entry>, id: nat)
    ensures forall i | 0 <= i < FindId(s, id) :: s[i].id != id
  {
    if s != [] && s[0].id != id {
      FindIdFirst(s[1..], id);
      assert forall i | 0 < i < FindId(s, id) :: s[i] == s[1..][i - 1];
    }
  }

  lemma {:induction false} FindFameFirst(s: seq<Entry>, fame: int)
    ensures forall i | 0 <= i < FindFame(s, fame) :: s[i].fame > fame
  {
    if s != [] && s[0].fame > fame {
      FindFameFirst(s[1..], fame);
      assert forall i | 0 < i < FindFame(s, fame) :: s[i] == s[1..][i - 1];
    }
  }

  /** What the map servers are told. */
  datatype Notice = NoNotice | Position(index: nat, fame: int) | Ranking(entries: seq<Entry>)

  /** The list after one player's fame has been reported. */
  function Updated(s: seq<Entry>, id: nat, fame: int, name: string): (r: seq<Entry>)
    ensures |r| == |s|
  {
    var p, f := FindId(s, id), FindFame(s, fame);
    if p == |s| && f == |s| then s
    else if f == p then s[p := s[p].(fame := fame)]
    else if p == |s| then Moved(s, |s| - 1, f)[f := Entry(id, fame, name)]
    else
      var to := if f == |s| then |s| - 1 else f;
      Moved(s, p, to)[to := s[p].(fame := fame)]
  }

  /** The filled entries, as they are sent. */
  function Filled(s: seq<Entry>): (r: seq<Entry>)
    ensures |r| <= |s|
  {
    if s == [] || s[0].id == 0 then [] else [s[0]] + Filled(s[1..])
  }

  /** What a map server's copy becomes. */
  function Told(copy: seq<Entry>, notice: Notice): seq<Entry>
  {
    match notice
    case NoNotice => copy
    case Position(index, fame) => if index < |copy| then copy[index := copy[index].(fame := fame)] else copy
    case Ranking(entries) => entries
  }

  /** A change of fame shows up in what is sent only within the filled entries. */
  lemma {:induction false} FilledUpdate(s: seq<Entry>, p: nat, fame: int)
    requires p < |s|
    ensures
      var sent := Filled(s);
      Filled(s[p := s[p].(fame := fame)]) == if p < |sent| then sent[p := sent[p].(fame := fame)] else sent
  {
    var t := s[p := s[p].(fame := fame)];
    if s[0].id != 0 {
      if p > 0 {
        FilledUpdate(s[1..], p - 1, fame);
        assert t[1..] == s[1..][p - 1 := s[p].(fame := fame)];
      } else {
        assert t[1..] == s[1..];
      }
    }
  }

  lemma ToldNothing(copy: seq<Entry>)
    ensures Told(copy, NoNotice) == copy
  {}

  lemma ToldRanking(copy: seq<Entry>, entries: seq<Entry>)
    ensures Told(copy, Ranking(entries)) == entries
  {}

  lemma ToldPosition(s: seq<Entry>, p: nat, fame: int)
    requires p < |s|
    ensures Told(Filled(s), Position(p, fame)) == Filled(s[p := s[p].(fame := fame)])
  {
    hide Filled;
    FilledUpdate(s, p, fame);
  }

  /** `ARR_FIND` for the player's position */
  method FindPlayer(list: array<Entry>, id: nat) returns (n: nat)
    ensures n == FindId(list[..], id)
  {
    n := 0;
    ghost var s := list[..];
    assert s[0..] == s;
    while n < list.Length && list[n].id != id
      invariant 0 <= n <= list.Length && FindId(s, id) == n + FindId(s[n..], id)
    {
      assert s[n..][1..] == s[n + 1..];
      n := n + 1;
    }
  }

  /** `ARR_FIND` for the position that the fame deserves */
  method FindPlace(list: array<Entry>, fame: int) returns (n: nat)
    ensures n == FindFame(list[..], fame)
  {
    n := 0;
    ghost var s := list[..];
    assert s[0..] == s;
    while n < list.Length && list[n].fame > fame
      invariant 0 <= n <= list.Length && FindFame(s, fame) == n + FindFame(s[n..], fame)
    {
      assert s[n..][1..] == s[n + 1..];
      n := n + 1;
    }
  }

  method SetEntry(list: array<Entry>, i: nat, e: Entry)
    requires i < list.Length
    modifies list
    ensures list[..] == old(list[..])[i := e]
  {
    list[i] := e;
  }

  /** `chmapif_parse_updfamelist` */
  method Update(list: array<Entry>, id: nat, fame: int, name: string) returns (notice: Notice)
    modifies list
    ensures list[..] == Updated(old(list[..]), id, fame, name)
    ensures Told(Filled(old(list[..])), notice) == Filled(list[..])
  {
    hide Moved, FindId, FindFame, Filled, Told;
    var size := list.Length;
    ghost var s := list[..];
    var playerPos := FindPlayer(list, id);
    var famePos := FindPlace(list, fame);
    if playerPos == size && famePos == size {
      ToldNothing(Filled(s));
      return NoNotice;
    } else if famePos == playerPos {
      ToldPosition(s, playerPos, fame);
      SetEntry(list, playerPos, list[playerPos].(fame := fame));
      return Position(playerPos, fame);
    } else {
      if playerPos == size {
        ArrMove(list, size - 1, famePos);
        SetEntry(list, famePos, Entry(id, fame, name));
      } else {
        if famePos == size {
          famePos := famePos - 1;
        }
        MovedShifts(s, playerPos, famePos, s[playerPos]);
        ArrMove(list, playerPos, famePos);
        assert list[famePos] == list[..][famePos];
        SetEntry(list, famePos, list[famePos].(fame := fame));
      }
      var entries := SendRanking(list);
      ToldRanking(Filled(s), entries);
      return Ranking(entries);
    }
  }

  /** `chmapif_send_fame_list`, for one list */
  method SendRanking(list: array<Entry>) returns (entries: seq<Entry>)
    ensures entries == Filled(list[..])
  {
    entries := [];
    var i := 0;
    ghost var s := list[..];
    assert s[0..] == s;
    PlusNothing(Filled(s));
    while i < list.Length && list[i].id != 0
      invariant 0 <= i <= list.Length && entries + Filled(s[i..]) == Filled(s)
    {
      assert s[i..][1..] == s[i + 1..];
      Assoc(entries, [s[i]], Filled(s[i + 1..]));
      entries := entries + [list[i]];
      i := i + 1;
    }
    PlusNothing(entries);
  }

  // ----- the best of all players -----

  predicate Descending(s: seq<Entry>)
  {
    forall i, j | 0 <= i < j < |s| :: s[i].fame >= s[j].fame
  }

  predicate Distinct(s: seq<Entry>)
  {
    forall i, j | 0 <= i < j < |s| && s[i].id != 0 :: s[i].id != s[j].id
  }

  predicate FilledFirst(s: seq<Entry>)
  {
    forall i, j | 0 <= i < j < |s| && s[j].id != 0 :: s[i].id != 0
  }

  predicate Listed(s: seq<Entry>, id: nat)
  {
    exists i | 0 <= i < |s| :: s[i].id == id
  }

  /** Entries are current, and empty ones have no fame. */
  predicate Current(s: seq<Entry>, players: map<nat, nat>)
  {
    forall i | 0 <= i < |s| ::
      if s[i].id == 0 then s[i].fame == 0
      else s[i].id in players && s[i].fame == players[s[i].id] && s[i].fame > 0
  }

  /** No player outside the list has more than this fame. */
  predicate NoneAbove(s: seq<Entry>, players: map<nat, nat>, bound: int)
  {
    forall id | id in players && !Listed(s, id) :: players[id] <= bound
  }

  /** The list shows the best of all players; `players` maps each to a positive fame. */
  predicate TopN(s: seq<Entry>, players: map<nat, nat>)
  {
    && Descending(s) && Distinct(s) && FilledFirst(s) && Current(s, players)
    && 0 !in players
    && (s != [] ==> NoneAbove(s, players, s[|s| - 1].fame))
  }

  // ----- an update keeps the list the best of all -----

  /** A player who is not listed takes a place, and the last entry drops out. */
  lemma NewRanker(s: seq<Entry>, players: map<nat, nat>, id: nat, fame: nat, name: string)
    requires TopN(s, players) && id != 0 && fame > 0 && !Listed(s, id)
    requires FindFame(s, fame) < |s|
    ensures
      var f := FindFame(s, fame);
      TopN(Moved(s, |s| - 1, f)[f := Entry(id, fame, name)], players[id := fame])
  {
    hide Moved, FindFame, Descending, Distinct, FilledFirst, Current, NoneAbove;
    var f, last := FindFame(s, fame), |s| - 1;
    var e := Entry(id, fame, name);
    FindFameFirst(s, fame);
    MovedShifts(s, last, f, e);
    var t := Moved(s, last, f)[f := e];
    AheadAreFilled(s, players, f, fame);
    InDescending(s, t, last, f, e);
    InDistinct(s, t, last, f, e);
    InCurrent(s, t, last, f, e, players);
    NobodyAboveNew(s, t, last, f, e, players);
  }

  /** Entries with more fame than a positive one are filled. */
  lemma AheadAreFilled(s: seq<Entry>, players: map<nat, nat>, f: nat, fame: nat)
    requires f <= |s| && Current(s, players) && forall i | 0 <= i < f :: s[i].fame > fame
    ensures forall i | 0 <= i < f :: s[i].id != 0
  {}

  lemma NobodyAboveNew(s: seq<Entry>, t: seq<Entry>, last: nat, f: nat, e: Entry, players: map<nat, nat>)
    requires f <= last == |s| - 1 && Shifted(s, t, last, f, e) && Descending(s) && s[f].fame <= e.fame
    requires Current(s, players) && NoneAbove(s, players, s[last].fame) && 0 !in players && e.fame >= 0
    ensures NoneAbove(t, players[e.id := e.fame], t[last].fame)
  {
    hide Descending, Current, Listed;
    IsListed(t, f);
    forall other | other in players[e.id := e.fame] && !Listed(t, other)
      ensures players[e.id := e.fame][other] <= t[last].fame
    {
      Dropped(s, t, last, f, e, players, other);
    }
  }

  lemma IsListed(s: seq<Entry>, i: nat)
    requires i < |s|
    ensures Listed(s, s[i].id)
  {}

  /** Who is not in the new list was the last of the old one, or not in it. */
  lemma Dropped(s: seq<Entry>, t: seq<Entry>, last: nat, f: nat, e: Entry, players: map<nat, nat>, other: nat)
    requires f <= last == |s| - 1 && Shifted(s, t, last, f, e) && Descending(s) && s[f].fame <= e.fame
    requires Current(s, players) && NoneAbove(s, players, s[last].fame)
    requires other in players && other != 0 && !Listed(t, other)
    ensures players[other] <= t[last].fame
  {
    assert t[last].fame >= s[last].fame by {
      assert f < last ==> t[last] == s[last - 1];
    }
    if Listed(s, other) {
      var i :| 0 <= i < |s| && s[i].id == other;
      if i != last {
        StaysListed(s, t, last, f, e, i);
        assert false;
      }
    }
  }

  lemma InDescending(s: seq<Entry>, t: seq<Entry>, from: nat, to: nat, e: Entry)
    requires to <= from < |s| && Shifted(s, t, from, to, e) && Descending(s)
    requires (forall i | 0 <= i < to :: s[i].fame > e.fame) && s[to].fame <= e.fame
    ensures Descending(t)
  {}

  lemma InDistinct(s: seq<Entry>, t: seq<Entry>, from: nat, to: nat, e: Entry)
    requires to <= from < |s| && Shifted(s, t, from, to, e) && Distinct(s) && FilledFirst(s)
    requires e.id != 0 && (forall i | 0 <= i < |s| :: s[i].id == e.id ==> i == from)
    requires (forall i | 0 <= i < to :: s[i].id != 0)
    ensures Distinct(t) && FilledFirst(t)
  {
    forall i, j | 0 <= i < j < |t| && t[i].id != 0 ensures t[i].id != t[j].id {
      assert i != to ==> Origin(from, to, i) != from && t[i] == s[Origin(from, to, i)];
      assert j != to ==> Origin(from, to, j) != from && t[j] == s[Origin(from, to, j)];
    }
    forall i, j | 0 <= i < j < |t| && t[j].id != 0 ensures t[i].id != 0 {
      assert i != to ==> t[i] == s[Origin(from, to, i)];
      assert j != to ==> t[j] == s[Origin(from, to, j)];
    }
  }

  lemma InCurrent(s: seq<Entry>, t: seq<Entry>, from: nat, to: nat, e: Entry, players: map<nat, nat>)
    requires to <= from < |s| && Shifted(s, t, from, to, e) && Current(s, players)
    requires e.id != 0 && e.fame > 0 && (forall i | 0 <= i < |s| :: s[i].id == e.id ==> i == from)
    ensures Current(t, players[e.id := e.fame])
  {
    forall i | 0 <= i < |t|
      ensures if t[i].id == 0 then t[i].fame == 0
              else t[i].id in players[e.id := e.fame] && t[i].fame == players[e.id := e.fame][t[i].id] && t[i].fame > 0
    {
      assert i != to ==> Origin(from, to, i) != from && t[i] == s[Origin(from, to, i)];
    }
  }

  /** A listed player is found at the only place with that id. */
  lemma OnlyPlace(s: seq<Entry>, id: nat)
    requires Distinct(s) && id != 0 && Listed(s, id)
    ensures FindId(s, id) < |s| && forall i | 0 <= i < |s| && s[i].id == id :: i == FindId(s, id)
  {
    FindIdFirst(s, id);
    ListedIs(s, id);
  }

  lemma CurrentAt(s: seq<Entry>, players: map<nat, nat>, p: nat)
    requires Current(s, players) && p < |s| && s[p].id != 0
    ensures s[p].id in players && s[p].fame == players[s[p].id] > 0
  {}

  /** A listed player whose fame has not gone down stays or moves up. */
  lemma OldRanker(s: seq<Entry>, players: map<nat, nat>, id: nat, fame: nat)
    requires TopN(s, players) && id != 0 && Listed(s, id) && players[id] <= fame
    ensures
      var p, f := FindId(s, id), FindFame(s, fame);
      && f <= p < |s|
      && TopN(Moved(s, p, f)[f := s[p].(fame := fame)], players[id := fame])
  {
    hide Moved, FindFame, FindId, Descending, Distinct, FilledFirst, Current, NoneAbove, Listed;
    var p, f := FindId(s, id), FindFame(s, fame);
    OnlyPlace(s, id);
    CurrentAt(s, players, p);
    FindFameFirst(s, fame);
    PlaceIsAbove(s, p, f, fame);
    AheadAreFilled(s, players, f, fame);
    var e := s[p].(fame := fame);
    MovedShifts(s, p, f, e);
    var t := Moved(s, p, f)[f := e];
    InDescending(s, t, p, f, e);
    InDistinct(s, t, p, f, e);
    InCurrent(s, t, p, f, e, players);
    NobodyAboveOld(s, t, p, f, e, players);
  }

  lemma NobodyAboveOld(s: seq<Entry>, t: seq<Entry>, p: nat, f: nat, e: Entry, players: map<nat, nat>)
    requires f <= p < |s| && Shifted(s, t, p, f, e) && Descending(s) && e.id == s[p].id && 0 <= s[p].fame <= e.fame
    requires NoneAbove(s, players, s[|s| - 1].fame)
    ensures NoneAbove(t, players[e.id := e.fame], t[|t| - 1].fame)
  {
    LastNotLess(s, t, p, f, e);
    IsListed(t, f);
    hide Descending, Listed;
    forall other | other in players[e.id := e.fame] && !Listed(t, other)
      ensures players[e.id := e.fame][other] <= t[|t| - 1].fame
    {
      NotListedBefore(s, t, p, f, e, other);
    }
  }

  lemma PlaceIsAbove(s: seq<Entry>, p: nat, f: nat, fame: nat)
    requires p < |s| && s[p].fame <= fame && forall i | 0 <= i < f <= |s| :: s[i].fame > fame
    ensures f <= |s| ==> f <= p
  {}

  lemma LastNotLess(s: seq<Entry>, t: seq<Entry>, p: nat, f: nat, e: Entry)
    requires f <= p < |s| && Shifted(s, t, p, f, e) && Descending(s) && s[p].fame <= e.fame
    ensures t[|t| - 1].fame >= s[|s| - 1].fame
  {}

  lemma NotListedBefore(s: seq<Entry>, t: seq<Entry>, p: nat, f: nat, e: Entry, other: nat)
    requires f <= p < |s| && Shifted(s, t, p, f, e) && !Listed(t, other) && e.id == s[p].id && other != e.id
    ensures !Listed(s, other)
  {
    if Listed(s, other) {
      var i :| 0 <= i < |s| && s[i].id == other;
      StaysListed(s, t, p, f, e, i);
      assert false;
    }
  }

  /** One report: positive, and not below the player's former fame. */
  datatype Report = Report(id: nat, fame: nat, name: string)

  predicate Rising(players: map<nat, nat>, r: Report)
  {
    r.id != 0 && r.fame > 0 && (r.id in players ==> players[r.id] <= r.fame)
  }

  /** After a report the list still shows the best of all players. */
  lemma UpdateKeepsTop(s: seq<Entry>, players: map<nat, nat>, r: Report)
    requires TopN(s, players) && Rising(players, r)
    ensures TopN(Updated(s, r.id, r.fame, r.name), players[r.id := r.fame])
  {
    hide TopN, Moved, FindId, FindFame;
    var p, f := FindId(s, r.id), FindFame(s, r.fame);
    ListedIs(s, r.id);
    if p == |s| && f == |s| {
      NotEnough(s, players, r);
    } else if p == |s| {
      NewRanker(s, players, r.id, r.fame, r.name);
    } else {
      ListedPlayer(s, players, r.id);
      OldRanker(s, players, r.id, r.fame);
      if f == p {
        assert Moved(s, p, p) == s by {
          MovedNowhere(s, p);
        }
      }
    }
  }

  lemma MovedNowhere(s: seq<Entry>, p: nat)
    requires p < |s|
    ensures Moved(s, p, p) == s
  {}

  lemma ListedIs(s: seq<Entry>, id: nat)
    ensures Listed(s, id) <==> FindId(s, id) < |s|
  {
    FindIdFirst(s, id);
  }

  lemma ListedPlayer(s: seq<Entry>, players: map<nat, nat>, id: nat)
    requires TopN(s, players) && id != 0 && Listed(s, id)
    ensures id in players
  {}

  lemma NotEnough(s: seq<Entry>, players: map<nat, nat>, r: Report)
    requires TopN(s, players) && Rising(players, r) && !Listed(s, r.id) && FindFame(s, r.fame) == |s|
    ensures TopN(s, players[r.id := r.fame])
  {
    FindFameFirst(s, r.fame);
  }

  function PlayersAfter(players: map<nat, nat>, reports: seq<Report>): map<nat, nat>
    decreases |reports|
  {
    if reports == [] then players else PlayersAfter(players[reports[0].id := reports[0].fame], reports[1..])
  }

  predicate AllRising(players: map<nat, nat>, reports: seq<Report>)
    decreases |reports|
  {
    reports == [] || (Rising(players, reports[0]) && AllRising(players[reports[0].id := reports[0].fame], reports[1..]))
  }

  function ListAfter(s: seq<Entry>, reports: seq<Report>): seq<Entry>
    decreases |reports|
  {
    if reports == [] then s
    else ListAfter(Updated(s, reports[0].id, reports[0].fame, reports[0].name), reports[1..])
  }

  /** Over any run of reports. */
  lemma {:induction false} RunKeepsTop(s: seq<Entry>, players: map<nat, nat>, reports: seq<Report>)
    requires TopN(s, players) && AllRising(players, reports)
    ensures TopN(ListAfter(s, reports), PlayersAfter(players, reports))
    decreases |reports|
  {
    hide TopN, Updated, Rising;
    if reports != [] {
      UpdateKeepsTop(s, players, reports[0]);
      var r := reports[0];
      RunKeepsTop(Updated(s, r.id, r.fame, r.name), players[r.id := r.fame], reports[1..]);
    }
  }

  // ----- sort and take N -----

  /** `char_read_fame_list`: the rows come in descending order, and the rest stays empty. */
  function TakeTop(rows: seq<Entry>, size: nat): (r: seq<Entry>)
    ensures |r| == size
    ensures forall i | 0 <= i < size :: r[i] == if i < |rows| then rows[i] else Empty
  {
    if size == 0 then []
    else if rows == [] then [Empty] + TakeTop([], size - 1)
    else [rows[0]] + TakeTop(rows[1..], size - 1)
  }

  /** The rows are the players in descending order of fame. */
  predicate Ranked(rows: seq<Entry>, players: map<nat, nat>)
  {
    && Descending(rows) && Distinct(rows) && Current(rows, players)
    && (forall i | 0 <= i < |rows| :: rows[i].id != 0)
    && (forall id | id in players :: id != 0 && Listed(rows, id))
  }

  lemma TakeTopListed(rows: seq<Entry>, size: nat, i: nat)
    requires i < |rows|
    ensures i < size ==> Listed(TakeTop(rows, size), rows[i].id)
  {
    var s := TakeTop(rows, size);
    assert i < size ==> s[i] == rows[i];
  }

  lemma TakeTopInOrder(rows: seq<Entry>, size: nat, players: map<nat, nat>)
    requires Ranked(rows, players)
    ensures Descending(TakeTop(rows, size)) && Current(TakeTop(rows, size), players)
  {}

  lemma TakeTopDistinct(rows: seq<Entry>, size: nat)
    requires Distinct(rows) && forall i | 0 <= i < |rows| :: rows[i].id != 0
    ensures Distinct(TakeTop(rows, size)) && FilledFirst(TakeTop(rows, size))
  {}

  lemma NoneAboveLast(rows: seq<Entry>, size: nat, players: map<nat, nat>)
    requires Ranked(rows, players) && size > 0
    ensures NoneAbove(TakeTop(rows, size), players, TakeTop(rows, size)[size - 1].fame)
  {
    var s := TakeTop(rows, size);
    forall id | id in players && !Listed(s, id) ensures players[id] <= s[size - 1].fame {
      assert Listed(rows, id);
      var i :| 0 <= i < |rows| && rows[i].id == id;
      TakeTopListed(rows, size, i);
    }
  }

  /** The list read from the sorted table shows the best of all players. */
  lemma TakeTopIsTop(rows: seq<Entry>, size: nat, players: map<nat, nat>)
    requires Ranked(rows, players)
    ensures TopN(TakeTop(rows, size), players)
  {
    hide Descending, Current, Distinct, FilledFirst, NoneAbove, Listed;
    TakeTopInOrder(rows, size, players);
    TakeTopDistinct(rows, size);
    if size > 0 {
      NoneAboveLast(rows, size, players);
    }
  }

  function IdSet(s: seq<Entry>, n: nat): set<nat>
    requires n <= |s|
  {
    if n == 0 then {} else IdSet(s, n - 1) + {s[n - 1].id}
  }

  lemma {:induction false} InIdSet(s: seq<Entry>, n: nat, id: nat)
    requires n <= |s|
    ensures id in IdSet(s, n) <==> exists i | 0 <= i < n :: s[i].id == id
  {
    if n > 0 {
      InIdSet(s, n - 1, id);
    }
  }

  lemma {:induction false} IdSetSize(s: seq<Entry>, n: nat)
    requires n <= |s|
    ensures |IdSet(s, n)| <= n
    ensures Distinct(s) && (forall i | 0 <= i < n :: s[i].id != 0) ==> |IdSet(s, n)| == n
  {
    if n > 0 {
      IdSetSize(s, n - 1);
      InIdSet(s, n - 1, s[n - 1].id);
    }
  }

  /** Two lists that show the best of the same players show the same fames. */
  lemma TopIsUnique(a: seq<Entry>, b: seq<Entry>, players: map<nat, nat>)
    requires TopN(a, players) && TopN(b, players) && |a| == |b|
    ensures forall i | 0 <= i < |a| :: a[i].fame == b[i].fame
  {
    forall i | 0 <= i < |a| ensures a[i].fame == b[i].fame {
      NotAbove(a, b, players, i);
      NotAbove(b, a, players, i);
    }
  }

  /** A player above the fame of position `i` is listed before that position. */
  lemma ListedBefore(b: seq<Entry>, players: map<nat, nat>, i: nat, id: nat)
    requires TopN(b, players) && i < |b| && id in players && players[id] > b[i].fame
    ensures exists l | 0 <= l < i :: b[l].id == id
  {
    assert players[id] > b[|b| - 1].fame;
    assert Listed(b, id);
    var l :| 0 <= l < |b| && b[l].id == id;
  }

  lemma NotAbove(a: seq<Entry>, b: seq<Entry>, players: map<nat, nat>, i: nat)
    requires TopN(a, players) && TopN(b, players) && |a| == |b| && i < |a|
    ensures a[i].fame <= b[i].fame
  {
    if a[i].fame > b[i].fame {
      FameNotNegative(b, players, i);
      FilledAbove(a, players, i);
      IdSetSize(a, i + 1);
      IdSetSize(b, i);
      hide IdSet, TopN, Distinct;
      forall id | id in IdSet(a, i + 1) ensures id in IdSet(b, i) {
        InIdSet(a, i + 1, id);
        InIdSet(b, i, id);
        var k :| 0 <= k < i + 1 && a[k].id == id;
        ListedBefore(b, players, i, id);
      }
      SubsetSize(IdSet(a, i + 1), IdSet(b, i));
    }
  }

  lemma FameNotNegative(s: seq<Entry>, players: map<nat, nat>, i: nat)
    requires TopN(s, players) && i < |s|
    ensures s[i].fame >= 0
  {}

  lemma FilledAbove(s: seq<Entry>, players: map<nat, nat>, i: nat)
    requires TopN(s, players) && i < |s| && s[i].fame > 0
    ensures Distinct(s)
    ensures forall k | 0 <= k <= i :: s[k].id != 0 && s[k].id in players && players[s[k].id] >= s[i].fame
  {}

  /** After any run of reports, the incremental list shows the fames that sorting all players
      and taking the first ones would show. */
  lemma RunIsSortAndTake(s: seq<Entry>, players: map<nat, nat>, reports: seq<Report>, rows: seq<Entry>)
    requires TopN(s, players) && AllRising(players, reports) && Ranked(rows, PlayersAfter(players, reports))
    ensures
      var list := ListAfter(s, reports);
      |list| == |s| && forall i | 0 <= i < |s| :: list[i].fame == TakeTop(rows, |s|)[i].fame
  {
    hide TopN, Ranked, AllRising, Updated;
    RunKeepsTop(s, players, reports);
    RunKeepsLength(s, reports);
    TakeTopIsTop(rows, |s|, PlayersAfter(players, reports));
    TopIsUnique(ListAfter(s, reports), TakeTop(rows, |s|), PlayersAfter(players, reports));
  }

  lemma {:induction false} RunKeepsLength(s: seq<Entry>, reports: seq<Report>)
    ensures |ListAfter(s, reports)| == |s|
    decreases |reports|
  {
    if reports != [] {
      RunKeepsLength(Updated(s, reports[0].id, reports[0].fame, reports[0].name), reports[1..]);
    }
  }

  // ----- falling fame -----

  /** When a listed player's fame goes down, the list stays in order exactly when no entry is
      left with less fame, or the first one that is not above the new fame equals it. */
  lemma FallingKeepsOrder(s: seq<Entry>, players: map<nat, nat>, id: nat, fame: nat, name: string)
    requires TopN(s, players) && id != 0 && Listed(s, id) && fame < players[id]
    ensures
      var f := FindFame(s, fame);
      Descending(Updated(s, id, fame, name)) <==> f == |s| || s[f].fame == fame
  {
    hide Moved, FindFame, FindId, Distinct, FilledFirst, NoneAbove;
    var p, f := FindId(s, id), FindFame(s, fame);
    ListedIs(s, id);
    FindFameFirst(s, fame);
    assert s[p].fame == players[id];
    assert forall i | 0 <= i <= p :: s[i].fame > fame;
    var to := if f == |s| then |s| - 1 else f;
    var e := s[p].(fame := fame);
    MovedShifts(s, p, to, e);
    ShiftedDown(s, Updated(s, id, fame, name), p, to, e);
  }

  lemma ShiftedDown(s: seq<Entry>, t: seq<Entry>, p: nat, to: nat, e: Entry)
    requires p <= to < |s| && Shifted(s, t, p, to, e) && Descending(s)
    requires (forall i | 0 <= i < to :: s[i].fame > e.fame) && (s[to].fame <= e.fame || to == |s| - 1)
    requires p == to ==> s[to].fame > e.fame
    ensures Descending(t) <==> s[to].fame >= e.fame
  {
    if s[to].fame < e.fame {
      assert t[to - 1] == s[to];
    }
  }

  /** An entry that has moved away from the top, changed in its fame only. */
  predicate Sunk(s: seq<Entry>, t: seq<Entry>, p: nat, to: nat, e: Entry)
  {
    && p <= to < |s| && Shifted(s, t, p, to, e) && e.id == s[p].id != 0
    && (forall i | 0 <= i < to :: s[i].id != 0)
  }

  lemma SunkListed(s: seq<Entry>, t: seq<Entry>, p: nat, to: nat, e: Entry, id: nat)
    requires Sunk(s, t, p, to, e)
    ensures Listed(t, id) <==> Listed(s, id)
  {
    if Listed(s, id) {
      var i :| 0 <= i < |s| && s[i].id == id;
      if i != p {
        StaysListed(s, t, p, to, e, i);
      } else {
        IsListed(t, to);
      }
    }
    if Listed(t, id) {
      var i :| 0 <= i < |t| && t[i].id == id;
      IsListed(s, if i == to then p else Origin(p, to, i));
    }
  }

  lemma SunkDistinct(s: seq<Entry>, t: seq<Entry>, p: nat, to: nat, e: Entry)
    requires Sunk(s, t, p, to, e) && Distinct(s)
    ensures Distinct(t)
  {
    forall i, j | 0 <= i < j < |t| && t[i].id != 0 ensures t[i].id != t[j].id {
      var a, b := Origin(p, to, i), Origin(p, to, j);
      assert a != b && t[i].id == s[a].id && t[j].id == s[b].id;
    }
  }

  lemma SunkFilledFirst(s: seq<Entry>, t: seq<Entry>, p: nat, to: nat, e: Entry)
    requires Sunk(s, t, p, to, e) && FilledFirst(s)
    ensures FilledFirst(t) <==> s[to].id != 0
  {
    if s[to].id == 0 {
      assert t[to - 1] == s[to] && t[to].id != 0;
    } else {
      forall i, j | 0 <= i < j < |t| && t[j].id != 0 ensures t[i].id != 0 {
        assert i != to ==> t[i] == s[Origin(p, to, i)];
        assert j != to ==> t[j] == s[Origin(p, to, j)];
      }
    }
  }

  lemma SunkCurrent(s: seq<Entry>, t: seq<Entry>, p: nat, to: nat, e: Entry, players: map<nat, nat>)
    requires Sunk(s, t, p, to, e) && Current(s, players) && Distinct(s) && e.fame > 0
    ensures Current(t, players[e.id := e.fame])
  {
    forall i | 0 <= i < |t|
      ensures
        var after := players[e.id := e.fame];
        if t[i].id == 0 then t[i].fame == 0
        else t[i].id in after && t[i].fame == after[t[i].id] && t[i].fame > 0
    {
      if i != to {
        var k := Origin(p, to, i);
        assert k != p && t[i] == s[k];
        assert s[k].id != e.id;
      }
    }
  }

  lemma SunkNoneAbove(s: seq<Entry>, t: seq<Entry>, p: nat, to: nat, e: Entry, players: map<nat, nat>, bound: int)
    requires Sunk(s, t, p, to, e) && 0 <= e.fame
    ensures NoneAbove(t, players[e.id := e.fame], bound) <==> NoneAbove(s, players, bound)
  {
    hide Sunk, Listed;
    var after := players[e.id := e.fame];
    forall id ensures Listed(t, id) <==> Listed(s, id) {
      SunkListed(s, t, p, to, e, id);
    }
    assert Listed(s, e.id) by {
      SunkFrom(s, t, p, to, e);
      IsListed(s, p);
    }
    assert forall id | id != e.id :: id in after <==> id in players;
  }

  lemma SunkFrom(s: seq<Entry>, t: seq<Entry>, p: nat, to: nat, e: Entry)
    requires Sunk(s, t, p, to, e)
    ensures p < |s| == |t| && s[p].id == e.id
  {}

  /** A report that lowers a listed player's fame moves the entry down, and leaves it in order as
      `ShiftedDown` says. */
  lemma FallingSinks(s: seq<Entry>, players: map<nat, nat>, id: nat, fame: nat, name: string)
    requires TopN(s, players) && id != 0 && Listed(s, id) && fame < players[id]
    ensures
      var p, f, t := FindId(s, id), FindFame(s, fame), Updated(s, id, fame, name);
      var to := if f == |s| then |s| - 1 else f;
      && p < |s| && Sunk(s, t, p, to, s[p].(fame := fame)) && s[p].id == id
      && (forall i | 0 <= i < f :: s[i].fame > fame)
      && (Descending(t) <==> f == |s| || s[f].fame == fame)
  {
    hide Moved, FindFame, FindId, Distinct, FilledFirst, NoneAbove, Shifted;
    var p, f := FindId(s, id), FindFame(s, fame);
    FallingKeepsOrder(s, players, id, fame, name);
    ListedIs(s, id);
    FindFameFirst(s, fame);
    assert s[p].fame == players[id];
    var to := if f == |s| then |s| - 1 else f;
    MovedShifts(s, p, to, s[p].(fame := fame));
    assert f != p;
  }

  /** When a listed player's fame falls, but not to nothing, the list still shows the best of all
      players exactly when the first entry not above the new fame equals it, or, when all are above it,
      no player outside the list is. */
  lemma FallingKeepsTop(s: seq<Entry>, players: map<nat, nat>, id: nat, fame: nat, name: string)
    requires TopN(s, players) && id != 0 && Listed(s, id) && 0 < fame < players[id]
    ensures TopN(Updated(s, id, fame, name), players[id := fame]) <==> FallsWell(s, players, fame)
  {
    hide Updated, FindFame, FindId, Descending, Distinct, FilledFirst, NoneAbove, Shifted, Sunk;
    var p, f, t := FindId(s, id), FindFame(s, fame), Updated(s, id, fame, name);
    FallingSinks(s, players, id, fame, name);
    var to, e := if f == |s| then |s| - 1 else f, s[p].(fame := fame);
    if Descending(t) {
      SunkDistinct(s, t, p, to, e);
      SunkFilledFirst(s, t, p, to, e);
      SunkCurrent(s, t, p, to, e, players);
      SunkNoneAbove(s, t, p, to, e, players, t[|t| - 1].fame);
      SunkLast(s, t, p, to, e);
    }
  }

  /** Where a listed player may fall to. */
  predicate FallsWell(s: seq<Entry>, players: map<nat, nat>, fame: int)
  {
    var f := FindFame(s, fame);
    if f == |s| then NoneAbove(s, players, fame) else s[f].fame == fame
  }

  lemma SunkLast(s: seq<Entry>, t: seq<Entry>, p: nat, to: nat, e: Entry)
    requires Sunk(s, t, p, to, e)
    ensures t[|t| - 1].fame == if to == |s| - 1 then e.fame else s[|s| - 1].fame
  {}

  /** Whether a report keeps the list the best of all: a positive one unless a listed player falls
      badly; one of no fame only if the player is not listed and there is no empty entry. */
  predicate Keeps(s: seq<Entry>, players: map<nat, nat>, r: Report)
  {
    if r.fame == 0 then !Listed(s, r.id) && FindFame(s, 0) == |s|
    else Listed(s, r.id) && r.id in players && r.fame < players[r.id] ==> FallsWell(s, players, r.fame)
  }

  /** The exact condition, for every report. */
  lemma UpdateKeepsTopExactly(s: seq<Entry>, players: map<nat, nat>, r: Report)
    requires TopN(s, players) && r.id != 0
    ensures TopN(Updated(s, r.id, r.fame, r.name), players[r.id := r.fame]) <==> Keeps(s, players, r)
  {
    hide TopN, Updated, FallsWell, Listed, FindFame;
    if Listed(s, r.id) {
      ListedPlayer(s, players, r.id);
    }
    if r.fame == 0 {
      if Listed(s, r.id) {
        FallingToZero(s, players, r.id, r.name);
      } else {
        NoFameOutside(s, players, r.id, r.name);
      }
    } else if Rising(players, r) {
      UpdateKeepsTop(s, players, r);
    } else if Listed(s, r.id) {
      FallingKeepsTop(s, players, r.id, r.fame, r.name);
    } else {
      FallingOutside(s, players, r);
    }
  }

  /** A player who is not listed and has no fame is put into an empty entry, if there is one. */
  lemma NoFameOutside(s: seq<Entry>, players: map<nat, nat>, id: nat, name: string)
    requires TopN(s, players) && id != 0 && !Listed(s, id)
    ensures
      var f, t := FindFame(s, 0), Updated(s, id, 0, name);
      && (f < |s| ==> t[f] == Entry(id, 0, name)) && (f == |s| ==> t == s)
      && (TopN(t, players[id := 0]) <==> f == |s|)
  {
    hide Moved, FindFame, FindId, Descending, Distinct, FilledFirst;
    var f := FindFame(s, 0);
    ListedIs(s, id);
    FindFameFirst(s, 0);
    if f < |s| {
      MovedShifts(s, |s| - 1, f, Entry(id, 0, name));
    }
  }

  /** The list is the best of all after every report of a run. */
  ghost predicate AlwaysTop(s: seq<Entry>, players: map<nat, nat>, reports: seq<Report>)
  {
    forall k: nat | k <= |reports| :: TopN(ListAfter(s, reports[..k]), PlayersAfter(players, reports[..k]))
  }

  predicate AllKeep(s: seq<Entry>, players: map<nat, nat>, reports: seq<Report>)
    decreases |reports|
  {
    reports == [] || (
      var r := reports[0];
      Keeps(s, players, r) && AllKeep(Updated(s, r.id, r.fame, r.name), players[r.id := r.fame], reports[1..]))
  }

  /** Over any run of reports whatever, the list is the best of all all the time exactly when every
      report keeps it. */
  lemma {:induction false} RunKeepsTopExactly(s: seq<Entry>, players: map<nat, nat>, reports: seq<Report>)
    requires TopN(s, players) && forall r | r in reports :: r.id != 0
    ensures AlwaysTop(s, players, reports) <==> AllKeep(s, players, reports)
    decreases |reports|
  {
    hide TopN, Updated, Keeps;
    if reports == [] {
      assert forall k: nat | k <= 0 :: reports[..k] == [];
    } else {
      var r, rest := reports[0], reports[1..];
      var t, after := Updated(s, r.id, r.fame, r.name), players[r.id := r.fame];
      UpdateKeepsTopExactly(s, players, r);
      AlwaysTopStep(s, players, reports);
      if Keeps(s, players, r) {
        RunKeepsTopExactly(t, after, rest);
      }
    }
  }

  lemma AlwaysTopStep(s: seq<Entry>, players: map<nat, nat>, reports: seq<Report>)
    requires TopN(s, players) && reports != []
    ensures
      var r := reports[0];
      var t, after := Updated(s, r.id, r.fame, r.name), players[r.id := r.fame];
      AlwaysTop(s, players, reports) <==> TopN(t, after) && AlwaysTop(t, after, reports[1..])
  {
    hide TopN, Updated;
    var r, rest := reports[0], reports[1..];
    var t, after := Updated(s, r.id, r.fame, r.name), players[r.id := r.fame];
    forall k: nat | k <= |rest|
      ensures ListAfter(s, reports[..k + 1]) == ListAfter(t, rest[..k])
      ensures PlayersAfter(players, reports[..k + 1]) == PlayersAfter(after, rest[..k])
    {
      assert reports[..k + 1][0] == r && reports[..k + 1][1..] == rest[..k];
    }
    assert reports[..0] == [] && rest[..0] == [];
    if AlwaysTop(s, players, reports) {
      forall k: nat | k <= |rest| ensures TopN(ListAfter(t, rest[..k]), PlayersAfter(after, rest[..k])) {
        assert TopN(ListAfter(s, reports[..k + 1]), PlayersAfter(players, reports[..k + 1]));
      }
      assert TopN(ListAfter(t, rest[..0]), PlayersAfter(after, rest[..0]));
    }
    if AlwaysTop(t, after, rest) {
      forall k: nat | k <= |reports|
        ensures TopN(ListAfter(s, reports[..k]), PlayersAfter(players, reports[..k]))
      {
        if k > 0 {
          assert TopN(ListAfter(t, rest[..k - 1]), PlayersAfter(after, rest[..k - 1]));
        }
      }
    }
  }

  /** A player outside the list who falls stays outside. */
  lemma FallingOutside(s: seq<Entry>, players: map<nat, nat>, r: Report)
    requires TopN(s, players) && r.id in players && r.fame < players[r.id] && !Listed(s, r.id)
    ensures TopN(Updated(s, r.id, r.fame, r.name), players[r.id := r.fame])
  {
    hide FindId, FindFame, Listed, Moved, Distinct, FilledFirst;
    ListedIs(s, r.id);
    var f := FindFame(s, r.fame);
    if f < |s| {
      assert false;
    }
    OutsideStays(s, players, r);
  }

  lemma OutsideStays(s: seq<Entry>, players: map<nat, nat>, r: Report)
    requires TopN(s, players) && r.id in players && r.fame < players[r.id] && !Listed(s, r.id)
    ensures TopN(s, players[r.id := r.fame])
  {
    assert forall i | 0 <= i < |s| :: s[i].id != r.id;
  }

  lemma {:induction false} FilledPrefix(s: seq<Entry>, n: nat)
    requires n <= |s| && (forall i | 0 <= i < n :: s[i].id != 0) && (n < |s| ==> s[n].id == 0)
    ensures Filled(s) == s[..n]
  {
    if n > 0 {
      assert forall i | 0 <= i < n - 1 :: s[1..][i] == s[i + 1];
      FilledPrefix(s[1..], n - 1);
      assert s[..n] == [s[0]] + s[1..][..n - 1];
    }
  }

  /** A listed player who falls to nothing keeps an entry, so the list is no longer the best of all.
      When the list has an empty entry, the player goes behind it, and the map servers are sent
      the others; when it is full, they are sent an entry without fame. */
  lemma FallingToZero(s: seq<Entry>, players: map<nat, nat>, id: nat, name: string)
    requires TopN(s, players) && id != 0 && Listed(s, id)
    ensures
      var p, f, t := FindId(s, id), FindFame(s, 0), Updated(s, id, 0, name);
      && p < f && !TopN(t, players[id := 0]) && Descending(t) && Distinct(t)
      && (FilledFirst(t) <==> f == |s|)
      && Filled(s) == s[..f]
      && Filled(t) == if f < |s| then Without(s[..f], p) else Without(s, p) + [s[p].(fame := 0)]
  {
    hide Updated, FindFame, FindId, Moved, NoneAbove;
    var p, f, t := FindId(s, id), FindFame(s, 0), Updated(s, id, 0, name);
    OnlyPlace(s, id);
    CurrentAt(s, players, p);
    FallingSinks(s, players, id, 0, name);
    var to, e := if f == |s| then |s| - 1 else f, s[p].(fame := 0);
    hide Descending, Listed, Distinct, FilledFirst;
    AheadAreFilled(s, players, f, 0);
    assert t[to].id == id && t[to].fame == 0;
    assert f < |s| ==> s[f].id == 0;
    hide Current, Sunk;
    SunkDistinct(s, t, p, to, e);
    SunkFilledFirst(s, t, p, to, e);
    FilledPrefix(s, f);
    SunkFilled(s, t, p, f, e);
  }

  lemma SunkFilled(s: seq<Entry>, t: seq<Entry>, p: nat, f: nat, e: Entry)
    requires s != [] && p < f <= |s| && (f < |s| ==> s[f].id == 0) && (forall i | 0 <= i < f :: s[i].id != 0)
    requires Sunk(s, t, p, if f == |s| then |s| - 1 else f, e)
    ensures Filled(t) == if f < |s| then Without(s[..f], p) else Without(s, p) + [e]
  {
    var to := if f == |s| then |s| - 1 else f;
    SunkText(s, t, p, to, e);
    assert t[to] == e;
    if f == |s| {
      FilledPrefix(t, f);
    } else {
      FilledPrefix(t, f - 1);
    }
  }

  lemma SunkText(s: seq<Entry>, t: seq<Entry>, p: nat, to: nat, e: Entry)
    requires Sunk(s, t, p, to, e)
    ensures forall i | 0 <= i < to :: i != to - 1 ==> t[i].id != 0
    ensures p < to ==> t[to - 1] == s[to] && t[..to - 1] == Without(s[..to], p)
    ensures to == |s| - 1 ==> t == Without(s, p) + [e]
  {}

  const Three: seq<Entry> := [Entry(1, 30, "a"), Entry(2, 20, "b"), Entry(3, 10, "c")]

  lemma ThreeAreTop()
    ensures TopN(Three, map[1 := 30, 2 := 20, 3 := 10]) && Listed(Three, 1)
  {
    ThreeInOrder();
    hide Descending, Distinct, FilledFirst, Current;
    assert Three[0].id == 1 && Three[1].id == 2 && Three[2].id == 3;
  }

  lemma ThreeInOrder()
    ensures Descending(Three) && Distinct(Three) && FilledFirst(Three)
    ensures Current(Three, map[1 := 30, 2 := 20, 3 := 10])
  {
    assert Three[0].id == 1 && Three[1].id == 2 && Three[2].id == 3;
  }

  /** Three players with fames 30, 20 and 10; the first falls to 15. */
  lemma FallingBreaksOrder()
    ensures TopN(Three, map[1 := 30, 2 := 20, 3 := 10])
    ensures !Descending(Updated(Three, 1, 15, "a"))
  {
    hide TopN, Updated, Listed;
    ThreeAreTop();
    FallingKeepsOrder(Three, map[1 := 30, 2 := 20, 3 := 10], 1, 15, "a");
    FindFameFirst(Three, 15);
    assert Three[0].fame > 15 && Three[1].fame > 15 && Three[2].fame <= 15;
  }

  /** Two players with fames 30 and 20 are listed, a third with 15 is not; the first falls to 10. */
  lemma FallingBelowOutsider()
    ensures
      var s, players := [Entry(1, 30, "a"), Entry(2, 20, "b")], map[1 := 30, 2 := 20, 3 := 15];
      && TopN(s, players) && Descending(Updated(s, 1, 10, "a"))
      && !TopN(Updated(s, 1, 10, "a"), players[1 := 10])
  {
    var s, players := [Entry(1, 30, "a"), Entry(2, 20, "b")], map[1 := 30, 2 := 20, 3 := 15];
    TwoAreTop(s, players);
    hide TopN, Updated, Listed, Descending;
    FallingKeepsOrder(s, players, 1, 10, "a");
    FallingKeepsTop(s, players, 1, 10, "a");
  }

  lemma TwoAreTop(s: seq<Entry>, players: map<nat, nat>)
    requires s == [Entry(1, 30, "a"), Entry(2, 20, "b")] && players == map[1 := 30, 2 := 20, 3 := 15]
    ensures TopN(s, players) && Listed(s, 1) && !Listed(s, 3)
    ensures FindFame(s, 10) == 2 && !FallsWell(s, players, 10)
  {
    assert s[0].id == 1 && s[1].id == 2;
    FindFameFirst(s, 10);
    assert s[1..] == [Entry(2, 20, "b")] && s[1..][1..] == [];
    assert 3 in players && players[3] > 10;
  }

  /** One empty entry and no players; somebody's fame is reported to be nothing. */
  lemma NoFameIsListed()
    ensures TopN([Empty], map[]) && Updated([Empty], 1, 0, "a") == [Entry(1, 0, "a")]
    ensures !TopN(Updated([Empty], 1, 0, "a"), map[1 := 0])
  {
    hide Updated, FindFame;
    assert map[][1 := 0] == map[1 := 0];
    FindFameFirst([Empty], 0);
    NoFameOutside([Empty], map[], 1, "a");
    assert |Updated([Empty], 1, 0, "a")| == 1;
  }

  // ----- the entries of the updated list -----

  /** Where an entry of the new list comes from: the reported player has the reported fame, under the
      name already listed or else the reported one, and every other entry was there before; only a
      new player drives an entry out, the last one. */
  predicate Follows(s: seq<Entry>, t: seq<Entry>, id: nat, fame: int, name: string)
  {
    && |t| == |s|
    && (forall i | 0 <= i < |t| && t[i].id == id :: t[i].fame == fame && (!Listed(s, id) ==> t[i].name == name))
    && (forall i, k | 0 <= i < |t| && t[i].id == id && 0 <= k < |s| && s[k].id == id :: t[i].name == s[k].name)
    && (forall i | 0 <= i < |t| && t[i].id != id :: t[i] in s)
    && (forall i | 0 <= i < |s| && s[i].id != id && (Listed(s, id) || i < |s| - 1) :: s[i] in t)
    && Listed(t, id)
  }

  lemma NewEntryFollows(s: seq<Entry>, t: seq<Entry>, f: nat, e: Entry)
    requires f < |s| && Shifted(s, t, |s| - 1, f, e) && !Listed(s, e.id)
    ensures Follows(s, t, e.id, e.fame, e.name)
  {
    EntriesShifted(s, t, |s| - 1, f, e);
    IsListed(t, f);
  }

  lemma OldEntryFollows(s: seq<Entry>, t: seq<Entry>, p: nat, to: nat, fame: int, name: string)
    requires p < |s| && to < |s| && Shifted(s, t, p, to, s[p].(fame := fame))
    requires forall i | 0 <= i < |s| && s[i].id == s[p].id :: i == p
    ensures Follows(s, t, s[p].id, fame, name)
  {
    EntriesShifted(s, t, p, to, s[p].(fame := fame));
    IsListed(t, to);
    IsListed(s, p);
  }

  /** The updated list has the right entries, or it stays as it is: exactly when the player is not
      listed and every entry has more fame. */
  lemma UpdatedEntries(s: seq<Entry>, id: nat, fame: int, name: string)
    requires Distinct(s) && id != 0
    ensures
      var t := Updated(s, id, fame, name);
      if !Listed(s, id) && (forall i | 0 <= i < |s| :: s[i].fame > fame) then t == s
      else Follows(s, t, id, fame, name)
  {
    hide Moved, FindId, FindFame, Follows, Shifted, Listed;
    var p, f, t := FindId(s, id), FindFame(s, fame), Updated(s, id, fame, name);
    ListedIs(s, id);
    FindFameFirst(s, fame);
    if p == |s| {
      if f < |s| {
        MovedShifts(s, |s| - 1, f, Entry(id, fame, name));
        NewEntryFollows(s, t, f, Entry(id, fame, name));
      }
    } else {
      OnlyPlace(s, id);
      var to := if f == |s| then |s| - 1 else f;
      MovedShifts(s, p, to, s[p].(fame := fame));
      if f == p {
        MovedNowhere(s, p);
      }
      OldEntryFollows(s, t, p, to, fame, name);
    }
  }

  lemma EntriesShifted(s: seq<Entry>, t: seq<Entry>, from: nat, to: nat, e: Entry)
    requires from < |s| && to < |s| && Shifted(s, t, from, to, e)
    ensures forall i | 0 <= i < |t| && i != to ::
      t[i] in s && t[i] == s[Origin(from, to, i)] && Origin(from, to, i) != from
    ensures forall i | 0 <= i < |s| && i != from :: s[i] in t
  {
    forall i | 0 <= i < |s| && i != from ensures s[i] in t {
      var n := if from < i <= to then i - 1 else if to <= i < from then i + 1 else i;
      assert Origin(from, to, n) == i && t[n] == s[i];
    }
  }
}
