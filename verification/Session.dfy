/** The char-server's session protocol. */
module Session {
  // Who is online where, the timers that wait for a kicked player to go, and the single-use tickets
  // that admit a player to the next server.

  import opened Options
  import opened Seqs

  const NO_SERVER: int := -1
  const UNKNOWN_SERVER: int := -2
  const NO_FD: int := -1
  const NO_CHAR: nat := 0xFFFF_FFFF  // -1 as an unsigned 32-bit number

  /** `online_char_data` */
  datatype Online = Online(charId: nat, fd: int, waiting: Option<nat>, server: int, pincodeSuccess: bool)

  const NewOnline: Online := Online(NO_CHAR, NO_FD, None, NO_SERVER, false)

  /** `auth_node`: the fields that are compared. */
  datatype Ticket = Ticket(charId: nat, loginId1: nat, loginId2: nat)

  /** What has happened to tickets, for the statements about whole runs. */
  datatype Action =
    | Issued(account: nat, ticket: Ticket)
    | AdmittedToMap(account: nat, charId: nat, loginId1: nat)
    | AdmittedToSelect(account: nat, loginId1: nat, loginId2: nat)
    | Kicked(account: nat)

  predicate Admits(a: Action, account: nat)
  {
    (a.AdmittedToMap? || a.AdmittedToSelect?) && a.account == account
  }

  /** The ticket an account holds after a history: the last one issued, unless it has been
      used or the account has been kicked since. */
  function Held(history: seq<Action>, account: nat): Option<Ticket>
  {
    if history == [] then None
    else
      var last := history[|history| - 1];
      if last.account != account then Held(history[..|history| - 1], account)
      else if last.Issued? then Some(last.ticket)
      else None
  }

  /** Every admission matches the ticket that the account holds at that moment. */
  ghost predicate TicketsRespected(history: seq<Action>)
  {
    forall i | 0 <= i < |history| :: AdmissionMatches(history, i)
  }

  ghost predicate AdmissionMatches(history: seq<Action>, i: nat)
    requires i < |history|
  {
    var held := Held(history[..i], history[i].account);
    && (history[i].AdmittedToMap? ==>
          held.Some? && held.value.charId == history[i].charId && held.value.loginId1 == history[i].loginId1)
    && (history[i].AdmittedToSelect? ==>
          held.Some? && held.value.loginId1 == history[i].loginId1 && held.value.loginId2 == history[i].loginId2)
  }

  lemma RespectedAppend(history: seq<Action>, a: Action)
    requires TicketsRespected(history)
    requires AdmissionMatches(history + [a], |history|)
    ensures TicketsRespected(history + [a])
  {
    forall i | 0 <= i < |history| + 1 ensures AdmissionMatches(history + [a], i) {
      if i < |history| {
        assert AdmissionMatches(history, i);
        assert (history + [a])[..i] == history[..i];
      }
    }
  }

  function HeldNext(history: seq<Action>, a: Action, account: nat): Option<Ticket>
  {
    if a.account != account then Held(history, account) else if a.Issued? then Some(a.ticket) else None
  }

  lemma HeldAppend(history: seq<Action>, a: Action, account: nat)
    ensures Held(history + [a], account) == HeldNext(history, a, account)
  {
    assert (history + [a])[..|history|] == history;
  }

  /** A held ticket was issued, and since then nothing happened to the account's tickets. */
  lemma {:induction false} HeldMeans(history: seq<Action>, account: nat)
    requires Held(history, account).Some?
    ensures exists k | 0 <= k < |history| ::
      && history[k] == Issued(account, Held(history, account).value)
      && forall m | k < m < |history| :: history[m].account != account
  {
    var n := |history| - 1;
    if history[n].account == account {
      assert history[n] == Issued(account, Held(history, account).value);
    } else {
      HeldMeans(history[..n], account);
      var k :| 0 <= k < n && history[..n][k] == Issued(account, Held(history, account).value)
        && forall m | k < m < n :: history[..n][m].account != account;
      assert history[k] == Issued(account, Held(history, account).value);
      assert forall m | k < m < n :: history[m] == history[..n][m];
    }
  }

  /** Tickets are single use: each admission has its own issue before it, after every earlier
      admission or kick of the account, and to a map server it is for that
      ticket's character and first login id. */
  lemma TicketsAreSingleUse(history: seq<Action>, j: nat, account: nat)
    requires TicketsRespected(history) && j < |history| && Admits(history[j], account)
    ensures exists k | 0 <= k < j ::
      && history[k].Issued? && history[k].account == account
      && (history[j].AdmittedToMap? ==>
            history[k].ticket.charId == history[j].charId && history[k].ticket.loginId1 == history[j].loginId1)
      && forall m | k < m < j :: history[m].account != account
  {
    assert AdmissionMatches(history, j);
    HeldMeans(history[..j], account);
    var t := Held(history[..j], account).value;
    var k :|
      && 0 <= k < j && history[..j][k] == Issued(account, t)
      && forall m | k < m < j :: history[..j][m].account != account;
    assert history[k] == Issued(account, t);
    assert forall m | k < m < j :: history[m] == history[..j][m];
  }

  /** Between two admissions of an account, and between a kick and the next admission, a
      ticket is issued. */
  lemma IssuedBetween(history: seq<Action>, i: nat, j: nat, account: nat)
    requires TicketsRespected(history) && i < j < |history| && Admits(history[j], account)
    requires Admits(history[i], account) || history[i] == Kicked(account)
    ensures exists k | i < k < j :: history[k].Issued? && history[k].account == account
  {
    TicketsAreSingleUse(history, j, account);
    var k :| 0 <= k < j && history[k].Issued? && history[k].account == account
      && forall m | k < m < j :: history[m].account != account;
    assert k != i;
    assert !(k < i);
  }

  datatype Event =
    | CharSelectRequested(running: bool, account: nat, loginId1: nat, loginId2: nat)
    | ChangeRequested(
        running: bool, toServer: int, active: bool, loaded: bool, account: nat, charId: nat, loginId1: nat,
        loginId2: nat)
    | AuthRequested(running: bool, server: nat, account: nat, charId: nat, loginId1: nat, autotrade: bool, loaded: bool)
    | KickAsked(account: nat, hasSession: bool)
    | Connected(running: bool, fd: int, account: nat, loginId1: nat, loginId2: nat, aliveFd: bool)
    | LoginAccepted(fd: int, account: nat, aliveFd: bool)
    | CharSelected(account: nat, charId: nat, loginId1: nat, loginId2: nat, loaded: bool, placed: bool)
    | ClientGone(account: nat, fd: int, authed: bool)
    | CharSaved(server: nat, account: nat, charId: nat, final: bool, forced: bool)
    | CharOnline(server: nat, charId: nat, account: nat)
    | CharOffline(charId: nat, account: nat)
    | AllOffline(server: nat)
    | UsersReported(server: nat, users: seq<(nat, nat)>)
    | MapServerGone(server: nat)
    | TimerDue(tid: nat)
    | CleanupDue

  // ----- the state -----

  class CharServer {
    var online: map<nat, Online>
    var timers: map<nat, nat>  // pending disconnect timers: timer id to account id
    var auth: map<nat, Ticket>
    ghost var history: seq<Action>

    /** Pending timers and entries that wait correspond one to one. */
    ghost predicate TimersMatch()
      reads this
    {
      && (forall tid | tid in timers :: timers[tid] in online && online[timers[tid]].waiting == Some(tid))
      && (forall account | account in online && online[account].waiting.Some? ::
            var tid := online[account].waiting.value;
            tid in timers && timers[tid] == account)
    }

    /** An entry that waits is on a map server, known or unknown. */
    ghost predicate WaitingIsPlaced()
      reads this
    {
      forall account | account in online ::
        && online[account].server >= UNKNOWN_SERVER
        && (online[account].waiting.Some? ==> online[account].server != NO_SERVER)
    }

    /** The stored tickets are those held. */
    ghost predicate TicketsMatch()
      reads this
    {
      && TicketsRespected(history)
      && (forall account :: Held(history, account) == if account in auth then Some(auth[account]) else None)
    }

    ghost predicate Valid()
      reads this
    {
      TimersMatch() && WaitingIsPlaced() && TicketsMatch()
    }

    constructor ()
      ensures Valid() && online == map[] && timers == map[] && auth == map[] && history == []
    {
      online, timers, auth, history := map[], map[], map[], [];
    }

    function Entry(account: nat): (e: Online)
      reads this
      ensures account in online ==> e == online[account]
      ensures account !in online ==> e == Online(0xFFFF_FFFF, -1, None, -1, false)
    {
      if account in online then online[account] else NewOnline
    }

    /** The pending timers without the one an entry waits for. */
    function TimersWithout(e: Online): map<nat, nat>
      reads this
    {
      if e.waiting.Some? then timers - {e.waiting.value} else timers
    }

    /** Storing an entry that waits for what it waited for before, or no longer waits. */
    method Store(account: nat, e: Online)
      requires Valid()
      requires e.waiting == None || (e.waiting == Entry(account).waiting && e.server != NO_SERVER)
      requires e.server >= UNKNOWN_SERVER
      modifies this`online, this`timers
      ensures Valid()
      ensures online == old(online)[account := e]
      ensures timers == if e.waiting == None then old(TimersWithout(Entry(account))) else old(timers)
    {
      var before := Entry(account);
      if e.waiting == None && before.waiting.Some? {
        timers := timers - {before.waiting.value};
      }
      online := online[account := e];
    }

    // ----- tickets -----

    method Issue(account: nat, ticket: Ticket)
      requires Valid()
      modifies this`auth, this`history
      ensures Valid()
      ensures auth == old(auth)[account := ticket] && history == old(history) + [Issued(account, ticket)]
    {
      auth := auth[account := ticket];
      history := history + [Issued(account, ticket)];
      NoAdmission(old(history), Issued(account, ticket));
    }

    method Revoke(account: nat)
      requires Valid()
      modifies this`auth, this`history
      ensures Valid()
      ensures auth == old(auth) - {account} && history == old(history) + [Kicked(account)]
    {
      auth := auth - {account};
      history := history + [Kicked(account)];
      NoAdmission(old(history), Kicked(account));
    }

    /** The ticket is used once: it is erased as the player is admitted. */
    method Use(account: nat, ghost a: Action)
      requires Valid() && account in auth && Admits(a, account)
      requires a.AdmittedToMap? ==> auth[account].charId == a.charId && auth[account].loginId1 == a.loginId1
      requires a.AdmittedToSelect? ==> auth[account].loginId1 == a.loginId1 && auth[account].loginId2 == a.loginId2
      modifies this`auth, this`history
      ensures Valid()
      ensures auth == old(auth) - {account} && history == old(history) + [a]
    {
      auth := auth - {account};
      history := history + [a];
      assert Held(old(history), account).Some?;
      assert (old(history) + [a])[..|old(history)|] == old(history);
      RespectedAppend(old(history), a);
      forall other ensures Held(history, other) == if other in auth then Some(auth[other]) else None {
        HeldAppend(old(history), a, other);
      }
    }

    // ----- entries -----

    /** `char_set_charselect` */
    method SetCharSelect(account: nat)
      requires Valid()
      modifies this`online, this`timers
      ensures Valid()
      ensures
        var e := old(Entry(account));
        online == old(online)[account := e.(charId := NO_CHAR, server := NO_SERVER, waiting := None)]
      ensures timers == old(TimersWithout(Entry(account)))
    {
      Store(account, AtSelect(Entry(account)));
    }

    /** `char_set_char_online`; a different map server that has the player is told to drop it. */
    method SetCharOnline(server: int, charId: nat, account: nat) returns (dropped: Option<int>)
      requires Valid() && server >= UNKNOWN_SERVER
      modifies this`online, this`timers
      ensures Valid()
      ensures
        var e := old(Entry(account));
        online == old(online)[account := e.(charId := charId, server := server, waiting := None)]
      ensures timers == old(TimersWithout(Entry(account)))
      ensures
        var e := old(Entry(account));
        dropped == if e.charId != NO_CHAR && e.server > -1 && e.server != server then Some(e.server) else None
    {
      var e := Entry(account);
      dropped := if e.charId != NO_CHAR && e.server > -1 && e.server != server then Some(e.server) else None;
      Store(account, OnServer(e, server, charId));
    }

    /** `char_set_char_offline`; tells whether the login server is to mark the account offline. */
    method SetCharOffline(charId: nat, account: nat) returns (tell: bool)
      requires Valid()
      modifies this`online, this`timers
      ensures Valid()
      ensures account !in old(online) ==> online == old(online)
      ensures account in old(online) ==>
        var e := old(online)[account];
        online == old(online)[account :=
          if e.charId == charId then Online(NO_CHAR, e.fd, None, NO_SERVER, false) else e.(waiting := None)]
      ensures timers == old(TimersWithout(Entry(account)))
      ensures tell == (charId == NO_CHAR || account !in old(online) || old(online)[account].fd == NO_FD)
    {
      tell := charId == NO_CHAR || account !in online || online[account].fd == NO_FD;
      if account in online {
        Store(account, TakenOff(online[account], charId));
      }
    }

    /** The loop over all entries when a map server goes away or reports its players. */
    method LoseEntries(server: int)
      requires Valid()
      modifies this`online, this`timers
      ensures Valid()
      ensures online == map account | account in old(online) :: ServerLost(old(online)[account], server)
      ensures timers == if server == NO_SERVER then map[] else old(timers)
    {
      var todo := online.Keys;
      while todo != {}
        invariant Valid() && online.Keys == old(online).Keys && todo <= online.Keys
        invariant forall account | account in online ::
          online[account] == if account in todo then old(online)[account] else ServerLost(old(online)[account], server)
        invariant server != NO_SERVER ==> timers == old(timers)
        decreases |todo|
      {
        var account := Pick(todo);
        Store(account, ServerLost(online[account], server));
        todo := todo - {account};
      }
      if server == NO_SERVER {
        assert forall tid :: tid !in timers;
      }
    }

    /** `char_db_setoffline` for every entry */
    method AllServerLost(server: int)
      requires Valid()
      modifies this`online, this`timers
      ensures Valid() && online.Keys == old(online).Keys
      ensures online == map account | account in old(online) :: ServerLost(old(online)[account], server)
      ensures server >= 0 ==> forall account | account in online :: online[account].server != server
      ensures server != NO_SERVER ==>
        forall account | account in old(online) ::
          var e := old(online)[account];
          online[account] == if e.server == server then e.(server := UNKNOWN_SERVER) else e
      ensures server == NO_SERVER ==>
        forall account | account in old(online) ::
          online[account] == old(online)[account].(charId := NO_CHAR, server := NO_SERVER, waiting := None)
      ensures timers == if server == NO_SERVER then map[] else old(timers)
    {
      hide TimersMatch, WaitingIsPlaced, TicketsMatch, ServerLost;
      LoseEntries(server);
      forall account | account in old(online) ensures online[account] == ServerLost(old(online)[account], server) {}
      ServerLostMeans(server);
    }

    /** `char_set_all_offline` */
    method SetAllOffline(server: int)
      requires Valid()
      modifies this`online, this`timers
      ensures Valid() && timers == old(timers)
      ensures online == map account | account in old(online) :: KickedOff(old(online)[account], server)
      ensures forall account | account in old(online) ::
        var e := old(online)[account];
        && account in online
        && online[account] ==
           if e.server > -1 || e.waiting.Some? || (server > -1 && e.server != server) then e
           else Online(NO_CHAR, e.fd, None, NO_SERVER, false)
    {
      var todo := online.Keys;
      while todo != {}
        invariant Valid() && online.Keys == old(online).Keys && todo <= online.Keys
        invariant forall account | account in online ::
          online[account] == if account in todo then old(online)[account] else KickedOff(old(online)[account], server)
        invariant timers == old(timers)
        decreases |todo|
      {
        var account := Pick(todo);
        var e := online[account];
        if !(server > -1 && e.server != server) && e.server <= -1 && e.waiting == None {
          var _ := SetCharOffline(e.charId, account);
        }
        todo := todo - {account};
      }
    }

    /** One record of a report. */
    method PlaceUser(server: nat, account: nat, charId: nat)
      requires Valid()
      modifies this`online, this`timers
      ensures Valid() && timers == old(timers)
      ensures online == old(online)[account := old(Entry(account)).(server := server, charId := charId)]
    {
      Store(account, Entry(account).(server := server, charId := charId));
    }

    /** `chmapif_parse_regmapuser`: a map server reports all its players. */
    method RegMapUser(server: nat, users: seq<(nat, nat)>)
      requires Valid()
      modifies this`online, this`timers
      ensures Valid() && timers == old(timers)
      ensures forall account ::
        account in online <==> account in old(online) || exists i | 0 <= i < |users| :: users[i].0 == account
      ensures forall account | account in online ::
        online[account].server == server <==> exists i | 0 <= i < |users| :: users[i].0 == account
      ensures forall i | 0 <= i < |users| && forall j | i < j < |users| :: users[j].0 != users[i].0 ::
        var account, charId := users[i].0, users[i].1;
        account in online && online[account] == old(Entry(account)).(server := server, charId := charId)
      ensures forall account | account in old(online) && forall i | 0 <= i < |users| :: users[i].0 != account ::
        var e := old(online)[account];
        account in online && online[account] == (if e.server == server then e.(server := UNKNOWN_SERVER) else e)
    {
      hide LastReport, ServerLost, TimersMatch, WaitingIsPlaced, TicketsMatch;
      AllServerLost(server);
      var i := 0;
      while i < |users|
        invariant 0 <= i <= |users| && Valid() && timers == old(timers)
        invariant forall account ::
          account in online <==> account in old(online) || LastReport(users[..i], account).Some?
        invariant forall account | account in online ::
          online[account] == Placed(old(online), server, account, LastReport(users[..i], account))
      {
        ReportedNext(users, i);
        PlaceUser(server, users[i].0, users[i].1);
        i := i + 1;
      }
      assert users[..i] == users;
      PlacedMeans(old(online), server, users);
    }

    /** `chmapif_parse_reqsavechar`: a character that is not online here is marked online, unless the
        save is forced; a final save takes it offline. */
    method ReqSaveChar(server: nat, account: nat, charId: nat, final: bool, forced: bool)
      requires Valid()
      modifies this`online, this`timers
      ensures Valid()
      ensures
        var e := old(Entry(account));
        var known := account in old(online) && e.charId == charId;
        && (!final && (forced || known) ==> online == old(online) && timers == old(timers))
        && (!final && !forced && !known ==>
              && online == old(online)[account := e.(charId := charId, server := server, waiting := None)]
              && timers == old(TimersWithout(Entry(account))))
        && (final ==>
              && (account !in old(online) ==> online == old(online))
              && (account in old(online) ==> online == old(online)[account :=
                    if e.charId == charId then Online(NO_CHAR, e.fd, None, NO_SERVER, false) else e.(waiting := None)])
              && timers == old(TimersWithout(Entry(account))))
    {
      if !(final || forced || (account in online && online[account].charId == charId)) {
        var _ := SetCharOnline(server, charId, account);
      }
      if final {
        var _ := SetCharOffline(charId, account);
      }
    }

    // ----- timers -----

    /** `add_timer`: any id that no pending timer has. */
    method AddTimer(account: nat) returns (tid: nat)
      modifies this`timers
      ensures tid !in old(timers) && timers == old(timers)[tid := account]
    {
      FreeId(timers.Keys);
      assert exists id: nat :: id !in timers;
      tid :| tid !in timers;
      timers := timers[tid := account];
    }

    /** The disconnect timer of an entry, unless it has one. */
    method StartWaiting(account: nat)
      requires Valid() && account in online && online[account].server > -1
      modifies this`online, this`timers
      ensures Valid() && online.Keys == old(online).Keys
      ensures old(online)[account].waiting.Some? ==> online == old(online) && timers == old(timers)
      ensures old(online)[account].waiting.None? ==>
        && online[account].waiting.Some? && online[account].waiting.value !in old(timers)
        && online == old(online)[account := old(online)[account].(waiting := online[account].waiting)]
        && timers == old(timers)[online[account].waiting.value := account]
    {
      if online[account].waiting == None {
        var tid := AddTimer(account);
        online := online[account := online[account].(waiting := Some(tid))];
      }
    }

    /** `char_chardb_waiting_disconnect`: a pending timer fires. The entry it was set for still waits
        for it, and is taken offline. */
    method TimerFires(tid: nat)
      requires Valid() && tid in timers
      modifies this`online, this`timers
      ensures Valid() && timers == old(timers) - {tid}
      ensures
        var account := old(timers)[tid];
        && account in old(online) && old(online)[account].waiting == Some(tid)
        && online == old(online)[account := Online(NO_CHAR, old(online)[account].fd, None, NO_SERVER, false)]
    {
      var account := timers[tid];
      assert account in online && online[account].waiting == Some(tid);
      // The timer leaves the queue as it fires, and the entry forgets it.
      timers := timers - {tid};
      online := online[account := online[account].(waiting := None)];
      var _ := SetCharOffline(online[account].charId, account);
    }

    /** An entry that is not connected is dropped unless it is on a known server. */
    method CleanEntry(account: nat)
      requires Valid() && account in online && online[account].fd == NO_FD
      modifies this`online, this`timers
      ensures Valid()
      ensures
        var e := old(online)[account];
        if e.server < 0 then online == old(online) - {account} && timers == old(TimersWithout(Entry(account)))
        else online == old(online) && timers == old(timers)
    {
      var e := online[account];
      if e.server == UNKNOWN_SERVER {
        var _ := SetCharOffline(e.charId, account);
      }
      if online[account].server < 0 {
        assert online[account].waiting == None;
        online := online - {account};
      }
    }

    /** `char_online_data_cleanup`: entries are visited in any order until one is still connected. */
    method Cleanup()
      requires Valid()
      modifies this`online, this`timers
      ensures Valid() && online.Keys <= old(online).Keys
      ensures forall account | account in online :: online[account] == old(online)[account]
      ensures forall account | account in old(online) && account !in online ::
        old(online)[account].fd == NO_FD && old(online)[account].server < 0
      ensures forall tid :: tid in timers <==> tid in old(timers) && old(timers)[tid] in online
      ensures forall tid | tid in timers :: timers[tid] == old(timers)[tid]
      ensures (forall account | account in old(online) :: old(online)[account].fd == NO_FD) ==>
        forall account | account in online :: online[account].server >= 0
    {
      var todo := online.Keys;
      while todo != {}
        invariant Valid() && online.Keys <= old(online).Keys && todo <= online.Keys
        invariant forall account | account in online :: online[account] == old(online)[account]
        invariant forall account | account in old(online) && account !in online ::
          old(online)[account].fd == NO_FD && old(online)[account].server < 0
        invariant forall tid :: tid in timers <==> tid in old(timers) && old(timers)[tid] in online
        invariant forall tid | tid in timers :: timers[tid] == old(timers)[tid]
        invariant forall account | account in online && account !in todo :: online[account].server >= 0
        decreases |todo|
      {
        var account := Pick(todo);
        var e := online[account];
        if e.fd != NO_FD {
          return;
        }
        CleanEntry(account);
        todo := todo - {account};
      }
    }

    // ----- handlers that deal in tickets -----

    /** `chmapif_parse_authok`: a player on a map server asks for the character selection. */
    method RequestCharSelect(running: bool, account: nat, loginId1: nat, loginId2: nat) returns (ok: bool)
      requires Valid()
      modifies this
      ensures Valid() && ok == running
      ensures !running ==> online == old(online) && timers == old(timers)
      ensures !running ==> auth == old(auth) && history == old(history)
      ensures running ==>
        && auth == old(auth)[account := Ticket(0, loginId1, loginId2)]
        && history == old(history) + [Issued(account, Ticket(0, loginId1, loginId2))]
        && online == old(online)[account :=
             old(Entry(account)).(charId := NO_CHAR, server := NO_SERVER, waiting := None, pincodeSuccess := true)]
        && timers == old(TimersWithout(Entry(account)))
    {
      if !running {
        return false;
      }
      Issue(account, Ticket(0, loginId1, loginId2));
      SetCharSelect(account);
      Store(account, online[account].(pincodeSuccess := true));
      return true;
    }

    /** `chmapif_parse_reqchangemapserv`: a player moves to another map server. */
    method RequestChangeMapServer(running: bool, server: int, active: bool, loaded: bool,
                                  account: nat, charId: nat, loginId1: nat, loginId2: nat)
      returns (ok: bool)
      requires Valid()
      modifies this
      ensures Valid() && ok == (running && server >= 0 && active && loaded)
      ensures !ok ==> online == old(online) && auth == old(auth) && history == old(history)
      ensures timers == old(timers)
      ensures ok ==>
        && auth == old(auth)[account := Ticket(charId, loginId1, loginId2)]
        && history == old(history) + [Issued(account, Ticket(charId, loginId1, loginId2))]
        && online == old(online)[account := old(Entry(account)).(charId := charId, server := server)]
    {
      if !(running && server >= 0 && active && loaded) {
        return false;
      }
      Issue(account, Ticket(charId, loginId1, loginId2));
      Store(account, Entry(account).(charId := charId, server := server));
      return true;
    }

    /** `chmapif_parse_reqauth`: a map server asks whether a player may come in. */
    method RequestAuth(
      running: bool, server: nat, account: nat, charId: nat, loginId1: nat, autotrade: bool, loaded: bool)
      returns (ok: bool)
      requires Valid()
      modifies this
      ensures Valid()
      ensures
        var matching :=
          account in old(auth) && old(auth)[account].charId == charId && old(auth)[account].loginId1 == loginId1;
        && ok == (running && loaded && (autotrade || matching))
        && (ok && !autotrade ==> auth == old(auth) - {account})
        && (ok && !autotrade ==> history == old(history) + [AdmittedToMap(account, charId, loginId1)])
      ensures !ok || autotrade ==> auth == old(auth) && history == old(history)
      ensures !ok ==> online == old(online) && timers == old(timers)
      ensures ok ==>
        && online == old(online)[account := old(Entry(account)).(charId := charId, server := server, waiting := None)]
        && timers == old(TimersWithout(Entry(account)))
    {
      if running && autotrade && loaded {
        var _ := SetCharOnline(server, charId, account);
        return true;
      } else if running && loaded && account in auth &&
                auth[account].charId == charId && auth[account].loginId1 == loginId1 {
        Use(account, AdmittedToMap(account, charId, loginId1));
        var _ := SetCharOnline(server, charId, account);
        return true;
      }
      return false;
    }

    /** `chlogif_parse_askkick`: the login server wants the account gone. */
    method AskKick(account: nat, hasSession: bool)
      requires Valid()
      modifies this
      ensures Valid() && auth == old(auth) - {account} && history == old(history) + [Kicked(account)]
      ensures account !in old(online) ==> online == old(online) && timers == old(timers)
      ensures account in old(online) && old(online)[account].server > -1 ==>
        && account in online && online[account].waiting.Some? && online[account].waiting.value in timers
        && online == old(online)[account := old(online)[account].(waiting := online[account].waiting)]
        && (old(online)[account].waiting.Some? ==> online == old(online) && timers == old(timers))
      ensures account in old(online) && old(online)[account].server <= -1 ==>
        if hasSession then online == old(online) && timers == old(timers)
        else
          && (var e := old(online)[account];
              online == old(online)[account :=
                if e.charId == NO_CHAR then Online(NO_CHAR, e.fd, None, NO_SERVER, false) else e.(waiting := None)])
          && timers == old(TimersWithout(Entry(account)))
    {
      if account in online {
        if online[account].server > -1 {
          StartWaiting(account);
        } else if !hasSession {
          var _ := SetCharOffline(NO_CHAR, account);
        }
      }
      Revoke(account);
    }

    /** `char_auth_ok`: a client connection of an account is accepted, unless the account is on a map
        server or another connection of it is alive. */
    method AuthOk(fd: int, account: nat, aliveFd: bool) returns (ok: bool)
      requires Valid()
      modifies this`online, this`timers
      ensures Valid()
      ensures
        var e := old(Entry(account));
        ok == !(account in old(online) && (e.server > -1 || (aliveFd && e.fd != fd)))
      ensures ok ==>
        var e := old(Entry(account));
        && online == old(online)[account := Online(
             NO_CHAR, if account in old(online) then fd else e.fd, None, NO_SERVER, e.pincodeSuccess)]
        && timers == old(TimersWithout(Entry(account)))
      ensures !ok && old(Entry(account)).server > -1 ==>
        && account in online && online[account].waiting.Some?
        && online == old(online)[account := old(Entry(account)).(waiting := online[account].waiting)]
      ensures !ok && old(Entry(account)).server <= -1 ==> online == old(online) && timers == old(timers)
    {
      if account in online {
        if online[account].server > -1 {
          StartWaiting(account);
          return false;
        }
        if aliveFd && online[account].fd != fd {
          return false;
        }
        Store(account, AtSelect(online[account].(fd := fd)));
        SetCharSelect(account);
      } else {
        SetCharSelect(account);
      }
      return true;
    }

    /** `chclif_parse_reqtoconnect`: a client connects, from a map server with a ticket or else by way
        of the login server, which is then asked. */
    method RequestConnect(running: bool, fd: int, account: nat, loginId1: nat, loginId2: nat, aliveFd: bool)
      returns (admitted: bool)
      requires Valid()
      modifies this
      ensures Valid()
      ensures admitted == (running && account in old(auth)
        && old(auth)[account].loginId1 == loginId1 && old(auth)[account].loginId2 == loginId2)
      ensures admitted ==>
        && auth == old(auth) - {account}
        && history == old(history) + [AdmittedToSelect(account, loginId1, loginId2)]
      ensures !admitted ==> online == old(online) && timers == old(timers)
      ensures !admitted ==> auth == old(auth) && history == old(history)
      ensures
        var e := old(Entry(account));
        admitted && !(e.server > -1) ==>
          if account in old(online) && aliveFd && e.fd != fd then online == old(online) && timers == old(timers)
          else
            && online == old(online)[account := Online(
                 NO_CHAR, if account in old(online) then fd else e.fd, None, NO_SERVER, e.pincodeSuccess)]
            && timers == old(TimersWithout(Entry(account)))
      ensures
        var e := old(Entry(account));
        admitted && e.server > -1 ==>
          && account in online && online[account].waiting.Some?
          && online == old(online)[account := e.(waiting := online[account].waiting)]
    {
      if running && account in auth && auth[account].loginId1 == loginId1 && auth[account].loginId2 == loginId2 {
        Use(account, AdmittedToSelect(account, loginId1, loginId2));
        var _ := AuthOk(fd, account, aliveFd);
        return true;
      }
      return false;
    }

    /** `chclif_parse_charselect` and `chclif_parse_select_accessible_map`: a character is chosen; it
        counts as online, on an unknown server, while its data is loaded. */
    method SelectChar(account: nat, charId: nat, loginId1: nat, loginId2: nat, loaded: bool, placed: bool)
      returns (ok: bool)
      requires Valid()
      modifies this
      ensures Valid() && ok == (loaded && placed)
      ensures timers == old(TimersWithout(Entry(account)))
      ensures online == old(online)[account :=
        if loaded then old(Entry(account)).(charId := charId, server := UNKNOWN_SERVER, waiting := None)
        else Online(NO_CHAR, old(Entry(account)).fd, None, NO_SERVER, false)]
      ensures !ok ==> auth == old(auth) && history == old(history)
      ensures ok ==>
        && auth == old(auth)[account := Ticket(charId, loginId1, loginId2)]
        && history == old(history) + [Issued(account, Ticket(charId, loginId1, loginId2))]
    {
      var _ := SetCharOnline(UNKNOWN_SERVER, charId, account);
      if !loaded {
        var _ := SetCharOffline(charId, account);
        return false;
      }
      if !placed {
        return false;
      }
      Issue(account, Ticket(charId, loginId1, loginId2));
      return true;
    }

    /** The end of a client connection in `chclif_parse`. */
    method ClientEof(account: nat, fd: int, authed: bool)
      requires Valid()
      modifies this`online, this`timers
      ensures Valid()
      ensures
        var e := old(Entry(account));
        var closed := if e.fd == fd then e.(fd := NO_FD) else e;
        && (!authed || account !in old(online) ==> online == old(online) && timers == old(timers))
        && (authed && account in old(online) ==>
              && online == old(online)[account :=
                   if e.server == NO_SERVER && e.charId == NO_CHAR then
                     Online(NO_CHAR, closed.fd, None, NO_SERVER, false)
                   else if e.server == NO_SERVER then closed.(waiting := None)
                   else closed]
              && timers == old(timers))
    {
      if authed {
        if account in online && online[account].fd == fd {
          Store(account, online[account].(fd := NO_FD));
        }
        if account !in online || online[account].server == NO_SERVER {
          var _ := SetCharOffline(NO_CHAR, account);
        }
      }
    }

    // ----- runs -----

    /** One event, whatever the outside world supplies with it. */
    method Handle(e: Event)
      requires Valid()
      modifies this
      ensures Valid() && old(history) <= history
      ensures e.CharSelectRequested? && e.running ==>
        e.account in auth && auth[e.account] == Ticket(0, e.loginId1, e.loginId2)
      ensures e.ChangeRequested? && e.running && e.toServer >= 0 && e.active && e.loaded ==>
        && e.account in auth && auth[e.account] == Ticket(e.charId, e.loginId1, e.loginId2)
        && e.account in online && online[e.account].server == e.toServer
      ensures e.AuthRequested? && e.running && e.loaded && e.autotrade ==>
        e.account in online && online[e.account].server == e.server
      ensures
        e.AuthRequested? && e.running && e.loaded && !e.autotrade && e.account in old(auth) ==>
          (var ticket := old(auth)[e.account];
           ticket.charId == e.charId && ticket.loginId1 == e.loginId1 ==>
             e.account !in auth && e.account in online && online[e.account].server == e.server)
      ensures e.KickAsked? ==> e.account !in auth && history == old(history) + [Kicked(e.account)]
      ensures
        e.Connected? && e.running && e.account in old(auth) ==>
          (var ticket := old(auth)[e.account];
           ticket.loginId1 == e.loginId1 && ticket.loginId2 == e.loginId2 ==> e.account !in auth)
      ensures e.LoginAccepted? && e.account !in old(online) ==>
        e.account in online && online[e.account].server == NO_SERVER
      ensures e.CharSelected? && e.loaded && e.placed ==>
        e.account in auth && auth[e.account] == Ticket(e.charId, e.loginId1, e.loginId2)
      ensures e.ClientGone? && e.authed && e.fd != NO_FD && e.account in online ==> online[e.account].fd != e.fd
      ensures e.CharSaved? && e.final && e.account in online ==> online[e.account].waiting == None
      ensures e.CharOnline? ==>
        && e.account in online && online[e.account].server == e.server && online[e.account].charId == e.charId
      ensures e.CharOffline? && e.account in online ==> online[e.account].waiting == None
      ensures e.UsersReported? ==>
        forall i | 0 <= i < |e.users| :: e.users[i].0 in online && online[e.users[i].0].server == e.server
      ensures e.MapServerGone? ==> forall account | account in online :: online[account].server != e.server
      ensures e.TimerDue? ==> e.tid !in timers
    {
      hide TimersMatch, WaitingIsPlaced, TicketsMatch, LastReport, ServerLost, KickedOff;
      match e {
        case CharSelectRequested(running, account, id1, id2) => var _ := RequestCharSelect(running, account, id1, id2);
        case ChangeRequested(running, server, active, loaded, account, charId, id1, id2) =>
          var _ := RequestChangeMapServer(running, server, active, loaded, account, charId, id1, id2);
        case AuthRequested(running, server, account, charId, id1, autotrade, loaded) =>
          var _ := RequestAuth(running, server, account, charId, id1, autotrade, loaded);
        case KickAsked(account, hasSession) => AskKick(account, hasSession);
        case Connected(running, fd, account, id1, id2, aliveFd) =>
          var _ := RequestConnect(running, fd, account, id1, id2, aliveFd);
        case LoginAccepted(fd, account, aliveFd) => var _ := AuthOk(fd, account, aliveFd);
        case CharSelected(account, charId, id1, id2, loaded, placed) =>
          var _ := SelectChar(account, charId, id1, id2, loaded, placed);
        case ClientGone(account, fd, authed) => ClientEof(account, fd, authed);
        case CharSaved(server, account, charId, final, forced) => ReqSaveChar(server, account, charId, final, forced);
        case CharOnline(server, charId, account) => var _ := SetCharOnline(server, charId, account);
        case CharOffline(charId, account) => var _ := SetCharOffline(charId, account);
        case AllOffline(server) => SetAllOffline(server);
        case UsersReported(server, users) => RegMapUser(server, users);
        case MapServerGone(server) => AllServerLost(server);
        case TimerDue(tid) =>
          if tid in timers {
            TimerFires(tid);
          }
        case CleanupDue => Cleanup();
      }
    }

    /** After any run, timers and waiting entries correspond one to one, an entry that waits is on a
        server, and the history respects the tickets. */
    method Run(events: seq<Event>)
      requires Valid()
      modifies this
      ensures Valid() && old(history) <= history
    {
      var i := 0;
      while i < |events|
        invariant 0 <= i <= |events| && Valid() && old(history) <= history
      {
        Handle(events[i]);
        i := i + 1;
      }
    }
  }

  lemma NoAdmission(history: seq<Action>, a: Action)
    requires TicketsRespected(history) && (a.Issued? || a.Kicked?)
    ensures TicketsRespected(history + [a])
    ensures forall account :: Held(history + [a], account) == HeldNext(history, a, account)
  {
    RespectedAppend(history, a);
    forall account ensures Held(history + [a], account) == HeldNext(history, a, account) {
      HeldAppend(history, a, account);
    }
  }

  function Below(n: nat): (ids: set<nat>)
    ensures |ids| == n && forall m: nat :: m in ids <==> m < n
  {
    if n == 0 then {} else Below(n - 1) + {n - 1}
  }

  /** Some id is free, however many are taken. */
  lemma FreeId(ids: set<nat>)
    ensures exists id: nat :: id !in ids
  {
    if Below(|ids| + 1) <= ids {
      SubsetSize(Below(|ids| + 1), ids);
    }
  }

  /** The character in the last report about an account: later ones replace earlier ones. */
  function LastReport(users: seq<(nat, nat)>, account: nat): (charId: Option<nat>)
    ensures charId == None <==> forall i | 0 <= i < |users| :: users[i].0 != account
    ensures charId.Some? ==> (account, charId.value) in users
  {
    if users == [] then None
    else
      var last := |users| - 1;
      if users[last].0 == account then Some(users[last].1) else LastReport(users[..last], account)
  }

  /** What the placing means, account by account. */
  lemma PlacedMeans(before: map<nat, Online>, server: nat, users: seq<(nat, nat)>)
    ensures forall i | 0 <= i < |users| && forall j | i < j < |users| :: users[j].0 != users[i].0 ::
      LastReport(users, users[i].0) == Some(users[i].1)
    ensures forall account: nat ::
      LastReport(users, account).Some? <==> exists i | 0 <= i < |users| :: users[i].0 == account
  {
    forall i | 0 <= i < |users| && forall j | i < j < |users| :: users[j].0 != users[i].0
      ensures LastReport(users, users[i].0) == Some(users[i].1)
    {
      LastIsLast(users, i);
    }
  }

  lemma {:induction false} LastIsLast(users: seq<(nat, nat)>, i: nat)
    requires i < |users| && forall j | i < j < |users| :: users[j].0 != users[i].0
    ensures LastReport(users, users[i].0) == Some(users[i].1)
  {
    var last := |users| - 1;
    if i < last {
      assert users[last].0 != users[i].0;
      LastIsLast(users[..last], i);
    }
  }

  lemma ReportedNext(users: seq<(nat, nat)>, i: nat)
    requires i < |users|
    ensures forall account: nat ::
      LastReport(users[..i + 1], account) ==
      if users[i].0 == account then Some(users[i].1) else LastReport(users[..i], account)
  {
    var longer := users[..i + 1];
    assert longer[..i] == users[..i] && longer[i] == users[i];
    forall account: nat
      ensures LastReport(longer, account) ==
              if users[i].0 == account then Some(users[i].1) else LastReport(users[..i], account)
    {}
  }

  /** The entry of an account after a map server has reported its players: on that server with the
      character reported, or lost if it was there and is not reported. */
  function Placed(before: map<nat, Online>, server: nat, account: nat, charId: Option<nat>): Online
    requires account in before || charId.Some?
  {
    var e := if account in before then ServerLost(before[account], server) else NewOnline;
    if charId.Some? then e.(server := server, charId := charId.value) else e
  }

  // ----- what the handlers do to one entry -----

  function AtSelect(e: Online): Online { e.(charId := NO_CHAR, server := NO_SERVER, waiting := None) }

  function OnServer(e: Online, server: int, charId: nat): Online
  {
    e.(charId := charId, server := server, waiting := None)
  }

  /** `char_set_char_offline`: only the character that is online is taken off its server. */
  function TakenOff(e: Online, charId: nat): Online
  {
    if e.charId == charId then Online(NO_CHAR, e.fd, None, NO_SERVER, false) else e.(waiting := None)
  }

  /** An entry of the lost server is on an unknown one, or with no server given at the selection. */
  lemma ServerLostMeans(server: int)
    ensures forall e: Online ::
      ServerLost(e, server) ==
      if server == NO_SERVER then e.(charId := NO_CHAR, server := NO_SERVER, waiting := None)
      else if e.server == server then e.(server := UNKNOWN_SERVER)
      else e
  {}

  /** `char_db_setoffline` */
  function ServerLost(e: Online, server: int): Online
  {
    if server == NO_SERVER then AtSelect(e)
    else if e.server == server then e.(server := UNKNOWN_SERVER)
    else e
  }

  /** `char_db_kickoffline`, apart from the message to the map server */
  function KickedOff(e: Online, server: int): Online
  {
    if server > -1 && e.server != server then e
    else if e.server > -1 || e.waiting.Some? then e
    else TakenOff(e, e.charId)
  }
}
