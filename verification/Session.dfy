/** The three torrent tables of a session, and the life of one info hash in them. */
module Session {

  type InfoHash = string

  /** `m_torrents`, `m_addingTorrents` and `m_loadedMetadata`; metadata is there or still awaited. */
  datatype Tables = Tables(torrents: set<InfoHash>, adding: set<InfoHash>, loaded: map<InfoHash, bool>)

  /** Where a torrent to add comes from: a magnet link, a torrent file, or neither is valid. */
  datatype Origin = Magnet(hash: InfoHash) | TorrentFile(hash: InfoHash, pieces: nat) | Invalid

  /** Before a torrent is entered as being added, a list of priorities is made with one entry for each piece,
      and its entry 3808 is read with a bounds check for the debug output. For a link the number of pieces
      is not known: it is taken from an invalid torrent as -1, and the list cannot be made. In both cases
      an exception ends the call. */
  const DEBUGGED_PIECE := 3808

  predicate PrioritiesFit(origin: Origin) {
    origin.TorrentFile? && origin.pieces > DEBUGGED_PIECE
  }

  /** Calls of the session and alerts of the library. A flag carries the library's own answer:
      `accepted` for adding a torrent, `found` for looking one up, `failed` for an add alert. */
  datatype Event =
    | LoadMetadata(hash: InfoHash, valid: bool, accepted: bool)
    | CancelLoadMetadata(hash: InfoHash)
    | AddTorrent(origin: Origin, found: bool)
    | DeleteTorrent(hash: InfoHash)
    | AddTorrentAlert(hash: InfoHash, failed: bool)
    | TorrentRemovedAlert(hash: InfoHash)
    | MetadataReceivedAlert(hash: InfoHash)

  /** createTorrentHandle */
  function CreateTorrentHandle(t: Tables, hash: InfoHash): Tables {
    if hash !in t.adding then t
    else t.(adding := t.adding - {hash}, torrents := t.torrents + {hash})
  }

  function AddFrom(t: Tables, origin: Origin, found: bool): Tables {
    if origin.Invalid? then t
    else if origin.Magnet? && origin.hash in t.loaded then
      var u := t.(loaded := t.loaded - {origin.hash}, adding := t.adding + {origin.hash});
      if found then CreateTorrentHandle(u, origin.hash) else u
    else if origin.hash in t.adding || origin.hash in t.loaded || origin.hash in t.torrents then t
    else if !PrioritiesFit(origin) then t
    else t.(adding := t.adding + {origin.hash})
  }

  function Step(t: Tables, e: Event): Tables {
    match e
    case LoadMetadata(hash, valid, accepted) =>
      if !valid || hash in t.torrents || hash in t.adding || hash in t.loaded || !accepted then t
      else t.(loaded := t.loaded[hash := false])
    case CancelLoadMetadata(hash) => t.(loaded := t.loaded - {hash})
    case AddTorrent(origin, found) => AddFrom(t, origin, found)
    case DeleteTorrent(hash) => t.(torrents := t.torrents - {hash})
    case AddTorrentAlert(hash, failed) => if failed then t else CreateTorrentHandle(t, hash)
    case TorrentRemovedAlert(hash) => t.(loaded := t.loaded - {hash})
    case MetadataReceivedAlert(hash) => if hash in t.loaded then t.(loaded := t.loaded[hash := true]) else t
  }

  function Final(t: Tables, events: seq<Event>): Tables {
    if |events| == 0 then t else Step(Final(t, events[..|events| - 1]), events[|events| - 1])
  }

  /** No hash is in two tables. */
  ghost predicate Disjoint(t: Tables) {
    t.torrents !! t.adding && t.torrents !! t.loaded.Keys && t.adding !! t.loaded.Keys
  }

  /** Over every run each info hash is in at most one of the three tables. */
  lemma {:induction false} RunsKeepTablesDisjoint(t: Tables, events: seq<Event>)
    requires Disjoint(t)
    ensures Disjoint(Final(t, events))
  {
    if |events| > 0 {
      RunsKeepTablesDisjoint(t, events[..|events| - 1]);
    }
  }

  /** The life of one hash. */
  datatype Status = Unknown | Loading | Adding | Active

  function StatusOf(t: Tables, hash: InfoHash): Status {
    if hash in t.torrents then Active
    else if hash in t.adding then Adding
    else if hash in t.loaded then Loading
    else Unknown
  }

  /** The hash an event is about, if any. */
  predicate About(e: Event, hash: InfoHash) {
    match e
    case AddTorrent(origin, _) => !origin.Invalid? && origin.hash == hash
    case _ => e.hash == hash
  }

  /** What a hash goes through, seen alone: seven edges, and no event takes a hash that is being
      added anywhere but into the session. */
  function NextStatus(status: Status, e: Event): Status {
    match (status, e)
    case (Unknown, LoadMetadata(_, valid, accepted)) => if valid && accepted then Loading else Unknown
    case (Unknown, AddTorrent(origin, _)) => if PrioritiesFit(origin) then Adding else Unknown
    case (Loading, CancelLoadMetadata(_)) => Unknown
    case (Loading, TorrentRemovedAlert(_)) => Unknown
    case (Loading, AddTorrent(origin, found)) =>
      if !origin.Magnet? then Loading else if found then Active else Adding
    case (Adding, AddTorrentAlert(_, failed)) => if failed then Adding else Active
    case (Active, DeleteTorrent(_)) => Unknown
    case _ => status
  }

  function FinalStatus(status: Status, hash: InfoHash, events: seq<Event>): Status {
    if |events| == 0 then status
    else
      var before, e := FinalStatus(status, hash, events[..|events| - 1]), events[|events| - 1];
      if About(e, hash) then NextStatus(before, e) else before
  }

  lemma StatusStep(t: Tables, e: Event, hash: InfoHash)
    requires Disjoint(t)
    ensures StatusOf(Step(t, e), hash)
            == if About(e, hash) then NextStatus(StatusOf(t, hash), e) else StatusOf(t, hash)
  {
  }

  /** The three tables together are one such status for each hash: over every run, what becomes of a
      hash depends on the events about it alone. */
  lemma {:induction false} RunsFollowStatus(t: Tables, events: seq<Event>, hash: InfoHash)
    requires Disjoint(t)
    ensures StatusOf(Final(t, events), hash) == FinalStatus(StatusOf(t, hash), hash, events)
  {
    if |events| > 0 {
      var most := events[..|events| - 1];
      RunsFollowStatus(t, most, hash);
      RunsKeepTablesDisjoint(t, most);
      StatusStep(Final(t, most), events[|events| - 1], hash);
    }
  }

  /** What an event does, hash by hash: the one it is about moves as its status says, no other moves. */
  ghost predicate Moves(before: Tables, e: Event, after: Tables) {
    Disjoint(after) &&
    forall hash :: StatusOf(after, hash)
                   == if About(e, hash) then NextStatus(StatusOf(before, hash), e) else StatusOf(before, hash)
  }

  lemma StepMoves(t: Tables, e: Event)
    requires Disjoint(t)
    ensures Moves(t, e, Step(t, e))
  {
    forall hash ensures StatusOf(Step(t, e), hash)
                        == if About(e, hash) then NextStatus(StatusOf(t, hash), e) else StatusOf(t, hash) {
      StatusStep(t, e, hash);
    }
  }

  /** How an add ends: with `true`, with `false`, or with an exception. */
  datatype AddResult = Accepted | Refused | Thrown

  /** `isPrivate` says that the known or the new torrent is private. */
  function AddAnswer(t: Tables, origin: Origin, isPrivate: bool): AddResult {
    if origin.Invalid? then Refused
    else
      match StatusOf(t, origin.hash)
      case Unknown => if PrioritiesFit(origin) then Accepted else Thrown
      case Loading => if origin.Magnet? then Accepted else Refused
      case Adding => Refused
      case Active => if isPrivate then Refused else Accepted
  }

  /** Whether a call asks the library to add the torrent, to be answered by an add alert. */
  predicate AsksLibrary(t: Tables, e: Event) {
    e.AddTorrent? && !e.origin.Invalid? && PrioritiesFit(e.origin)
    && e.origin.hash !in t.torrents && e.origin.hash !in t.adding && e.origin.hash !in t.loaded
  }

  /** The library is asked exactly when an add takes an unknown hash into the adding table. */
  lemma AskedIffAdded(t: Tables, e: Event)
    requires Disjoint(t)
    ensures AsksLibrary(t, e) <==>
              e.AddTorrent? && !e.origin.Invalid? && StatusOf(t, e.origin.hash) == Unknown
              && StatusOf(Step(t, e), e.origin.hash) == Adding
  {
  }

  /** The events that make an unknown hash known. */
  predicate Introduces(e: Event, hash: InfoHash) {
    About(e, hash) && (if e.LoadMetadata? then e.valid && e.accepted else e.AddTorrent? && PrioritiesFit(e.origin))
  }

  /** The hash is unknown after every prefix of the events. */
  ghost predicate UnknownThroughout(t: Tables, hash: InfoHash, events: seq<Event>) {
    forall n :: 0 <= n <= |events| ==> StatusOf(Final(t, events[..n]), hash) == Unknown
  }

  /** An unknown hash stays so throughout exactly the runs without an accepted preload of it and without an
      add of a file for it with more than 3808 pieces. */
  lemma {:induction false} UnknownStaysIff(t: Tables, hash: InfoHash, events: seq<Event>)
    requires Disjoint(t) && StatusOf(t, hash) == Unknown
    ensures UnknownThroughout(t, hash, events) <==> forall i :: 0 <= i < |events| ==> !Introduces(events[i], hash)
  {
    if |events| == 0 {
      assert events[..0] == [];
    } else {
      var most, last := events[..|events| - 1], events[|events| - 1];
      assert events == most + [last] && events[..|events|] == events;
      assert forall n :: 0 <= n <= |most| ==> events[..n] == most[..n];
      UnknownStaysIff(t, hash, most);
      RunsKeepTablesDisjoint(t, most);
      assert most[..|most|] == most;
      if UnknownThroughout(t, hash, most) {
        StatusStep(Final(t, most), last, hash);
        assert StatusOf(Final(t, events), hash) == Unknown <==> !Introduces(last, hash);
      } else {
        var n :| 0 <= n <= |most| && StatusOf(Final(t, most[..n]), hash) != Unknown;
        assert events[..n] == most[..n];
      }
    }
  }

  /** So a hash that is only ever added by links becomes known only by a preload. */
  lemma LinkNeedsPreload(t: Tables, hash: InfoHash, events: seq<Event>)
    requires Disjoint(t) && StatusOf(t, hash) == Unknown
    requires forall i :: 0 <= i < |events| && events[i].AddTorrent? && About(events[i], hash) ==> events[i].origin.Magnet?
    requires LoadMetadata(hash, true, true) !in events
    ensures StatusOf(Final(t, events), hash) == Unknown
  {
    forall i | 0 <= i < |events| ensures !Introduces(events[i], hash) {
      assert events[i] in events;
    }
    UnknownStaysIff(t, hash, events);
    assert events[..|events|] == events;
  }

  /** The shortest instance, from empty tables: a link, and a file of 3808 pieces or fewer, end with an
      exception and change nothing. */
  lemma AddThrows(t: Tables, origin: Origin, found: bool, isPrivate: bool)
    requires t == Tables({}, {}, map[]) && (origin.Magnet? || (origin.TorrentFile? && origin.pieces <= 3808))
    ensures AddAnswer(t, origin, isPrivate) == Thrown && Step(t, AddTorrent(origin, found)) == t
  {
  }

  /** The hash is being added after every prefix of the events. */
  ghost predicate AddingThroughout(t: Tables, hash: InfoHash, events: seq<Event>) {
    forall n :: 0 <= n <= |events| ==> hash in Final(t, events[..n]).adding
  }

  /** A hash that is being added stays so throughout exactly the runs without a successful add alert for
      it: nothing else, a failed alert included, ever takes it out of the adding table. */
  lemma {:induction false} AddingStaysIff(t: Tables, hash: InfoHash, events: seq<Event>)
    requires Disjoint(t) && hash in t.adding
    ensures AddingThroughout(t, hash, events) <==> AddTorrentAlert(hash, false) !in events
  {
    if |events| == 0 {
      assert events[..0] == [];
    } else {
      var most, last := events[..|events| - 1], events[|events| - 1];
      assert events == most + [last] && events[..|events|] == events;
      assert forall n :: 0 <= n <= |most| ==> events[..n] == most[..n];
      AddingStaysIff(t, hash, most);
      RunsKeepTablesDisjoint(t, most);
      assert most[..|most|] == most;
      if AddingThroughout(t, hash, most) {
        StatusStep(Final(t, most), last, hash);
        assert hash in Final(t, events).adding <==> last != AddTorrentAlert(hash, false);
      } else {
        var n :| 0 <= n <= |most| && hash !in Final(t, most[..n]).adding;
        assert events[..n] == most[..n];
      }
    }
  }

  /** While a hash is being added, every attempt to add or preload it is refused. */
  lemma {:induction false} AddingIsRefused(t: Tables, hash: InfoHash, between: seq<Event>)
    requires Disjoint(t) && hash in t.adding && AddTorrentAlert(hash, false) !in between
    ensures var u := Final(t, between);
            && hash in u.adding
            && (forall o: Origin, p: bool :: !o.Invalid? && o.hash == hash ==> AddAnswer(u, o, p) == Refused)
            && (forall e :: About(e, hash) && (e.AddTorrent? || e.LoadMetadata?) ==> Step(u, e) == u)
  {
    AddingStaysIff(t, hash, between);
    assert between[..|between|] == between;
    RunsKeepTablesDisjoint(t, between);
  }

  /** After an accepted add of an unknown torrent whose alert fails, every later attempt is refused until an
      add alert for it succeeds. */
  lemma FailedAddBlocksHash(t: Tables, origin: Origin, found: bool, isPrivate: bool, between: seq<Event>)
    requires Disjoint(t) && !origin.Invalid? && StatusOf(t, origin.hash) == Unknown
    requires AddAnswer(t, origin, isPrivate) == Accepted
    requires AddTorrentAlert(origin.hash, false) !in between
    ensures AsksLibrary(t, AddTorrent(origin, found))
    ensures var failed := Step(Step(t, AddTorrent(origin, found)), AddTorrentAlert(origin.hash, true));
            var u := Final(failed, between);
            && origin.hash in u.adding
            && forall o: Origin, p: bool :: !o.Invalid? && o.hash == origin.hash ==> AddAnswer(u, o, p) == Refused
  {
    var asked := Step(t, AddTorrent(origin, found));
    StepMoves(t, AddTorrent(origin, found));
    StepMoves(asked, AddTorrentAlert(origin.hash, true));
    AddingIsRefused(Step(asked, AddTorrentAlert(origin.hash, true)), origin.hash, between);
  }

  /** A preloaded link that the library no longer knows is entered as being added without asking the library
      for it, and blocked in the same way. */
  lemma LostPreloadBlocksHash(t: Tables, hash: InfoHash, isPrivate: bool, between: seq<Event>)
    requires Disjoint(t) && StatusOf(t, hash) == Loading && AddTorrentAlert(hash, false) !in between
    ensures AddAnswer(t, Magnet(hash), isPrivate) == Accepted && !AsksLibrary(t, AddTorrent(Magnet(hash), false))
    ensures var u := Final(Step(t, AddTorrent(Magnet(hash), false)), between);
            && hash in u.adding
            && forall o: Origin, p: bool :: !o.Invalid? && o.hash == hash ==> AddAnswer(u, o, p) == Refused
  {
    StepMoves(t, AddTorrent(Magnet(hash), false));
    AddingIsRefused(Step(t, AddTorrent(Magnet(hash), false)), hash, between);
  }

  /** The shortest run with a failed add, from empty tables: an add, its failed alert, and the add again. */
  lemma {:induction false} FailedAddOccurs(t: Tables, origin: Origin, found: bool, isPrivate: bool, events: seq<Event>)
    requires t == Tables({}, {}, map[]) && origin.TorrentFile? && origin.pieces > 3808
    requires events == [AddTorrent(origin, found), AddTorrentAlert(origin.hash, true), AddTorrent(origin, found)]
    ensures AddAnswer(t, origin, isPrivate) == Accepted
    ensures AddAnswer(Final(t, events[..2]), origin, isPrivate) == Refused
    ensures StatusOf(Final(t, events), origin.hash) == Adding
  {
    var u := Final(t, events[..2]);
    assert events[..2][..1] == events[..1] && events[..1][..0] == [];
    assert Final(t, events[..1]) == Step(t, events[0]);
    assert u == Step(Step(t, events[0]), events[1]);
    FailedAddBlocksHash(t, origin, found, isPrivate, []);
    assert Final(u, []) == u;
  }

  // ---------------------------------------------------------------- the object

  class TorrentSession {
    var torrents: set<InfoHash>
    var adding: set<InfoHash>
    var loaded: map<InfoHash, bool>

    function View(): Tables
      reads this
    {
      Tables(torrents, adding, loaded)
    }

    method LoadMetadata(hash: InfoHash, valid: bool, accepted: bool) returns (ok: bool)
      requires Disjoint(View())
      modifies this
      ensures View() == Step(old(View()), Event.LoadMetadata(hash, valid, accepted))
      ensures Moves(old(View()), Event.LoadMetadata(hash, valid, accepted), View())
      ensures ok <==> valid && accepted && hash !in old(torrents + adding) && hash !in old(loaded)
      ensures torrents == old(torrents) && adding == old(adding)
      ensures loaded == if ok then old(loaded)[hash := false] else old(loaded)
    {
      StepMoves(View(), Event.LoadMetadata(hash, valid, accepted));
      if !valid || hash in torrents || hash in adding || hash in loaded || !accepted {
        return false;
      }
      loaded := loaded[hash := false];
      return true;
    }

    method CancelLoadMetadata(hash: InfoHash, found: bool) returns (ok: bool)
      requires Disjoint(View())
      modifies this
      ensures View() == Step(old(View()), Event.CancelLoadMetadata(hash))
      ensures Moves(old(View()), Event.CancelLoadMetadata(hash), View())
      ensures ok <==> hash in old(loaded) && found
      ensures torrents == old(torrents) && adding == old(adding) && loaded == old(loaded) - {hash}
    {
      StepMoves(View(), Event.CancelLoadMetadata(hash));
      if hash !in loaded {
        assert loaded - {hash} == loaded;
        return false;
      }
      loaded := loaded - {hash};
      return found;
    }

    /** addTorrent_impl */
    method AddTorrentImpl(origin: Origin, found: bool, isPrivate: bool) returns (result: AddResult)
      requires Disjoint(View())
      modifies this
      ensures View() == Step(old(View()), AddTorrent(origin, found))
      ensures Moves(old(View()), AddTorrent(origin, found), View())
      ensures result == AddAnswer(old(View()), origin, isPrivate)
      ensures !origin.Invalid? && origin.hash !in old(torrents + adding) && origin.hash !in old(loaded) ==>
                (result == Accepted <==> origin.TorrentFile? && origin.pieces > 3808)
                && (result == Accepted <==> origin.hash in adding) && result != Refused
    {
      StepMoves(View(), AddTorrent(origin, found));
      if origin.Invalid? {
        return Refused;
      }
      var hash := origin.hash;
      if origin.Magnet? && hash in loaded {
        loaded := loaded - {hash};
        adding := adding + {hash};
        if found {
          TakeAdding(hash);
        }
        return Accepted;
      }
      if hash in adding || hash in loaded {
        return Refused;
      }
      if hash in torrents {
        return if isPrivate then Refused else Accepted;
      }
      var piecesCount := if origin.TorrentFile? then origin.pieces else -1;
      if piecesCount < 0 || piecesCount <= DEBUGGED_PIECE {
        return Thrown;
      }
      adding := adding + {hash};
      return Accepted;
    }

    method TakeAdding(hash: InfoHash)
      modifies this
      ensures View() == CreateTorrentHandle(old(View()), hash) && loaded == old(loaded)
      ensures torrents + adding == old(torrents + adding)
      ensures hash in torrents <==> hash in old(torrents + adding)
      ensures forall h :: h != hash ==> (h in torrents <==> h in old(torrents))
    {
      if hash !in adding {
        return;
      }
      adding := adding - {hash};
      torrents := torrents + {hash};
    }

    method DeleteTorrent(hash: InfoHash) returns (ok: bool)
      requires Disjoint(View())
      modifies this
      ensures View() == Step(old(View()), Event.DeleteTorrent(hash))
      ensures Moves(old(View()), Event.DeleteTorrent(hash), View())
      ensures ok <==> hash in old(torrents)
      ensures torrents == old(torrents) - {hash} && adding == old(adding) && loaded == old(loaded)
    {
      StepMoves(View(), Event.DeleteTorrent(hash));
      ok := hash in torrents;
      torrents := torrents - {hash};
    }

    method HandleAddTorrentAlert(hash: InfoHash, failed: bool)
      requires Disjoint(View())
      modifies this
      ensures View() == Step(old(View()), AddTorrentAlert(hash, failed))
      ensures Moves(old(View()), AddTorrentAlert(hash, failed), View())
      ensures loaded == old(loaded)
      ensures !failed && hash in old(adding) ==> torrents == old(torrents) + {hash} && adding == old(adding) - {hash}
      ensures failed || hash !in old(adding) ==> torrents == old(torrents) && adding == old(adding)
    {
      StepMoves(View(), AddTorrentAlert(hash, failed));
      if !failed {
        TakeAdding(hash);
      }
    }

    method HandleTorrentRemovedAlert(hash: InfoHash)
      requires Disjoint(View())
      modifies this
      ensures View() == Step(old(View()), TorrentRemovedAlert(hash))
      ensures Moves(old(View()), TorrentRemovedAlert(hash), View())
      ensures torrents == old(torrents) && adding == old(adding) && loaded == old(loaded) - {hash}
    {
      StepMoves(View(), TorrentRemovedAlert(hash));
      loaded := loaded - {hash};
    }

    method HandleMetadataReceivedAlert(hash: InfoHash)
      requires Disjoint(View())
      modifies this
      ensures View() == Step(old(View()), MetadataReceivedAlert(hash))
      ensures Moves(old(View()), MetadataReceivedAlert(hash), View())
      ensures torrents == old(torrents) && adding == old(adding)
      ensures loaded == if hash in old(loaded) then old(loaded)[hash := true] else old(loaded)
    {
      StepMoves(View(), MetadataReceivedAlert(hash));
      if hash in loaded {
        loaded := loaded[hash := true];
      }
    }
  }
}
