/**
 * The session lifecycle and the participation registry: the sessions keyed
 * by their code, the participations (rows of `Partie`) in creation order,
 * and the operations players and facilitators call on them.
 */
module Store {

  import opened Options
  import opened Decimal
  import opened Models
  import opened Aggregation

  /** Why an operation was refused; nothing is written when one is returned. */
  datatype Error =
    | MissingParameter   // a required request field is absent (HTTP 400)
    | NotFound           // no such session, or no such player in it (HTTP 404)
    | MissingStoryIndex  // close_story without `story_index` (HTTP 400)
    | NoVotesFound       // close_story on a session with no player: "Aucun vote trouvé" (HTTP 400)
    | InvalidStoryIndex  // `story_index` outside the session's stories (HTTP 400)
    | InvalidStatus      // close_session asked for anything but "closed" (HTTP 400)
    | DuplicateSession   // the code is already taken (`unique=True`); no HTTP code is fixed for it
    | DuplicatePartie    // the (username, session) pair is already taken (`unique_together`) (HTTP 400 or 409)

  datatype Result<T> = Ok(value: T) | Err(error: Error)

  /** What join_partie answers: the session's mode, its status as found, and whether a row was created. */
  datatype JoinReply = JoinReply(modeDeJeu: string, status: Status, created: bool)

  // ----- The rows, as values -----

  predicate HasKey(p: Partie, username: string, idSession: string) {
    p.username == username && p.idSession == idSession
  }

  /** At most one row per (username, session) pair. */
  predicate UniqueRows(ps: seq<Partie>) {
    forall i, j :: 0 <= i < j < |ps| ==> !HasKey(ps[j], ps[i].username, ps[i].idSession)
  }

  /** The rows of one session, in creation order. */
  function RowsOf(ps: seq<Partie>, idSession: string): (rows: seq<Partie>)
    ensures |rows| <= |ps|
  {
    if ps == [] then []
    else
      var prefix, last := ps[..|ps| - 1], ps[|ps| - 1];
      RowsOf(prefix, idSession) + (if last.idSession == idSession then [last] else [])
  }

  /** The rows of a session are exactly the rows that point to it. */
  lemma {:induction false} RowsOfMembers(ps: seq<Partie>, idSession: string)
    ensures forall p :: p in RowsOf(ps, idSession) <==> p in ps && p.idSession == idSession
  {
    if ps != [] {
      var prefix, last := ps[..|ps| - 1], ps[|ps| - 1];
      assert ps == prefix + [last];
      RowsOfMembers(prefix, idSession);
    }
  }

  /** The rows of every other session, in creation order: what a cascading delete keeps. */
  function RowsNotOf(ps: seq<Partie>, idSession: string): (rows: seq<Partie>)
    ensures |rows| <= |ps|
  {
    if ps == [] then []
    else
      var prefix, last := ps[..|ps| - 1], ps[|ps| - 1];
      RowsNotOf(prefix, idSession) + (if last.idSession != idSession then [last] else [])
  }

  /** A cascading delete keeps exactly the rows that point elsewhere. */
  lemma {:induction false} RowsNotOfMembers(ps: seq<Partie>, idSession: string)
    ensures forall p :: p in RowsNotOf(ps, idSession) <==> p in ps && p.idSession != idSession
  {
    if ps != [] {
      var prefix, last := ps[..|ps| - 1], ps[|ps| - 1];
      assert ps == prefix + [last];
      RowsNotOfMembers(prefix, idSession);
    }
  }

  /** The cards held by the players of a session, in creation order. */
  function VotesOf(ps: seq<Partie>, idSession: string): (votes: seq<Vote>)
    ensures |votes| == |RowsOf(ps, idSession)|
  {
    var rows := RowsOf(ps, idSession);
    seq(|rows|, i requires 0 <= i < |rows| => rows[i].carteChoisie)
  }

  /** The position of a player's row, if the player is in the session. */
  function IndexOf(ps: seq<Partie>, username: string, idSession: string): (k: Option<nat>)
    ensures k.Some? ==> k.value < |ps| && HasKey(ps[k.value], username, idSession)
    ensures k.Some? ==> forall j :: 0 <= j < k.value ==> !HasKey(ps[j], username, idSession)
    ensures k.None? ==> forall j :: 0 <= j < |ps| ==> !HasKey(ps[j], username, idSession)
  {
    if ps == [] then None
    else if HasKey(ps[0], username, idSession) then Some(0)
    else match IndexOf(ps[1..], username, idSession)
      case None => None
      case Some(k) => Some(k + 1)
  }

  /** A row after raz_vote of the given session: card cleared and vote withdrawn if it belongs to it. */
  function ClearVote(p: Partie, idSession: string): (q: Partie)
    ensures q.username == p.username && q.idSession == p.idSession
    ensures p.idSession == idSession ==> q.carteChoisie.None? && !q.aVote
    ensures p.idSession != idSession ==> q == p
  {
    if p.idSession == idSession then p.(carteChoisie := None, aVote := false) else p
  }

  function ResetVotes(ps: seq<Partie>, idSession: string): (r: seq<Partie>)
    ensures |r| == |ps|
  {
    seq(|ps|, i requires 0 <= i < |ps| => ClearVote(ps[i], idSession))
  }

  /** raz_vote removes no player and leaves every player of the session without a card. */
  lemma {:induction false} ResetKeepsPlayersWithoutCards(ps: seq<Partie>, idSession: string)
    ensures |RowsOf(ResetVotes(ps, idSession), idSession)| == |RowsOf(ps, idSession)|
    ensures forall i :: 0 <= i < |VotesOf(ResetVotes(ps, idSession), idSession)| ==>
              VotesOf(ResetVotes(ps, idSession), idSession)[i].None?
  {
    var r := ResetVotes(ps, idSession);
    if ps != [] {
      var prefix := ps[..|ps| - 1];
      assert r[..|r| - 1] == ResetVotes(prefix, idSession);
      ResetKeepsPlayersWithoutCards(prefix, idSession);
    }
    var rows := RowsOf(r, idSession);
    RowsOfMembers(r, idSession);
    forall i | 0 <= i < |rows|
      ensures rows[i].carteChoisie.None?
    {
      assert rows[i] in rows;
      var j :| 0 <= j < |r| && r[j] == rows[i];
    }
  }

  /** Closing a story right after raz_vote gives 0 in every mode, and is not refused for want of players. */
  lemma CloseAfterResetGivesNoVotes(ps: seq<Partie>, idSession: string, mode: Mode)
    ensures RowsOf(ps, idSession) != [] ==> RowsOf(ResetVotes(ps, idSession), idSession) != []
    ensures Aggregate(mode, VotesOf(ResetVotes(ps, idSession), idSession)) == NoVotes
  {
    ResetKeepsPlayersWithoutCards(ps, idSession);
  }

  /** Deleting one session keeps the rows of every other session, in the same order. */
  lemma {:induction false} CascadeKeepsOtherSessions(ps: seq<Partie>, deleted: string, other: string)
    requires deleted != other
    ensures RowsOf(RowsNotOf(ps, deleted), other) == RowsOf(ps, other)
  {
    if ps != [] {
      var prefix, last := ps[..|ps| - 1], ps[|ps| - 1];
      CascadeKeepsOtherSessions(prefix, deleted, other);
      var kept := RowsNotOf(prefix, deleted);
      assert RowsOf(ps, other) == RowsOf(prefix, other) + (if last.idSession == other then [last] else []);
      if last.idSession != deleted {
        assert RowsNotOf(ps, deleted) == kept + [last];
        RowsOfSnoc(kept, last, other);
      } else {
        assert RowsNotOf(ps, deleted) == kept;
      }
    }
  }

  lemma RowsOfSnoc(ps: seq<Partie>, last: Partie, idSession: string)
    ensures RowsOf(ps + [last], idSession) == RowsOf(ps, idSession) + (if last.idSession == idSession then [last] else [])
  {
    assert (ps + [last])[..|ps|] == ps;
  }

  /** Removing one row from a table without duplicate keys leaves no row with its key. */
  lemma RemoveRowLeavesNoRow(ps: seq<Partie>, k: nat)
    requires UniqueRows(ps) && k < |ps|
    ensures UniqueRows(ps[..k] + ps[k + 1..])
    ensures IndexOf(ps[..k] + ps[k + 1..], ps[k].username, ps[k].idSession).None?
  {
    var rest := ps[..k] + ps[k + 1..];
    forall j | 0 <= j < |rest|
      ensures !HasKey(rest[j], ps[k].username, ps[k].idSession)
    {
      if j < k {
        assert rest[j] == ps[j];
      } else {
        assert rest[j] == ps[j + 1];
      }
    }
    forall i, j | 0 <= i < j < |rest|
      ensures !HasKey(rest[j], rest[i].username, rest[i].idSession)
    {
      var i', j' := if i < k then i else i + 1, if j < k then j else j + 1;
      assert rest[i] == ps[i'] && rest[j] == ps[j'];
    }
  }

  /** Position of each status in the lifecycle never decreases between two states. */
  twostate predicate StatusNeverGoesBack(store: PlanningPoker)
    reads store
  {
    forall id :: id in old(store.sessions) && id in store.sessions ==>
      StatusRank(old(store.sessions)[id].status) <= StatusRank(store.sessions[id].status)
  }

  /**
   * The store's invariant: every session is filed under its own six-digit
   * code, every row points to an existing session, and no (username,
   * session) pair occurs twice.
   */
  ghost predicate Consistent(sessions: map<string, Session>, parties: seq<Partie>) {
    && (forall id :: id in sessions ==> sessions[id].idSession == id && IsSessionCode(id))
    && (forall i :: 0 <= i < |parties| ==> parties[i].idSession in sessions)
    && UniqueRows(parties)
  }

  /** Deleting a session with its rows keeps the store consistent and leaves no row of that session. */
  lemma CascadeKeepsConsistency(sessions: map<string, Session>, parties: seq<Partie>, idSession: string)
    requires Consistent(sessions, parties)
    ensures Consistent(sessions - {idSession}, RowsNotOf(parties, idSession))
    ensures RowsOf(RowsNotOf(parties, idSession), idSession) == []
  {
    var kept := RowsNotOf(parties, idSession);
    KeptRowsStayUnique(parties, idSession);
    RowsNotOfMembers(parties, idSession);
    forall i | 0 <= i < |kept|
      ensures kept[i].idSession in sessions - {idSession}
    {
      assert kept[i] in parties;
    }
    NoMembersNoRows(kept, idSession);
  }

  // ----- The store -----

  class PlanningPoker {
    /** The sessions, keyed by `id_session`. */
    var sessions: map<string, Session>
    /** The participations, in creation order. */
    var parties: seq<Partie>

    /** The tables are consistent. */
    ghost predicate Valid()
      reads this
    {
      Consistent(sessions, parties)
    }

    constructor ()
      ensures Valid()
      ensures sessions == map[] && parties == []
    {
      sessions := map[];
      parties := [];
    }

    /** The row of a player in a session, found by scanning the rows in order. */
    method FindPartie(username: string, idSession: string) returns (k: Option<nat>)
      ensures k == IndexOf(parties, username, idSession)
    {
      var i := 0;
      while i < |parties|
        invariant 0 <= i <= |parties|
        invariant forall j :: 0 <= j < i ==> !HasKey(parties[j], username, idSession)
      {
        if HasKey(parties[i], username, idSession) {
          return Some(i);
        }
        i := i + 1;
      }
      return None;
    }

    /**
     * Creates a session under the code formatted from `drawn`, status "open".
     * A code already in use is refused, as the unique column refuses it.
     */
    method CreateSession(drawn: nat, titre: string, stories: seq<Story>, modeDeJeu: string)
      returns (r: Result<string>)
      requires Valid() && drawn < CodeSpace
      modifies this
      ensures Valid() && StatusNeverGoesBack(this)
      ensures parties == old(parties)
      ensures GenerateCode(drawn) in old(sessions) ==> r == Err(DuplicateSession) && sessions == old(sessions)
      ensures GenerateCode(drawn) !in old(sessions) ==>
        && r == Ok(GenerateCode(drawn))
        && sessions == old(sessions)[r.value := Session(r.value, titre, stories, modeDeJeu, Open)]
    {
      var code := GenerateCode(drawn);
      if code in sessions {
        return Err(DuplicateSession);
      }
      sessions := sessions[code := Session(code, titre, stories, modeDeJeu, Open)];
      r := Ok(code);
    }

    /** Deletes a session and, in cascade, every participation in it. */
    method DeleteSession(idSession: string) returns (r: Result<()>)
      requires Valid()
      modifies this
      ensures Valid() && StatusNeverGoesBack(this)
      ensures idSession !in old(sessions) ==> r == Err(NotFound) && unchanged(this)
      ensures idSession in old(sessions) ==>
        && r == Ok(())
        && sessions == old(sessions) - {idSession}
        && parties == RowsNotOf(old(parties), idSession)
      ensures RowsOf(parties, idSession) == []
    {
      if idSession !in sessions {
        NoMembersNoRows(parties, idSession);
        return Err(NotFound);
      }
      var kept: seq<Partie> := [];
      var i := 0;
      while i < |parties|
        invariant 0 <= i <= |parties|
        invariant kept == RowsNotOf(parties[..i], idSession)
      {
        assert parties[..i + 1] == parties[..i] + [parties[i]];
        if parties[i].idSession != idSession {
          kept := kept + [parties[i]];
        }
        i := i + 1;
      }
      assert parties[..i] == parties;
      CascadeKeepsConsistency(sessions, parties, idSession);
      sessions := sessions - {idSession};
      parties := kept;
      r := Ok(());
    }

    /**
     * Adds a participation with the given card, not yet voted. The session
     * must exist and the (username, session) pair must be new.
     */
    method AddPartie(username: string, idSession: string, carte: Option<string>) returns (r: Result<()>)
      requires Valid()
      modifies this
      ensures Valid() && StatusNeverGoesBack(this)
      ensures sessions == old(sessions)
      ensures idSession !in old(sessions) ==> r == Err(NotFound) && parties == old(parties)
      ensures idSession in old(sessions) && IndexOf(old(parties), username, idSession).Some? ==>
        r == Err(DuplicatePartie) && parties == old(parties)
      ensures idSession in old(sessions) && IndexOf(old(parties), username, idSession).None? ==>
        r == Ok(()) && parties == old(parties) + [NewPartie(username, idSession, carte)]
    {
      if idSession !in sessions {
        return Err(NotFound);
      }
      var k := FindPartie(username, idSession);
      if k.Some? {
        return Err(DuplicatePartie);
      }
      parties := parties + [NewPartie(username, idSession, carte)];
      r := Ok(());
    }

    /**
     * join_partie: get-or-create the player's row. A closed session is
     * answered with its status and left alone; the first player created in
     * an open session moves it to "in_progress", while the answer still
     * reports the status the session had.
     */
    method JoinPartie(username: Option<string>, idSession: Option<string>) returns (r: Result<JoinReply>)
      requires Valid()
      modifies this
      ensures Valid() && StatusNeverGoesBack(this)
      ensures username.None? || idSession.None? ==> r == Err(MissingParameter) && unchanged(this)
      ensures username.Some? && idSession.Some? && idSession.value !in old(sessions) ==>
        r == Err(NotFound) && unchanged(this)
      ensures username.Some? && idSession.Some? && idSession.value in old(sessions) ==>
        var u, id := username.value, idSession.value;
        var s := old(sessions)[id];
        if s.status == Closed then
          r == Ok(JoinReply(s.modeDeJeu, Closed, false)) && unchanged(this)
        else if IndexOf(old(parties), u, id).Some? then
          r == Ok(JoinReply(s.modeDeJeu, s.status, false)) && unchanged(this)
        else
          && r == Ok(JoinReply(s.modeDeJeu, s.status, true))
          && parties == old(parties) + [NewPartie(u, id, None)]
          && sessions == old(sessions)[id := s.(status := if s.status == Open then InProgress else s.status)]
      ensures r.Ok? ==> IndexOf(parties, username.value, idSession.value).Some? || r.value.status == Closed
    {
      if username.None? || idSession.None? {
        return Err(MissingParameter);
      }
      var u, id := username.value, idSession.value;
      if id !in sessions {
        return Err(NotFound);
      }
      var s := sessions[id];
      if s.status == Closed {
        return Ok(JoinReply(s.modeDeJeu, Closed, false));
      }
      var k := FindPartie(u, id);
      if k.Some? {
        return Ok(JoinReply(s.modeDeJeu, s.status, false));
      }
      parties := parties + [NewPartie(u, id, None)];
      if s.status == Open {
        sessions := sessions[id := s.(status := InProgress)];
      }
      r := Ok(JoinReply(s.modeDeJeu, s.status, true));
      assert parties[|parties| - 1] == NewPartie(u, id, None);
    }

    /** vote_card: records the player's card and marks the player as having voted. */
    method VoteCard(username: Option<string>, idSession: Option<string>, carte: Option<string>)
      returns (r: Result<()>)
      requires Valid()
      modifies this
      ensures Valid() && StatusNeverGoesBack(this)
      ensures username.None? || idSession.None? || carte.None? ==> r == Err(MissingParameter) && unchanged(this)
      ensures username.Some? && idSession.Some? && carte.Some? ==>
        match IndexOf(old(parties), username.value, idSession.value)
        case None => r == Err(NotFound) && unchanged(this)
        case Some(k) =>
          && r == Ok(())
          && sessions == old(sessions)
          && parties == old(parties)[k := old(parties)[k].(carteChoisie := carte, aVote := true)]
    {
      if username.None? || idSession.None? || carte.None? {
        return Err(MissingParameter);
      }
      var k := FindPartie(username.value, idSession.value);
      if k.None? {
        return Err(NotFound);
      }
      var i := k.value;
      parties := parties[i := parties[i].(carteChoisie := carte, aVote := true)];
      r := Ok(());
    }

    /** raz_vote: clears the card and the vote of every player of the session, one row at a time. */
    method RazVote(idSession: Option<string>) returns (r: Result<()>)
      requires Valid()
      modifies this
      ensures Valid() && StatusNeverGoesBack(this)
      ensures idSession.None? ==> r == Err(MissingParameter) && unchanged(this)
      ensures idSession.Some? && idSession.value !in old(sessions) ==> r == Err(NotFound) && unchanged(this)
      ensures idSession.Some? && idSession.value in old(sessions) ==>
        && r == Ok(())
        && sessions == old(sessions)
        && parties == ResetVotes(old(parties), idSession.value)
    {
      if idSession.None? {
        return Err(MissingParameter);
      }
      var id := idSession.value;
      if id !in sessions {
        return Err(NotFound);
      }
      var i := 0;
      while i < |parties|
        invariant 0 <= i <= |parties| && |parties| == |old(parties)|
        invariant forall j :: 0 <= j < i ==> parties[j] == ClearVote(old(parties)[j], id)
        invariant forall j :: i <= j < |parties| ==> parties[j] == old(parties)[j]
        invariant sessions == old(sessions)
        invariant Valid()
      {
        if parties[i].idSession == id {
          parties := parties[i := parties[i].(carteChoisie := None, aVote := false)];
        }
        i := i + 1;
      }
      r := Ok(());
    }

    /** fin_partie: the player leaves the session and the row is deleted. */
    method FinPartie(username: Option<string>, idSession: Option<string>) returns (r: Result<()>)
      requires Valid()
      modifies this
      ensures Valid() && StatusNeverGoesBack(this)
      ensures username.None? || idSession.None? ==> r == Err(MissingParameter) && unchanged(this)
      ensures username.Some? && idSession.Some? ==>
        match IndexOf(old(parties), username.value, idSession.value)
        case None => r == Err(NotFound) && unchanged(this)
        case Some(k) =>
          && r == Ok(())
          && sessions == old(sessions)
          && parties == old(parties)[..k] + old(parties)[k + 1..]
          && IndexOf(parties, username.value, idSession.value).None?
    {
      if username.None? || idSession.None? {
        return Err(MissingParameter);
      }
      var k := FindPartie(username.value, idSession.value);
      if k.None? {
        return Err(NotFound);
      }
      var i := k.value;
      RemoveRowLeavesNoRow(parties, i);
      parties := parties[..i] + parties[i + 1..];
      r := Ok(());
    }

    /**
     * close_story: aggregates the votes of the session's players under its
     * mode and stores the result, as text, as the story's final value. The
     * votes are left as they are.
     */
    method CloseStory(idSession: string, storyIndex: Option<int>) returns (r: Result<int>)
      requires Valid()
      modifies this
      ensures Valid() && StatusNeverGoesBack(this)
      ensures parties == old(parties)
      ensures idSession !in old(sessions) ==> r == Err(NotFound) && unchanged(this)
      ensures idSession in old(sessions) ==>
        var s := old(sessions)[idSession];
        if storyIndex.None? then
          r == Err(MissingStoryIndex) && unchanged(this)
        else if RowsOf(old(parties), idSession) == [] then
          r == Err(NoVotesFound) && unchanged(this)
        else if !(0 <= storyIndex.value < |s.stories|) then
          r == Err(InvalidStoryIndex) && unchanged(this)
        else
          var i := storyIndex.value;
          var v := Aggregate(ModeOf(s.modeDeJeu), VotesOf(old(parties), idSession));
          && r == Ok(v)
          && sessions == old(sessions)[idSession := s.(stories := s.stories[i := s.stories[i].(valeurFinale := Some(ShowInt(v)))])]
      ensures r.Ok? ==> storyIndex.Some? && idSession in sessions && 0 <= storyIndex.value < |sessions[idSession].stories|
      ensures r.Ok? ==> ParseInt(sessions[idSession].stories[storyIndex.value].valeurFinale.value) == Some(r.value)
    {
      if idSession !in sessions {
        return Err(NotFound);
      }
      var s := sessions[idSession];
      if storyIndex.None? {
        return Err(MissingStoryIndex);
      }
      if RowsOf(parties, idSession) == [] {
        return Err(NoVotesFound);
      }
      var i := storyIndex.value;
      if !(0 <= i < |s.stories|) {
        return Err(InvalidStoryIndex);
      }
      var v := Aggregate(ModeOf(s.modeDeJeu), VotesOf(parties, idSession));
      ShowIntRoundTrip(v);
      var story := s.stories[i].(valeurFinale := Some(ShowInt(v)));
      sessions := sessions[idSession := s.(stories := s.stories[i := story])];
      r := Ok(v);
    }

    /** close_session: only a request for status "closed" is accepted, and it closes the session. */
    method CloseSession(idSession: string, requested: Option<string>) returns (r: Result<Status>)
      requires Valid()
      modifies this
      ensures Valid() && StatusNeverGoesBack(this)
      ensures parties == old(parties)
      ensures idSession !in old(sessions) ==> r == Err(NotFound) && unchanged(this)
      ensures idSession in old(sessions) && requested != Some(StatusName(Closed)) ==>
        r == Err(InvalidStatus) && unchanged(this)
      ensures idSession in old(sessions) && requested == Some(StatusName(Closed)) ==>
        && r == Ok(Closed)
        && sessions == old(sessions)[idSession := old(sessions)[idSession].(status := Closed)]
    {
      if idSession !in sessions {
        return Err(NotFound);
      }
      if requested != Some(StatusName(Closed)) {
        return Err(InvalidStatus);
      }
      sessions := sessions[idSession := sessions[idSession].(status := Closed)];
      r := Ok(Closed);
    }
  }

  lemma NoMembersNoRows(ps: seq<Partie>, idSession: string)
    requires forall i :: 0 <= i < |ps| ==> ps[i].idSession != idSession
    ensures RowsOf(ps, idSession) == []
  {
    RowsOfMembers(ps, idSession);
  }

  /** A cascading delete keeps the table free of duplicate keys. */
  lemma {:induction false} KeptRowsStayUnique(ps: seq<Partie>, idSession: string)
    requires UniqueRows(ps)
    ensures UniqueRows(RowsNotOf(ps, idSession))
  {
    if ps != [] {
      var prefix, last := ps[..|ps| - 1], ps[|ps| - 1];
      assert UniqueRows(prefix);
      KeptRowsStayUnique(prefix, idSession);
      var kept := RowsNotOf(prefix, idSession);
      RowsNotOfMembers(prefix, idSession);
      if last.idSession != idSession {
        forall i | 0 <= i < |kept|
          ensures !HasKey(last, kept[i].username, kept[i].idSession)
        {
          assert kept[i] in prefix;
        }
      }
    }
  }

  /** When every row belongs to one session, that session's rows are all the rows. */
  lemma {:induction false} RowsOfSingleSession(ps: seq<Partie>, idSession: string)
    requires forall i :: 0 <= i < |ps| ==> ps[i].idSession == idSession
    ensures RowsOf(ps, idSession) == ps
  {
    if ps != [] {
      RowsOfSingleSession(ps[..|ps| - 1], idSession);
    }
  }

  /**
   * Two players join a fresh session, the first of them twice: the first
   * join finds the session open and leaves it in progress, the second join
   * of the same player creates nothing, and the session ends up with one
   * row per player.
   */
  method JoinScenario(drawn: nat) returns (rows: nat, first: Status, stored: Status, rejoin: Result<JoinReply>)
    requires drawn < CodeSpace
    ensures rows == 2
    ensures first == Open && stored == InProgress
    ensures rejoin == Ok(JoinReply("strict", InProgress, false))
  {
    var store := new PlanningPoker();
    var code := GenerateCode(drawn);
    var created := store.CreateSession(drawn, "Sprint 1", [Story("Story 1", None)], "strict");
    var alice := store.JoinPartie(Some("Alice"), Some(code));
    first := alice.value.status;
    assert store.parties == [NewPartie("Alice", code, None)];
    rejoin := store.JoinPartie(Some("Alice"), Some(code));
    assert "Bob" != "Alice";
    var bob := store.JoinPartie(Some("Bob"), Some(code));
    var two := store.parties;
    assert two == [NewPartie("Alice", code, None), NewPartie("Bob", code, None)];
    RowsOfSingleSession(two, code);
    rows := |RowsOf(two, code)|;
    stored := store.sessions[code].status;
  }

  /** Once a session is closed, a latecomer is answered "closed" and no row is created for them. */
  method ClosedJoinScenario(drawn: nat) returns (late: Result<JoinReply>, rows: nat)
    requires drawn < CodeSpace
    ensures late == Ok(JoinReply("strict", Closed, false))
    ensures rows == 0
  {
    var store := new PlanningPoker();
    var code := GenerateCode(drawn);
    var created := store.CreateSession(drawn, "Sprint 1", [Story("Story 1", None)], "strict");
    var closed := store.CloseSession(code, Some("closed"));
    late := store.JoinPartie(Some("Dave"), Some(code));
    rows := |RowsOf(store.parties, code)|;
  }

  lemma UnanimousFivesCloseToFive(ps: seq<Partie>, code: string)
    requires ps == [Partie("alice", code, Some("5"), true), Partie("bob", code, Some("5"), true)]
    ensures Aggregate(ModeOf("strict"), VotesOf(ps, code)) == 5
    ensures ShowInt(5) == "5"
  {
    RowsOfSingleSession(ps, code);
    var votes := VotesOf(ps, code);
    assert votes == [Some("5"), Some("5")];
    UnanimityAgreesInEveryMode(votes, "5", Strict);
    assert Value("5") == 5 by {
      assert "5"[..0] == [];
    }
  }

  /**
   * Two players of a "strict" session both vote "5": closing the first
   * story answers 5 and stores the text "5" as its final value, and the
   * second story stays open.
   */
  method CloseStoryScenario(drawn: nat) returns (result: Result<int>, stored: Option<string>, other: Option<string>)
    requires drawn < CodeSpace
    ensures result == Ok(5)
    ensures stored == Some("5") && other == None
  {
    var store := new PlanningPoker();
    var code := GenerateCode(drawn);
    var stories := [Story("Story 1", None), Story("Story 2", None)];
    var created := store.CreateSession(drawn, "Sprint 1", stories, "strict");
    assert store.sessions == map[code := Session(code, "Sprint 1", stories, "strict", Open)];
    var a := store.AddPartie("alice", code, None);
    assert "bob" != "alice";
    var b := store.AddPartie("bob", code, None);
    assert store.parties == [NewPartie("alice", code, None), NewPartie("bob", code, None)];
    var va := store.VoteCard(Some("alice"), Some(code), Some("5"));
    var vb := store.VoteCard(Some("bob"), Some(code), Some("5"));
    var ps := store.parties;
    assert ps == [Partie("alice", code, Some("5"), true), Partie("bob", code, Some("5"), true)];
    UnanimousFivesCloseToFive(ps, code);
    result := store.CloseStory(code, Some(0));
    stored := store.sessions[code].stories[0].valeurFinale;
    other := store.sessions[code].stories[1].valeurFinale;
  }
}
