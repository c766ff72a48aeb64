/**
 Joining against banning in one community room (websocket/protocol.rs).  `join_game` inserts the
 membership first, then reads the record, then removes a banned session again; `ban_member`
 writes the ban first, then removes every session of the account.  All steps interleave.
 */
module RoomJoin {

  /** Where a join stands: about to read the record, or about to take the membership back. */
  datatype Joining = Reading(session: string, user: string) | Removing(session: string)

  /**
   `bans` holds the accounts whose sessions a ban has yet to remove; `stale` the ban lists that
   handlers with a split read and write carry between the two.
   */
  datatype State = State(
    account: map<string, string>,
    inRoom: set<string>,
    banned: set<string>,
    joins: map<nat, Joining>,
    bans: map<nat, string>,
    stale: map<nat, set<string>>)

  datatype Event =
    | Identify(session: string, user: string)
    | JoinInsert(op: nat, session: string)
    | JoinRead(op: nat)
    | JoinRemove(op: nat)
    | BanWrite(op: nat, user: string)
    | BanRemove(op: nat)
    | Unban(user: string)
    | Kick(user: string)
    | Leave(session: string)
    | DeleteRecord
    | RemoveAll
    | StaleRead(op: nat)
    | StaleWrite(op: nat)

  const Empty: State := State(map[], {}, {}, map[], map[], map[])

  function SessionsOf(s: State, user: string): set<string>
  {
    set session | session in s.inRoom && session in s.account && s.account[session] == user
  }

  ghost predicate Enabled(s: State, e: Event)
  {
    match e
    case JoinInsert(op, session) => op !in s.joins && session in s.account
    case JoinRead(op) => op in s.joins && s.joins[op].Reading?
    case JoinRemove(op) => op in s.joins && s.joins[op].Removing?
    case BanWrite(op, _) => op !in s.bans
    case BanRemove(op) => op in s.bans
    case StaleRead(op) => op !in s.stale
    case StaleWrite(op) => op in s.stale
    case _ => true
  }

  ghost function Next(s: State, e: Event): State
    requires Enabled(s, e)
  {
    match e
    case Identify(session, user) => s.(account := s.account[session := user])
    case JoinInsert(op, session) =>
      // A session that is already a member skips the ban check.
      if session in s.inRoom then s
      else s.(inRoom := s.inRoom + {session}, joins := s.joins[op := Reading(session, s.account[session])])
    case JoinRead(op) =>
      if s.joins[op].user in s.banned then s.(joins := s.joins[op := Removing(s.joins[op].session)])
      else s.(joins := s.joins - {op})
    case JoinRemove(op) => s.(inRoom := s.inRoom - {s.joins[op].session}, joins := s.joins - {op})
    case BanWrite(op, user) => s.(banned := s.banned + {user}, bans := s.bans[op := user])
    case BanRemove(op) => s.(inRoom := s.inRoom - SessionsOf(s, s.bans[op]), bans := s.bans - {op})
    case Unban(user) => s.(banned := s.banned - {user})
    case Kick(user) => s.(inRoom := s.inRoom - SessionsOf(s, user))
    case Leave(session) => s.(inRoom := s.inRoom - {session})
    case DeleteRecord => s.(banned := {})
    case RemoveAll => s.(inRoom := {})
    case StaleRead(op) => s.(stale := s.stale[op := s.banned])
    case StaleWrite(op) => s.(banned := s.stale[op], stale := s.stale - {op})
  }

  ghost predicate Reaches(s: State, events: seq<Event>, t: State)
    decreases |events|
  {
    if events == [] then s == t
    else Enabled(s, events[0]) && Reaches(Next(s, events[0]), events[1..], t)
  }

  /** Some operation in flight will still look at this session as `user`, or remove it. */
  ghost predicate CoveredAs(s: State, session: string, user: string)
  {
    || (exists op :: op in s.joins && Watches(s.joins[op], session, user))
    || (exists op :: op in s.bans && s.bans[op] == user)
  }

  ghost predicate Watches(join: Joining, session: string, user: string)
  {
    join == Reading(session, user) || join == Removing(session)
  }

  /** A session of a banned account is in the room, and nothing in flight will see to it. */
  ghost predicate Exposed(s: State, session: string)
  {
    && session in s.inRoom && session in s.account && s.account[session] in s.banned
    && !CoveredAs(s, session, s.account[session])
  }

  ghost predicate Inv(s: State)
  {
    s.inRoom <= s.account.Keys && forall session :: session in s.inRoom ==> !Exposed(s, session)
  }

  /**
   A session inside does not take on a banned account, and a write based on an old read does
   not ban an account that is inside, except where something in flight covers the session.
   */
  ghost predicate Harmless(s: State, e: Event)
    requires Enabled(s, e)
  {
    match e
    case Identify(session, user) => session in s.inRoom && user in s.banned ==> CoveredAs(s, session, user)
    case StaleWrite(op) =>
      forall session :: session in s.inRoom && session in s.account && s.account[session] in s.stale[op] ==>
        CoveredAs(s, session, s.account[session])
    case _ => true
  }

  lemma CoverKept(s: State, t: State, session: string, user: string)
    requires CoveredAs(s, session, user)
    requires forall op :: op in s.joins && Watches(s.joins[op], session, user) ==>
               op in t.joins && Watches(t.joins[op], session, user)
    requires forall op :: op in s.bans && s.bans[op] == user ==> op in t.bans && t.bans[op] == user
    ensures CoveredAs(t, session, user)
  {
    if op :| op in s.joins && Watches(s.joins[op], session, user) {
      assert op in t.joins;
    } else {
      var op :| op in s.bans && s.bans[op] == user;
      assert op in t.bans;
    }
  }

  /** An event other than `Identify` and `StaleWrite` exposes nobody. */
  lemma OthersExposeNobody(s: State, e: Event, session: string)
    requires Inv(s) && Enabled(s, e) && !e.Identify? && !e.StaleWrite?
    ensures !Exposed(Next(s, e), session)
  {
    var t := Next(s, e);
    if session in t.inRoom && session in t.account && t.account[session] in t.banned {
      var user := t.account[session];
      if session !in s.inRoom {
        assert t.joins[e.op] == Reading(session, user);
      } else if user !in s.banned {
        assert e.BanWrite? && t.bans[e.op] == user;
      } else {
        assert !Exposed(s, session);
        if e.JoinRead? && s.joins[e.op] == Reading(session, user) {
          assert t.joins[e.op] == Removing(session);
        } else {
          CoverKept(s, t, session, user);
        }
      }
    }
  }

  /** One step keeps the invariant exactly when it is harmless. */
  lemma StepIff(s: State, e: Event)
    requires Inv(s) && Enabled(s, e)
    ensures Inv(Next(s, e)) <==> Harmless(s, e)
  {
    match e
    case Identify(session, user) => IdentifyIff(s, session, user);
    case StaleWrite(op) => StaleWriteIff(s, op);
    case _ => OthersKeepInv(s, e);
  }

  lemma OthersKeepInv(s: State, e: Event)
    requires Inv(s) && Enabled(s, e) && !e.Identify? && !e.StaleWrite?
    ensures Inv(Next(s, e))
  {
    forall session ensures !Exposed(Next(s, e), session) {
      OthersExposeNobody(s, e, session);
    }
  }

  /** A write based on an old read is harmless exactly when it bans nobody who is inside and uncovered. */
  lemma StaleWriteIff(s: State, op: nat)
    requires Inv(s) && Enabled(s, StaleWrite(op))
    ensures Inv(Next(s, StaleWrite(op))) <==>
              forall session :: session in s.inRoom && s.account[session] in s.stale[op] ==>
                CoveredAs(s, session, s.account[session])
  {
    var t := Next(s, StaleWrite(op));
    forall session | session in s.inRoom
      ensures CoveredAs(t, session, s.account[session]) <==> CoveredAs(s, session, s.account[session])
    {
    }
    if !Inv(t) {
      var session :| session in t.inRoom && Exposed(t, session);
    }
  }

  /**
   Identifying again is harmless exactly when the session is outside, the account not banned,
   or an operation in flight covers the session under that account.
   */
  lemma IdentifyIff(s: State, session: string, user: string)
    requires Inv(s)
    ensures Inv(Next(s, Identify(session, user))) <==>
              session !in s.inRoom || user !in s.banned || CoveredAs(s, session, user)
  {
    var t := Next(s, Identify(session, user));
    assert CoveredAs(t, session, user) <==> CoveredAs(s, session, user);
    forall other | other in s.inRoom && other != session ensures !Exposed(t, other) {
      assert !Exposed(s, other);
      if CoveredAs(s, other, s.account[other]) { CoverKept(s, t, other, s.account[other]); }
    }
  }

  ghost predicate HarmlessRun(s: State, events: seq<Event>)
    decreases |events|
  {
    events == [] ||
    (Enabled(s, events[0]) && Harmless(s, events[0]) && HarmlessRun(Next(s, events[0]), events[1..]))
  }

  lemma {:induction false} EveryRunCovers(s: State, events: seq<Event>, t: State)
    requires Inv(s) && Reaches(s, events, t) && HarmlessRun(s, events)
    ensures Inv(t)
    decreases |events|
  {
    if events != [] {
      StepIff(s, events[0]);
      EveryRunCovers(Next(s, events[0]), events[1..], t);
    }
  }

  ghost predicate Quiet(t: State)
  {
    t.joins == map[] && t.bans == map[]
  }

  /** Once no join and no ban is in flight, no session of a banned account is in the room. */
  lemma NoBannedSessionRemains(events: seq<Event>, t: State, session: string)
    requires Reaches(Empty, events, t) && HarmlessRun(Empty, events) && Quiet(t)
    requires session in t.inRoom
    ensures session in t.account && t.account[session] !in t.banned
  {
    EveryRunCovers(Empty, events, t);
    assert !Exposed(t, session);
  }

  // ----- the invariant is exactly what keeps banned accounts out

  ghost predicate BannedInRoom(t: State, session: string)
  {
    session in t.inRoom && session in t.account && t.account[session] in t.banned
  }

  /** Every harmless run from `s` that ends quietly leaves no banned session inside. */
  ghost predicate EndsClean(s: State)
  {
    forall events, t, session :: Reaches(s, events, t) && HarmlessRun(s, events) && Quiet(t) ==>
        !BannedInRoom(t, session)
  }

  /** An event that finishes or advances an operation, and leaves the session exposed. */
  ghost predicate Advances(s: State, e: Event, session: string)
  {
    && Enabled(s, e) && Harmless(s, e) && Exposed(Next(s, e), session)
    && Next(s, e).account == s.account
  }

  lemma FinishBan(s: State, session: string, op: nat)
    requires Exposed(s, session) && op in s.bans
    ensures Advances(s, BanRemove(op), session)
  {
    CoverShrinks(s, Next(s, BanRemove(op)), session);
  }

  lemma FinishRemoval(s: State, session: string, op: nat)
    requires Exposed(s, session) && op in s.joins && s.joins[op].Removing?
    ensures Advances(s, JoinRemove(op), session)
  {
    assert s.joins[op].session != session;
    CoverShrinks(s, Next(s, JoinRemove(op)), session);
  }

  /** Operations that go away cover nobody. */
  lemma CoverShrinks(s: State, t: State, session: string)
    requires Exposed(s, session) && session in t.inRoom && t.account == s.account
    requires s.account[session] in t.banned
    requires forall op :: op in t.joins ==> op in s.joins && t.joins[op] == s.joins[op]
    requires forall op :: op in t.bans ==> op in s.bans && t.bans[op] == s.bans[op]
    ensures Exposed(t, session)
  {
  }

  /** A read for another account: with that account's ban lifted, the read finds nothing and ends. */
  lemma FinishOtherRead(s: State, session: string, op: nat)
    requires Exposed(s, session) && op in s.joins && s.joins[op].Reading? && s.joins[op].user != s.account[session]
    ensures Advances(s, Unban(s.joins[op].user), session)
    ensures Advances(Next(s, Unban(s.joins[op].user)), JoinRead(op), session)
    ensures Next(Next(s, Unban(s.joins[op].user)), JoinRead(op)).joins == s.joins - {op}
  {
    var m := Next(s, Unban(s.joins[op].user));
    CoverShrinks(s, m, session);
    CoverShrinks(m, Next(m, JoinRead(op)), session);
  }

  /** A read of another session under the banned account: that session is removed. */
  lemma FinishSameRead(s: State, session: string, op: nat)
    requires Exposed(s, session) && op in s.joins && s.joins[op].Reading? && s.joins[op].user == s.account[session]
    ensures Advances(s, JoinRead(op), session)
    ensures Next(s, JoinRead(op)).joins[op].Removing?
    ensures Next(s, JoinRead(op)).joins.Keys == s.joins.Keys
  {
    var m := Next(s, JoinRead(op));
    assert s.joins[op].session != session;
    forall k | k in m.joins ensures !Watches(m.joins[k], session, s.account[session]) {
      assert k != op ==> m.joins[k] == s.joins[k];
    }
  }

  lemma Prepend(s: State, e: Event, events: seq<Event>, t: State)
    requires Enabled(s, e) && Harmless(s, e)
    requires Reaches(Next(s, e), events, t) && HarmlessRun(Next(s, e), events)
    ensures Reaches(s, [e] + events, t) && HarmlessRun(s, [e] + events)
  {
    assert ([e] + events)[1..] == events;
  }

  /** Everything in flight can end and leave an exposed session where it is. */
  lemma {:induction false} Drain(s: State, session: string) returns (events: seq<Event>, t: State)
    requires Exposed(s, session)
    ensures Reaches(s, events, t) && HarmlessRun(s, events) && Quiet(t) && BannedInRoom(t, session)
    decreases s.bans.Keys, s.joins.Keys
  {
    if op :| op in s.bans {
      var e := BanRemove(op);
      FinishBan(s, session, op);
      var rest;
      rest, t := Drain(Next(s, e), session);
      Prepend(s, e, rest, t);
      events := [e] + rest;
    } else if op :| op in s.joins {
      events, t := DrainJoin(s, session, op);
    } else {
      events, t := [], s;
    }
  }

  lemma {:induction false} DrainJoin(s: State, session: string, op: nat) returns (events: seq<Event>, t: State)
    requires Exposed(s, session) && op in s.joins
    ensures Reaches(s, events, t) && HarmlessRun(s, events) && Quiet(t) && BannedInRoom(t, session)
    decreases s.bans.Keys, s.joins.Keys, 0
  {
    var e1, e2 := JoinRead(op), JoinRemove(op);
    var m := s;
    if s.joins[op].Reading? {
      if s.joins[op].user == s.account[session] {
        FinishSameRead(s, session, op);
      } else {
        FinishOtherRead(s, session, op);
        e1, e2 := Unban(s.joins[op].user), JoinRead(op);
      }
      m := Next(s, e1);
    }
    if m.joins[op].Removing? { FinishRemoval(m, session, op); }
    var rest;
    rest, t := Drain(Next(m, e2), session);
    Prepend(m, e2, rest, t);
    events := [e2] + rest;
    if s.joins[op].Reading? {
      Prepend(s, e1, events, t);
      events := [e1] + events;
    }
  }

  /** Harmless runs from `s` that end quietly are clean if and only if nobody is exposed in `s`. */
  lemma EndsCleanIff(s: State)
    requires s.inRoom <= s.account.Keys
    ensures EndsClean(s) <==> Inv(s)
  {
    if Inv(s) {
      forall events, t, session | Reaches(s, events, t) && HarmlessRun(s, events) && Quiet(t)
        ensures !BannedInRoom(t, session)
      {
        EveryRunCovers(s, events, t);
        if session in t.inRoom { assert !Exposed(t, session); }
      }
    } else {
      var session :| session in s.inRoom && Exposed(s, session);
      var events, t := Drain(s, session);
      assert BannedInRoom(t, session);
    }
  }

  // ----- runs that fail without the two conditions

  ghost predicate BannedInside(t: State)
  {
    && t.joins == map[] && t.bans == map[] && t.stale == map[]
    && exists session :: session in t.inRoom && session in t.account && t.account[session] in t.banned
  }

  /** A member; another account is banned; the member identifies as that account. */
  lemma ReidentifyingEnding(session: string, user: string, other: string) returns (events: seq<Event>, t: State)
    requires user != other
    ensures Reaches(State(map[session := user], {session}, {}, map[], map[], map[]), events, t) && BannedInside(t)
    ensures forall e :: e in events ==> !e.StaleWrite?
  {
    var s3 := State(map[session := user], {session}, {}, map[], map[], map[]);
    var e4, e5, e6 := BanWrite(0, other), BanRemove(0), Identify(session, other);
    var s4 := Next(s3, e4);
    var s5 := Next(s4, e5);
    assert s5 == State(map[session := user], {session}, {other}, map[], map[], map[]);
    events, t := [e4, e5, e6], Next(s5, e6);
    assert events[1..] == [e5, e6] && [e5, e6][1..] == [e6] && [e6][1..] == [];
    assert Reaches(t, [], t) && Reaches(s5, [e6], t);
    assert Reaches(s4, [e5, e6], t);
    assert session in t.inRoom;
  }

  /** A member that identifies again as a banned account stays in the room. */
  lemma ReidentifyingBreaksIt(session: string, user: string, other: string) returns (events: seq<Event>, t: State)
    requires user != other
    ensures Reaches(Empty, events, t) && BannedInside(t)
    ensures forall e :: e in events ==> !e.StaleWrite?
  {
    var e1, e2, e3 := Identify(session, user), JoinInsert(0, session), JoinRead(0);
    var s1 := Next(Empty, e1);
    var s2 := Next(s1, e2);
    assert Next(s2, e3) == State(map[session := user], {session}, {}, map[], map[], map[]);
    var rest;
    rest, t := ReidentifyingEnding(session, user, other);
    var r2 := [e3] + rest;
    var r1 := [e2] + r2;
    events := [e1] + r1;
    assert r2[1..] == rest && r1[1..] == r2 && events[1..] == r1;
    assert Reaches(s2, r2, t);
    assert Reaches(s1, r1, t);
  }

  /** A banned account's join after the unban, and a write that goes back to before the unban. */
  lemma StaleEnding(session: string, user: string) returns (events: seq<Event>, t: State)
    ensures Reaches(State(map[session := user], {}, {user}, map[], map[], map[0 := {user}]), events, t)
        && BannedInside(t)
    ensures forall e :: e in events ==> !e.Identify?
  {
    var s4 := State(map[session := user], {}, {user}, map[], map[], map[0 := {user}]);
    var e5, e6, e7, e8 := Unban(user), JoinInsert(0, session), JoinRead(0), StaleWrite(0);
    var s5 := Next(s4, e5);
    var s6 := Next(s5, e6);
    var s7 := Next(s6, e7);
    assert s7 == State(map[session := user], {session}, {}, map[], map[], map[0 := {user}]);
    events, t := [e5, e6, e7, e8], Next(s7, e8);
    assert events[1..] == [e6, e7, e8] && [e6, e7, e8][1..] == [e7, e8] && [e7, e8][1..] == [e8] && [e8][1..] == [];
    assert Reaches(t, [], t) && Reaches(s7, [e8], t) && Reaches(s6, [e7, e8], t);
    assert Reaches(s5, [e6, e7, e8], t);
    assert t.stale == map[] && session in t.inRoom;
  }

  /** A record write based on a read from before an unban brings the ban back behind a later join. */
  lemma StaleWriteBreaksIt(session: string, user: string) returns (events: seq<Event>, t: State)
    ensures Reaches(Empty, events, t) && BannedInside(t)
    ensures forall e :: e in events && e.Identify? ==> e == Identify(session, user)
  {
    var e1, e2, e3, e4 := Identify(session, user), BanWrite(0, user), BanRemove(0), StaleRead(0);
    var s1 := Next(Empty, e1);
    var s2 := Next(s1, e2);
    var s3 := Next(s2, e3);
    assert s3 == State(map[session := user], {}, {user}, map[], map[], map[]);
    var s4 := Next(s3, e4);
    assert s4 == State(map[session := user], {}, {user}, map[], map[], map[0 := {user}]);
    var rest;
    rest, t := StaleEnding(session, user);
    var r3 := [e4] + rest;
    var r2 := [e3] + r3;
    var r1 := [e2] + r2;
    events := [e1] + r1;
    assert r3[1..] == rest && r2[1..] == r3 && r1[1..] == r2 && events[1..] == r1;
    assert Reaches(s3, r3, t);
    assert Reaches(s2, r2, t);
    assert Reaches(s1, r1, t);
  }
}
