/**
 Roles and moderation of one community room (websocket/protocol.rs).  A handler reads the
 record, awaits, and later writes a whole record back, so concurrent handlers can overwrite
 each other's updates; the invariants here hold under every such interleaving.
 */
module RoomRoles {
  import opened Wrappers
  import opened Strings

  const MAX_ROOM_MODERATORS: nat := 5
  const MAX_ROOM_SUB_ADMINS: nat := 3
  const MIN_TIMEOUT_SECS: nat := 60
  const MAX_TIMEOUT_SECS: nat := 604_800

  datatype Kind = Classic | Community

  datatype Role = Member | Moderator | SubAdministrator | Administrator

  datatype ModPermissions = ModPermissions(canBan: bool, canKick: bool, canMute: bool, canDelete: bool)

  datatype Room = Room(
    kind: Kind,
    title: string,
    description: string,
    icon: Option<string>,
    members: seq<string>,
    owner: Option<string>,
    chatLocked: bool,
    roles: map<string, Role>,
    banned: map<string, string>,
    timeouts: map<string, nat>,
    modPermissions: ModPermissions,
    callsEnabled: bool)

  const ALL_PERMISSIONS: ModPermissions := ModPermissions(true, true, true, true)

  /** What a write creates when there is no record: a classic room without an owner. */
  function Placeholder(title: string): Room
  {
    Room(Classic, title, "", None, [], None, false, map[], map[], map[], ALL_PERMISSIONS, true)
  }

  function RoleInRoom(room: Room, user: string): Role
  {
    if room.owner == Some(user) then Administrator
    else if user in room.roles then room.roles[user] else Member
  }

  function Holders(roles: map<string, Role>, role: Role): set<string>
  {
    set user | user in roles && roles[user] == role
  }

  function CountRole(room: Room, role: Role): nat
  {
    |Holders(room.roles, role)|
  }

  datatype ModAction = BanAction | KickAction | MuteAction

  predicate CanModerate(room: Room, actor: Role, target: Role, action: ModAction)
  {
    match actor
    case Administrator => true
    case SubAdministrator => target != Administrator
    case Moderator =>
      target == Member && (match action
                           case BanAction => room.modPermissions.canBan
                           case KickAction => room.modPermissions.canKick
                           case MuteAction => room.modPermissions.canMute)
    case Member => false
  }

  // ----- the update each handler makes to the record it read

  /** `role` is `None` when the request names no valid role. */
  datatype Op =
    | SetDescription(description: string)
    | SetMemberRole(target: string, role: Option<Role>)
    | Ban(target: string, name: string)
    | Unban(target: string)
    | Timeout(target: string, seconds: nat, now: nat)
    | Unmute(target: string)
    | Transfer(target: string)
    | SetChatLock(locked: bool)
    | SetModPermissions(permissions: ModPermissions)
    | SetCallsEnabled(enabled: bool)

  datatype RoomError =
    | NotCommunity | NotAllowed | InvalidRole | UseTransfer | OwnTarget | AdministratorTarget
    | ModeratorLimit | SubAdminLimit | NotOwner | TargetNotEligible

  predicate IsStaff(room: Room, actor: string)
  {
    RoleInRoom(room, actor) == Administrator || RoleInRoom(room, actor) == SubAdministrator
  }

  function SetRole(room: Room, actor: string, target: string, role: Option<Role>): Result<Room, RoomError>
  {
    if !IsStaff(room, actor) then Err(NotAllowed)
    else if role.None? then Err(InvalidRole)
    else if role.value == Administrator then Err(UseTransfer)
    else if target == actor then Err(OwnTarget)
    else
      var current := RoleInRoom(room, target);
      if current == Administrator then Err(AdministratorTarget)
      else if role.value == Moderator && current != Moderator && CountRole(room, Moderator) >= MAX_ROOM_MODERATORS then
        Err(ModeratorLimit)
      else if role.value == SubAdministrator && current != SubAdministrator
          && CountRole(room, SubAdministrator) >= MAX_ROOM_SUB_ADMINS then
        Err(SubAdminLimit)
      else if role.value == Member then Ok(room.(roles := room.roles - {target}))
      else Ok(room.(roles := room.roles[target := role.value]))
  }

  function TransferTo(room: Room, actor: string, target: string): Result<Room, RoomError>
  {
    if room.owner != Some(actor) then Err(NotOwner)
    else
      var role := RoleInRoom(room, target);
      if role != Moderator && role != SubAdministrator then Err(TargetNotEligible)
      else if role != SubAdministrator && CountRole(room, SubAdministrator) >= MAX_ROOM_SUB_ADMINS then
          Err(SubAdminLimit)
      else Ok(room.(owner := Some(target), roles := room.roles[target := Administrator][actor := SubAdministrator]))
  }

  function Clamp(n: nat, low: nat, high: nat): nat
  {
    if n < low then low else if n > high then high else n
  }

  function Update(room: Room, actor: string, op: Op): Result<Room, RoomError>
  {
    if room.kind != Community then Err(NotCommunity)
    else
      var actorRole := RoleInRoom(room, actor);
      match op
      case SetDescription(description) =>
        if IsStaff(room, actor) then Ok(room.(description := description)) else Err(NotAllowed)
      case SetMemberRole(target, role) => SetRole(room, actor, target, role)
      case Ban(target, name) =>
        if target == actor then Err(OwnTarget)
        else if !CanModerate(room, actorRole, RoleInRoom(room, target), BanAction) then Err(NotAllowed)
        else Ok(room.(banned := room.banned[target := name]))
      case Unban(target) =>
        if IsStaff(room, actor) then Ok(room.(banned := room.banned - {target})) else Err(NotAllowed)
      case Timeout(target, seconds, now) =>
        if target == actor then Err(OwnTarget)
        else if !CanModerate(room, actorRole, RoleInRoom(room, target), MuteAction) then Err(NotAllowed)
        else
          var until := now + Clamp(seconds, MIN_TIMEOUT_SECS, MAX_TIMEOUT_SECS) * 1000;
          Ok(room.(timeouts := room.timeouts[target := until]))
      case Unmute(target) =>
        if !CanModerate(room, actorRole, RoleInRoom(room, target), MuteAction) then Err(NotAllowed)
        else Ok(room.(timeouts := room.timeouts - {target}))
      case Transfer(target) => TransferTo(room, actor, target)
      case SetChatLock(locked) => if IsStaff(room, actor) then Ok(room.(chatLocked := locked)) else Err(NotAllowed)
      case SetModPermissions(permissions) =>
        if IsStaff(room, actor) then Ok(room.(modPermissions := permissions)) else Err(NotAllowed)
      case SetCallsEnabled(enabled) =>
        if IsStaff(room, actor) then Ok(room.(callsEnabled := enabled)) else Err(NotAllowed)
  }

  /** `sync_room_record`: refreshes the member list, creating a classic record when there is none. */
  function Synced(db: Option<Room>, roomId: string, members: seq<string>): Room
  {
    var room := if db.Some? then db.value else Placeholder(roomId);
    room.(title := if Trim(room.title) == "" then roomId else room.title, members := members)
  }

  /** `create_room`: the creator is owner and the only role holder. */
  function Created(creator: string, title: string, description: string, permissions: ModPermissions): Room
  {
    var roles := map[creator := Administrator];
    Room(Community, title, description, None, [], Some(creator), false, roles, map[], map[], permissions, true)
  }

  // ----- the interleaved machine

  /**
   `db` is the persisted record.  `writes` holds, for each handler between its read and the end
   of its work, the records it still has to write, in order; `deletes` the handlers that have
   passed the checks of a room deletion.
   */
  datatype State = State(db: Option<Room>, writes: map<nat, seq<Room>>, deletes: set<nat>)

  datatype Event =
    | Begin(handler: nat, actor: string, op: Op)
    | BeginSync(handler: nat, roomId: string, members: seq<string>)
    | BeginTitle(handler: nat, roomId: string, members: seq<string>, title: string)
    | BeginIcon(handler: nat, roomId: string, icon: string)
    | Create(handler: nat, creator: string, title: string, description: string, permissions: ModPermissions,
        withIcon: Option<string>)
    | BeginDelete(handler: nat, actor: string, serverAdmin: bool)
    | FinishDelete(handler: nat)
    | Write(handler: nat)
    | Abandon(handler: nat)

  const Empty: State := State(None, map[], {})

  ghost predicate Enabled(s: State, e: Event)
  {
    match e
    case Begin(h, actor, op) => h !in s.writes && s.db.Some? && Update(s.db.value, actor, op).Ok?
    case BeginSync(h, _, _) => h !in s.writes
    case BeginTitle(h, _, _, _) => h !in s.writes
    case BeginIcon(h, _, _) => h !in s.writes
    case Create(h, _, _, _, _, _) => h !in s.writes && s.db.None?
    case BeginDelete(h, actor, serverAdmin) =>
      s.db.Some? && s.db.value.kind == Community && (s.db.value.owner == Some(actor) || serverAdmin)
    case FinishDelete(h) => h in s.deletes
    case Write(h) => h in s.writes && s.writes[h] != []
    case Abandon(h) => h in s.writes
  }

  ghost function Next(s: State, e: Event): State
    requires Enabled(s, e)
  {
    match e
    case Begin(h, actor, op) => s.(writes := s.writes[h := [Update(s.db.value, actor, op).value]])
    case BeginSync(h, roomId, members) => s.(writes := s.writes[h := [Synced(s.db, roomId, members)]])
    case BeginTitle(h, roomId, members, title) =>
      var synced := Synced(s.db, roomId, members);
      s.(writes := s.writes[h := [synced, synced.(title := title)]])
    case BeginIcon(h, roomId, icon) =>
      var room := if s.db.Some? then s.db.value else Placeholder(roomId);
      s.(writes := s.writes[h := [room.(icon := Some(icon))]])
    case Create(h, creator, title, description, permissions, icon) =>
      var room := Created(creator, title, description, permissions);
      s.(db := Some(room), writes := if icon.Some? then s.writes[h := [room.(icon := icon)]] else s.writes)
    case BeginDelete(h, _, _) => s.(deletes := s.deletes + {h})
    case FinishDelete(h) => s.(db := None, deletes := s.deletes - {h})
    case Write(h) => s.(db := Some(s.writes[h][0]), writes := s.writes[h := s.writes[h][1..]])
    case Abandon(h) => s.(writes := s.writes - {h})
  }

  ghost predicate Reaches(s: State, events: seq<Event>, t: State)
    decreases |events|
  {
    if events == [] then s == t
    else Enabled(s, events[0]) && Reaches(Next(s, events[0]), events[1..], t)
  }

  // ----- the role invariant

  /**
   The owner, and nobody else, is stored as Administrator; no one is stored as Member; at most
   five Moderators and three SubAdministrators.
   */
  ghost predicate RoleMapOk(owner: Option<string>, roles: map<string, Role>)
  {
    && owner.Some?
    && owner.value in roles
    && (forall user :: user in roles ==> roles[user] != Member)
    && (forall user :: user in roles ==> (roles[user] == Administrator <==> owner.value == user))
    && |Holders(roles, Moderator)| <= MAX_ROOM_MODERATORS
    && |Holders(roles, SubAdministrator)| <= MAX_ROOM_SUB_ADMINS
  }

  ghost predicate RolesOk(room: Room)
  {
    room.kind == Community ==> RoleMapOk(room.owner, room.roles)
  }

  lemma HoldersAfter(roles: map<string, Role>, user: string, role: Role, counted: Role)
    ensures Holders(roles[user := role], counted)
        == (if role == counted then Holders(roles, counted) + {user} else Holders(roles, counted) - {user})
    ensures Holders(roles - {user}, counted) == Holders(roles, counted) - {user}
  {
  }

  /** How the number of holders of `counted` changes when `user` is given `role`. */
  lemma HoldersCount(roles: map<string, Role>, user: string, role: Role, counted: Role)
    ensures |Holders(roles[user := role], counted)|
         == |Holders(roles, counted)| + (if role == counted then 1 else 0)
            - (if user in roles && roles[user] == counted then 1 else 0)
    ensures |Holders(roles - {user}, counted)| <= |Holders(roles, counted)|
  {
    HoldersAfter(roles, user, role, counted);
    assert user in Holders(roles, counted) <==> user in roles && roles[user] == counted;
  }

  lemma SetRoleKeeps(owner: Option<string>, roles: map<string, Role>, target: string, role: Role)
    requires RoleMapOk(owner, roles) && owner.value != target && role != Administrator && role != Member
    requires role == Moderator ==> target in Holders(roles, role) || |Holders(roles, role)| < MAX_ROOM_MODERATORS
    requires role == SubAdministrator ==> target in Holders(roles, role) || |Holders(roles, role)| < MAX_ROOM_SUB_ADMINS
    ensures RoleMapOk(owner, roles[target := role])
  {
    HoldersCount(roles, target, role, Moderator);
    HoldersCount(roles, target, role, SubAdministrator);
  }

  lemma RemoveRoleKeeps(owner: Option<string>, roles: map<string, Role>, target: string)
    requires RoleMapOk(owner, roles) && owner.value != target
    ensures RoleMapOk(owner, roles - {target})
  {
    HoldersCount(roles, target, Member, Moderator);
    HoldersCount(roles, target, Member, SubAdministrator);
  }

  lemma TransferKeeps(roles: map<string, Role>, actor: string, target: string)
    requires RoleMapOk(Some(actor), roles) && target in roles && target != actor
    requires roles[target] == SubAdministrator || |Holders(roles, SubAdministrator)| < MAX_ROOM_SUB_ADMINS
    ensures RoleMapOk(Some(target), roles[target := Administrator][actor := SubAdministrator])
  {
    var mid := roles[target := Administrator];
    HoldersCount(roles, target, Administrator, Moderator);
    HoldersCount(roles, target, Administrator, SubAdministrator);
    HoldersCount(mid, actor, SubAdministrator, Moderator);
    HoldersCount(mid, actor, SubAdministrator, SubAdministrator);
  }

  lemma UpdateKeepsRoles(room: Room, actor: string, op: Op)
    requires RolesOk(room) && Update(room, actor, op).Ok?
    ensures RolesOk(Update(room, actor, op).value)
  {
    match op
    case SetMemberRole(target, role) =>
      assert room.owner != Some(target);
      if role.value == Member {
        RemoveRoleKeeps(room.owner, room.roles, target);
      } else {
        SetRoleKeeps(room.owner, room.roles, target, role.value);
      }
    case Transfer(target) =>
      assert target != actor;
      TransferKeeps(room.roles, actor, target);
    case _ =>
  }

  /** The persisted record and every record still to be written satisfy the role invariant. */
  ghost predicate Inv(s: State)
  {
    && (s.db.Some? ==> RolesOk(s.db.value))
    && (forall h, i :: h in s.writes && 0 <= i < |s.writes[h]| ==> RolesOk(s.writes[h][i]))
  }

  lemma NextInv(s: State, e: Event)
    requires Inv(s) && Enabled(s, e)
    ensures Inv(Next(s, e))
  {
    match e
    case Begin(h, actor, op) => UpdateKeepsRoles(s.db.value, actor, op);
    case Create(h, creator, title, description, permissions, icon) =>
      var roles := map[creator := Administrator];
      assert Holders(roles, Moderator) == {} && Holders(roles, SubAdministrator) == {};
    case _ =>
  }

  /** Whatever is overwritten or lost, every persisted community record satisfies the role invariant. */
  lemma {:induction false} EveryRunKeepsRoles(s: State, events: seq<Event>, t: State)
    requires Inv(s) && Reaches(s, events, t)
    ensures Inv(t)
    decreases |events|
  {
    if events != [] {
      NextInv(s, events[0]);
      EveryRunKeepsRoles(Next(s, events[0]), events[1..], t);
    }
  }

  // ----- the owner is out of everyone else's reach

  /** In `room` the owner is still `owner`, and no worse off than in `base`. */
  ghost predicate OwnerSafe(base: Room, room: Room, owner: string)
  {
    && room.kind == Community
    && room.owner == Some(owner)
    && RoleInRoom(room, owner) == Administrator
    && owner in room.roles && room.roles[owner] == Administrator
    && (owner in room.banned ==> owner in base.banned)
    && (owner in room.timeouts <==> owner in base.timeouts)
    && (owner in room.timeouts ==> room.timeouts[owner] == base.timeouts[owner])
  }

  lemma OthersCannotReachOwner(base: Room, room: Room, owner: string, actor: string, op: Op)
    requires RolesOk(room) && OwnerSafe(base, room, owner) && actor != owner
    requires Update(room, actor, op).Ok?
    ensures OwnerSafe(base, Update(room, actor, op).value, owner)
  {
    var after := Update(room, actor, op).value;
    assert RoleInRoom(room, actor) != Administrator;
    match op
    case Ban(target, _) =>
      CannotModerateOwner(room, actor, target, BanAction);
      assert after.banned.Keys == room.banned.Keys + {target};
    case Timeout(target, _, _) => CannotModerateOwner(room, actor, target, MuteAction);
    case Unmute(target) => CannotModerateOwner(room, actor, target, MuteAction);
    case _ =>
  }

  lemma CannotModerateOwner(room: Room, actor: string, target: string, action: ModAction)
    requires RoleInRoom(room, actor) != Administrator
    requires CanModerate(room, RoleInRoom(room, actor), RoleInRoom(room, target), action)
    ensures RoleInRoom(room, target) != Administrator
  {
  }

  ghost predicate OwnerInv(s: State, base: Room, owner: string)
  {
    && Inv(s)
    && s.db.Some? && OwnerSafe(base, s.db.value, owner)
    && (forall h, i :: h in s.writes && 0 <= i < |s.writes[h]| ==> OwnerSafe(base, s.writes[h][i], owner))
    && s.deletes == {}
  }

  /** An action of the owner, or a deletion by a server administrator. */
  ghost predicate Excluded(e: Event, owner: string)
  {
    || (e.Begin? && e.actor == owner)
    || (e.BeginDelete? && (e.actor == owner || e.serverAdmin))
  }

  lemma NextOwner(s: State, e: Event, base: Room, owner: string)
    requires OwnerInv(s, base, owner) && Enabled(s, e) && !Excluded(e, owner)
    ensures OwnerInv(Next(s, e), base, owner)
  {
    NextInv(s, e);
    if e.Begin? {
      OthersCannotReachOwner(base, s.db.value, owner, e.actor, e.op);
    }
  }

  /**
   A run without an owner action or a server-admin deletion changes neither the owner nor the
   owner's role, and neither bans nor times out the owner, whatever its interleaving.
   */
  lemma {:induction false} OwnerUntouched(s: State, events: seq<Event>, t: State, base: Room, owner: string)
    requires OwnerInv(s, base, owner) && Reaches(s, events, t)
    requires forall i :: 0 <= i < |events| ==> !Excluded(events[i], owner)
    ensures OwnerInv(t, base, owner)
    decreases |events|
  {
    if events != [] {
      NextOwner(s, events[0], base, owner);
      OwnerUntouched(Next(s, events[0]), events[1..], t, base, owner);
    }
  }

  // ----- exactly when a property of the record outlasts every interleaving

  ghost predicate Only(events: seq<Event>, allowed: Event -> bool)
  {
    forall e :: e in events ==> allowed(e)
  }

  /** After every run of allowed events there is a record, and it is good. */
  ghost predicate Keeps(s: State, allowed: Event -> bool, good: Room -> bool)
  {
    forall events, t :: Reaches(s, events, t) && Only(events, allowed) ==> t.db.Some? && good(t.db.value)
  }

  /** The record and every record still to be written are good, and no deletion is pending. */
  ghost predicate Protected(s: State, good: Room -> bool)
  {
    && s.db.Some? && good(s.db.value)
    && (forall h, i :: h in s.writes && 0 <= i < |s.writes[h]| ==> good(s.writes[h][i]))
    && s.deletes == {}
  }

  /** A handler that writes its records one after the other, up to number `i`. */
  lemma {:induction false} WritesUpTo(s: State, h: nat, i: nat) returns (events: seq<Event>, t: State)
    requires h in s.writes && i < |s.writes[h]|
    ensures Reaches(s, events, t) && t.db == Some(s.writes[h][i])
    ensures forall e :: e in events ==> e == Write(h)
    decreases i
  {
    var rest, next := [], Next(s, Write(h));
    t := next;
    if i > 0 {
      rest, t := WritesUpTo(next, h, i - 1);
    }
    events := [Write(h)] + rest;
    assert events[1..] == rest;
  }

  /** What is pending can happen: only a protected property is kept. */
  lemma KeptIsProtected(s: State, allowed: Event -> bool, good: Room -> bool)
    requires Keeps(s, allowed, good)
    requires forall h :: allowed(Write(h)) && allowed(FinishDelete(h))
    ensures Protected(s, good)
  {
    assert Reaches(s, [], s);
    forall h, i | h in s.writes && 0 <= i < |s.writes[h]| ensures good(s.writes[h][i]) {
      var events, t := WritesUpTo(s, h, i);
      assert Only(events, allowed);
    }
    if h :| h in s.deletes {
      var e := FinishDelete(h);
      assert [e][1..] == [];
      assert Reaches(s, [e], Next(s, e));
    }
  }

  ghost function NotExcluded(owner: string): Event -> bool
  {
    (e: Event) => !Excluded(e, owner)
  }

  ghost function SafeFor(base: Room, owner: string): Room -> bool
  {
    (room: Room) => OwnerSafe(base, room, owner)
  }

  /**
   The owner is out of reach in every run without an owner action or a server-admin deletion
   if and only if the record and all pending writes are safe and no deletion is pending.
   */
  lemma OwnerKeptIff(s: State, base: Room, owner: string)
    requires Inv(s)
    ensures Keeps(s, NotExcluded(owner), SafeFor(base, owner)) <==> Protected(s, SafeFor(base, owner))
  {
    if Keeps(s, NotExcluded(owner), SafeFor(base, owner)) {
      KeptIsProtected(s, NotExcluded(owner), SafeFor(base, owner));
    }
    if Protected(s, SafeFor(base, owner)) {
      forall events, t | Reaches(s, events, t) && Only(events, NotExcluded(owner))
        ensures t.db.Some? && OwnerSafe(base, t.db.value, owner)
      {
        assert forall i :: 0 <= i < |events| ==> NotExcluded(owner)(events[i]);
        OwnerUntouched(s, events, t, base, owner);
      }
    }
  }

  /** A room created while no handler has anything left to write starts out protected. */
  lemma CreatedIsProtected(s: State, e: Event)
    requires Enabled(s, e) && e.Create? && s.deletes == {} && forall h :: h in s.writes ==> s.writes[h] == []
    ensures Protected(Next(s, e), SafeFor(Next(s, e).db.value, e.creator))
  {
  }

  /**
   Pending writes matter: a member-list refresh that found no record before the room was
   created overwrites the new community with a classic room that has no owner.
   */
  lemma SyncUnseatsOwner(owner: string, roomId: string) returns (events: seq<Event>, mid: State, last: Event)
    ensures Reaches(Empty, events, mid) && Enabled(mid, last) && !Excluded(last, owner)
    ensures Only(events, NotExcluded(owner))
    ensures mid.db.Some? && mid.db.value.owner == Some(owner) && mid.deletes == {}
    ensures Next(mid, last).db.Some?
    ensures Next(mid, last).db.value.kind == Classic && Next(mid, last).db.value.owner == None
  {
    var e1, e2 := BeginSync(0, roomId, []), Create(1, owner, "", "", ALL_PERMISSIONS, None);
    events, last := [e1, e2], Write(0);
    var s1 := Next(Empty, e1);
    mid := Next(s1, e2);
    assert events[1..] == [e2] && [e2][1..] == [];
    assert Reaches(mid, [], mid) && Reaches(s1, [e2], mid);
  }

  /** Anything but lifting the ban and deleting the room. */
  ghost function NotLifting(target: string): Event -> bool
  {
    (e: Event) => !(e.Begin? && e.op.Unban? && e.op.target == target) && !e.BeginDelete?
  }

  ghost function Bans(target: string): Room -> bool
  {
    (room: Room) => target in room.banned
  }

  lemma {:induction false} BanKept(s: State, events: seq<Event>, t: State, target: string)
    requires Protected(s, Bans(target)) && Reaches(s, events, t) && Only(events, NotLifting(target))
    ensures Protected(t, Bans(target))
    decreases |events|
  {
    if events != [] {
      assert NotLifting(target)(events[0]);
      BanKeptByStep(s, events[0], target);
      BanKept(Next(s, events[0]), events[1..], t, target);
    }
  }

  lemma BanKeptByStep(s: State, e: Event, target: string)
    requires Protected(s, Bans(target)) && Enabled(s, e) && NotLifting(target)(e)
    ensures Protected(Next(s, e), Bans(target))
  {
    if e.Begin? { UpdateKeepsBan(s.db.value, e.actor, e.op, target); }
  }

  lemma UpdateKeepsBan(room: Room, actor: string, op: Op, target: string)
    requires Update(room, actor, op).Ok? && target in room.banned && !(op.Unban? && op.target == target)
    ensures target in Update(room, actor, op).value.banned
  {
  }

  /**
   A ban outlasts every run in which nobody lifts it or starts deleting the room, if and only
   if the record and all pending writes hold it and no deletion is pending.
   */
  lemma BanSurvivesIff(s: State, target: string)
    ensures Keeps(s, NotLifting(target), Bans(target)) <==> Protected(s, Bans(target))
  {
    if Keeps(s, NotLifting(target), Bans(target)) {
      KeptIsProtected(s, NotLifting(target), Bans(target));
    }
    if Protected(s, Bans(target)) {
      forall events, t | Reaches(s, events, t) && Only(events, NotLifting(target))
        ensures t.db.Some? && target in t.db.value.banned
      {
        BanKept(s, events, t, target);
      }
    }
  }

  /**
   Lost updates are real: a persisted ban can be overwritten by a handler that read the record
   before it, without anyone lifting it.
   */
  lemma BanCanBeLost(owner: string, target: string) returns (events: seq<Event>, mid: State, last: Event)
    requires owner != target
    ensures Reaches(Empty, events, mid) && Enabled(mid, last) && last.Write?
    ensures Only(events, NotLifting(target))
    ensures mid.db.Some? && target in mid.db.value.banned
    ensures Next(mid, last).db.Some? && target !in Next(mid, last).db.value.banned
  {
    var e1, e2 := Create(0, owner, "t", "", ALL_PERMISSIONS, None), Begin(1, owner, SetChatLock(true));
    var e3, e4 := Begin(2, owner, Ban(target, "")), Write(2);
    var s1 := Next(Empty, e1);
    var s2 := Next(s1, e2);
    var s3 := Next(s2, e3);
    events, mid, last := [e1, e2, e3, e4], Next(s3, e4), Write(1);
    assert [e4][1..] == [] && [e3, e4][1..] == [e4] && [e2, e3, e4][1..] == [e3, e4] && events[1..] == [e2, e3, e4];
    assert Reaches(mid, [], mid);
    assert Reaches(s3, [e4], mid);
    assert Reaches(s2, [e3, e4], mid);
    assert Reaches(s1, [e2, e3, e4], mid);
  }

  // ----- the effect of one update

  /** Whether a user may not speak at time `now` because of a timeout. */
  predicate TimedOut(room: Room, user: string, now: nat)
  {
    user in room.timeouts && room.timeouts[user] > now
  }

  lemma RolesAfterUpdate(room: Room, actor: string, op: Op, user: string)
    requires RolesOk(room) && Update(room, actor, op).Ok?
    ensures RoleInRoom(Update(room, actor, op).value, user)
         == if op.SetMemberRole? && user == op.target then op.role.value
            else if op.Transfer? && user == op.target then Administrator
            else if op.Transfer? && user == actor then SubAdministrator
            else RoleInRoom(room, user)
  {
    match op
    case SetMemberRole(target, _) => assert room.owner != Some(target);
    case Transfer(target) => assert target != actor;
    case _ =>
  }

  lemma PenaltiesAfterUpdate(room: Room, actor: string, op: Op, user: string, at: nat)
    requires Update(room, actor, op).Ok?
    ensures var after := Update(room, actor, op).value;
            && (user in after.banned <==>
                  (op.Ban? && user == op.target) || (user in room.banned && !(op.Unban? && user == op.target)))
            && (TimedOut(after, user, at) <==>
                  if op.Timeout? && user == op.target
                  then at < op.now + Clamp(op.seconds, MIN_TIMEOUT_SECS, MAX_TIMEOUT_SECS) * 1000
                  else TimedOut(room, user, at) && !(op.Unmute? && user == op.target))
  {
  }

  /**
   Who may update, and whom the update reaches: members change nothing, moderators only the
   bans and timeouts of plain members; roles move only for the target of a role change and the
   two sides of a transfer; bans and timeouts only for their target.
   */
  lemma UpdateEffect(room: Room, actor: string, op: Op, user: string, at: nat)
    requires RolesOk(room) && Update(room, actor, op).Ok?
    ensures RoleInRoom(room, actor) != Member
    ensures RoleInRoom(room, actor) == Moderator ==>
              && (op.Ban? || op.Timeout? || op.Unmute?)
              && RoleInRoom(room, op.target) == Member
              && (if op.Ban? then room.modPermissions.canBan else room.modPermissions.canMute)
    ensures var after := Update(room, actor, op).value;
            && (!IsStaff(room, actor) ==> after == room.(banned := after.banned, timeouts := after.timeouts))
            && RoleInRoom(after, user)
               == (if op.SetMemberRole? && user == op.target then op.role.value
                   else if op.Transfer? && user == op.target then Administrator
                   else if op.Transfer? && user == actor then SubAdministrator
                   else RoleInRoom(room, user))
            && (user in after.banned <==>
                  (op.Ban? && user == op.target) || (user in room.banned && !(op.Unban? && user == op.target)))
            && (TimedOut(after, user, at) <==>
                  if op.Timeout? && user == op.target
                  then at < op.now + Clamp(op.seconds, MIN_TIMEOUT_SECS, MAX_TIMEOUT_SECS) * 1000
                  else TimedOut(room, user, at) && !(op.Unmute? && user == op.target))
  {
    RolesAfterUpdate(room, actor, op, user);
    PenaltiesAfterUpdate(room, actor, op, user, at);
  }

  /** Who may ban, mute or kick whom. */
  ghost predicate MayModerate(room: Room, actor: string, target: string, allowed: bool)
  {
    match RoleInRoom(room, actor)
    case Administrator => true
    case SubAdministrator => RoleInRoom(room, target) != Administrator
    case Moderator => RoleInRoom(room, target) == Member && allowed
    case Member => false
  }

  /** When the request is granted. */
  ghost predicate Granted(room: Room, actor: string, op: Op)
  {
    var staff := RoleInRoom(room, actor) in {SubAdministrator, Administrator};
    match op
    case SetMemberRole(target, role) =>
      && staff && role in {Some(Member), Some(Moderator), Some(SubAdministrator)}
      && target != actor && RoleInRoom(room, target) != Administrator
      && (role == Some(Moderator) && RoleInRoom(room, target) != Moderator ==>
            |set user | user in room.roles && room.roles[user] == Moderator| < 5)
      && (role == Some(SubAdministrator) && RoleInRoom(room, target) != SubAdministrator ==>
            |set user | user in room.roles && room.roles[user] == SubAdministrator| < 3)
    case Ban(target, _) => target != actor && MayModerate(room, actor, target, room.modPermissions.canBan)
    case Timeout(target, _, _) => target != actor && MayModerate(room, actor, target, room.modPermissions.canMute)
    case Unmute(target) => MayModerate(room, actor, target, room.modPermissions.canMute)
    case Transfer(target) =>
      && room.owner == Some(actor)
      && (RoleInRoom(room, target) == SubAdministrator
          || (RoleInRoom(room, target) == Moderator
              && |set user | user in room.roles && room.roles[user] == SubAdministrator| < 3))
    case _ => staff
  }

  /** An update succeeds exactly when the room is a community and the request is granted. */
  lemma UpdateGrantedIff(room: Room, actor: string, op: Op)
    ensures Update(room, actor, op).Ok? <==> room.kind == Community && Granted(room, actor, op)
  {
    var roles := room.roles;
    assert Holders(roles, Moderator) == set user | user in roles && roles[user] == Moderator;
    assert Holders(roles, SubAdministrator) == set user | user in roles && roles[user] == SubAdministrator;
  }

  /** Every field of the record after an update, but for roles, bans and timeouts. */
  lemma SettingsAfterUpdate(room: Room, actor: string, op: Op)
    requires Update(room, actor, op).Ok?
    ensures var after := Update(room, actor, op).value;
            && after.description == (if op.SetDescription? then op.description else room.description)
            && after.chatLocked == (if op.SetChatLock? then op.locked else room.chatLocked)
            && after.modPermissions == (if op.SetModPermissions? then op.permissions else room.modPermissions)
            && after.callsEnabled == (if op.SetCallsEnabled? then op.enabled else room.callsEnabled)
            && after.owner == (if op.Transfer? then Some(op.target) else room.owner)
            && after.kind == room.kind && after.title == room.title && after.icon == room.icon
            && after.members == room.members
  {
  }
}
