/** internal/auth/auth.go: sessions that hold several identities, one of them active. */
module Sessions {
  import opened Calendar

  /** Eight hours, in nanoseconds like every time here. */
  const SESSION_MAX_AGE: int := 8 * 3600 * 1_000_000_000

  datatype Identity = Identity(username: string, role: string, userType: string, entityId: string, isSuperAdmin: bool,
                               displayName: string)

  /** The top-level fields mirror the active identity. */
  datatype Session = Session(username: string, role: string, userType: string, entityId: string, isSuperAdmin: bool,
                             identities: seq<Identity>, activeIndex: int, expiresAt: int)

  type Table = map<string, Session>

  function SyncActive(s: Session): Session {
    if s.identities == [] then s
    else
      var i := if 0 <= s.activeIndex < |s.identities| then s.activeIndex else 0;
      var id := s.identities[i];
      s.(activeIndex := i, username := id.username, role := id.role, userType := id.userType, entityId := id.entityId,
         isSuperAdmin := id.isSuperAdmin)
  }

  predicate SamePair(a: Identity, b: Identity) {
    a.username == b.username && a.role == b.role
  }

  /** Where an identity with this username and role stands, or the end. */
  function IndexOf(ids: seq<Identity>, id: Identity): (i: nat)
    ensures i <= |ids|
    ensures i < |ids| ==> SamePair(ids[i], id)
    ensures forall j :: 0 <= j < i ==> !SamePair(ids[j], id)
  {
    if ids == [] || SamePair(ids[0], id) then 0 else 1 + IndexOf(ids[1..], id)
  }

  function Put(ids: seq<Identity>, id: Identity): seq<Identity> {
    var i := IndexOf(ids, id);
    if i < |ids| then ids[i := id] else ids + [id]
  }

  /** The active index after one identity is gone from a list that had `before` of them. */
  function AfterRemoval(active: int, index: int, before: int): int {
    if active >= before - 1 then before - 2 else if active > index then active - 1 else active
  }

  function Without(s: Session, index: int): Session
    requires 0 <= index < |s.identities|
  {
    SyncActive(s.(identities := s.identities[..index] + s.identities[index + 1..],
                  activeIndex := AfterRemoval(s.activeIndex, index, |s.identities|)))
  }

  function Elevated(s: Session): Session {
    var ids := if 0 <= s.activeIndex < |s.identities|
               then s.identities[s.activeIndex := s.identities[s.activeIndex].(isSuperAdmin := true)]
               else s.identities;
    s.(identities := ids, isSuperAdmin := true)
  }

  function Fresh(id: Identity, now: int): Session {
    SyncActive(Session("", "", "", "", false, [id], 0, now + SESSION_MAX_AGE))
  }

  // ---------- the store as steps ----------

  datatype Event =
    | Create(token: string, id: Identity, now: int)
    | SetSuperAdmin(token: string)
    | Get(token: string, now: int)
    | Delete(token: string)
    | Add(token: string, id: Identity)
    | Switch(token: string, index: int)
    | Remove(token: string, index: int)

  datatype Reply = Done | Found(session: Session) | NotFound | OutOfRange | Index(index: int) | More(more: bool)

  function Step(m: Table, e: Event): (Table, Reply) {
    match e
    case Create(t, id, now) => (m[t := Fresh(id, now)], Done)
    case SetSuperAdmin(t) => (if t in m then m[t := Elevated(m[t])] else m, Done)
    case Get(t, now) =>
      if t !in m then (m, NotFound)
      else if now > m[t].expiresAt then (m - {t}, NotFound)
      else (m, Found(SyncActive(m[t])))
    case Delete(t) => (m - {t}, Done)
    case Add(t, id) =>
      if t !in m then (m, NotFound)
      else (m[t := m[t].(identities := Put(m[t].identities, id))], Index(IndexOf(m[t].identities, id)))
    case Switch(t, i) =>
      if t !in m then (m, NotFound)
      else if !(0 <= i < |m[t].identities|) then (m, OutOfRange)
      else (m[t := SyncActive(m[t].(activeIndex := i))], Done)
    case Remove(t, i) =>
      if t !in m then (m, NotFound)
      else if !(0 <= i < |m[t].identities|) then (m, OutOfRange)
      else if |m[t].identities| == 1 then (m - {t}, More(false))
      else (m[t := Without(m[t], i)], More(true))
  }

  function Run(m: Table, events: seq<Event>): Table {
    if events == [] then m else Step(Run(m, events[..|events| - 1]), events[|events| - 1]).0
  }

  predicate DistinctPairs(ids: seq<Identity>) {
    forall i, j :: 0 <= i < j < |ids| ==> !SamePair(ids[i], ids[j])
  }

  predicate Healthy(s: Session) {
    s.identities != [] && 0 <= s.activeIndex < |s.identities| && DistinctPairs(s.identities)
  }

  predicate Inv(m: Table) {
    forall t <- m :: Healthy(m[t])
  }

  lemma WithoutIsHealthy(s: Session, i: int)
    requires Healthy(s) && 0 <= i < |s.identities| && |s.identities| > 1
    ensures Healthy(Without(s, i))
  {
    var ids := s.identities[..i] + s.identities[i + 1..];
    assert forall k :: 0 <= k < |ids| ==> ids[k] == s.identities[if k < i then k else k + 1];
  }

  lemma PutIsHealthy(s: Session, id: Identity)
    requires Healthy(s)
    ensures Healthy(s.(identities := Put(s.identities, id)))
  {
  }

  lemma StepKeepsInv(m: Table, e: Event)
    requires Inv(m)
    ensures Inv(Step(m, e).0)
  {
    match e
    case Add(t, id) => if t in m { PutIsHealthy(m[t], id); }
    case Remove(t, i) =>
      if t in m && 0 <= i < |m[t].identities| && |m[t].identities| > 1 {
        WithoutIsHealthy(m[t], i);
      }
    case _ =>
  }

  /** Over any run every session has identities, a valid active index and no two identities with the same
      username and role. */
  lemma {:induction false} RunKeepsInv(m: Table, events: seq<Event>)
    requires Inv(m)
    ensures Inv(Run(m, events))
  {
    hide Step, Inv;
    if events != [] {
      RunKeepsInv(m, events[..|events| - 1]);
      StepKeepsInv(Run(m, events[..|events| - 1]), events[|events| - 1]);
    }
  }

  function Active(s: Session): Identity
    requires Healthy(s)
  {
    s.identities[s.activeIndex]
  }

  predicate Mirrors(s: Session, id: Identity) {
    && s.username == id.username && s.role == id.role && s.userType == id.userType && s.entityId == id.entityId
    && s.isSuperAdmin == id.isSuperAdmin
  }

  /** `Get` finds a live session exactly until it expires, and its top-level fields are the active
      identity's, even where an `AddIdentity` left the stored ones behind. */
  lemma GetShowsActive(events: seq<Event>, t: string, now: int)
    ensures var m := Run(map[], events);
            var (after, reply) := Step(m, Get(t, now));
            if t in m && now <= m[t].expiresAt then
              Healthy(m[t]) && reply.Found? && after == m
              && Mirrors(reply.session, Active(m[t])) && reply.session.identities == m[t].identities
            else reply == NotFound && after == m - {t}
  {
    RunKeepsInv(map[], events);
  }

  /** Removing an identity that is not active leaves the active one active, and the others in order. */
  lemma RemoveKeepsActive(s: Session, i: int)
    requires Healthy(s) && 0 <= i < |s.identities| && i != s.activeIndex
    ensures |s.identities| > 1
    ensures Healthy(Without(s, i)) && Active(Without(s, i)) == Active(s) && Mirrors(Without(s, i), Active(s))
    ensures Without(s, i).identities == s.identities[..i] + s.identities[i + 1..]
  {
    WithoutIsHealthy(s, i);
  }

  /** Removing the active identity makes the one after it active, or the new last one. */
  lemma RemoveActiveMovesOn(s: Session)
    requires Healthy(s) && |s.identities| > 1
    ensures var i, n := s.activeIndex, |s.identities|;
            && Healthy(Without(s, i))
            && Active(Without(s, i)) == s.identities[if i < n - 1 then i + 1 else n - 2]
            && Mirrors(Without(s, i), Active(Without(s, i)))
  {
    WithoutIsHealthy(s, s.activeIndex);
  }

  /** Adding an identity and switching to the index it got makes it the active one; the pair is then in
      the session once, and every other pair is untouched. */
  lemma AddThenSwitch(m: Table, t: string, id: Identity)
    requires Inv(m) && t in m
    ensures var (added, reply) := Step(m, Add(t, id));
            && reply.Index?
            && var (switched, done) := Step(added, Switch(t, reply.index));
               && done == Done && t in switched && Healthy(switched[t])
               && Active(switched[t]) == id && Mirrors(switched[t], id)
               && (forall other <- m[t].identities :: !SamePair(other, id) ==> other in switched[t].identities)
               && (forall other <- switched[t].identities :: other == id || other in m[t].identities)
  {
    PutIsHealthy(m[t], id);
    var ids, i := m[t].identities, IndexOf(m[t].identities, id);
    var put := Put(ids, id);
    forall other | other in ids && !SamePair(other, id) ensures other in put {
      var k :| 0 <= k < |ids| && ids[k] == other;
      assert put[k] == other;
    }
  }

  /** Marking the superadmin touches the active identity's mark and nothing else. */
  lemma ElevatesActive(s: Session)
    requires Healthy(s)
    ensures Healthy(Elevated(s)) && Active(Elevated(s)) == Active(s).(isSuperAdmin := true)
    ensures forall j :: 0 <= j < |s.identities| && j != s.activeIndex ==> Elevated(s).identities[j] == s.identities[j]
  {
  }

  // ---------- lifetime ----------

  predicate Creates(events: seq<Event>, t: string) {
    events != [] &&
    ((events[|events| - 1].Create? && events[|events| - 1].token == t) || Creates(events[..|events| - 1], t))
  }

  /** Nothing but `Create` makes a session, or moves its end. */
  lemma {:induction false} LifeIsFixed(m: Table, events: seq<Event>, t: string)
    requires !Creates(events, t)
    ensures t in Run(m, events) ==> t in m && Run(m, events)[t].expiresAt == m[t].expiresAt
  {
    if events != [] {
      LifeIsFixed(m, events[..|events| - 1], t);
      hide Put, IndexOf;
    }
  }

  /** A session is never found once eight hours have passed since it was created, whatever happened
      between. */
  lemma NeverFoundLate(m: Table, t: string, id: Identity, start: int, events: seq<Event>, now: int)
    requires !Creates(events, t) && now > start + SESSION_MAX_AGE
    ensures Step(Run(Step(m, Create(t, id, start)).0, events), Get(t, now)).1 == NotFound
  {
    LifeIsFixed(Step(m, Create(t, id, start)).0, events, t);
    hide Run;
  }

  // ---------- the store ----------

  class SessionStore {
    var sessions: Table

    constructor ()
      ensures sessions == map[]
    {
      sessions := map[];
    }

    /** CreateWithDisplayName, with the random token as a parameter. */
    method CreateSession(token: string, id: Identity, now: int)
      modifies this
      ensures sessions == Step(old(sessions), Create(token, id.(isSuperAdmin := false), now)).0
    {
      var sess := Session("", "", "", "", false, [id.(isSuperAdmin := false)], 0, now + SESSION_MAX_AGE);
      sess := SyncActive(sess);
      sessions := sessions[token := sess];
    }

    method MarkSuperAdmin(token: string)
      modifies this
      ensures sessions == Step(old(sessions), SetSuperAdmin(token)).0
    {
      if token in sessions {
        var sess := sessions[token];
        if |sess.identities| > 0 && 0 <= sess.activeIndex < |sess.identities| {
          sess := sess.(identities := sess.identities[sess.activeIndex :=
                                                      sess.identities[sess.activeIndex].(isSuperAdmin := true)]);
        }
        sess := sess.(isSuperAdmin := true);
        sessions := sessions[token := sess];
      }
    }

    method GetSession(token: string, now: int) returns (session: Option<Session>)
      modifies this
      ensures sessions == Step(old(sessions), Get(token, now)).0
      ensures Step(old(sessions), Get(token, now)).1 == if session.Some? then Found(session.value) else NotFound
    {
      if token !in sessions || now > sessions[token].expiresAt {
        if token in sessions {
          DeleteSession(token);
        }
        return None;
      }
      return Some(SyncActive(sessions[token]));
    }

    method DeleteSession(token: string)
      modifies this
      ensures sessions == Step(old(sessions), Delete(token)).0
    {
      sessions := sessions - {token};
    }

    /** Replaces the identity with the same username and role, or appends; -1 if there is no session. */
    method AddIdentity(token: string, id: Identity) returns (index: int)
      modifies this
      ensures sessions == Step(old(sessions), Add(token, id)).0
      ensures Step(old(sessions), Add(token, id)).1 == if index == -1 then NotFound else Index(index)
    {
      if token !in sessions {
        return -1;
      }
      var sess := sessions[token];
      var ids := sess.identities;
      for i := 0 to |ids|
        invariant sessions == old(sessions)
        invariant forall j :: 0 <= j < i ==> !SamePair(ids[j], id)
      {
        if ids[i].username == id.username && ids[i].role == id.role {
          assert IndexOf(ids, id) == i;
          sessions := sessions[token := sess.(identities := ids[i := id])];
          return i;
        }
      }
      assert IndexOf(ids, id) == |ids|;
      sessions := sessions[token := sess.(identities := ids + [id])];
      return |ids|;
    }

    method SwitchIdentity(token: string, index: int) returns (reply: Reply)
      modifies this
      ensures (sessions, reply) == Step(old(sessions), Switch(token, index))
    {
      if token !in sessions {
        return NotFound;
      }
      var sess := sessions[token];
      if index < 0 || index >= |sess.identities| {
        return OutOfRange;
      }
      sess := SyncActive(sess.(activeIndex := index));
      sessions := sessions[token := sess];
      return Done;
    }

    method RemoveIdentity(token: string, index: int) returns (reply: Reply)
      modifies this
      ensures (sessions, reply) == Step(old(sessions), Remove(token, index))
    {
      if token !in sessions {
        return NotFound;
      }
      var sess := sessions[token];
      if index < 0 || index >= |sess.identities| {
        return OutOfRange;
      }
      sess := sess.(identities := sess.identities[..index] + sess.identities[index + 1..]);
      if |sess.identities| == 0 {
        sessions := sessions - {token};
        return More(false);
      }
      if sess.activeIndex >= |sess.identities| {
        sess := sess.(activeIndex := |sess.identities| - 1);
      } else if sess.activeIndex > index {
        sess := sess.(activeIndex := sess.activeIndex - 1);
      }
      sess := SyncActive(sess);
      sessions := sessions[token := sess];
      return More(true);
    }
  }
}
