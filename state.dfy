/**
 * The presence registry of `AppState`: the map of active connections keyed
 * by device id, which `join` and `leave` update, and the readers that count
 * and list it. The event logger is a sink that records the arguments of each
 * call (`logged`), the users broadcast channel a record of what was sent
 * (`published`); clock readings are passed in as nanosecond instants.
 */
module State {
  import opened Wrappers
  import opened Text
  import opened LogDomain

  /** The device id of the admin dashboard's own socket, left out of every user count. */
  const ADMIN_DASHBOARD := "admin-dashboard"

  const NANOS_PER_SEC: nat := 1_000_000_000

  /** One open connection; `connectedAt` is an instant in nanoseconds. */
  datatype ActiveConnection = ActiveConnection(ip: string, device: string, deviceId: string, connectedAt: nat)

  /** The arguments of one `logger.log` call. */
  datatype LogCall = LogCall(ip: string, device: string, deviceId: string, action: string, count: U32, duration: Option<string>)

  /** What the users channel carries. */
  datatype UserMetrics = UserMetrics(activeUsers: U32, totalUsers: U32)

  /** `len() as u32` / `count() as u32`: truncation to 32 bits. */
  function AsU32(n: nat): (r: U32)
    ensures n < U32_MODULUS ==> r == n
  {
    n % U32_MODULUS
  }

  /** `Instant::elapsed().as_secs()`: whole seconds since `since`, zero if the clock reads earlier. */
  function ElapsedSecs(since: nat, now: nat): (s: nat)
    ensures since <= now ==> s * NANOS_PER_SEC <= now - since < (s + 1) * NANOS_PER_SEC
  {
    if now <= since then 0 else (now - since) / NANOS_PER_SEC
  }

  /** The ids of the connections that are not the admin dashboard. */
  function UserIds(m: map<string, ActiveConnection>): set<string>
  {
    set id | id in m && m[id].deviceId != ADMIN_DASHBOARD
  }

  /** Every entry is filed under its own device id. */
  ghost predicate KeyedById(m: map<string, ActiveConnection>)
  {
    forall id :: id in m ==> m[id].deviceId == id
  }

  /** The users are every connection but the dashboard's, so at most all of them. */
  lemma UserIdsCount(m: map<string, ActiveConnection>)
    requires KeyedById(m)
    ensures UserIds(m) == m.Keys - {ADMIN_DASHBOARD}
    ensures |UserIds(m)| == |m| - (if ADMIN_DASHBOARD in m then 1 else 0)
    ensures |UserIds(m)| <= |m|
  {
    assert |m.Keys| == |m|;
    if ADMIN_DASHBOARD in m {
      assert m.Keys == (m.Keys - {ADMIN_DASHBOARD}) + {ADMIN_DASHBOARD};
    } else {
      assert m.Keys - {ADMIN_DASHBOARD} == m.Keys;
    }
  }

  /** Filing a connection under an id adds one entry exactly when the id was absent. */
  lemma InsertSize(m: map<string, ActiveConnection>, id: string, c: ActiveConnection)
    ensures |m[id := c]| == if id in m then |m| else |m| + 1
  {
    if id in m {
      assert m[id := c].Keys == m.Keys;
    } else {
      assert m[id := c].Keys == m.Keys + {id};
    }
    assert |m[id := c].Keys| == |m[id := c]| && |m.Keys| == |m|;
  }

  /** Removing an id drops one entry exactly when the id was present. */
  lemma RemoveSize(m: map<string, ActiveConnection>, id: string)
    ensures |m - {id}| == if id in m then |m| - 1 else |m|
  {
    if id in m {
      assert (m - {id}).Keys == m.Keys - {id};
    } else {
      assert (m - {id}).Keys == m.Keys;
    }
    assert |(m - {id}).Keys| == |m - {id}| && |m.Keys| == |m|;
  }

  lemma UserIdsGrow(m: map<string, ActiveConnection>, seen: set<string>, id: string)
    requires id in m && id !in seen
    ensures UserIds(m) * (seen + {id}) ==
      UserIds(m) * seen + (if m[id].deviceId != ADMIN_DASHBOARD then {id} else {})
    ensures |UserIds(m) * (seen + {id})| ==
      |UserIds(m) * seen| + (if m[id].deviceId != ADMIN_DASHBOARD then 1 else 0)
  {
    assert id !in UserIds(m) * seen;
  }

  lemma MoveOne(pending: set<string>, seen: set<string>, all: set<string>, id: string)
    requires pending !! seen && pending + seen == all && id in pending
    ensures (pending - {id}) !! (seen + {id}) && (pending - {id}) + (seen + {id}) == all
    ensures |pending - {id}| < |pending|
  {
    assert pending == (pending - {id}) + {id};
  }

  /** `users` lists the connection of each id in `got` exactly once. */
  ghost predicate ListsOnce(m: map<string, ActiveConnection>, users: seq<ActiveConnection>, got: set<string>)
  {
    && |users| == |got|
    && (forall i :: 0 <= i < |users| ==> users[i].deviceId in got && users[i].deviceId in m && m[users[i].deviceId] == users[i])
    && (forall id :: id in got ==> id in m && m[id] in users)
    && (forall i, j :: 0 <= i < j < |users| ==> users[i].deviceId != users[j].deviceId)
  }

  /** One step of the listing loop: the id taken from `pending` is listed iff it is not the dashboard's. */
  lemma ListStep(m: map<string, ActiveConnection>, seen: set<string>, got: set<string>,
                 users: seq<ActiveConnection>, id: string)
    requires KeyedById(m) && id in m && id !in seen
    requires got == UserIds(m) * seen && ListsOnce(m, users, got)
    ensures var listed := m[id].deviceId != ADMIN_DASHBOARD;
            var got' := if listed then got + {id} else got;
            got' == UserIds(m) * (seen + {id})
            && ListsOnce(m, if listed then users + [m[id]] else users, got')
  {
    UserIdsGrow(m, seen, id);
    if m[id].deviceId != ADMIN_DASHBOARD {
      AddUser(m, users, got, m[id]);
    }
  }

  lemma AddUser(m: map<string, ActiveConnection>, users: seq<ActiveConnection>, got: set<string>, c: ActiveConnection)
    requires ListsOnce(m, users, got)
    requires c.deviceId !in got && c.deviceId in m && m[c.deviceId] == c
    ensures ListsOnce(m, users + [c], got + {c.deviceId})
  {
    var u := users + [c];
    forall i | 0 <= i < |users| ensures u[i] == users[i] {
    }
    forall id | id in got + {c.deviceId} ensures id in m && m[id] in u {
      if id in got {
        assert m[id] in users;
      } else {
        assert u[|users|] == c;
      }
    }
  }

  /** `hrs`, `mins` and `secs` of an uptime in seconds. */
  function UptimeParts(uptime: nat): (r: (nat, nat, nat))
    ensures r.0 * 3600 + r.1 * 60 + r.2 == uptime
    ensures r.1 < 60 && r.2 < 60
  {
    (uptime / 3600, (uptime % 3600) / 60, uptime % 60)
  }

  /** The parts are the only ones with minutes and seconds below 60. */
  lemma UptimePartsUnique(uptime: nat, h: nat, m: nat, s: nat)
    requires h * 3600 + m * 60 + s == uptime && m < 60 && s < 60
    ensures UptimeParts(uptime) == (h, m, s)
  {
    var q := m * 60 + s;
    assert q < 3600;
    assert uptime == h * 3600 + q;
    assert uptime / 3600 == h && uptime % 3600 == q;
    assert q / 60 == m && q % 60 == s;
    assert uptime % 60 == s by {
      assert uptime == (h * 60 + m) * 60 + s;
    }
  }

  /** The uptime text shows the hours, the minutes below 60 and the seconds below 60 that make up the uptime. */
  lemma UptimeTextMeaning(uptime: nat, h: nat, m: nat, s: nat)
    requires h * 3600 + m * 60 + s == uptime && m < 60 && s < 60
    ensures UptimeText(uptime) == Dec(h) + "h " + Dec(m) + "m " + Dec(s) + "s"
  {
    UptimePartsUnique(uptime, h, m, s);
  }

  /** `format!("{}h {}m {}s", hrs, mins, secs)`. */
  function UptimeText(uptime: nat): string
  {
    var (h, m, s) := UptimeParts(uptime);
    Dec(h) + "h " + Dec(m) + "m " + Dec(s) + "s"
  }

  class AppState {
    var activeConnections: map<string, ActiveConnection>
    /** The calls made to the event logger, oldest first. */
    var logged: seq<LogCall>
    /** The user metrics sent on the users channel, oldest first. */
    var published: seq<UserMetrics>
    /** When the server started, in nanoseconds. */
    const startTime: nat
    /** `crate::utils::format_duration`, which is not part of this model. */
    const formatDuration: nat -> string

    ghost predicate Valid()
      reads this
    {
      KeyedById(activeConnections)
    }

    /** `AppState::new`: no connections yet. */
    constructor(startTime: nat, formatDuration: nat -> string)
      ensures Valid()
      ensures activeConnections == map[] && logged == [] && published == []
      ensures this.startTime == startTime && this.formatDuration == formatDuration
    {
      activeConnections := map[];
      logged := [];
      published := [];
      this.startTime := startTime;
      this.formatDuration := formatDuration;
    }

    /** `get_active_count`: the number of open connections, as a `u32`. */
    function ActiveCount(): U32
      reads this
    {
      AsU32(|activeConnections|)
    }

    /** `get_user_metrics`: the connections that are not the dashboard, counted as both active and total. */
    function CurrentUserMetrics(): (r: UserMetrics)
      reads this
      ensures r.activeUsers == r.totalUsers
    {
      var n := AsU32(|UserIds(activeConnections)|);
      UserMetrics(n, n)
    }

    /** The uptime string of `get_dashboard_stats` and `get_system_metrics` at instant `now`. */
    function Uptime(now: nat): string
    {
      UptimeText(ElapsedSecs(startTime, now))
    }

    /**
     * `join`: files the connection under its device id (replacing any
     * earlier one), logs CONNECTED with the new count, sends the user
     * metrics and returns the count.
     */
    method Join(ip: string, device: string, deviceId: string, now: nat) returns (count: U32)
      requires Valid()
      modifies this
      ensures Valid()
      ensures activeConnections == old(activeConnections)[deviceId := ActiveConnection(ip, device, deviceId, now)]
      ensures |activeConnections| == |old(activeConnections)| + (if deviceId in old(activeConnections) then 0 else 1)
      ensures count == ActiveCount()
      ensures logged == old(logged) + [LogCall(ip, device, deviceId, CONNECTED, count, None)]
      ensures published == old(published) + [CurrentUserMetrics()]
    {
      InsertSize(activeConnections, deviceId, ActiveConnection(ip, device, deviceId, now));
      activeConnections := activeConnections[deviceId := ActiveConnection(ip, device, deviceId, now)];
      count := AsU32(|activeConnections|);
      logged := logged + [LogCall(ip, device, deviceId, CONNECTED, count, None)];
      published := published + [CurrentUserMetrics()];
    }

    /**
     * `leave`: removes the device id's connection, if any, logs DISCONNECTED
     * with the remaining count and, when there was a connection, how long it
     * lasted; sends the user metrics and returns the count.
     */
    method Leave(ip: string, device: string, deviceId: string, now: nat) returns (count: U32)
      requires Valid()
      modifies this
      ensures Valid()
      ensures activeConnections == old(activeConnections) - {deviceId}
      ensures |activeConnections| == |old(activeConnections)| - (if deviceId in old(activeConnections) then 1 else 0)
      ensures count == ActiveCount()
      ensures logged == old(logged) + [LogCall(ip, device, deviceId, DISCONNECTED, count,
        if deviceId in old(activeConnections)
        then Some(formatDuration(ElapsedSecs(old(activeConnections)[deviceId].connectedAt, now)))
        else None)]
      ensures published == old(published) + [CurrentUserMetrics()]
    {
      var duration: Option<string> := None;
      RemoveSize(activeConnections, deviceId);
      if deviceId in activeConnections {
        var conn := activeConnections[deviceId];
        activeConnections := activeConnections - {deviceId};
        duration := Some(formatDuration(ElapsedSecs(conn.connectedAt, now)));
      }
      count := AsU32(|activeConnections|);
      logged := logged + [LogCall(ip, device, deviceId, DISCONNECTED, count, duration)];
      published := published + [CurrentUserMetrics()];
    }

    /**
     * `get_active_users`: every connection that is not the dashboard's, each
     * once, in the map's iteration order (any order).
     */
    method GetActiveUsers() returns (users: seq<ActiveConnection>)
      requires Valid()
      ensures |users| == |UserIds(activeConnections)|
      ensures forall c :: c in users <==>
        c.deviceId in activeConnections && activeConnections[c.deviceId] == c && c.deviceId != ADMIN_DASHBOARD
      ensures forall i, j :: 0 <= i < j < |users| ==> users[i] != users[j]
    {
      var m := activeConnections;
      users := [];
      var pending := m.Keys;
      ghost var seen: set<string> := {};
      ghost var got: set<string> := {};
      while pending != {}
        invariant pending !! seen && pending + seen == m.Keys
        invariant got == UserIds(m) * seen
        invariant ListsOnce(m, users, got)
        decreases |pending|
      {
        var id :| id in pending;
        var c := m[id];
        ListStep(m, seen, got, users, id);
        if c.deviceId != ADMIN_DASHBOARD {
          users := users + [c];
          got := got + {id};
        }
        MoveOne(pending, seen, m.Keys, id);
        pending := pending - {id};
        seen := seen + {id};
      }
      assert got == UserIds(m);
    }
  }

  /**
   * `get_user_metrics` counts one connection fewer than `get_active_count`
   * exactly when the dashboard is connected, and never more (below 2^32
   * connections, where neither count wraps).
   */
  lemma UserCountAtMostActive(st: AppState)
    requires st.Valid() && |st.activeConnections| < U32_MODULUS
    ensures st.CurrentUserMetrics().activeUsers <= st.ActiveCount()
    ensures st.CurrentUserMetrics().activeUsers + (if ADMIN_DASHBOARD in st.activeConnections then 1 else 0) == st.ActiveCount()
  {
    UserIdsCount(st.activeConnections);
  }

  // ------------------------------------------------------------------
  // Sessions over time

  /** A call to `join` or `leave`, as the registry sees it. */
  datatype Presence = Joined(conn: ActiveConnection) | Left(deviceId: string)
  {
    function Id(): string
    {
      match this
      case Joined(c) => c.deviceId
      case Left(id) => id
    }
  }

  /** The registry after a run of joins and leaves from an empty one. */
  function Replay(ops: seq<Presence>): map<string, ActiveConnection>
  {
    if ops == [] then map[]
    else
      var m := Replay(ops[..|ops| - 1]);
      match ops[|ops| - 1]
      case Joined(c) => m[c.deviceId := c]
      case Left(id) => m - {id}
  }

  /** The last join or leave for `id`, if there was one. */
  function LastFor(ops: seq<Presence>, id: string): Option<Presence>
  {
    if ops == [] then None
    else if ops[|ops| - 1].Id() == id then Some(ops[|ops| - 1])
    else LastFor(ops[..|ops| - 1], id)
  }

  /**
   * A device is connected exactly when its last call was a join, with the
   * connection from that join; every entry is filed under its own id.
   */
  lemma {:induction false} ReplayIsLastJoin(ops: seq<Presence>, id: string)
    ensures id in Replay(ops) <==> LastFor(ops, id).Some? && LastFor(ops, id).value.Joined?
    ensures id in Replay(ops) ==> Replay(ops)[id] == LastFor(ops, id).value.conn
    ensures id in Replay(ops) ==> Replay(ops)[id].deviceId == id
  {
    if ops != [] {
      ReplayIsLastJoin(ops[..|ops| - 1], id);
    }
  }
}
