/**
 * SessionStore.load of a cluster: a session that was created on another cluster, or before the server
 * became a cluster, moves to the current cluster. Every cache access and remote call may fail.
 */
module SessionMigration {
  import opened Wrappers

  type ClusterId = string
  type SessionKey = string
  /** An empty session counts as none. */
  type SessionData = map<string, string>

  const NO_SESSION: SessionData := map[]

  /** Where a cluster's cache keeps a session; the standalone server used another key prefix. */
  datatype Slot = Slot(cluster: ClusterId, standalone: bool, key: SessionKey)

  type Stores = map<Slot, SessionData>

  /** `samePrefix` are the clusters whose key prefix is still that of the standalone server. */
  datatype Settings = Settings(defaultCluster: Option<ClusterId>, samePrefix: set<ClusterId>) {
    function ClusterSlot(c: ClusterId, key: SessionKey): Slot {
      Slot(c, false, key)
    }

    function StandaloneSlot(c: ClusterId, key: SessionKey): Slot {
      Slot(c, c !in samePrefix, key)
    }
  }

  /** The cluster that signed the session cookie, if any, and the session key. */
  datatype Cookie = Cookie(source: Option<ClusterId>, key: SessionKey)

  /** A cache access: it raises, or takes effect and raises. */
  datatype Access = Succeeds | Raises(done: bool)

  /** Deleting from the source: a failure may come after the deletion, and may be raised or only logged. */
  datatype Deletion = Deleted | Fails(done: bool, raised: bool)

  /** Asking the source: it answers, its failure counts as no session, or the failure itself raises. */
  datatype SourceGet = Answers | NoAnswer | AnswerRaises

  /** What goes wrong during one load. */
  datatype Faults = Faults(sourceGet: SourceGet, localGetFails: bool, localSet: Access, deletion: Deletion)

  const NO_FAULTS := Faults(Answers, false, Succeeds, Deleted)

  /** What load returns and leaves in _session_key and expired_session_key. */
  datatype Loaded = Loaded(data: SessionData, sessionKey: Option<SessionKey>, expiredKey: Option<SessionKey>)

  const LOST := Loaded(NO_SESSION, None, None)

  // ----- Stores -----

  function Lookup(st: Stores, slot: Slot): SessionData {
    if slot in st then st[slot] else NO_SESSION
  }

  /** Some cluster stores the session. */
  ghost predicate HasSession(st: Stores, key: SessionKey) {
    exists slot :: slot in st && slot.key == key && st[slot] != NO_SESSION
  }

  /** The data is one of the stored copies of the session. */
  ghost predicate IsCopy(st: Stores, key: SessionKey, data: SessionData) {
    exists slot :: slot in st && slot.key == key && st[slot] == data
  }

  // ----- One load, as a function of the stores -----

  predicate IsAuthenticated(key: SessionKey) {
    '-' in key
  }

  function NotFound(key: SessionKey, samedomain: bool): Loaded {
    Loaded(NO_SESSION, None, if IsAuthenticated(key) && samedomain then Some(key) else None)
  }

  /** The load of the base class. */
  function BaseLoad(st: Stores, slot: Slot, samedomain: bool, getFails: bool): Loaded {
    if getFails then LOST
    else if Lookup(st, slot) != NO_SESSION then Loaded(Lookup(st, slot), Some(slot.key), None)
    else NotFound(slot.key, samedomain)
  }

  /** How the cluster treats the cookie. */
  datatype Route = Local | Upgrade | Migrate(from: ClusterId) | NoSource

  function RouteOf(settings: Settings, current: ClusterId, cookie: Cookie): Route {
    if cookie.source == Some(current) then Local
    else if cookie.source.None? && settings.defaultCluster == Some(current) then Upgrade
    else if cookie.source.Some? then Migrate(cookie.source.value)
    else if settings.defaultCluster.Some? then Migrate(settings.defaultCluster.value)
    else NoSource
  }

  /** The cache slot the session is moved from, if it is not loaded in place. */
  function SourceSlot(settings: Settings, current: ClusterId, cookie: Cookie): Option<Slot> {
    match RouteOf(settings, current, cookie)
    case Local => None
    case NoSource => None
    case Upgrade =>
      if current in settings.samePrefix then None else Some(settings.StandaloneSlot(current, cookie.key))
    case Migrate(from) =>
      Some(if cookie.source.Some? then settings.ClusterSlot(from, cookie.key)
           else settings.StandaloneSlot(from, cookie.key))
  }

  function StoreAfterSet(st: Stores, slot: Slot, data: SessionData, a: Access): Stores {
    if a == Raises(false) then st else st[slot := data]
  }

  function StoreAfterDelete(st: Stores, slot: Slot, d: Deletion): Stores {
    if d.Fails? && !d.done then st else st - {slot}
  }

  /** A failed deletion of a local slot always raises. */
  predicate DeletionRaises(route: Route, d: Deletion) {
    d.Fails? && (d.raised || route.Upgrade?)
  }

  function LoadStores(settings: Settings, st: Stores, current: ClusterId, cookie: Cookie, f: Faults): Stores {
    var source := SourceSlot(settings, current, cookie);
    if source.None? || !f.sourceGet.Answers? || Lookup(st, source.value) == NO_SESSION then st
    else
      var st1 := StoreAfterSet(st, settings.ClusterSlot(current, cookie.key), Lookup(st, source.value), f.localSet);
      if f.localSet.Raises? then st1 else StoreAfterDelete(st1, source.value, f.deletion)
  }

  function LoadResult(settings: Settings, st: Stores, current: ClusterId, cookie: Cookie, samedomain: bool,
                      f: Faults): Loaded {
    var route := RouteOf(settings, current, cookie);
    var local := settings.ClusterSlot(current, cookie.key);
    var source := SourceSlot(settings, current, cookie);
    if route.NoSource? then LOST
    else if source.None? then BaseLoad(st, local, samedomain, f.localGetFails)
    else if f.sourceGet.AnswerRaises? then LOST
    else
      var data := if f.sourceGet.NoAnswer? then NO_SESSION else Lookup(st, source.value);
      if data != NO_SESSION then
        if f.localSet.Raises? || DeletionRaises(route, f.deletion) then LOST else Loaded(data, Some(cookie.key), None)
      else if f.localGetFails then LOST
      else if Lookup(st, local) != NO_SESSION then Loaded(Lookup(st, local), Some(cookie.key), None)
      else if route.Upgrade? then NotFound(cookie.key, samedomain)
      else LOST
  }

  // ----- The last copy is never lost -----

  /** Whatever fails: the session stays stored, its copies are copies of what was stored, and other sessions stay as
      they are. */
  lemma LoadKeepsSession(settings: Settings, st: Stores, current: ClusterId, cookie: Cookie, f: Faults)
    ensures var st' := LoadStores(settings, st, current, cookie, f);
            && (HasSession(st, cookie.key) ==> HasSession(st', cookie.key))
            && (forall slot :: slot in st' && slot.key == cookie.key ==> IsCopy(st, cookie.key, st'[slot]))
            && (forall slot: Slot :: slot.key != cookie.key ==> Lookup(st', slot) == Lookup(st, slot))
  {
    var st' := LoadStores(settings, st, current, cookie, f);
    var source := SourceSlot(settings, current, cookie);
    var local := settings.ClusterSlot(current, cookie.key);
    if st' != st {
      assert st'[local] == Lookup(st, source.value) != NO_SESSION;
      assert IsCopy(st, cookie.key, st'[local]);
    }
  }

  /** What load returns is what the current cluster then stores. */
  lemma LoadedIsStored(settings: Settings, st: Stores, current: ClusterId, cookie: Cookie, samedomain: bool, f: Faults)
    ensures var r := LoadResult(settings, st, current, cookie, samedomain, f);
            var st' := LoadStores(settings, st, current, cookie, f);
            r.data != NO_SESSION ==>
              && r.sessionKey == Some(cookie.key)
              && Lookup(st', settings.ClusterSlot(current, cookie.key)) == r.data
  {
  }

  // ----- Without failures -----

  /** A session that can be moved is moved: the current cluster has it, unchanged, and the source no longer has it. */
  lemma Migrated(settings: Settings, st: Stores, current: ClusterId, cookie: Cookie, samedomain: bool)
    requires var source := SourceSlot(settings, current, cookie);
             source.Some? && Lookup(st, source.value) != NO_SESSION
    ensures var data := Lookup(st, SourceSlot(settings, current, cookie).value);
            var local := settings.ClusterSlot(current, cookie.key);
            && SourceSlot(settings, current, cookie).value != local
            && LoadStores(settings, st, current, cookie, NO_FAULTS) ==
               (st - {SourceSlot(settings, current, cookie).value})[local := data]
            && LoadResult(settings, st, current, cookie, samedomain, NO_FAULTS) == Loaded(data, Some(cookie.key), None)
  {
  }

  /** A session of the standalone server is loaded on every cluster, from the slot of the default cluster. */
  lemma StandaloneSessionLoads(settings: Settings, st: Stores, current: ClusterId, key: SessionKey, samedomain: bool)
    requires settings.defaultCluster.Some?
    ensures var c := settings.defaultCluster.value;
            var data := Lookup(st, Slot(c, c !in settings.samePrefix, key));
            data != NO_SESSION ==>
              LoadResult(settings, st, current, Cookie(None, key), samedomain, NO_FAULTS) ==
                Loaded(data, Some(key), None)
  {
  }

  /** A session of a cluster is loaded on every cluster. */
  lemma ClusterSessionLoads(settings: Settings, st: Stores, c: ClusterId, current: ClusterId, key: SessionKey,
                            samedomain: bool)
    ensures var data := Lookup(st, Slot(c, false, key));
            data != NO_SESSION ==>
              LoadResult(settings, st, current, Cookie(Some(c), key), samedomain, NO_FAULTS) ==
              Loaded(data, Some(key), None)
  {
  }

  /** The expired key is kept for signing out, when the session was authenticated in the same domain. */
  function Nothing(key: SessionKey, keep: bool): Loaded {
    Loaded(NO_SESSION, None, if keep && '-' in key then Some(key) else None)
  }

  /**
   * Without failures, for every cookie: the session of the cluster that the cookie names, or of the
   * standalone server, comes first and moves to the current cluster; then the one of the current cluster.
   * Without a default cluster a cookie that names none finds nothing.
   */
  lemma LoadExactly(settings: Settings, st: Stores, current: ClusterId, from: Option<ClusterId>, key: SessionKey,
                    samedomain: bool)
    ensures var r := LoadResult(settings, st, current, Cookie(from, key), samedomain, NO_FAULTS);
            var st' := LoadStores(settings, st, current, Cookie(from, key), NO_FAULTS);
            var local := Slot(current, false, key);
            if from.None? && settings.defaultCluster.None? then r == Nothing(key, false) && st' == st
            else
              var c := if from.Some? then from.value else settings.defaultCluster.value;
              var source := Slot(c, from.None? && c !in settings.samePrefix, key);
              && (Lookup(st, source) != NO_SESSION ==>
                    && r == Loaded(Lookup(st, source), Some(key), None)
                    && st' == if source == local then st else (st - {source})[local := Lookup(st, source)])
              && (Lookup(st, source) == NO_SESSION ==>
                    && st' == st
                    && r == if Lookup(st, local) != NO_SESSION then Loaded(Lookup(st, local), Some(key), None)
                            else Nothing(key, c == current && samedomain))
  {
  }

  /**
   * With failures a session that has to move is returned exactly when the source answers, the session can be
   * stored, and its deletion does not raise. A deletion raises when it fails on the current cluster itself,
   * and otherwise when the failure is raised.
   */
  lemma MoveExactly(settings: Settings, st: Stores, current: ClusterId, from: Option<ClusterId>, key: SessionKey,
                    samedomain: bool, f: Faults)
    requires from.Some? || settings.defaultCluster.Some?
    requires var c := if from.Some? then from.value else settings.defaultCluster.value;
             var source := Slot(c, from.None? && c !in settings.samePrefix, key);
             source != Slot(current, false, key) && Lookup(st, source) != NO_SESSION && f.sourceGet.Answers?
    ensures var c := if from.Some? then from.value else settings.defaultCluster.value;
            var data := Lookup(st, Slot(c, from.None? && c !in settings.samePrefix, key));
            LoadResult(settings, st, current, Cookie(from, key), samedomain, f) ==
            if f.localSet.Succeeds? && (f.deletion.Deleted? || (!f.deletion.raised && c != current))
            then Loaded(data, Some(key), None) else Nothing(key, false)
  {
  }

  /**
   * When no session comes from the source nothing moves; the current cluster is asked next, unless the
   * request to the source raises.
   */
  lemma StaysExactly(settings: Settings, st: Stores, current: ClusterId, from: Option<ClusterId>, key: SessionKey,
                     samedomain: bool, f: Faults)
    requires from.Some? || settings.defaultCluster.Some?
    requires var c := if from.Some? then from.value else settings.defaultCluster.value;
             var source := Slot(c, from.None? && c !in settings.samePrefix, key);
             source == Slot(current, false, key) || Lookup(st, source) == NO_SESSION || !f.sourceGet.Answers?
    ensures var c := if from.Some? then from.value else settings.defaultCluster.value;
            var moves := Slot(c, from.None? && c !in settings.samePrefix, key) != Slot(current, false, key);
            var data := Lookup(st, Slot(current, false, key));
            && LoadStores(settings, st, current, Cookie(from, key), f) == st
            && LoadResult(settings, st, current, Cookie(from, key), samedomain, f) ==
               if f.localGetFails || (moves && f.sourceGet.AnswerRaises?) then Nothing(key, false)
               else if data != NO_SESSION then Loaded(data, Some(key), None)
               else Nothing(key, c == current && samedomain)
  {
  }

  /** A load finds the session exactly when the source or the current cluster stores it. */
  lemma LoadFinds(settings: Settings, st: Stores, current: ClusterId, cookie: Cookie, samedomain: bool)
    ensures var source := SourceSlot(settings, current, cookie);
            LoadResult(settings, st, current, cookie, samedomain, NO_FAULTS).data != NO_SESSION <==>
              && !RouteOf(settings, current, cookie).NoSource?
              && ((source.Some? && Lookup(st, source.value) != NO_SESSION) ||
                  Lookup(st, settings.ClusterSlot(current, cookie.key)) != NO_SESSION)
  {
  }

  /** Presenting the same cookie again changes nothing and returns the same session. */
  lemma LoadTwice(settings: Settings, st: Stores, current: ClusterId, cookie: Cookie, samedomain: bool)
    ensures var st' := LoadStores(settings, st, current, cookie, NO_FAULTS);
            && LoadStores(settings, st', current, cookie, NO_FAULTS) == st'
            && LoadResult(settings, st', current, cookie, samedomain, NO_FAULTS) ==
               LoadResult(settings, st, current, cookie, samedomain, NO_FAULTS)
  {
    var source := SourceSlot(settings, current, cookie);
    if source.Some? && Lookup(st, source.value) != NO_SESSION {
      Migrated(settings, st, current, cookie, samedomain);
    }
  }

  /** From cluster `a` to cluster `b` and back: the stores are as before, and `b`'s cookie no longer works on `b`. */
  lemma MigrateBack(settings: Settings, st: Stores, a: ClusterId, b: ClusterId, key: SessionKey, samedomain: bool)
    requires a != b
    requires Lookup(st, Slot(a, false, key)) != NO_SESSION && Slot(b, false, key) !in st
    ensures var there := LoadStores(settings, st, b, Cookie(Some(a), key), NO_FAULTS);
            var back := LoadStores(settings, there, a, Cookie(Some(b), key), NO_FAULTS);
            && back == st
            && LoadResult(settings, there, a, Cookie(Some(a), key), samedomain, NO_FAULTS).data == NO_SESSION
            && LoadResult(settings, back, b, Cookie(Some(b), key), samedomain, NO_FAULTS).data == NO_SESSION
  {
    var there := LoadStores(settings, st, b, Cookie(Some(a), key), NO_FAULTS);
    Migrated(settings, st, b, Cookie(Some(a), key), samedomain);
    Migrated(settings, there, a, Cookie(Some(b), key), samedomain);
  }

  lemma OthersKeepSession(settings: Settings, st: Stores, current: ClusterId, cookie: Cookie, f: Faults)
    ensures forall key :: HasSession(st, key) ==> HasSession(LoadStores(settings, st, current, cookie, f), key)
  {
    var st' := LoadStores(settings, st, current, cookie, f);
    LoadKeepsSession(settings, st, current, cookie, f);
    forall key | HasSession(st, key) ensures HasSession(st', key) {
      if key != cookie.key {
        var slot :| slot in st && slot.key == key && st[slot] != NO_SESSION;
        assert Lookup(st', slot) == Lookup(st, slot);
        assert slot in st';
      }
    }
  }

  lemma SaveKeepsSessions(st: Stores, slot: Slot, data: SessionData)
    requires data != NO_SESSION
    ensures forall key :: HasSession(st, key) ==> HasSession(st[slot := data], key)
  {
    forall key | HasSession(st, key) ensures HasSession(st[slot := data], key) {
      var s :| s in st && s.key == key && st[s] != NO_SESSION;
      assert s in st[slot := data];
    }
  }

  // ----- The clusters and runs of loads -----

  /** A load on a cluster, or a request that saves a non-empty session there. */
  datatype Event =
    | LoadEvent(current: ClusterId, cookie: Cookie, samedomain: bool, faults: Faults)
    | SaveEvent(current: ClusterId, key: SessionKey, data: SessionData)

  function StoresAfter(settings: Settings, st: Stores, events: seq<Event>): Stores {
    if events == [] then st
    else
      var before := StoresAfter(settings, st, events[..|events| - 1]);
      match events[|events| - 1]
      case LoadEvent(current, cookie, _, faults) => LoadStores(settings, before, current, cookie, faults)
      case SaveEvent(current, key, data) => before[settings.ClusterSlot(current, key) := data]
  }

  /** Event by event: a load moves sessions, and a save stores one at its cluster. */
  lemma StoresAfterOne(settings: Settings, st: Stores, events: seq<Event>, e: Event)
    ensures StoresAfter(settings, st, []) == st
    ensures var before := StoresAfter(settings, st, events);
            StoresAfter(settings, st, events + [e]) ==
            if e.LoadEvent? then LoadStores(settings, before, e.current, e.cookie, e.faults)
            else before[Slot(e.current, false, e.key) := e.data]
  {
    assert (events + [e])[..|events|] == events;
  }

  predicate SavesSessions(events: seq<Event>) {
    forall e :: e in events && e.SaveEvent? ==> e.data != NO_SESSION
  }

  /** A session that is stored at any time of a run, from the start or since it was saved, stays stored. */
  lemma {:induction false} RunKeepsSession(settings: Settings, st: Stores, events: seq<Event>, n: nat, key: SessionKey)
    requires SavesSessions(events) && n <= |events|
    requires HasSession(StoresAfter(settings, st, events[..n]), key)
    ensures HasSession(StoresAfter(settings, st, events), key)
    decreases |events|
  {
    hide HasSession, LoadStores;
    if n == |events| {
      assert events[..n] == events;
    } else {
      var front, last := events[..|events| - 1], events[|events| - 1];
      assert events[..n] == front[..n] && last in events;
      RunKeepsSession(settings, st, front, n, key);
      var before := StoresAfter(settings, st, front);
      match last
      case LoadEvent(current, cookie, _, faults) => OthersKeepSession(settings, before, current, cookie, faults);
      case SaveEvent(current, k, data) => SaveKeepsSessions(before, settings.ClusterSlot(current, k), data);
    }
  }

  class Clusters {
    const settings: Settings
    var stores: Stores

    constructor (settings: Settings)
      ensures this.settings == settings && stores == map[]
    {
      this.settings := settings;
      stores := map[];
    }

    /** The session as the source answers a request for it; most failed requests count as no session. */
    method GetSourceSession(slot: Slot, get: SourceGet) returns (raised: bool, data: SessionData)
      ensures raised == get.AnswerRaises?
      ensures data == if get.Answers? then Lookup(stores, slot) else NO_SESSION
    {
      raised := get.AnswerRaises?;
      data := if get.Answers? && slot in stores then stores[slot] else NO_SESSION;
    }

    method SetSession(slot: Slot, data: SessionData, a: Access) returns (raised: bool)
      modifies this`stores
      ensures stores == StoreAfterSet(old(stores), slot, data, a) && raised == a.Raises?
    {
      if a != Raises(false) {
        stores := stores[slot := data];
      }
      raised := a.Raises?;
    }

    method DeleteSourceSession(slot: Slot, d: Deletion, route: Route) returns (raised: bool)
      modifies this`stores
      ensures stores == StoreAfterDelete(old(stores), slot, d) && raised == DeletionRaises(route, d)
    {
      if d.Deleted? || d.done {
        stores := stores - {slot};
      }
      raised := DeletionRaises(route, d);
    }

    /** SessionStore.load on cluster `current` */
    method Load(current: ClusterId, cookie: Cookie, samedomain: bool, f: Faults) returns (r: Loaded)
      modifies this`stores
      ensures stores == LoadStores(settings, old(stores), current, cookie, f)
      ensures r == LoadResult(settings, old(stores), current, cookie, samedomain, f)
      ensures HasSession(old(stores), cookie.key) ==> HasSession(stores, cookie.key)
    {
      LoadKeepsSession(settings, stores, current, cookie, f);
      var local := settings.ClusterSlot(current, cookie.key);
      if cookie.source == Some(current) {
        return BaseLoad(stores, local, samedomain, f.localGetFails);
      }
      if cookie.source.None? && settings.defaultCluster == Some(current) {
        if current in settings.samePrefix {
          return BaseLoad(stores, local, samedomain, f.localGetFails);
        }
        var raised, data := Move(settings.StandaloneSlot(current, cookie.key), local, f, Upgrade);
        return if raised then LOST
               else if data != NO_SESSION then Loaded(data, Some(cookie.key), None)
               else NotFound(cookie.key, samedomain);
      } else if cookie.source.Some? || settings.defaultCluster.Some? {
        var from := if cookie.source.Some? then cookie.source.value else settings.defaultCluster.value;
        var slot := if cookie.source.Some? then settings.ClusterSlot(from, cookie.key)
          else settings.StandaloneSlot(from, cookie.key);
        var raised, data := Move(slot, local, f, Migrate(from));
        return if raised || data == NO_SESSION then LOST else Loaded(data, Some(cookie.key), None);
      } else {
        return LOST;
      }
    }

    /** Moves a session between slots: set at the target, then delete from the source; without a source session, looks
        at the target. */
    method Move(source: Slot, local: Slot, f: Faults, route: Route) returns (raised: bool, data: SessionData)
      modifies this`stores
      ensures var d := if f.sourceGet.Answers? then Lookup(old(stores), source) else NO_SESSION;
              if f.sourceGet.AnswerRaises? then stores == old(stores) && raised
              else if d != NO_SESSION then
                var st1 := StoreAfterSet(old(stores), local, d, f.localSet);
                && stores == (if f.localSet.Raises? then st1 else StoreAfterDelete(st1, source, f.deletion))
                && raised == (f.localSet.Raises? || DeletionRaises(route, f.deletion)) && data == d
              else
                && stores == old(stores) && raised == f.localGetFails
                && (!raised ==> data == Lookup(stores, local))
    {
      raised, data := GetSourceSession(source, f.sourceGet);
      if raised {
        return;
      }
      if data != NO_SESSION {
        raised := SetSession(local, data, f.localSet);
        if !raised {
          raised := DeleteSourceSession(source, f.deletion, route);
        }
      } else {
        raised := f.localGetFails;
        if !raised {
          data := Lookup(stores, local);
        }
      }
    }

    /** A run of loads and saves, one after the other, with any failures and on any clusters. */
    method Serve(events: seq<Event>)
      requires SavesSessions(events)
      modifies this`stores
      ensures stores == StoresAfter(settings, old(stores), events)
      ensures forall n, key ::
                0 <= n <= |events| && HasSession(StoresAfter(settings, old(stores), events[..n]), key) ==>
                HasSession(stores, key)
    {
      for i := 0 to |events|
        invariant stores == StoresAfter(settings, old(stores), events[..i])
      {
        assert events[..i + 1][..i] == events[..i];
        match events[i]
        case LoadEvent(current, cookie, samedomain, faults) =>
          var _ := Load(current, cookie, samedomain, faults);
        case SaveEvent(current, key, data) =>
          stores := stores[settings.ClusterSlot(current, key) := data];
      }
      assert events[..|events|] == events;
      forall n, key | 0 <= n <= |events| && HasSession(StoresAfter(settings, old(stores), events[..n]), key)
        ensures HasSession(stores, key)
      {
        RunKeepsSession(settings, old(stores), events, n, key);
      }
    }
  }
}
