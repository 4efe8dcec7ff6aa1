/** nets/connect.go: the two-way connection table, and the handlers of nets/tcp.go
    (lines 184-226) that change it and tell the listener. A connection is known by
    its identity only. */
module Connections {
  import opened Wrappers
  import opened Bytes

  type Conn = int

  datatype Info = Info(nodeId: Str, url: Str, proto: Str, conn: Conn)

  const HASH_SIGN: Byte := 35

  /** ctx.GetNodeNameFromId: the part of an id in front of the first '#'. */
  function NameOf(id: Str): Str {
    if id == [] || id[0] == HASH_SIGN then [] else [id[0]] + NameOf(id[1..])
  }

  /** Every id is a name, or a name and something behind a '#'. */
  lemma {:induction false} NameOfIs(name: Str, rest: Str)
    requires 35 !in name
    ensures NameOf(name) == name && NameOf(name + [35] + rest) == name
  {
    if name != [] {
      NameOfIs(name[1..], rest);
      assert (name + [35] + rest)[1..] == name[1..] + [35] + rest;
    }
  }

  // ---- The table as a value ----

  datatype Table = Table(kv: map<Str, map<Str, Info>>, vk: map<Conn, Str>) {

    function Bucket(name: Str): map<Str, Info> {
      if name in kv then kv[name] else map[]
    }

    /** KV(name): a missing bucket is created. */
    function Touch(name: Str): Table {
      if name in kv then this else this.(kv := kv[name := map[]])
    }

    function Lookup(id: Str): Option<Info> {
      var b := Bucket(NameOf(id));
      if id in b then Some(b[id]) else None
    }

    function NodeOf(conn: Conn): Option<Str> {
      if conn in vk then Some(vk[conn]) else None
    }

    function CanAdd(info: Info): bool {
      Lookup(info.nodeId).None? && info.conn !in vk
    }

    function Add(info: Info): Table {
      var name := NameOf(info.nodeId);
      var t := Touch(name);
      if CanAdd(info) then
        Table(t.kv[name := t.kv[name][info.nodeId := info]], vk[info.conn := info.nodeId])
      else
        t
    }

    /** The two maps are updated independently: nothing checks that id and conn
        belong together. */
    function Remove(id: Str, conn: Conn): Table {
      var name := NameOf(id);
      var t := Touch(name);
      Table(t.kv[name := t.kv[name] - {id}], vk - {conn})
    }

    /** The table is a bijection between ids and connections, and every id is in
        the bucket of its own name. */
    ghost predicate Valid() {
      && (forall n, id | n in kv && id in kv[n] ::
            NameOf(id) == n && kv[n][id].nodeId == id && kv[n][id].conn in vk && vk[kv[n][id].conn] == id)
      && (forall c | c in vk :: Lookup(vk[c]).Some? && Lookup(vk[c]).value.conn == c)
    }
  }

  const EMPTY := Table(map[], map[])

  /** The same connections are found; only empty buckets may differ. */
  ghost predicate SameEntries(t: Table, u: Table) {
    t.vk == u.vk && forall n :: t.Bucket(n) == u.Bucket(n)
  }

  // ---- The table as an object ----

  class ConnectManager {
    var kv: map<Str, map<Str, Info>>
    var vk: map<Conn, Str>

    constructor ()
      ensures View() == EMPTY
    {
      kv, vk := map[], map[];
    }

    function View(): Table
      reads this
    {
      Table(kv, vk)
    }

    method KV(name: Str)
      modifies this
      ensures View() == old(View()).Touch(name)
    {
      if name !in kv {
        kv := kv[name := map[]];
      }
    }

    method AddConnectInfo(info: Info) returns (ok: bool)
      modifies this
      ensures ok == old(View()).CanAdd(info) && View() == old(View()).Add(info)
    {
      var name := NameOf(info.nodeId);
      KV(name);
      if info.nodeId in kv[name] || info.conn in vk {
        return false;
      }
      kv := kv[name := kv[name][info.nodeId := info]];
      vk := vk[info.conn := info.nodeId];
      ok := true;
    }

    method RemoveConnectInfo(id: Str, conn: Conn)
      modifies this
      ensures View() == old(View()).Remove(id, conn)
    {
      var name := NameOf(id);
      KV(name);
      if id in kv[name] {
        kv := kv[name := kv[name] - {id}];
      } else {
        assert kv[name] - {id} == kv[name] && kv[name := kv[name]] == kv;
      }
      if conn in vk {
        vk := vk - {conn};
      } else {
        assert vk - {conn} == vk;
      }
    }

    /** A lookup, too, creates the bucket it misses. */
    method GetConnectInfo(id: Str) returns (info: Option<Info>)
      modifies this
      ensures info == old(View()).Lookup(id) && View() == old(View()).Touch(NameOf(id))
    {
      var name := NameOf(id);
      KV(name);
      info := if id in kv[name] then Some(kv[name][id]) else None;
    }

    /** The inverse of GetConnectInfo: the id found is the one whose info holds the
        connection, and none is found iff no info holds it. */
    method GetNodeIdByConn(conn: Conn) returns (id: Option<Str>)
      ensures id == View().NodeOf(conn)
      ensures View().Valid() ==>
                forall i :: id == Some(i) <==> View().Lookup(i).Some? && View().Lookup(i).value.conn == conn
    {
      id := if conn in vk then Some(vk[conn]) else None;
    }

    /** The ids of one bucket, each once, in the order `range` visits them. */
    method GetNodes(name: Str) returns (ids: seq<Str>)
      ensures forall id :: id in ids <==> id in View().Bucket(name)
      ensures forall i, j | 0 <= i < j < |ids| :: ids[i] != ids[j]
    {
      ids := [];
      if name in kv {
        var left := kv[name].Keys;
        while left != {}
          invariant forall id :: id in kv[name] <==> id in ids || id in left
          invariant forall i | 0 <= i < |ids| :: ids[i] !in left
          invariant forall i, j | 0 <= i < j < |ids| :: ids[i] != ids[j]
          decreases left
        {
          var id :| id in left;
          ids := ids + [id];
          left := left - {id};
        }
      }
    }
  }

  // ---- What every operation keeps ----

  lemma TouchKeeps(t: Table, name: Str)
    ensures SameEntries(t.Touch(name), t)
    ensures t.Valid() ==> t.Touch(name).Valid()
    ensures forall id :: t.Touch(name).Lookup(id) == t.Lookup(id)
  {
  }

  /** Both directions of the index agree: c is the connection of id iff id is the
      node of c; and an id is listed under its own name and under no other. */
  lemma MutuallyInverse(t: Table, id: Str, c: Conn, name: Str)
    requires t.Valid()
    ensures t.NodeOf(c) == Some(id) <==> t.Lookup(id).Some? && t.Lookup(id).value.conn == c
    ensures id in t.Bucket(name) <==> t.Lookup(id).Some? && name == NameOf(id)
  {
  }

  lemma AddLookup(t: Table, info: Info, id: Str)
    ensures t.Add(info).Lookup(id) == if id == info.nodeId && t.CanAdd(info) then Some(info) else t.Lookup(id)
    ensures !t.CanAdd(info) ==> SameEntries(t.Add(info), t)
  {
  }

  lemma AddKeeps(t: Table, info: Info)
    requires t.Valid()
    ensures t.Add(info).Valid()
    ensures forall id :: t.Add(info).Lookup(id) == if id == info.nodeId && t.CanAdd(info) then Some(info) else t.Lookup(id)
    ensures !t.CanAdd(info) ==> SameEntries(t.Add(info), t)
  {
    var u := t.Add(info);
    forall id ensures u.Lookup(id) == if id == info.nodeId && t.CanAdd(info) then Some(info) else t.Lookup(id) {
      AddLookup(t, info, id);
    }
    if t.CanAdd(info) {
      AddValid(t, u, info);
    } else {
      TouchKeeps(t, NameOf(info.nodeId));
    }
  }

  lemma AddValid(t: Table, u: Table, info: Info)
    requires t.Valid() && t.CanAdd(info) && u == t.Add(info)
    requires forall id :: u.Lookup(id) == if id == info.nodeId then Some(info) else t.Lookup(id)
    ensures u.Valid()
  {
    forall n, id | n in u.kv && id in u.kv[n]
      ensures NameOf(id) == n && u.kv[n][id].nodeId == id && u.kv[n][id].conn in u.vk && u.vk[u.kv[n][id].conn] == id
    {
      if id != info.nodeId { assert n in t.kv && id in t.kv[n]; }
    }
    forall c | c in u.vk ensures u.Lookup(u.vk[c]).Some? && u.Lookup(u.vk[c]).value.conn == c {
      if c != info.conn { assert t.Lookup(t.vk[c]).value.conn == c; }
    }
  }

  /** id and conn are stored together, or neither is stored. */
  predicate Paired(t: Table, id: Str, conn: Conn) {
    (conn in t.vk && t.vk[conn] == id) || (t.Lookup(id).None? && conn !in t.vk)
  }

  lemma RemoveLookup(t: Table, id: Str, conn: Conn, other: Str)
    ensures t.Remove(id, conn).Lookup(other) == if other == id then None else t.Lookup(other)
  {
  }

  /** Removing keeps the table a bijection iff the two keys belong together; the
      code relies on its callers for that. */
  lemma RemoveKeepsIff(t: Table, id: Str, conn: Conn)
    requires t.Valid()
    ensures t.Remove(id, conn).Valid() <==> Paired(t, id, conn)
  {
    var u := t.Remove(id, conn);
    forall other
      ensures u.Lookup(other) == if other == id then None else t.Lookup(other)
    {
      RemoveLookup(t, id, conn, other);
    }
    if Paired(t, id, conn) {
      forall n, i | n in u.kv && i in u.kv[n]
        ensures NameOf(i) == n && u.kv[n][i].nodeId == i && u.kv[n][i].conn in u.vk && u.vk[u.kv[n][i].conn] == i
      {
        assert n in t.kv && i in t.kv[n];
      }
      forall c | c in u.vk
        ensures u.Lookup(u.vk[c]).Some? && u.Lookup(u.vk[c]).value.conn == c
      {
        assert t.Lookup(t.vk[c]).value.conn == c;
      }
    } else if t.Lookup(id).Some? {
      var c := t.Lookup(id).value.conn;
      assert c != conn && c in u.vk && u.Lookup(u.vk[c]).None?;
    } else {
      var i := t.vk[conn];
      var n := NameOf(i);
      assert n in t.kv && i in t.kv[n];
      assert n in u.kv && i in u.kv[n] && u.kv[n][i].conn == conn;
    }
  }

  // ---- The handlers and the listener ----

  datatype Event = Connected(id: Str) | Closed(id: Str) | Failed

  datatype World = World(table: Table, log: seq<Event>)

  const START := World(EMPTY, [])

  function AfterClose(w: World, id: Str, conn: Conn): World {
    World(w.table.Remove(id, conn), w.log + [Closed(id)])
  }

  /** onError, perhaps without a connection; `eof` says whether the error is an EOF. */
  function AfterError(w: World, conn: Option<Conn>, eof: bool): World {
    if conn.Some? && conn.value in w.table.vk then AfterClose(w, w.table.vk[conn.value], conn.value)
    else if conn.Some? && eof then w
    else w.(log := w.log + [Failed])
  }

  function AfterConn(w: World, info: Info): World {
    var w' := w.(table := w.table.Add(info));
    if w.table.CanAdd(info) then w'.(log := w'.log + [Connected(info.nodeId)]) else AfterError(w', Some(info.conn), false)
  }

  /** silvernode.Close: look the id up and close what is found. */
  function AfterCloseNode(w: World, id: Str): World {
    var w' := w.(table := w.table.Touch(NameOf(id)));
    match w.table.Lookup(id)
    case None => w'
    case Some(info) => AfterClose(w', info.nodeId, info.conn)
  }

  class TcpNetWorker {
    const manager: ConnectManager
    var log: seq<Event>

    constructor ()
      ensures fresh(manager) && View() == START
    {
      manager := new ConnectManager();
      log := [];
    }

    function View(): World
      reads this, manager
    {
      World(manager.View(), log)
    }

    method OnConn(info: Info)
      modifies this, manager
      ensures View() == AfterConn(old(View()), info)
    {
      var ok := manager.AddConnectInfo(info);
      if ok {
        log := log + [Connected(info.nodeId)];
      } else {
        OnError(Some(info.conn), false);
      }
    }

    method OnClose(id: Str, conn: Conn)
      modifies this, manager
      ensures View() == AfterClose(old(View()), id, conn)
    {
      log := log + [Closed(id)];
      manager.RemoveConnectInfo(id, conn);
    }

    method OnError(conn: Option<Conn>, eof: bool)
      modifies this, manager
      ensures View() == AfterError(old(View()), conn, eof)
    {
      if conn.Some? {
        var id := manager.GetNodeIdByConn(conn.value);
        if id.Some? {
          OnClose(id.value, conn.value);
        } else if !eof {
          log := log + [Failed];
        }
      } else {
        log := log + [Failed];
      }
    }

    method CloseNode(id: Str)
      modifies this, manager
      ensures View() == AfterCloseNode(old(View()), id)
    {
      var info := manager.GetConnectInfo(id);
      if info.Some? {
        OnClose(info.value.nodeId, info.value.conn);
      }
    }
  }

  // ---- Runs ----

  /** Handler-atomic steps: a connection attempt, a failed read of a connection
      (whether the table knows it or not) or a failed accept, an explicit close of an id, a lookup. */
  datatype Step =
    | Connect(info: Info)
    | ReadError(conn: Option<Conn>, eof: bool)
    | CloseId(id: Str)
    | Find(id: Str)

  function Do(w: World, s: Step): World {
    match s
    case Connect(info) => AfterConn(w, info)
    case ReadError(conn, eof) => AfterError(w, conn, eof)
    case CloseId(id) => AfterCloseNode(w, id)
    case Find(id) => w.(table := w.table.Touch(NameOf(id)))
  }

  function Run(w: World, steps: seq<Step>): World
    decreases |steps|
  {
    if steps == [] then w else Run(Do(w, steps[0]), steps[1..])
  }

  /** What the listener has seen of one id. */
  datatype Phase = Down | Up | Broken

  function PhaseOf(log: seq<Event>, id: Str): Phase {
    if log == [] then
      Down
    else
      var before := PhaseOf(log[..|log| - 1], id);
      match log[|log| - 1]
      case Connected(i) => if i != id then before else if before == Down then Up else Broken
      case Closed(i) => if i != id then before else if before == Up then Down else Broken
      case Failed => before
  }

  /** The table is a bijection, and the listener was told of an id's connection,
      and not yet of its end, exactly when the table holds it. */
  ghost predicate Consistent(w: World) {
    w.table.Valid() &&
    forall id :: PhaseOf(w.log, id) == if w.table.Lookup(id).Some? then Up else Down
  }

  lemma PhaseSnoc(log: seq<Event>, e: Event, id: Str)
    ensures PhaseOf(log + [e], id) ==
            match e
            case Connected(i) => (if i != id then PhaseOf(log, id) else if PhaseOf(log, id) == Down then Up else Broken)
            case Closed(i) => (if i != id then PhaseOf(log, id) else if PhaseOf(log, id) == Up then Down else Broken)
            case Failed => PhaseOf(log, id)
  {
    assert (log + [e])[..|log|] == log;
  }

  lemma OnCloseKeeps(w: World, id: Str, conn: Conn)
    requires Consistent(w) && conn in w.table.vk && w.table.vk[conn] == id
    ensures Consistent(AfterClose(w, id, conn))
  {
    var w' := AfterClose(w, id, conn);
    RemoveKeepsIff(w.table, id, conn);
    forall i
      ensures PhaseOf(w'.log, i) == if w'.table.Lookup(i).Some? then Up else Down
    {
      RemoveLookup(w.table, id, conn, i);
      PhaseSnoc(w.log, Closed(id), i);
    }
  }

  lemma OnErrorKeeps(w: World, conn: Option<Conn>, eof: bool)
    requires Consistent(w)
    ensures Consistent(AfterError(w, conn, eof))
  {
    if conn.Some? && conn.value in w.table.vk {
      OnCloseKeeps(w, w.table.vk[conn.value], conn.value);
    } else {
      forall i ensures PhaseOf(w.log + [Failed], i) == PhaseOf(w.log, i) {
        PhaseSnoc(w.log, Failed, i);
      }
    }
  }

  lemma TouchStep(w: World, name: Str)
    requires Consistent(w)
    ensures Consistent(w.(table := w.table.Touch(name)))
  {
    TouchKeeps(w.table, name);
  }

  lemma OnConnKeeps(w: World, info: Info)
    requires Consistent(w)
    ensures Consistent(AfterConn(w, info))
  {
    AddKeeps(w.table, info);
    if w.table.CanAdd(info) {
      var w' := AfterConn(w, info);
      forall i ensures PhaseOf(w'.log, i) == if w'.table.Lookup(i).Some? then Up else Down {
        PhaseSnoc(w.log, Connected(info.nodeId), i);
      }
    } else {
      TouchStep(w, NameOf(info.nodeId));
      OnErrorKeeps(w.(table := w.table.Touch(NameOf(info.nodeId))), Some(info.conn), false);
    }
  }

  lemma StepKeeps(w: World, s: Step)
    requires Consistent(w)
    ensures Consistent(Do(w, s))
  {
    match s
    case Connect(info) =>
      OnConnKeeps(w, info);
    case ReadError(conn, eof) =>
      OnErrorKeeps(w, conn, eof);
    case CloseId(id) =>
      TouchStep(w, NameOf(id));
      if w.table.Lookup(id).Some? {
        var info := w.table.Lookup(id).value;
        OnCloseKeeps(w.(table := w.table.Touch(NameOf(id))), info.nodeId, info.conn);
      }
    case Find(id) =>
      TouchStep(w, NameOf(id));
  }

  lemma {:induction false} RunKeeps(w: World, steps: seq<Step>)
    requires Consistent(w)
    ensures Consistent(Run(w, steps))
    decreases |steps|
  {
    if steps != [] {
      StepKeeps(w, steps[0]);
      RunKeeps(Do(w, steps[0]), steps[1..]);
    }
  }

  /** The events of one id, in order. */
  function EventsOf(log: seq<Event>, id: Str): seq<Event> {
    if log == [] then
      []
    else
      var e := log[|log| - 1];
      EventsOf(log[..|log| - 1], id) + (if e == Connected(id) || e == Closed(id) then [e] else [])
  }

  ghost predicate Alternates(es: seq<Event>, id: Str) {
    forall k | 0 <= k < |es| :: es[k] == if k % 2 == 0 then Connected(id) else Closed(id)
  }

  lemma {:induction false} PhaseIsAlternation(log: seq<Event>, id: Str)
    ensures PhaseOf(log, id) != Broken <==> Alternates(EventsOf(log, id), id)
    ensures PhaseOf(log, id) != Broken ==> (PhaseOf(log, id) == Up <==> |EventsOf(log, id)| % 2 == 1)
  {
    if log != [] {
      var log', e := log[..|log| - 1], log[|log| - 1];
      PhaseIsAlternation(log', id);
      var es, es' := EventsOf(log, id), EventsOf(log', id);
      assert forall k | 0 <= k < |es'| :: es[k] == es'[k];
      if e == Connected(id) || e == Closed(id) {
        assert es == es' + [e];
        if Alternates(es', id) && e == (if |es'| % 2 == 0 then Connected(id) else Closed(id)) {
          assert Alternates(es, id);
        }
        if Alternates(es, id) {
          assert Alternates(es', id) && es[|es'|] == e;
        }
      } else {
        assert es == es';
      }
    }
  }

  /** Over every run from the empty table: the table is a bijection; OnConnect and
      OnClose of each id strictly alternate, starting with OnConnect; and the id is
      connected exactly when its last event is OnConnect. */
  lemma ListenerSeesAlternation(steps: seq<Step>, id: Str)
    ensures var w := Run(START, steps);
            w.table.Valid() && Alternates(EventsOf(w.log, id), id) &&
            (w.table.Lookup(id).Some? <==> |EventsOf(w.log, id)| % 2 == 1)
  {
    RunKeeps(START, steps);
    PhaseIsAlternation(Run(START, steps).log, id);
  }

  // ---- What the listener and the table see of each step ----

  /** w' is w without id and its connection c, and the listener has been told. */
  ghost predicate Gone(w: World, w': World, id: Str, c: Conn) {
    && w'.log == w.log + [Closed(id)]
    && w'.table.Lookup(id).None? && w'.table.NodeOf(c).None?
    && (forall i | i != id :: w'.table.Lookup(i) == w.table.Lookup(i))
    && (forall d | d != c :: w'.table.NodeOf(d) == w.table.NodeOf(d))
  }

  lemma RemovesPair(w: World, id: Str, c: Conn)
    ensures Gone(w, AfterClose(w, id, c), id, c)
  {
    forall i ensures w.table.Remove(id, c).Lookup(i) == if i == id then None else w.table.Lookup(i) {
      RemoveLookup(w.table, id, c, i);
    }
  }

  /** A failed read closes the connection if it is known, whatever the error. */
  lemma ReadErrorCloses(w: World, id: Str, c: Conn, eof: bool)
    requires Consistent(w) && w.table.Lookup(id).Some? && w.table.Lookup(id).value.conn == c
    ensures Gone(w, Do(w, ReadError(Some(c), eof)), id, c)
  {
    MutuallyInverse(w.table, id, c, NameOf(id));
    RemovesPair(w, id, c);
  }

  /** Without a connection, or with one that is not known, the table stays as it is; the
      listener gets the error unless it is the end of an unknown connection. */
  lemma ReadErrorOfUnknown(w: World, conn: Option<Conn>, eof: bool)
    requires conn.Some? ==> conn.value !in w.table.vk
    ensures Do(w, ReadError(conn, eof)).table == w.table
    ensures Do(w, ReadError(conn, eof)).log == w.log + (if conn.Some? && eof then [] else [Failed])
  {
  }

  /** A connection is taken in exactly if neither its id nor it is known; otherwise it
      fares as after a failed read, and the connection that the id has stays. */
  lemma ConnectOutcome(w: World, info: Info)
    requires Consistent(w)
    ensures var w' := Do(w, Connect(info));
            if w.table.Lookup(info.nodeId).None? && info.conn !in w.table.vk then
              w'.log == w.log + [Connected(info.nodeId)] &&
              w'.table.Lookup(info.nodeId) == Some(info) && w'.table.NodeOf(info.conn) == Some(info.nodeId) &&
              (forall i | i != info.nodeId :: w'.table.Lookup(i) == w.table.Lookup(i)) &&
              (forall d | d != info.conn :: w'.table.NodeOf(d) == w.table.NodeOf(d))
            else
              var v := Do(w, ReadError(Some(info.conn), false));
              w'.log == v.log && w'.table.vk == v.table.vk && forall i :: w'.table.Lookup(i) == v.table.Lookup(i)
  {
    AddKeeps(w.table, info);
    if !w.table.CanAdd(info) {
      var u := w.table.Add(info);
      assert u.vk == w.table.vk;
      if info.conn in w.table.vk {
        forall i ensures u.Remove(w.table.vk[info.conn], info.conn).Lookup(i) ==
                         w.table.Remove(w.table.vk[info.conn], info.conn).Lookup(i)
        {
          RemoveLookup(u, w.table.vk[info.conn], info.conn, i);
          RemoveLookup(w.table, w.table.vk[info.conn], info.conn, i);
        }
      }
    }
  }

  /** An explicit close of an id closes what the table holds for it, or does nothing. */
  lemma CloseOutcome(w: World, id: Str)
    requires Consistent(w)
    ensures var w' := Do(w, CloseId(id));
            if w.table.Lookup(id).Some? then
              Gone(w, w', id, w.table.Lookup(id).value.conn)
            else
              w'.log == w.log && SameEntries(w'.table, w.table)
  {
    TouchKeeps(w.table, NameOf(id));
    if w.table.Lookup(id).Some? {
      RemovesPair(w.(table := w.table.Touch(NameOf(id))), id, w.table.Lookup(id).value.conn);
    }
  }

  /** An explicit close followed by the read error it provokes: one OnClose only. */
  lemma CloseThenReadError(w: World, id: Str, eof: bool)
    requires Consistent(w) && w.table.Lookup(id).Some?
    ensures var conn := w.table.Lookup(id).value.conn;
            var closed := Do(w, CloseId(id));
            closed.log == w.log + [Closed(id)] &&
            AfterError(closed, Some(conn), eof).log == if eof then closed.log else closed.log + [Failed]
  {
  }

  /** The atomicity is needed: an info looked up before its id was closed and
      connected again removes the id's new entry but not its new connection. */
  lemma StaleCloseBreaks(w: World, stale: Info, current: Info)
    requires Consistent(w) && w.table.Lookup(stale.nodeId) == Some(current)
    requires current.nodeId == stale.nodeId && current.conn != stale.conn
    ensures !AfterClose(w, stale.nodeId, stale.conn).table.Valid()
  {
    RemoveKeepsIff(w.table, stale.nodeId, stale.conn);
  }
}
