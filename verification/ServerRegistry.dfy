/**
 * The transport's registry of RPC servers: a singly linked list with counters, a set of file
 * descriptors to select on and their bound, all kept by hand; and the map it stands for.
 */
module ServerRegistry {
  import opened Basics
  import opened Words

  type Dispatch = nat

  type Key = (u32, u32)

  /** A registration. Only real servers have an XDR, and with it a file descriptor. */
  datatype Entry = Entry(prog: u32, vers: u32, fd: Option<nat>, dispatch: Dispatch) {
    function Key(): Key { (prog, vers) }
  }

  /** What the router driver answers: the descriptor opened, if any, and the registration ioctl. */
  datatype Driver = Driver(fd: Option<nat>, registered: bool)

  const CALLBACK_BIT: u32 := 0x0100_0000

  /** Programs with this bit are callback clients of another program. */
  predicate IsCallback(prog: u32) { prog / CALLBACK_BIT % 2 == 1 }

  /** It is bit 24. */
  lemma CallbackBit(high: nat, low: nat)
    requires high < 0x100 && low < 0x100_0000
    ensures IsCallback(high * 0x100_0000 + low) <==> high % 2 == 1
  {
  }

  // ----- The registry as a value -----

  datatype Registry = Registry(
    entries: seq<Entry>, // newest first
    numServers: int,
    numCbServers: int,
    fdset: set<nat>,
    maxFd: nat,
    open: set<nat>,      // descriptors the registry has open
    threads: nat)        // service threads created

  const Empty: Registry := Registry([], 0, 0, {}, 0, {}, 0)

  /** The offset of the first entry for a key, or the length. */
  function Find(es: seq<Entry>, key: Key): (k: nat)
    ensures k <= |es|
    ensures forall i | 0 <= i < k :: es[i].Key() != key
    ensures k < |es| ==> es[k].Key() == key
  {
    if es == [] || es[0].Key() == key then 0 else 1 + Find(es[1..], key)
  }

  function Insert(r: Registry, e: Entry): Registry {
    var r' := match e.fd
      case Some(fd) => r.(fdset := r.fdset + {fd}, maxFd := if fd > r.maxFd then fd else r.maxFd,
                          open := r.open + {fd}, numServers := r.numServers + 1)
      case None => r.(numCbServers := r.numCbServers + 1);
    r'.(entries := [e] + r.entries, threads := if r'.numServers == 1 then r.threads + 1 else r.threads)
  }

  function Register(r: Registry, key: Key, dispatch: Dispatch, driver: Driver): (bool, Registry) {
    var k := Find(r.entries, key);
    if k < |r.entries| then (r.entries[k].dispatch == dispatch, r)
    else if IsCallback(key.0) then (true, Insert(r, Entry(key.0, key.1, None, dispatch)))
    else if driver.fd.None? || !driver.registered then (false, r)
    else (true, Insert(r, Entry(key.0, key.1, driver.fd, dispatch)))
  }

  function Unregister(r: Registry, key: Key): Registry {
    var k := Find(r.entries, key);
    if k == |r.entries| then r
    else
      var r' := r.(entries := Without(r.entries, k));
      match r.entries[k].fd
      case None => r'.(numCbServers := r.numCbServers - 1)
      case Some(fd) =>
        r'.(numServers := r.numServers - 1, open := r.open - {fd},
            fdset := if IsCallback(key.0) then r.fdset else r.fdset - {fd})
  }

  // ----- The linked list -----

  class RegisteredServer {
    const entry: Entry
    var next: RegisteredServer?

    constructor (entry: Entry, next: RegisteredServer?)
      ensures this.entry == entry && this.next == next
    {
      this.entry, this.next := entry, next;
    }
  }

  ghost function NodeAt(nodes: seq<RegisteredServer>, i: int): RegisteredServer? {
    if 0 <= i < |nodes| then nodes[i] else null
  }

  ghost function Entries(nodes: seq<RegisteredServer>): (es: seq<Entry>)
    ensures |es| == |nodes| && forall i | 0 <= i < |nodes| :: es[i] == nodes[i].entry
  {
    seq(|nodes|, i requires 0 <= i < |nodes| => nodes[i].entry)
  }

  class Transport {
    var servers: RegisteredServer?
    var numServers: int
    var numCbServers: int
    var fdset: set<nat>
    var maxFd: nat
    ghost var open: set<nat>
    ghost var threads: nat
    ghost var nodes: seq<RegisteredServer>

    constructor ()
      ensures Valid() && View() == Empty && fresh(nodes)
    {
      servers, numServers, numCbServers, fdset, maxFd := null, 0, 0, {}, 0;
      open, threads, nodes := {}, 0, [];
    }

    ghost predicate Valid()
      reads this, nodes
    {
      && (forall i, j | 0 <= i < j < |nodes| :: nodes[i] != nodes[j])
      && servers == NodeAt(nodes, 0)
      && (forall i {:trigger nodes[i].next} | 0 <= i < |nodes| :: nodes[i].next == NodeAt(nodes, i + 1))
    }

    ghost function View(): Registry
      reads this
    {
      Registry(Entries(nodes), numServers, numCbServers, fdset, maxFd, open, threads)
    }

    /** `svc_find_nosync`: the entry found and the one before it in the list. */
    method FindNosync(prog: u32, vers: u32) returns (found: RegisteredServer?, prev: RegisteredServer?)
      requires Valid()
      ensures var k := Find(View().entries, (prog, vers));
              found == NodeAt(nodes, k) && prev == NodeAt(nodes, k - 1)
    {
      ghost var es, i := View().entries, 0;
      found, prev := servers, null;
      while found != null && !(found.entry.prog == prog && found.entry.vers == vers)
        invariant 0 <= i <= |nodes| && found == NodeAt(nodes, i) && prev == NodeAt(nodes, i - 1)
        invariant forall j | 0 <= j < i :: es[j].Key() != (prog, vers)
        decreases |nodes| - i
      {
        prev := found;
        found := found.next;
        i := i + 1;
      }
      FoundAt(es, (prog, vers), i);
    }

    /** `svc_register`; `driver` is what opening and registering a descriptor would answer. */
    method Add(prog: u32, vers: u32, dispatch: Dispatch, driver: Driver) returns (ok: bool)
      requires Valid()
      modifies this
      ensures Valid() && (ok, View()) == Register(old(View()), (prog, vers), dispatch, driver)
      ensures fresh(set n | n in nodes && n !in old(nodes))
    {
      var svc, _ := FindNosync(prog, vers);
      if svc != null {
        return svc.entry.dispatch == dispatch;
      }
      var fd := None;
      if !IsCallback(prog) {
        fd := driver.fd;
        if fd == None {
          return false;
        }
        if !driver.registered {
          // the descriptor just opened is closed again
          return false;
        }
        open := open + {fd.value};
        fdset := fdset + {fd.value};
        if fd.value > maxFd {
          maxFd := fd.value;
        }
      }
      Prepend(Entry(prog, vers, fd, dispatch));
      if fd != None {
        numServers := numServers + 1;
      } else {
        numCbServers := numCbServers + 1;
      }
      if numServers == 1 {
        threads := threads + 1;
      }
      return true;
    }

    method Prepend(entry: Entry)
      requires Valid()
      modifies this`servers, this`nodes
      ensures Valid() && Entries(nodes) == [entry] + Entries(old(nodes))
      ensures fresh(set n | n in nodes && n !in old(nodes))
    {
      servers := new RegisteredServer(entry, servers);
      nodes := [servers] + nodes;
    }

    /** `svc_unregister`, with no callback dispatch under way. */
    method Delete(prog: u32, vers: u32)
      requires Valid()
      modifies this, nodes
      ensures Valid() && View() == Unregister(old(View()), (prog, vers))
    {
      var found, prev := FindNosync(prog, vers);
      if found == null {
        return;
      }
      Unlink(found, prev, Find(View().entries, (prog, vers)));
      if found.entry.fd != None {
        if !IsCallback(prog) {
          fdset := fdset - {found.entry.fd.value};
        }
        open := open - {found.entry.fd.value};
        numServers := numServers - 1;
      } else {
        numCbServers := numCbServers - 1;
      }
    }

    method Unlink(found: RegisteredServer, prev: RegisteredServer?, ghost k: nat)
      requires Valid() && k < |nodes| && found == nodes[k] && prev == NodeAt(nodes, k - 1)
      modifies this`servers, this`nodes, nodes
      ensures Valid() && Entries(nodes) == Without(Entries(old(nodes)), k)
    {
      ghost var was := nodes;
      if prev != null {
        prev.next := found.next;
      } else {
        servers := found.next;
      }
      nodes := was[..k] + was[k + 1..];
      forall i {:trigger nodes[i].next} | 0 <= i < |nodes|
        ensures nodes[i].next == NodeAt(nodes, i + 1)
      {
        assert nodes[i] == was[if i < k then i else i + 1];
      }
      EntriesWithout(was, k);
    }
  }

  lemma EntriesWithout(nodes: seq<RegisteredServer>, k: nat)
    requires k < |nodes|
    ensures Entries(nodes[..k] + nodes[k + 1..]) == Without(Entries(nodes), k)
  {
    var rest := nodes[..k] + nodes[k + 1..];
    forall i | 0 <= i < |rest| ensures Entries(rest)[i] == Without(Entries(nodes), k)[i] {
      assert rest[i] == nodes[if i < k then i else i + 1];
    }
  }

  lemma FoundAt(es: seq<Entry>, key: Key, k: nat)
    requires k <= |es| && (forall i | 0 <= i < k :: es[i].Key() != key)
    requires k < |es| ==> es[k].Key() == key
    ensures Find(es, key) == k
  {
    assert forall i | 0 <= i < k :: es[i].Key() != key;
  }

  // ----- The map it stands for -----

  type Table = map<Key, Entry>

  function TableOf(es: seq<Entry>): Table {
    if es == [] then map[] else TableOf(es[1..])[es[0].Key() := es[0]]
  }

  /** The keys of the real servers, or of the callback clients. */
  function KeysOf(t: Table, server: bool): set<Key> {
    set k | k in t && t[k].fd.Some? == server
  }

  function Fds(t: Table): set<nat> {
    set k | k in t && t[k].fd.Some? :: t[k].fd.value
  }

  predicate UniqueKeys(es: seq<Entry>) {
    forall i, j | 0 <= i < j < |es| :: es[i].Key() != es[j].Key()
  }

  /** Registrations are kept under their own key, and no two share a descriptor. */
  ghost predicate ValidTable(t: Table) {
    && (forall k | k in t :: t[k].Key() == k && t[k].fd.None? == IsCallback(k.0))
    && (forall k, l | k in t && l in t && t[k].fd.Some? && t[k].fd == t[l].fd :: k == l)
  }

  ghost predicate Counts(r: Registry, t: Table) {
    && r.numServers == |KeysOf(t, true)| && r.numCbServers == |KeysOf(t, false)|
    && r.fdset == r.open == Fds(t)
    && (forall fd | fd in r.fdset :: fd <= r.maxFd)
  }

  /** Everything the transport keeps by hand, in terms of the map. */
  ghost predicate Agrees(r: Registry, t: Table) {
    ValidTable(t) && UniqueKeys(r.entries) && t == TableOf(r.entries) && Counts(r, t)
  }

  /** Lookup in the list is lookup in the map. */
  lemma {:induction false} FindIsLookup(es: seq<Entry>, key: Key)
    ensures Find(es, key) < |es| <==> key in TableOf(es)
    ensures key in TableOf(es) ==> es[Find(es, key)] == TableOf(es)[key]
  {
    if es != [] {
      FindIsLookup(es[1..], key);
    }
  }

  lemma {:induction false} TableWithout(es: seq<Entry>, k: nat)
    requires k < |es| && UniqueKeys(es)
    ensures TableOf(Without(es, k)) == TableOf(es) - {es[k].Key()}
  {
    var rest := es[1..];
    assert forall i | 0 <= i < |rest| :: rest[i] == es[i + 1];
    if k == 0 {
      assert Without(es, 0) == rest;
      FindIsLookup(rest, es[0].Key());
    } else {
      TableWithout(rest, k - 1);
      assert Without(es, k)[1..] == Without(rest, k - 1);
      assert es[0].Key() != es[k].Key();
    }
  }

  lemma InsertAgrees(r: Registry, t: Table, e: Entry)
    requires Agrees(r, t) && e.Key() !in t && e.fd.None? == IsCallback(e.prog)
    requires e.fd.Some? ==> e.fd.value !in r.open
    ensures Agrees(Insert(r, e), t[e.Key() := e])
  {
    InsertUnique(r.entries, e);
    InsertCounts(r, t, e);
    InsertValid(t, e);
  }

  lemma InsertUnique(es: seq<Entry>, e: Entry)
    requires UniqueKeys(es) && e.Key() !in TableOf(es)
    ensures UniqueKeys([e] + es) && TableOf([e] + es) == TableOf(es)[e.Key() := e]
  {
    assert ([e] + es)[1..] == es;
    forall i | 0 <= i < |es| ensures es[i].Key() != e.Key() {
      FindIsLookup(es, e.Key());
    }
  }

  lemma InsertCounts(r: Registry, t: Table, e: Entry)
    requires Counts(r, t) && e.Key() !in t
    ensures Counts(Insert(r, e), t[e.Key() := e])
  {
    KeysOfInsert(t, e, true);
    KeysOfInsert(t, e, false);
    FdsOfInsert(t, e);
  }

  lemma KeysOfInsert(t: Table, e: Entry, server: bool)
    requires e.Key() !in t
    ensures |KeysOf(t[e.Key() := e], server)| == |KeysOf(t, server)| + (if e.fd.Some? == server then 1 else 0)
  {
    var was, now := KeysOf(t, server), KeysOf(t[e.Key() := e], server);
    assert now == if e.fd.Some? == server then was + {e.Key()} else was;
  }

  lemma InsertValid(t: Table, e: Entry)
    requires ValidTable(t) && e.Key() !in t && e.fd.None? == IsCallback(e.prog)
    requires e.fd.Some? ==> e.fd.value !in Fds(t)
    ensures ValidTable(t[e.Key() := e])
  {
    forall k | k in t && t[k].fd.Some? ensures t[k].fd != e.fd {
      assert t[k].fd.value in Fds(t);
    }
  }

  lemma FdsOfInsert(t: Table, e: Entry)
    requires e.Key() !in t
    ensures Fds(t[e.Key() := e]) == Fds(t) + (if e.fd.Some? then {e.fd.value} else {})
  {
    var t' := t[e.Key() := e];
    forall fd | fd in Fds(t) ensures fd in Fds(t') {
      var k :| k in t && t[k].fd == Some(fd);
      assert t'[k] == t[k];
    }
    assert t'[e.Key()] == e;
  }

  lemma UnregisterAgrees(r: Registry, t: Table, key: Key)
    requires Agrees(r, t)
    ensures Agrees(Unregister(r, key), t - {key})
  {
    FindIsLookup(r.entries, key);
    if key in t {
      var k := Find(r.entries, key);
      TableWithout(r.entries, k);
      StillUnique(r.entries, k);
      DeleteCounts(r, t, key);
    } else {
      assert t - {key} == t;
    }
  }

  lemma DeleteCounts(r: Registry, t: Table, key: Key)
    requires ValidTable(t) && Counts(r, t) && key in t
    requires Find(r.entries, key) < |r.entries| && r.entries[Find(r.entries, key)] == t[key]
    ensures Counts(Unregister(r, key), t - {key})
  {
    KeysOfDelete(t, key);
    FdsOfDelete(t, key);
  }

  lemma KeysOfDelete(t: Table, key: Key)
    requires key in t
    ensures var isServer := t[key].fd.Some?;
            && |KeysOf(t - {key}, isServer)| == |KeysOf(t, isServer)| - 1
            && |KeysOf(t - {key}, !isServer)| == |KeysOf(t, !isServer)|
  {
    var isServer := t[key].fd.Some?;
    assert KeysOf(t - {key}, isServer) == KeysOf(t, isServer) - {key};
    assert KeysOf(t - {key}, !isServer) == KeysOf(t, !isServer);
  }

  lemma StillUnique(es: seq<Entry>, k: nat)
    requires k < |es| && UniqueKeys(es)
    ensures UniqueKeys(Without(es, k))
  {
    var rest := Without(es, k);
    assert forall i | 0 <= i < |rest| :: rest[i] == es[if i < k then i else i + 1];
  }

  lemma FdsOfDelete(t: Table, key: Key)
    requires key in t
    requires forall k, l | k in t && l in t && t[k].fd.Some? && t[k].fd == t[l].fd :: k == l
    ensures Fds(t - {key}) == Fds(t) - (if t[key].fd.Some? then {t[key].fd.value} else {})
  {
    var t' := t - {key};
    forall fd | fd in Fds(t) && t[key].fd != Some(fd) ensures fd in Fds(t') {
      var k :| k in t && t[k].fd == Some(fd);
      assert t'[k] == t[k];
    }
  }

  // ----- Runs -----

  datatype Request =
    | RegisterReq(key: Key, dispatch: Dispatch, driver: Driver)
    | UnregisterReq(key: Key)

  /** The kernel hands out a descriptor that is not open. */
  predicate FreshFd(r: Registry, a: Request) {
    a.RegisterReq? && a.driver.fd.Some? ==> a.driver.fd.value !in r.open
  }

  function Do(r: Registry, a: Request): (bool, Registry) {
    match a
    case RegisterReq(key, dispatch, driver) => Register(r, key, dispatch, driver)
    case UnregisterReq(key) => (true, Unregister(r, key))
  }

  /** The same request on the map alone. */
  function DoMap(t: Table, a: Request): (bool, Table) {
    match a
    case UnregisterReq(key) => (true, t - {key})
    case RegisterReq(key, dispatch, driver) =>
      var fd := if IsCallback(key.0) then None else driver.fd;
      if key in t then (t[key].dispatch == dispatch, t)
      else if IsCallback(key.0) || (fd.Some? && driver.registered) then
        (true, t[key := Entry(key.0, key.1, fd, dispatch)])
      else (false, t)
  }

  predicate Run(r: Registry, run: seq<Request>, answers: seq<bool>, r': Registry)
    decreases |run|
  {
    if run == [] then r' == r && answers == []
    else
      && FreshFd(r, run[0]) && answers != []
      && var (ok, next) := Do(r, run[0]);
         answers[0] == ok && Run(next, run[1..], answers[1..], r')
  }

  function RunMap(t: Table, run: seq<Request>): (seq<bool>, Table)
    decreases |run|
  {
    if run == [] then ([], t)
    else
      var (ok, next) := DoMap(t, run[0]);
      var (answers, t') := RunMap(next, run[1..]);
      ([ok] + answers, t')
  }

  /** One request answers as the map does, and keeps list, counters, fd set and bound in line. */
  lemma RequestAgrees(r: Registry, t: Table, a: Request)
    requires Agrees(r, t) && FreshFd(r, a)
    ensures Do(r, a).0 == DoMap(t, a).0 && Agrees(Do(r, a).1, DoMap(t, a).1)
  {
    match a
    case UnregisterReq(key) => UnregisterAgrees(r, t, key);
    case RegisterReq(key, dispatch, driver) =>
      FindIsLookup(r.entries, key);
      if key !in t {
        if IsCallback(key.0) {
          InsertAgrees(r, t, Entry(key.0, key.1, None, dispatch));
        } else if driver.fd.Some? && driver.registered {
          InsertAgrees(r, t, Entry(key.0, key.1, driver.fd, dispatch));
        }
      }
  }

  lemma {:induction false} RunAgrees(r: Registry, t: Table, run: seq<Request>, answers: seq<bool>, r': Registry)
    requires Agrees(r, t) && Run(r, run, answers, r')
    ensures RunMap(t, run).0 == answers && Agrees(r', RunMap(t, run).1)
    decreases |run|
  {
    if run != [] {
      RequestAgrees(r, t, run[0]);
      RunAgrees(Do(r, run[0]).1, DoMap(t, run[0]).1, run[1..], answers[1..], r');
      assert answers == [answers[0]] + answers[1..];
    }
  }

  /**
   * Every run of registrations and removals behaves as a map from (program, version): the same
   * answers, unique keys, the same lookups, the two counters, the fd set and its bound.
   */
  lemma RegistryIsAMap(run: seq<Request>, answers: seq<bool>, r: Registry, key: Key)
    requires Run(Empty, run, answers, r)
    ensures var (expected, t) := RunMap(map[], run);
            && answers == expected && Agrees(r, t)
            && (key in t <==> Find(r.entries, key) < |r.entries|)
            && (key in t ==> r.entries[Find(r.entries, key)] == t[key])
  {
    assert KeysOf(map[], true) == {} && KeysOf(map[], false) == {} && Fds(map[]) == {};
    assert Agrees(Empty, map[]);
    RunAgrees(Empty, map[], run, answers, r);
    FindIsLookup(r.entries, key);
  }

  /** Registering a key again changes nothing and says whether the dispatch function is the same. */
  lemma ReRegistering(r: Registry, t: Table, key: Key, dispatch: Dispatch, driver: Driver)
    requires Agrees(r, t) && key in t
    ensures Register(r, key, dispatch, driver) == (t[key].dispatch == dispatch, r)
  {
    FindIsLookup(r.entries, key);
  }

  /** Unregistering straight after registering a new key gives back everything but the bound. */
  lemma RegisterThenUnregister(r: Registry, t: Table, key: Key, dispatch: Dispatch, driver: Driver)
    requires Agrees(r, t) && key !in t && FreshFd(r, RegisterReq(key, dispatch, driver))
    ensures var r' := Unregister(Register(r, key, dispatch, driver).1, key);
            r'.(maxFd := r.maxFd, threads := r.threads) == r
  {
    FindIsLookup(r.entries, key);
    var (_, mid) := Register(r, key, dispatch, driver);
    if mid != r {
      assert mid.entries[1..] == r.entries;
      assert Find(mid.entries, key) == 0 && Without(mid.entries, 0) == r.entries;
      var e := mid.entries[0];
      assert e.fd.Some? ==> r.fdset + {e.fd.value} - {e.fd.value} == r.fdset;
    }
  }

  /**
   * A registration creates a service thread exactly when it adds the first real server, or
   * adds a callback client while there is exactly one real server.
   */
  lemma WhenAThreadIsCreated(r: Registry, t: Table, key: Key, dispatch: Dispatch, driver: Driver)
    requires Agrees(r, t)
    ensures var (_, r') := Register(r, key, dispatch, driver);
            var created := key !in t && if IsCallback(key.0) then |KeysOf(t, true)| == 1
                                        else |KeysOf(t, true)| == 0 && driver.fd.Some? && driver.registered;
            r'.threads == if created then r.threads + 1 else r.threads
  {
    FindIsLookup(r.entries, key);
  }

  /** So one real server with a callback client is served by two threads. */
  lemma CallbackClientDoublesTheThread()
    ensures var server := RegisterReq((0x3000_0000, 1), 7, Driver(Some(5), true));
            var callback := RegisterReq((0x3100_0000, 1), 8, Driver(None, false));
            exists r :: Run(Empty, [server, callback], [true, true], r) && r.numServers == 1 && r.threads == 2
  {
    var server := RegisterReq((0x3000_0000, 1), 7, Driver(Some(5), true));
    var callback := RegisterReq((0x3100_0000, 1), 8, Driver(None, false));
    var (ok, r1) := Do(Empty, server);
    var (ok', r2) := Do(r1, callback);
    assert Find(r1.entries[1..], callback.key) == 0;
    var run := [server, callback];
    assert Run(r1, run[1..], [true], r2) by {
      assert run[1..][1..] == [];
    }
    assert Run(Empty, run, [true, true], r2) by {
      assert [true, true][1..] == [true];
    }
  }
}
