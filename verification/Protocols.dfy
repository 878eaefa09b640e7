/** The firmware's protocol database, as far as installing and reinstalling interfaces needs it. */
module Protocols {
  type Handle = nat
  type Guid = nat
  type Interface = nat

  const NULL: Handle := 0
  const TPL_NOTIFY := 16

  type Interfaces = map<Guid, Interface>
  type Database = map<Handle, Interfaces>

  /** The database with these interfaces on the handle; a handle without interfaces is gone. */
  function Put(db: Database, h: Handle, m: Interfaces): Database {
    if m == map[] then db - {h} else db[h := m]
  }

  function On(db: Database, h: Handle): Interfaces {
    if h in db then db[h] else map[]
  }

  /** The null handle names nothing, and every handle has an interface. */
  ghost predicate Sound(db: Database) {
    NULL !in db && forall h :: h in db ==> db[h] != map[]
  }

  lemma PutOn(db: Database, h: Handle)
    requires Sound(db)
    ensures Put(db, h, On(db, h)) == db
  {
    if h !in db {
      assert db - {h} == db;
    } else {
      assert db[h := db[h]] == db;
    }
  }

  lemma PutTwice(db: Database, h: Handle, m: Interfaces, m': Interfaces)
    ensures Put(Put(db, h, m), h, m') == Put(db, h, m')
    ensures On(Put(db, h, m), h) == m
    ensures forall k :: k != h ==> On(Put(db, h, m), k) == On(db, k)
  {
    assert db[h := m][h := m'] == db[h := m'];
    assert (db - {h})[h := m'] == db[h := m'];
    assert db[h := m] - {h} == db - {h};
    assert db - {h} - {h} == db - {h};
  }

  /** One handle is always unused. */
  lemma UnusedHandle(s: set<Handle>)
    ensures exists h: Handle :: h != NULL && h !in s
  {
    var h := Above(s);
    assert h + 1 != NULL && h + 1 !in s;
  }

  lemma {:induction false} Above(s: set<Handle>) returns (top: Handle)
    ensures forall h :: h in s ==> h <= top
  {
    if s == {} {
      top := 0;
    } else {
      var x :| x in s;
      var rest := Above(s - {x});
      top := if x > rest then x else rest;
      forall h | h in s
        ensures h <= top
      {
        assert h == x || h in s - {x};
      }
    }
  }

  class HandleCell {
    var value: Handle
    /** Where the cell itself lies, as a number. */
    const address: Handle

    constructor (value: Handle, address: Handle)
      ensures this.value == value && this.address == address
    {
      this.value, this.address := value, address;
    }
  }

  /** A call as the firmware sees it, with the task priority at which it comes; a refused one fails for want of resources. */
  datatype Call =
    | Installing(tpl: nat, handle: Handle, protocol: Guid, interface: Interface, refused: bool)
    | Uninstalling(tpl: nat, handle: Handle, protocol: Guid, interface: Interface)
    | Reinstalling(tpl: nat, handle: Handle, protocol: Guid, oldInterface: Interface, newInterface: Interface, refused: bool)

  /** The boot services, with the calls made so far. */
  class BootServices {
    var database: Database
    var tpl: nat
    ghost var calls: seq<Call>

    constructor ()
      ensures Sound(database) && tpl < TPL_NOTIFY && calls == []
    {
      database, tpl, calls := map[], 4, [];
    }

    method RaiseTPL(level: nat) returns (previous: nat)
      modifies `tpl
      ensures previous == old(tpl) && tpl == level
    {
      previous := tpl;
      tpl := level;
    }

    method RestoreTPL(level: nat)
      modifies `tpl
      ensures tpl == level
    {
      tpl := level;
    }

    /** Fails when the handle is unknown or has the protocol already; a null handle becomes a new one. */
    method InstallProtocolInterface(handle: HandleCell, protocol: Guid, interface: Interface) returns (ok: bool, ghost refused: bool)
      requires Sound(database)
      modifies `database, `calls, handle`value
      ensures Sound(database)
      ensures calls == old(calls) + [Installing(tpl, old(handle.value), protocol, interface, refused)]
      ensures ok <==> !refused && (old(handle.value) == NULL
                                   || (old(handle.value) in old(database) && protocol !in old(database)[old(handle.value)]))
      ensures !ok ==> database == old(database) && handle.value == old(handle.value)
      ensures ok ==> handle.value != NULL && (old(handle.value) != NULL ==> handle.value == old(handle.value))
      ensures ok && old(handle.value) == NULL ==> handle.value !in old(database)
      ensures ok ==> database == Put(old(database), handle.value, On(old(database), handle.value)[protocol := interface])
    {
      var refuse: bool := *;
      refused := refuse;
      calls := calls + [Installing(tpl, handle.value, protocol, interface, refused)];
      if refuse || (handle.value != NULL && (handle.value !in database || protocol in database[handle.value])) {
        ok := false;
        return;
      }
      if handle.value == NULL {
        UnusedHandle(database.Keys);
        var h :| h != NULL && h !in database;
        handle.value := h;
      }
      database := Put(database, handle.value, On(database, handle.value)[protocol := interface]);
      ok := true;
    }

    /** Succeeds when the handle has just this interface for the protocol. */
    method UninstallProtocolInterface(handle: Handle, protocol: Guid, interface: Interface) returns (ok: bool)
      requires Sound(database)
      modifies `database, `calls
      ensures Sound(database)
      ensures calls == old(calls) + [Uninstalling(tpl, handle, protocol, interface)]
      ensures ok <==> protocol in On(old(database), handle) && On(old(database), handle)[protocol] == interface
      ensures database == if ok then Put(old(database), handle, On(old(database), handle) - {protocol}) else old(database)
    {
      calls := calls + [Uninstalling(tpl, handle, protocol, interface)];
      ok := protocol in On(database, handle) && On(database, handle)[protocol] == interface;
      if ok {
        database := Put(database, handle, On(database, handle) - {protocol});
      }
    }

    /** Exchanges the interface when the handle has the old one; it may be refused even so. */
    method ReinstallProtocolInterface(handle: Handle, protocol: Guid, oldInterface: Interface, newInterface: Interface, refusable: bool)
      returns (ok: bool, ghost refused: bool)
      requires Sound(database)
      modifies `database, `calls
      ensures Sound(database)
      ensures calls == old(calls) + [Reinstalling(tpl, handle, protocol, oldInterface, newInterface, refused)]
      ensures refused ==> refusable
      ensures ok <==> !refused && protocol in On(old(database), handle) && On(old(database), handle)[protocol] == oldInterface
      ensures database == if ok then Put(old(database), handle, On(old(database), handle)[protocol := newInterface]) else old(database)
    {
      var refuse: bool := *;
      refuse := refuse && refusable;
      refused := refuse;
      calls := calls + [Reinstalling(tpl, handle, protocol, oldInterface, newInterface, refused)];
      ok := !refuse && protocol in On(database, handle) && On(database, handle)[protocol] == oldInterface;
      if ok {
        database := Put(database, handle, On(database, handle)[protocol := newInterface]);
      }
    }
  }
}
