/** LibInstallProtocolInterfaces: all of a list of interfaces, or none. */
module ProtocolInstall {
  import opened Protocols

  datatype Entry = Entry(protocol: Guid, interface: Interface)

  /** Interfaces with all the entries added. */
  function Extended(base: Interfaces, entries: seq<Entry>): Interfaces {
    if entries == [] then base
    else Extended(base, entries[1..])[entries[0].protocol := entries[0].interface]
  }

  /** Entries that can be added one after the other: all protocols differ, from each other and from those already there. */
  ghost predicate Addable(base: Interfaces, entries: seq<Entry>) {
    && (forall k :: 0 <= k < |entries| ==> entries[k].protocol !in base)
    && (forall j, k :: 0 <= j < k < |entries| ==> entries[j].protocol != entries[k].protocol)
  }

  lemma {:induction false} ExtendedKeys(base: Interfaces, entries: seq<Entry>, p: Guid)
    ensures p in Extended(base, entries) <==> p in base || exists k :: 0 <= k < |entries| && entries[k].protocol == p
  {
    if entries != [] {
      ExtendedKeys(base, entries[1..], p);
      if p in Extended(base, entries[1..]) && p !in base {
        var k :| 0 <= k < |entries| - 1 && entries[1..][k].protocol == p;
        assert entries[k + 1].protocol == p;
      }
      if exists k :: 0 <= k < |entries| && entries[k].protocol == p {
        var k :| 0 <= k < |entries| && entries[k].protocol == p;
        assert k > 0 ==> entries[1..][k - 1].protocol == p;
      }
    }
  }

  /** Installing one more entry. */
  lemma {:induction false} ExtendedMore(base: Interfaces, entries: seq<Entry>, e: Entry)
    requires Addable(base, entries) && e.protocol !in Extended(base, entries)
    ensures Extended(base, entries + [e]) == Extended(base, entries)[e.protocol := e.interface]
    decreases |entries|
  {
    hide Addable;
    if entries == [] {
      assert entries + [e] == [e] && [e][1..] == [];
    } else {
      assert (entries + [e])[1..] == entries[1..] + [e];
      AddableRest(base, entries);
      ExtendedMore(base, entries[1..], e);
      Commute(Extended(base, entries[1..]), e, entries[0]);
    }
  }

  lemma AddableRest(base: Interfaces, entries: seq<Entry>)
    requires entries != [] && Addable(base, entries)
    ensures Addable(base, entries[1..])
  {
  }

  lemma Commute(m: Interfaces, a: Entry, b: Entry)
    requires a.protocol != b.protocol
    ensures m[a.protocol := a.interface][b.protocol := b.interface] == m[b.protocol := b.interface][a.protocol := a.interface]
  {
  }

  lemma AddableMore(base: Interfaces, entries: seq<Entry>, e: Entry)
    requires Addable(base, entries) && e.protocol !in Extended(base, entries)
    ensures Addable(base, entries + [e])
  {
    hide Extended;
    ExtendedKeys(base, entries, e.protocol);
  }

  /** Removing the first entry. */
  lemma ExtendedLess(base: Interfaces, entries: seq<Entry>)
    requires entries != [] && Addable(base, entries)
    ensures entries[0].protocol in Extended(base, entries)
    ensures Extended(base, entries)[entries[0].protocol] == entries[0].interface
    ensures Extended(base, entries) - {entries[0].protocol} == Extended(base, entries[1..])
    ensures Addable(base, entries[1..])
  {
    ExtendedKeys(base, entries[1..], entries[0].protocol);
  }

  /** The calls that install the entries: the first with the caller's handle, the others with what the variable holds then. */
  function Installs(handle: Handle, later: Handle, entries: seq<Entry>): (r: seq<Call>)
    ensures |r| == |entries|
  {
    seq(|entries|, k requires 0 <= k < |entries| =>
        Installing(16, if k == 0 then handle else later, entries[k].protocol, entries[k].interface, false))
  }

  function Uninstalls(handle: Handle, entries: seq<Entry>): (r: seq<Call>)
    ensures |r| == |entries|
  {
    seq(|entries|, k requires 0 <= k < |entries| => Uninstalling(16, handle, entries[k].protocol, entries[k].interface))
  }

  /** What the firmware takes of the list unless it refuses a call. */
  ghost predicate Installable(db: Database, handle: Handle, entries: seq<Entry>) {
    entries == [] || ((handle == NULL || handle in db) && Addable(On(db, handle), entries))
  }

  /** The undo loop: the installed entries go in the order in which they came. */
  method UndoInstall(bs: BootServices, handle: Handle, entries: seq<Entry>, ghost before: Database)
    requires Sound(before) && Sound(bs.database) && handle != NULL && Addable(On(before, handle), entries)
    requires bs.database == Put(before, handle, Extended(On(before, handle), entries))
    requires bs.tpl == TPL_NOTIFY
    modifies bs`database, bs`calls
    ensures bs.database == before
    ensures bs.calls == old(bs.calls) + Uninstalls(handle, entries)
  {
    var index := |entries|;
    ghost var base := On(before, handle);
    ghost var j := 0;
    ghost var calls := bs.calls;
    hide Extended, Addable;
    assert entries[0..] == entries;
    while index != 0
      invariant 0 <= index && index + j == |entries|
      invariant Sound(bs.database) && Addable(base, entries[j..])
      invariant bs.database == Put(before, handle, Extended(base, entries[j..]))
      invariant bs.calls == calls + Uninstalls(handle, entries)[..j]
      decreases index
    {
      ExtendedLess(base, entries[j..]);
      assert entries[j..][1..] == entries[j + 1..];
      PutTwice(before, handle, Extended(base, entries[j..]), Extended(base, entries[j + 1..]));
      var ok := bs.UninstallProtocolInterface(handle, entries[|entries| - index].protocol, entries[|entries| - index].interface);
      index := index - 1;
      j := j + 1;
    }
    ExtendedNone(base, entries[j..]);
    PutOn(before, handle);
  }

  lemma ExtendedNone(base: Interfaces, entries: seq<Entry>)
    requires |entries| == 0
    ensures Extended(base, entries) == base && Addable(base, entries)
  {
  }

  /** `done` is the number of calls that succeeded, and `refused` whether the firmware refused the one behind them. */
  method LibInstallProtocolInterfaces(bs: BootServices, handle: HandleCell, entries: seq<Entry>)
    returns (ok: bool, ghost done: nat, ghost refused: bool)
    requires Sound(bs.database)
    modifies bs, handle`value
    ensures Sound(bs.database) && bs.tpl == old(bs.tpl)
    ensures ok <==> !refused && Installable(old(bs.database), old(handle.value), entries)
    ensures !ok ==> bs.database == old(bs.database) && handle.value == old(handle.value)
    ensures ok ==> Addable(On(old(bs.database), handle.value), entries)
    ensures ok ==> bs.database == Put(old(bs.database), handle.value, Extended(On(old(bs.database), handle.value), entries))
    ensures ok && old(handle.value) != NULL ==> handle.value == old(handle.value)
    ensures ok && old(handle.value) == NULL && entries != [] ==> handle.value != NULL && handle.value !in old(bs.database)
    ensures ok ==> bs.calls == old(bs.calls) + Installs(old(handle.value), handle.value, entries)
    ensures !ok ==> done < |entries| && exists h :: StoppedAt(old(bs.calls), bs.calls, old(handle.value), h, entries, done, refused)
  {
    hide Extended, Addable, Installable;
    ghost var before, calls := bs.database, bs.calls;
    var oldTpl := bs.RaiseTPL(TPL_NOTIFY);
    var oldHandle := handle.value;
    var index := 0;
    ok, refused := true, false;
    ExtendedNone(On(before, handle.value), entries[..0]);
    PutOn(before, handle.value);
    while ok && index < |entries|
      invariant index <= |entries| && Sound(bs.database) && bs.tpl == TPL_NOTIFY
      invariant index > 0 ==> handle.value != NULL && (oldHandle == NULL || oldHandle in before)
      invariant index == 0 || oldHandle != NULL ==> handle.value == oldHandle
      invariant index > 0 && oldHandle == NULL ==> handle.value !in before
      invariant Addable(On(before, handle.value), entries[..index])
      invariant bs.database == Put(before, handle.value, Extended(On(before, handle.value), entries[..index]))
      invariant ok ==> !refused && bs.calls == calls + Installs(oldHandle, handle.value, entries[..index])
      invariant !ok ==> index < |entries| && (refused || !Installable(before, oldHandle, entries))
      invariant !ok ==> bs.calls == calls + Installs(oldHandle, handle.value, entries[..index])
                                    + [Failing(oldHandle, handle.value, entries, index, refused)]
      decreases |entries| - index, ok
    {
      ghost var was := bs.database;
      ghost var h := handle.value;
      ok, refused := bs.InstallProtocolInterface(handle, entries[index].protocol, entries[index].interface);
      if ok {
        Installed(before, was, h, handle.value, entries, index);
        InstallsMore(oldHandle, h, handle.value, entries, index);
        index := index + 1;
      } else if !refused {
        NotInstallable(before, was, oldHandle, h, entries, index);
      }
    }
    done := index;
    assert entries[..|entries|] == entries;
    ghost var now := handle.value;
    if !ok {
      if index > 0 {
        UndoInstall(bs, handle.value, entries[..index], before);
      } else {
        ExtendedNone(On(before, handle.value), entries[..0]);
        PutOn(before, handle.value);
      }
      handle.value := oldHandle;
    } else {
      AllInstallable(before, oldHandle, handle.value, entries);
    }
    bs.RestoreTPL(oldTpl);
    assert !ok ==> StoppedAt(calls, bs.calls, oldHandle, now, entries, done, refused);
  }

  /** The call that fails. */
  function Failing(handle: Handle, later: Handle, entries: seq<Entry>, k: nat, refused: bool): Call
    requires k < |entries|
  {
    Installing(16, if k == 0 then handle else later, entries[k].protocol, entries[k].interface, refused)
  }

  /** The calls of a failed run: those that succeed, the one that fails, and one for each success to take it back. */
  ghost predicate StoppedAt(calls: seq<Call>, calls': seq<Call>, handle: Handle, later: Handle, entries: seq<Entry>, k: nat, refused: bool)
    requires k < |entries|
  {
    && (handle != NULL ==> later == handle)
    && calls' == calls + Installs(handle, later, entries[..k]) + [Failing(handle, later, entries, k, refused)] + Uninstalls(later, entries[..k])
  }

  lemma InstallsMore(handle: Handle, h: Handle, h': Handle, entries: seq<Entry>, k: nat)
    requires k < |entries| && (k > 0 ==> h == h') && (k == 0 ==> h == handle)
    ensures Installs(handle, h', entries[..k + 1]) == Installs(handle, h, entries[..k]) + [Failing(handle, h, entries, k, false)]
  {
  }

  /** A call that fails without being refused finds the handle unknown or the protocol there. */
  lemma NotInstallable(before: Database, was: Database, oldHandle: Handle, h: Handle, entries: seq<Entry>, index: nat)
    requires Sound(before) && index < |entries| && h != NULL
    requires was == Put(before, h, Extended(On(before, h), entries[..index])) && Addable(On(before, h), entries[..index])
    requires if oldHandle == NULL then index > 0 && h !in before else h == oldHandle
    requires h !in was || entries[index].protocol in was[h]
    ensures !Installable(before, oldHandle, entries)
  {
    hide Extended;
    var base, done := On(before, h), entries[..index];
    if h !in before && oldHandle != NULL {
      return;
    }
    assert On(before, oldHandle) == base;
    if index == 0 {
      ExtendedNone(base, done);
      PutOn(before, h);
    } else {
      PutTwice(before, h, Extended(base, done), base);
      ExtendedKeys(base, done, done[0].protocol);
    }
    var p := entries[index].protocol;
    ExtendedKeys(base, done, p);
    assert p in base || exists k :: 0 <= k < index && entries[k].protocol == p by {
      assert p in Extended(base, done);
      if p !in base {
        var k :| 0 <= k < |done| && done[k].protocol == p;
        assert entries[k].protocol == p;
      }
    }
  }

  lemma AllInstallable(before: Database, oldHandle: Handle, h: Handle, entries: seq<Entry>)
    requires Sound(before) && Addable(On(before, h), entries)
    requires entries != [] ==> if oldHandle == NULL then h !in before else h == oldHandle && h in before
    ensures Installable(before, oldHandle, entries)
  {
  }

  /** What a successful call adds; h is the handle before the call, h' behind it. */
  lemma Installed(before: Database, was: Database, h: Handle, h': Handle, entries: seq<Entry>, index: nat)
    requires Sound(before) && index < |entries| && h' != NULL
    requires was == Put(before, h, Extended(On(before, h), entries[..index])) && Addable(On(before, h), entries[..index])
    requires if h == NULL then index == 0 && h' !in was else h == h'
    requires entries[index].protocol !in On(was, h')
    ensures Addable(On(before, h'), entries[..index + 1])
    ensures h == NULL ==> h' !in before
    ensures Put(was, h', On(was, h')[entries[index].protocol := entries[index].interface])
         == Put(before, h', Extended(On(before, h'), entries[..index + 1]))
  {
    hide Extended, Addable;
    var done, e := entries[..index], entries[index];
    assert entries[..index + 1] == done + [e];
    if h == NULL {
      ExtendedNone(On(before, h), done);
      ExtendedNone(On(before, h'), done);
      PutOn(before, h);
      ExtendedMore(On(before, h'), done, e);
      AddableMore(On(before, h'), done, e);
    } else {
      PutTwice(before, h, Extended(On(before, h), done), Extended(On(before, h), done + [e]));
      ExtendedMore(On(before, h), done, e);
      AddableMore(On(before, h), done, e);
    }
  }
}
